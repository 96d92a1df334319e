# Verified models of the proxy kernel's data structures, graph checks and codecs

This project models the self-contained algorithms of the proxy kernel in Dafny and proves what
they are for. The models take the form of the code: node classes, caches, pools, packet
connections and digests are classes with the same fields and in-place updates, loops are loops
with invariants, and each method is proved against a specification whose own properties are
lemmas. `dafny verify dfyconfig.toml` checks everything.

* **Domain matching** (`Text`, `Bitmaps`, `DomainPatterns`, `PathTrees`, `DomainTrie`). A label
  trie whose nodes switch between an inline child and a map; a ghost map from paths to nodes is
  its abstract view.
* **The succinct set** (`DomainSet`, `DomainSetWalk`, `DomainSetKeys`, `DomainSetRefinement`,
  `DomainSetStars`, `DomainSetAgreement`, `DomainSetStray`, `DomainSetWitnesses`). Built from the
  trie breadth first, it is proved to encode the prefix tree of its keys, and its rank/select walk
  to give exactly the answer defined on that tree. The build goes through if and only if no two
  stored paths share a key, and which paths do is stated exactly. For patterns with `*` labels set
  and trie agree (`StarsAgree`) unless one of three things happens, each of which is shown to
  happen: the scan of a node stops at the query byte before it reaches a larger `+` or `*`; the
  query ends inside a longer pattern, and the pending `*` is not tried; or the search for a dot
  behind a `*` leaves its node. Without `*` labels only the first can happen, and
  `AgreementCondition` gives the exact condition on the query, which all names made of letters,
  digits, `-` and `_` meet. What is found and what is missed is also proved of methods that start
  from the inserts. `DomainLaws` says which names are accepted and that case does not matter.
* **LRU cache** (`LruSpec`, `LruCache`, `LruRuns`, `LruLaws`, `LruSurvival`). Map and list of shared entries
  refine a recency-ordered sequence. The size bound holds over every run, but a clone may break
  it, with the exact condition; what an ageing cache returns is tied to when it was stored; which
  keys survive a run is characterised exactly.
* **Fake addresses** (`Addresses`, `FakeIpSpec`, `FakeIpPool`, `FakeIpRuns`). The two caches of a
  memory store are two views of one list of pairs, which makes them exact inverses that evict in
  lockstep, over every run and through clones. Prefix arithmetic is exact for IPv4 and longer IPv6
  prefixes; for the short IPv6 prefixes that the code takes for IPv4 lengths the exact outcome is
  stated.
* **Graph checks** (`Graphs`, `ProxyGroups`, `ProxyGroupLoops`, `SubRules`). Topological sort
  with in-place reordering, the loop report, and the circular-reference check.
* **CIDR trie** (`CidrSpec`, `CidrTrie`). Lookup equals coverage by the marks of the added
  networks, and coverage equals the union of ranges without an exactly stated rest.
* **ClientHello sniffing** (`Bytes`, `TlsSniffer`), against an encoder for section 7.4.1.2 of
  RFC 5246 and section 3 of RFC 6066. The reader does not look at the handshake type and length,
  version and random, so the encoder leaves these 38 bytes arbitrary.
* **Hashing and masking** (`Murmur3`, `WebSocketMask`): streaming against one shot, unrolled
  words against single octets (section 5.3 of RFC 6455).
* **Datagrams over a stream** (`VlessPackets`): in order for all payloads and reads if and only if
  headers arrive whole. **Jump hashing** (`JumpHash`) under every rounding with the properties of
  the machine's. The **racing dialer** (`RacingDialer`) as a step system over all interleavings.

Numbers are unbounded unless said otherwise; murmur3 and masking use machine words, byte
sequences are sequences of values below 256 or of 8-bit words. Iteration over a Go map is any
order. Clocks, random draws, network deliveries, decoder results and hash inputs are parameters.

## Model

| member | source | states |
|---|---|---|
| Bitmaps.SetBit | clash-meta/component/trie/domain_set.go:138-143 | Grows the bitmap to the word of the position and ors the bit in; every other position reads as before. |
| Bitmaps.SelectIsInverseOfRank | clash-meta/component/trie/domain_set.go:154-174 | `SelectIthOne(n)` is the only set bit with exactly `n` set bits before it, `CountZeros` being the clear bits before a position. |
| DomainSets.ExpandNode | clash-meta/component/trie/domain_set.go:45-67 | One node of the build: its keys fall into one child per distinct next byte, in order, each with its edge byte; exactly one set bit closes the block. |
| DomainSets.VisitNode | clash-meta/component/trie/domain_set.go:43-66 | One round of the build, over any sorted list: it reads past the end of a key exactly if the entry has a second key that ends there, and never without a key that occurs twice; else ranges are exactly the keys extending a path, the queue is breadth first, bits and leaf bits of all visited nodes are final. |
| DomainSets.NewDomainSet | clash-meta/component/trie/domain_set.go:39-69 | For every non-empty sorted list: the build terminates, and goes through without a read past the end of a key if and only if no key occurs twice; the three arrays then encode the prefix tree of the keys: node ids in breadth-first order, one block of bits per node, edge bytes, and a leaf bit exactly at the keys. |
| DomainSets.BuiltReaches | clash-meta/component/trie/domain_set.go:43-67 | The worked-off queue has an entry for every prefix of every key. |
| DomainSets.BuiltIsDistinct | clash-meta/component/trie/domain_set.go:43-67 | A queue that could be worked off shows that no key of the list occurs twice. |
| DomainSets.BuildNeedsDistinctKeys | clash-meta/component/trie/domain_set.go:43-57 | At every stage of the build of a sorted list: without a doubled key no entry of its queue is read past the end of a key; and once the queue is worked off, no key is doubled. |
| DomainSets.LastNodeIsLeaf | clash-meta/component/trie/domain_set.go:44-51 | The last node of the breadth-first queue is always a leaf, which is what makes the leaf bitmap long enough. |
| DomainSets.EveryPrefixIsANode | clash-meta/component/trie/domain_set.go:43-67 | Every prefix of every key has a node. |
| DomainSets.OnesBefore | clash-meta/component/trie/domain_set.go:154-163 | Before any bit of node n's block there are exactly n set bits. |
| DomainSets.EdgeLeadsToChild | clash-meta/component/trie/domain_set.go:130-132 | The clear bit at position b leads to node `CountZeros(b + 1)`, whose path is the parent's path and the byte `labels[b - nodeId]`. |
| DomainSets.SelectFindsBlock | clash-meta/component/trie/domain_set.go:130-132 | The edges of node n >= 1 start at `SelectIthOne(n - 1) + 1`. |
| DomainSets.EdgeIffExtension | clash-meta/component/trie/domain_set.go:43-67 | A node has an edge for a byte exactly when some key goes on with that byte. |
| DomainSets.LeafReadInRange | clash-meta/component/trie/domain_set.go:134-147 | Every read of the leaf bitmap for a node is in range and says whether the node's path is a key. |
| DomainSets.EncodingIsNavigable | clash-meta/component/trie/domain_set.go:130-174 | All of the navigation facts together, for every node and edge of a built set. |
| DomainSets.EdgesAscend | clash-meta/component/trie/domain_set.go:45-62 | The edges of a node come in strictly ascending byte order. |
| DomainSetWalks.ScanFrom | clash-meta/component/trie/domain_set.go:92-129 | By induction over the bits of a node: scanning from any bit gives the answer defined on the prefix tree, `+` first, then the query byte, a passed `*` kept for later. |
| DomainSetWalks.BackToWildcard | clash-meta/component/trie/domain_set.go:95-117 | Going back to a pending `*`: it takes the label at its query position; at the end of the query its leaf bit answers, else the search for a dot label, which is not confined to the node, says where the walk goes on: behind an edge of whatever node the label belongs to, back to the pending edges, or to no. |
| DomainSetWalks.TryPending | clash-meta/component/trie/domain_set.go:94-117 | At the end of a node the latest pending `*` decides, or the answer is no; the remaining work shrinks. |
| DomainSetWalks.ScanNode | clash-meta/component/trie/domain_set.go:88-131 | The scan of a node with its restarts, for every set: no read out of range, termination by a weight in which later bits count less and pending edges less than the bits after them. |
| DomainSetWalks.Walk | clash-meta/component/trie/domain_set.go:78-136 | The rank/select walk with its stack of `*` edges terminates on every set and query, reads only in range, and gives exactly the answer defined on the prefix tree and its level order, walks that leave the node they came back to included. |
| DomainSetWalks.Has | clash-meta/component/trie/domain_set.go:72-136 | The same for the reversed, lower-cased key; a nil set answers no. |
| DomainSetWalks.EncodingAnswersLikeKeys | clash-meta/component/trie/domain_set.go:86-136 | As long as the search for a dot stays in its node, the answer depends on the keys alone. |
| DomainSetWalks.BitsGoAlongOwnDot | clash-meta/component/trie/domain_set.go:107-113 | If a node has a dot edge, the search for a dot from it goes along that edge. |
| DomainSetWalks.WithoutStars | clash-meta/component/trie/domain_set.go:86-136 | Where no cut of the query has a `*` edge: true exactly when the reversed query is a key, or one of its cuts has a `+` edge that no smaller matching edge hides; such walks never go astray. |
| DomainSetWalks.StarsOnlyAdd | clash-meta/component/trie/domain_set.go:86-136 | Whatever is found without `*` edges is found with them. |
| DomainSetWalks.UsedUpInLongerKey | clash-meta/component/trie/domain_set.go:89-136 | A query that ends inside a longer key is answered without its pending `*` edges. |
| DomainSetWalks.NeverAstray | clash-meta/component/trie/domain_set.go:107-113 | Only a `*` that ends its keys can lead a walk astray. |
| DomainSetWalks.OneAnswer | clash-meta/component/trie/domain_set.go:72-136 | A set gives a query one answer: node paths and block starts of an encoding are determined by it. |
| DomainPatterns.JoinSplit | clash-meta/component/trie/domain.go:24-45 | Splitting at dots and joining again gives the name back. |
| Text.LowerCharIs | clash-meta/component/trie/domain.go:28 | Lower-casing turns each of the 26 letters, written out, into its small one, and keeps every other byte. |
| Text.LowerFolds | clash-meta/component/trie/domain.go:28 | Two names have the same lower-case form if and only if they differ in nothing but the case of letters. |
| DomainLaws.AcceptedNames | clash-meta/component/trie/domain.go:24-45 | A name is accepted unless it is empty, ends in a dot or has two dots in a row, and its labels are the dot-free strings that dots join to the name in lower case; it can be asked for unless it starts with a dot. |
| DomainLaws.FoldedAlike | clash-meta/component/trie/domain.go:24-45 | Names that differ only in the case of letters split, and are asked for, alike. |
| DomainLaws.RunIgnoresCase | clash-meta/component/trie/domain.go:54-80 | Whatever the case of the inserted names, the trie is the same. |
| DomainLaws.SearchEither | clash-meta/component/trie/domain.go:82-120 | Two searches for names that differ only in case give the same node. |
| DomainLaws.HasEither | clash-meta/component/trie/domain_set.go:72-136 | Two questions to a set for names that differ only in case give the same answer. |
| DomainLaws.InsertThenSearch | clash-meta/component/trie/domain.go:54-120 | An accepted name that starts with neither a dot nor a `+` is found with the data just inserted, in whatever case it is inserted and asked for. |
| DomainLaws.LookupEither | clash-meta/component/fakeip/pool.go:44-57 | Two lookups of hosts that differ only in case give one address and allocate at most one. |
| DomainPatterns.SplitJoin | clash-meta/component/trie/domain.go:135-151 | Joining labels without dots and splitting again gives the labels back. |
| DomainPatterns.ComplexWildcardMeaning | clash-meta/component/trie/domain.go:47-69 | The two patterns that `+.x` is stored as match exactly the queries that end in x's labels; the leading-dot one needs at least one label more. |
| DomainPatterns.BestIsBestMatch | clash-meta/component/trie/domain.go:82-120 | The search order finds the best match: a stored path that matches and outranks every other match where they first differ (static before `*` before leading dot, right to left), and nothing exactly when nothing matches. |
| DomainTries.Node.GetChild | clash-meta/component/trie/node.go:14-22 | The child of that name in the abstract child map, whichever representation holds it. |
| DomainTries.Node.AddChild | clash-meta/component/trie/node.go:28-44 | Adds or replaces exactly one entry of the abstract child map, through the switch from the inline slot to a map. |
| DomainTries.Node.GetOrNewChild | clash-meta/component/trie/node.go:46-53 | Returns the existing child and changes nothing, or adds a fresh empty one. |
| DomainTries.Node.Optimize | clash-meta/component/trie/node.go:55-89 | Rewrites representations of a whole subtree without changing any abstract child map or any stored data; terminates. |
| DomainTries.DomainTrie.Insert | clash-meta/component/trie/domain.go:54-80 | Refuses exactly the invalid names; otherwise the stored patterns change at exactly the written paths, `+.x` writing `x` and `.x`. |
| DomainTries.DomainTrie.InsertParts | clash-meta/component/trie/domain.go:71-80 | Walks or creates the path right to left and stores at its end; nothing else stored changes. |
| DomainTries.DomainTrie.Optimize | clash-meta/component/trie/domain.go:122-124 | Keeps every stored pattern and its data. |
| DomainTries.DomainTrie.Search | clash-meta/component/trie/domain.go:82-120 | Returns the node, with its data, of the best stored match of the query, and nil exactly when the query is invalid or no stored pattern matches. |
| DomainTries.DomainTrie.SearchFrom | clash-meta/component/trie/domain.go:102-120 | The recursive search below a node: the best match of the remaining labels, from any node of the tree. |
| DomainTries.DomainTrie.Foreach | clash-meta/component/trie/domain.go:126-147 | Reports every stored pattern other than the root's own data once, by its display name, for any iteration order of the child maps. |
| DomainTries.RunHolds | clash-meta/component/trie/domain.go:54-80 | After any run of inserts and optimisations a path holds data exactly when some insert wrote it. |
| DomainTries.RunHoldsLast | clash-meta/component/trie/domain.go:54-80 | It then holds what the last such insert stored. |
| DomainTries.Replay | clash-meta/component/trie/domain.go:54-124 | Any interleaving of `Insert` and `Optimize` on a new trie ends with exactly the stored patterns that the run defines. |
| DomainTries.ReplayAndSearch | clash-meta/component/trie/domain.go:54-124 | After any such run `Search` gives the data last stored for the best matching pattern written, and nil exactly when the query is invalid or no pattern written matches. |
| DomainSetRefinement.InsertKeepsPlain | clash-meta/component/trie/domain.go:54-69 | Tries built from plain patterns (no `*` label; `+` or empty label only leftmost) hold only plain paths. |
| DomainSetRefinement.PlainKeysDistinct | clash-meta/component/trie/domain_set.go:28-33 | Different plain paths have different set keys, so the sorted key list has no duplicates. |
| DomainSetRefinement.QueryIsText | clash-meta/component/trie/domain_set.go:76-77 | The reversed, lower-cased query is the joined, reversed labels of the trie's query path. |
| DomainSetRefinement.SetRefinesTrie | clash-meta/component/trie/domain_set.go:27-136 | For every plain trie and host query whose labels end high, the set's answer is the trie's. |
| DomainSetRefinement.LowByteDisagrees | clash-meta/component/trie/domain_set.go:92-129 | For every query with a non-rightmost label ending in a byte below `+` there is a plain set of patterns on which set and trie disagree. |
| DomainSetRefinement.LowByteSkips | clash-meta/component/trie/domain_set.go:92-129 | It consists of two patterns, and every key list of the two misses the query that the trie matches. |
| DomainSetRefinement.AgreementCondition | clash-meta/component/trie/domain_set.go:92-129 | Set and trie agree on a query for all plain tries if and only if every non-rightmost label ends in a byte not below `+`. |
| DomainSetKeys.InsertKeepsStored | clash-meta/component/trie/domain.go:29-69 | Every insert keeps stored paths dot-free, with an empty label only leftmost. |
| DomainSetKeys.RunIsStored | clash-meta/component/trie/domain.go:29-80 | So does every run of inserts and optimisations. |
| DomainSetKeys.SameKey | clash-meta/component/trie/domain_set.go:28-33 | Two stored paths have the same key if and only if they are equal or twins: the leading dot and the literal label `+` below the same labels. |
| DomainSetKeys.TwinsExample | clash-meta/component/trie/domain.go:47-80 | Inserting `+.+.x` and then `.x` leaves a trie with such twins: `["x", "+"]` and `["x", ""]` are stored and have one key. |
| DomainSetKeys.DuplicateReadsPastKey | clash-meta/component/trie/domain_set.go:45-57 | If a sorted list holds a key twice, the range of that key's node is one whose grouping reads past its end. |
| DomainSetKeys.NamesDistinct | clash-meta/component/trie/domain_set.go:28-33 | The reversed names of the stored patterns are distinct if and only if no twins are stored. |
| DomainSetKeys.NewDomainSet | clash-meta/component/trie/domain_set.go:27-69 | For every trie that inserts can build: collects, reverses and sorts the reported names and builds from them; the build reads past the end of a key if and only if twins are stored, else the set encodes the keys of exactly the stored patterns, nil exactly without patterns. |
| DomainSetRefinement.HasAgreesWithSearch | clash-meta/component/trie/domain_set.go:27-136 | End to end: for a plain trie, `NewDomainSet().Has(q)` is true exactly when `Search(q)` is non-nil. |
| DomainSetRefinement.HasAndSearch | clash-meta/component/trie/domain_set.go:27-136 | For any stored patterns without twins: the answer of `NewDomainSet().Has(q)` and whether `Search(q)` is non-nil, each by its specification. |
| DomainSetStars.FindCovers | clash-meta/component/trie/domain_set.go:86-136 | Wherever the walk stands, the labels it has passed cover those of the query it has read, a `*` one label. |
| DomainSetStars.SetFindsOnlyMatches | clash-meta/component/trie/domain_set.go:27-136 | With `*` labels, whatever a set finds without going astray, the trie matches. |
| DomainSetStars.SingleLabelStays | clash-meta/component/trie/domain_set.go:104-113 | A query of one label never goes astray. |
| DomainSetStars.StarAnswer | clash-meta/component/trie/domain_set.go:27-136 | For a query of one label, or patterns none of which has its leftmost label `*`, what a set finds the trie matches. |
| DomainSetStars.StarIsMissed | clash-meta/component/trie/domain_set.go:89-136 | For every host query, with a `*` for its leftmost label and a longer label beside it, the trie matches and the set says no: the walk is used up inside the longer label. |
| DomainSetStars.NeverAgreesOnStars | clash-meta/component/trie/domain_set.go:86-136 | So on tries with `*` there is no query on which set and trie always agree. |
| DomainSetStars.HasOnlyWithSearch | clash-meta/component/trie/domain_set.go:27-136 | End to end, for a trie with `*` labels anywhere: if the query has one label or no pattern starts with a `*`, `NewDomainSet().Has(q)` is true only when `Search(q)` is non-nil. |
| DomainSetAgreement.FindFindsAll | clash-meta/component/trie/domain_set.go:86-136 | Wherever the walk stands on keys that do not stand in its way: it answers yes, or comes back and no key that covers the rest of the query goes on from there. |
| DomainSetAgreement.ClearKeys | clash-meta/component/trie/domain_set.go:28-33 | The three obstacles, said of patterns: a wildcard hidden beside a label ending in the query label's last byte, one below `+`; a query cut inside a pattern that goes on; a pattern ending in `*` outrun by the query. |
| DomainSetAgreement.StarsAgree | clash-meta/component/trie/domain_set.go:27-136 | For all patterns with `*` labels anywhere and all host queries: unless one of the three holds, the set finds the query if and only if some pattern matches it. |
| DomainSetAgreement.HasAgreesOnStars | clash-meta/component/trie/domain_set.go:27-136 | End to end: then `NewDomainSet().Has(q)` is true exactly when `Search(q)` is non-nil. |
| DomainSetStray.JumpsIntoKey | clash-meta/component/trie/domain_set.go:107-113 | A walk astray: with a lone `*` in the set, the search for a dot from its node ends on a dot label of another key and re-enters a third. |
| DomainSetStray.StrayWalk | clash-meta/component/trie/domain_set.go:86-136 | From there on the set says yes to `u.w` for every `u` that starts like none of the keys, as long as one of the keys ends in `w` after two other bytes. |
| DomainSetWitnesses.PatternSplits | clash-meta/component/trie/domain.go:24-45 | The name of a path of lower-case labels is accepted and splits into those labels again. |
| DomainSetWitnesses.InsertsStore | clash-meta/component/trie/domain.go:54-80 | Inserting the names of such paths stores exactly the paths. |
| DomainSetWitnesses.FoundByStars | clash-meta/component/trie/domain_set.go:27-136 | As a method, for every host name and every choice of its labels, the leftmost included: the name with these replaced by `*` is inserted, and `Has` and `Search` both find the name. |
| DomainSetWitnesses.PlusIsSkipped | clash-meta/component/trie/domain_set.go:92-129 | For every host query with a low-ending label: any set built from the two patterns of `LowByteSkips` says no, and the trie matches. |
| DomainSetWitnesses.SkippedPlus | clash-meta/component/trie/domain_set.go:27-136 | As a method: for every such name the two patterns are inserted into a new trie, and `Has` denies what `Search` finds. |
| DomainSetWitnesses.MissedStar | clash-meta/component/trie/domain_set.go:27-136 | As a method, for every host name: after inserting a `*` for its leftmost label and a longer label beside it, `Has` denies what `Search` finds. |
| DomainSetWitnesses.StrayAnswer | clash-meta/component/trie/domain_set.go:86-136 | For every host query of two labels or more: any set built from three patterns, of which the first is `*` alone, says yes, and none of the three matches. |
| DomainSetWitnesses.StrayFind | clash-meta/component/trie/domain_set.go:27-136 | As a method: for every such name the three patterns are inserted, and `Has` finds what `Search` denies. |
| DomainSetWitnesses.FindsOnlyMatches | clash-meta/component/trie/domain_set.go:27-136 | Sets built from patterns with `*` labels find a query only if some pattern matches, whatever the patterns, if and only if the query has one label. |
| LruSpec.SetKeepsBound | clash-meta/common/cache/lrucache.go:127-148 | Setting keeps keys distinct and a bounded cache within its size. |
| LruSpec.GetKeepsBound | clash-meta/common/cache/lrucache.go:167-189 | Getting keeps keys distinct and never grows the cache. |
| LruCaches.LruCache.SetWithExpire | clash-meta/common/cache/lrucache.go:127-148 | The list of shared entries and the key map become exactly the recency list of the specification: moved to the back or appended, the front evicted on overflow, expired fronts dropped. |
| LruCaches.LruCache.Set | clash-meta/common/cache/lrucache.go:117-123 | As above with the configured age. |
| LruCaches.LruCache.Get | clash-meta/common/cache/lrucache.go:84-92 | A hit moves the entry to the back and refreshes its age if configured; an expired entry is removed and not returned; result and new state both given. |
| LruCaches.LruCache.Exist | clash-meta/common/cache/lrucache.go:108-114 | True exactly for stored keys; changes nothing. |
| LruCaches.LruCache.Delete | clash-meta/common/cache/lrucache.go:192-200 | Removes exactly that key. |
| LruCaches.LruCache.MaybeDeleteOldest | clash-meta/common/cache/lrucache.go:202-209 | Drops expired entries from the front up to the first live one. |
| LruCaches.LruCache.DeleteElement | clash-meta/common/cache/lrucache.go:211-218 | Removes exactly that entry from list and map. |
| LruCaches.LruCache.CloneTo | clash-meta/common/cache/lrucache.go:151-165 | The target holds the same entries under the same keys in the same order. |
| LruRuns.RunKeepsBound | clash-meta/common/cache/lrucache.go:117-218 | Over every run of `Set`, `SetWithExpire`, `Get` and `Delete` with any clock readings and any configuration: distinct keys, and within the bound if it started there. |
| LruRuns.OverfullRun | clash-meta/common/cache/lrucache.go:139-143 | A cache above its bound stays above it, as long as nothing ages or is deleted. |
| LruRuns.CloneBound | clash-meta/common/cache/lrucache.go:151-165 | A clone target is within its bound after any such run if and only if the source had no more entries than the target may hold. |
| LruRuns.CloneOverfills | clash-meta/common/cache/lrucache.go:151-165 | Two entries cloned into a cache for one: the clone holds two, also after another key is set. |
| LruRuns.RunHoldsLast | clash-meta/common/cache/lrucache.go:117-200 | A present item holds the value of the last write of its key and expires at the deadline of its last refresh. |
| LruRuns.DeadlineIsLastRefresh | clash-meta/common/cache/lrucache.go:117-148 | That deadline is the one of a definite call: the last write of the key, or the last hit if hits refresh. |
| LruRuns.GetIsFresh | clash-meta/common/cache/lrucache.go:167-189 | An ageing cache without stale returns gives at `now` only a value last set, or hit if hits refresh, at some `t` with `now < t + maxAge`, or written with an explicit expiry after `now`. |
| LruRuns.GetHitsExactlyWhileFresh | clash-meta/common/cache/lrucache.go:84-189 | In an ageing cache without a size, under a clock that never goes back, `Get` finds a key if and only if the call that last refreshed it is less than `maxAge` ago, or gave it an explicit expiry that lies ahead. |
| LruRuns.Perform | clash-meta/common/cache/lrucache.go:84-200 | Each call on the class is the step of the run, with its result. |
| LruRuns.Replay | clash-meta/common/cache/lrucache.go:84-200 | The calls of a run on a new cache leave exactly the items that the run defines. |
| LruLaws.GetAfterSet | clash-meta/common/cache/lrucache.go:117-189 | For every size, contents and clock: what was set at `t` is found at `now` if and only if the cache has no age or returns stale values or `now < t + maxAge`. |
| LruLaws.GetAfterSetWithExpire | clash-meta/common/cache/lrucache.go:127-189 | The same with an explicit expiry. |
| LruLaws.GetAfterGet | clash-meta/common/cache/lrucache.go:167-189 | After a hit at `t` an ageing cache finds the key again if and only if `now < t + maxAge`, where hits refresh, and else until the old expiry. |
| LruLaws.GetAfterDelete | clash-meta/common/cache/lrucache.go:192-200 | A deleted key is not found. |
| LruLaws.SetThenGet | clash-meta/common/cache/lrucache.go:84-189 | The first law on the class. |
| LruLaws.DropsExpiredFront | clash-meta/common/cache/lrucache.go:202-209 | Ageing drops exactly the items in front of the first one that has not expired. |
| LruLaws.FrontIsFresh | clash-meta/common/cache/lrucache.go:127-148 | After a write the least recently used item of an ageing cache has not expired. |
| LruLaws.ExistsExactlyWhileFresh | clash-meta/common/cache/lrucache.go:108-209 | In an ageing cache without a size in which every hit and write starts the age anew, the keys left after a write are exactly those that have not expired. |
| LruSurvival.RunIsRecent | clash-meta/common/cache/lrucache.go:117-189 | In a bounded cache that drops nothing for its age (none configured, or stale returns allowed), after any run without deletions the keys are the last `maxSize` distinct touched keys, ordered by last touch. |
| LruSurvival.Survival | clash-meta/common/cache/lrucache.go:117-189 | A key is present exactly when it was touched and since then fewer than `maxSize` distinct other keys were set or hit. |
| Addresses.WordsSetLow | clash-meta/common/nnip/netip.go:42-43 | Or-ing the two 64-bit words sets exactly the low `128 - bits` bits of the address. |
| Addresses.LastValueIsLast | clash-meta/common/nnip/netip.go:25-53 | The number with all host bits set is in the prefix and nothing in the prefix is above it. |
| Addresses.UnMaskedIsLast | clash-meta/common/nnip/netip.go:27-53 | `UnMasked` is the last address of every IPv4 prefix and of every IPv6 prefix longer than 32 bits. |
| Addresses.UnMaskedShortV6 | clash-meta/common/nnip/netip.go:37-40 | For IPv6 prefixes of at most 32 bits: what it returns instead, and exactly when that is the last address all the same. |
| Addresses.UnMaskedAtMostLast | clash-meta/common/nnip/netip.go:25-53 | For every prefix `UnMasked` is never above the last address. |
| Addresses.ShortV6Example | clash-meta/common/nnip/netip.go:37-40 | ::/32 is a prefix for which it is not. |
| Addresses.FullLength | clash-meta/common/nnip/netip.go:27-53 | A prefix of full length is its one address, for each of the 2^32 and 2^128 addresses. |
| FakeIpSpec.HitsInLockstep | clash-meta/component/fakeip/memory.go:15-39 | A hit through either cache moves the same pair to the back of both. |
| FakeIpSpec.DeletesInLockstep | clash-meta/component/fakeip/memory.go:47-52 | Deleting by address removes the same pair from both caches. |
| FakeIpSpec.EvictsInLockstep | clash-meta/component/fakeip/memory.go:26-44 | Storing a new pair evicts the same pair from both caches and leaves them inverse. |
| FakeIpPools.MemoryStore.GetByHost | clash-meta/component/fakeip/memory.go:15-23 | Returns the address paired with the host; both caches keep showing the same pairs in the same recency order. |
| FakeIpPools.MemoryStore.GetByIP | clash-meta/component/fakeip/memory.go:31-39 | The same from the address side. |
| FakeIpPools.MemoryStore.DelByIP | clash-meta/component/fakeip/memory.go:47-52 | Removes exactly the pair of that address from both caches. |
| FakeIpPools.MemoryStore.PutByIP | clash-meta/component/fakeip/memory.go:42-44 | Stores the address side of a new pair; the evicted pair is the one the host side will evict. |
| FakeIpPools.MemoryStore.PutByHost | clash-meta/component/fakeip/memory.go:26-28 | Completes the pair: the caches are inverse and in lockstep again. |
| FakeIpPools.MemoryStore.Exist | clash-meta/component/fakeip/memory.go:55-57 | True exactly for addresses in use. |
| FakeIpPools.MemoryStore.CloneTo | clash-meta/component/fakeip/memory.go:61-66 | Both stores then show the same pairs through the same entries. |
| FakeIpPools.Pool.Lookup | clash-meta/component/fakeip/pool.go:44-57 | The live address of a known host, which becomes most recent, or for a new host the next fresh address, stored as the most recent pair; inverse and lockstep are kept. |
| FakeIpPools.Pool.Get | clash-meta/component/fakeip/pool.go:103-117 | The n-th fresh address is first + n mod (last - first); a pair still holding it is dropped first. |
| FakeIpPools.Pool.AdvanceCursor | clash-meta/component/fakeip/pool.go:104-109 | One cyclic step of the cursor with its wrap-around and cycle flag. |
| FakeIpPools.Pool.LookBack | clash-meta/component/fakeip/pool.go:60-65 | The host paired with an address, if any. |
| FakeIpPools.Pool.Exist | clash-meta/component/fakeip/pool.go:76-81 | True exactly for addresses in use. |
| FakeIpPools.Pool.CloneFrom | clash-meta/component/fakeip/pool.go:99-101 | Takes over the other pool's pairs and keeps the invariant of both. |
| FakeIpPools.Pool.LookupLooksBack | clash-meta/component/fakeip/pool.go:44-65 | What `Lookup` hands out looks back to that host in lower case. |
| FakeIpPools.New | clash-meta/component/fakeip/pool.go:169-201 | Gateway is the network address plus one, first address plus four, last the upper end; refused if and only if the prefix is invalid or no address lies between. |
| FakeIpPools.FirstLookups | clash-meta/component/fakeip/pool.go:44-117 | A new pool gives its first host the first address and the next one the address after it. |
| FakeIpPools.DefaultRange | clash-meta/component/fakeip/pool.go:169-201 | 198.18.0.1/16 has gateway 198.18.0.1, first address 198.18.0.4 and last 198.18.255.255. |
| FakeIpPools.FreshAddress | clash-meta/component/fakeip/pool.go:103-117 | Every fresh address lies in [first, last). |
| FakeIpPools.FreshAddressIsUsable | clash-meta/component/fakeip/pool.go:103-189 | Over every prefix that `New` accepts, every fresh address lies in the prefix, above gateway and network, and below the upper end that `UnMasked` gives. |
| FakeIpSpec.CursorStep | clash-meta/component/fakeip/pool.go:104-109 | The wrapping increment is the closed form first + n mod (last - first), and the cycle flag is set exactly from the first wrap on. |
| FakeIpSpec.ReuseAfterFullCycle | clash-meta/component/fakeip/pool.go:103-117 | An address is allocated again only after a full cycle of fresh allocations. |
| FakeIpRuns.EveryRunIsOneToOne | clash-meta/component/fakeip/pool.go:44-117 | After any run of lookups, look-backs, existence checks and clones of other pools, hosts and addresses correspond one to one. |
| FakeIpRuns.EveryRunFits | clash-meta/component/fakeip/pool.go:44-117 | If the cloned pools are of the same size, at most `size` pairs live. |
| FakeIpRuns.EveryRunIsRecent | clash-meta/component/fakeip/pool.go:44-117 | Without clones every live address is one of the last cycle of fresh allocations. |
| FakeIpRuns.TakenAfterFullCycle | clash-meta/component/fakeip/pool.go:109-113 | The only pair whose address a fresh allocation takes away got it exactly one full cycle of fresh allocations earlier. |
| FakeIpRuns.Replay | clash-meta/component/fakeip/pool.go:44-117 | The calls of a run on a new pool, clones from pools with runs of their own included, leave exactly the pairs and the allocation count that the run defines. |
| FakeIpSpec.OutcomeIsMostRecent | clash-meta/component/fakeip/pool.go:44-57 | After a lookup the pair handed out is the most recently used one. |
| ProxyGroups.BuildGraph | clash-meta/config/utils.go:39-64 | Indegrees count references with multiplicity and each node carries its group, or the first undecodable or duplicate entry is reported, everything before it being decodable and new. |
| ProxyGroups.Relax | clash-meta/config/utils.go:86-96 | Lowers the indegree of each listed name by its multiplicity and queues exactly the nodes that reach zero. |
| ProxyGroups.SortStep | clash-meta/config/utils.go:75-99 | Taking out a node without incoming edges keeps: removed nodes form a topological order, placed groups come after all groups that reference them in the filling order. |
| ProxyGroupLoops.Rebuild | clash-meta/config/utils.go:103-121 | Outdegrees and reverse edges of the remaining graph, for any iteration order; no lookup hits a deleted node. |
| ProxyGroupLoops.Trim | clash-meta/config/utils.go:123-142 | Removes exactly, in order, nodes that reference nothing left; no lookup hits a deleted node. |
| ProxyGroupLoops.LeftoverComesFromCycle | clash-meta/config/utils.go:65-101 | What the sort leaves over is exactly what is reachable from a cycle. |
| ProxyGroupLoops.TrimmedReachesCycle | clash-meta/config/utils.go:123-142 | What trimming leaves over is exactly what also reaches a cycle. |
| ProxyGroupLoops.LocateLoop | clash-meta/config/utils.go:103-149 | The reported names are non-empty, distinct and exactly the nodes both reachable from and able to reach a cycle. |
| ProxyGroupLoops.AllPlaced | clash-meta/config/utils.go:65-101 | With nothing left over the array is a permutation of the input with every referenced group before its referrers. |
| ProxyGroupLoops.ProxyGroupsDagSort | clash-meta/config/utils.go:23-150 | Over uniquely named, decodable groups: success exactly on acyclic references, then sorted in place; otherwise the loop report. Other failures leave the array alone. |
| Graphs.OrderedIsCycleFree | clash-meta/config/utils.go:65-101 | Nothing in a topological order is reachable from a cycle. |
| Graphs.StuckMemberComesFromCycle | clash-meta/config/utils.go:103-105 | In a finite set in which every node has a predecessor, every node is reachable from a cycle. |
| Graphs.ToCycleIsFlippedFromCycle | clash-meta/config/utils.go:123-142 | Reaching a cycle is being reachable from one in the reversed graph. |
| SubRules.VerifyCircularReferences | clash-meta/config/config.go:742-769 | The recursion terminates, as the path holds distinct defined names; acceptance means every walk of references goes on through defined names without meeting the path, an error comes with its evidence. |
| SubRules.VerifySubRule | clash-meta/config/config.go:732-740 | Accepts exactly when every reference names a defined set and the reference graph is acyclic. |
| SubRules.EvidenceRefutes | clash-meta/config/config.go:742-769 | The reported error really is an undefined name or a cycle. |
| SubRules.CleanMeansAcyclic | clash-meta/config/config.go:732-740 | Acceptance from every set adds up to a defined, acyclic graph. |
| CidrSpec.CoveredByMark | clash-meta/component/trie/ipcidr_trie.go:92-119 | Some mark of the split network is a prefix of the address exactly when the network covers it. |
| CidrSpec.CoveredIsRange | clash-meta/component/trie/ipcidr_trie.go:92-209 | A masked network covers its range minus what is left out: outside the first group for length 0, and lower bytes other than zero for IPv6 lengths with L % 16 in 1..7. |
| CidrSpec.InNetByBytes | clash-meta/component/trie/ipcidr_trie.go:92-119 | An address shares the first `maskSize` bits with a network if and only if each of its bytes lies in the byte's range. |
| CidrSpec.NothingLeftOut | clash-meta/component/trie/ipcidr_trie.go:92-209 | A masked network covers its whole range if and only if its length is at least 1 and, for IPv6, L % 16 is 0 or at least 8. |
| IpCidrTries.IpCidrNode.AddChild | clash-meta/component/trie/ipcidr_node.go:25-32 | Adds exactly one fresh unmarked child, or refuses a value above the maximum. |
| IpCidrTries.SubIpCidr | clash-meta/component/trie/ipcidr_trie.go:92-119 | The list of split addresses and the rounded mask length. |
| IpCidrTries.GroupTrie.Add | clash-meta/component/trie/ipcidr_trie.go:129-209 | Adds one prefix: every added prefix keeps a marked node on its path and every marked node stands for an added prefix, through early return and child deletion. |
| IpCidrTries.GroupTrie.CleanChild | clash-meta/component/trie/ipcidr_trie.go:215-219 | The shrinking-bound deletion loop keeps that invariant and terminates. |
| IpCidrTries.GroupTrie.Search | clash-meta/component/trie/ipcidr_trie.go:221-240 | Finds a node exactly when some added prefix leads to the address. |
| IpCidrTries.IpCidrTrie.AddIpCidr | clash-meta/component/trie/ipcidr_trie.go:27-38 | Adds the network to the IPv4 family if its address has four bytes, or sixteen starting with ten zeros and two 255, and else to the IPv6 family; the other family is unchanged. |
| IpCidrTries.IpCidrTrie.IsContain | clash-meta/component/trie/ipcidr_trie.go:49-71 | An address of four bytes, or of sixteen starting with ten zeros and two 255, is asked of the IPv4 networks, any other one of sixteen bytes of the IPv6 networks: true exactly when some added network covers it; any other length is not contained. |
| IpCidrTries.IsContainEither | clash-meta/component/trie/ipcidr_trie.go:49-71 | An IPv4 address and its sixteen-byte form get the same answer: whether some added range contains it, without the left-out parts. |
| IpCidrTries.AddMappedThenAsk | clash-meta/component/trie/ipcidr_trie.go:27-71 | An IPv4 network added in the sixteen-byte form contains every address of its range, in both forms. |
| IpCidrTries.UnionOfRanges | clash-meta/component/trie/ipcidr_trie.go:49-71 | For any set of masked networks: accepted exactly the union of ranges minus the left-out parts; never an address outside every range, always one in a range of exact length. |
| PathTrees.DropChild | clash-meta/component/trie/ipcidr_trie.go:215-219 | Deleting a child deletes everything below it and keeps the tree well formed. |
| TlsSniffer.ReadExtensions | clash-meta/component/sniffer/tls_sniffer.go:100-149 | The loop over extensions is the recursive reading; all slicing is in range and it terminates. |
| TlsSniffer.ReadClientHello | clash-meta/component/sniffer/tls_sniffer.go:59-150 | The whole ClientHello reader, for every byte string, with its error results. |
| TlsSniffer.SniffTLS | clash-meta/component/sniffer/tls_sniffer.go:152-173 | Returns host h exactly when the bytes are some well-formed record with h as first host name, followed by anything. |
| TlsSniffer.RecordWithHost | clash-meta/component/sniffer/tls_sniffer.go:59-173 | Both directions: the parser undoes the encoder, and every accepted input is an encoding. |
| TlsSniffer.ParseEncodedHello | clash-meta/component/sniffer/tls_sniffer.go:59-150 | Parser undoes encoder, with arbitrary session id, suites, compression, earlier and later extensions and names. |
| TlsSniffer.SplitHello | clash-meta/component/sniffer/tls_sniffer.go:59-150 | Every ClientHello in which a host is found is an encoding with that host. |
| TlsSniffer.CutShort | clash-meta/component/sniffer/tls_sniffer.go:152-166 | Every proper prefix of a well-formed record gives "no clue" rather than a refusal. |
| TlsSniffer.PlainRecordGivesHost | clash-meta/component/sniffer/tls_sniffer.go:59-173 | A record written out byte by byte, 0x16 first and lengths high byte first, with any 38 bytes of head, gives its host unless that ends in a dot, byte 0x2E; with any other first byte or major version it is no TLS. |
| Murmur3.SplitAnywhere | clash-meta/common/murmur3/murmur.go:19-44 | Folding blocks may stop anywhere and go on with the left-over bytes in front. |
| Murmur3.Sum32WithSeed | clash-meta/common/murmur3/murmur32.go:101-144 | One shot: block fold, tail, finish. |
| Murmur3.Digest32.Write | clash-meta/common/murmur3/murmur.go:19-44 | The digest state stays the block fold of the whole blocks plus the remainder in `tail`, for every piece including empty ones. |
| Murmur3.Digest32.Bmix | clash-meta/common/murmur3/murmur32.go:50-67 | Digests all whole blocks and returns the rest. |
| Murmur3.Digest32.Reset | clash-meta/common/murmur3/murmur.go:46-50 | Back to the seed with nothing written. |
| Murmur3.Digest32.Sum32 | clash-meta/common/murmur3/murmur32.go:69-97 | The hash of everything written so far. |
| Murmur3.SumPieces | clash-meta/common/murmur3/murmur32.go:50-144 | For every seed and every split into pieces: streaming equals one shot. |
| Murmur3.SumPieces32 | clash-meta/common/murmur3/murmur32.go:50-144 | The same with murmur3's own constants and rounds. |
| Murmur3.LoadOctets | clash-meta/common/murmur3/murmur32.go:101-144 | A word holds its four bytes, the first one lowest. |
| Murmur3.TailIsWord | clash-meta/common/murmur3/murmur32.go:69-97 | Left-over bytes are read like a word that zeros fill up. |
| Murmur3.HashOfTest | clash-meta/common/murmur3/murmur32.go:101-144 | "test" with seed 0 has the hash 0xba6bd213. |
| Murmur3.HashOfHello | clash-meta/common/murmur3/murmur32.go:101-144 | "Hello, world!" with seed 1234, three blocks and a tail, has the hash 0xfaf6cdb3. |
| WebSocketMask.MaskInParts | clash-meta/common/net/websocket.go:15-16 | Masking composes over any split by threading the returned key. |
| WebSocketMask.RotatedTwice | clash-meta/common/net/websocket.go:124-130 | The threaded key is rotated by the sum of the lengths. |
| WebSocketMask.MaskTwice | clash-meta/common/net/websocket.go:11-13 | Masking twice with the same key is the identity (section 5.3 of RFC 6455). |
| WebSocketMask.XorOctets | clash-meta/common/net/websocket.go:118-122 | XOR on a little-endian 32-bit word is XOR on its octets. |
| WebSocketMask.XorHalves | clash-meta/common/net/websocket.go:24-33 | XOR of a 64-bit word with the doubled key is XOR on both halves. |
| WebSocketMask.RotateWord | clash-meta/common/net/websocket.go:127 | Rotating the word right by eight bits rotates its octets by one. |
| WebSocketMask.XorDoubleWords | clash-meta/common/net/websocket.go:23-115 | The unrolled loops of 128 down to 8 octets mask exactly the octets passed. |
| WebSocketMask.MaskWebSocket | clash-meta/common/net/websocket.go:22-131 | In place, for every length: octet i XOR key octet i mod 4; the returned key is the key rotated by the length mod 4 octets. |
| VlessPackets.ChunksAreSmall | clash-meta/adapter/outbound/vless.go:441-471 | Every payload is cut into frames of 1 to 8192 bytes that concatenate to it, all but the last full. |
| VlessPackets.WireBytes | clash-meta/adapter/outbound/vless.go:431-439 | A frame on the wire is its length, high byte first, and its bytes. |
| VlessPackets.PacketConn.WritePacket | clash-meta/adapter/outbound/vless.go:431-439 | One frame, or on a failing connection the part that fitted and its payload count. |
| VlessPackets.PacketConn.WriteTo | clash-meta/adapter/outbound/vless.go:441-471 | All frames, or exactly the bytes that fitted; the returned count is the number of payload bytes among them. |
| VlessPackets.PacketConn.ReadFrom | clash-meta/adapter/outbound/vless.go:473-513 | With headers delivered whole: the next payload bytes in order; `remain` stays the unread rest of the current frame; an error exactly at the end of the stream. |
| VlessPackets.PacketConn.ReadFrame | clash-meta/adapter/outbound/vless.go:492-512 | The raw reading of a frame for any delivery of the header, including stale header bytes. |
| VlessPackets.HeaderMustBeWhole | clash-meta/adapter/outbound/vless.go:492-512 | A frame is read as the next payload bytes, for every stream and buffer, if and only if both bytes of its header are delivered at once. |
| VlessPackets.SplitHeader | clash-meta/adapter/outbound/vless.go:492-512 | The frame of [1, 2, 3] with its header delivered in two pieces: the header's low byte is returned as payload. |
| VlessPackets.ReadAll | clash-meta/adapter/outbound/vless.go:473-513 | Any buffer sizes >= 2 and any partial reads yield the whole payload. |
| VlessPackets.Relay | clash-meta/adapter/outbound/vless.go:431-513 | Any sequence of payloads comes out byte for byte in order. |
| JumpHash.RoundedStepIsForward | clash-meta/adapter/outboundgroup/loadbalance.go:80 | Computed with any monotone rounding that keeps the integers up to 2^53, and 2^62: from every bucket below 2^31 the jump goes strictly above it and to at most 2^62. |
| JumpHash.RoundedIsForward | clash-meta/adapter/outboundgroup/loadbalance.go:80 | So for every such rounding the step is forward. |
| JumpHash.DrawsAreEven | clash-meta/adapter/outboundgroup/loadbalance.go:80 | Each divisor is drawn by exactly 2^33 keys in a row. |
| JumpHash.NextKeyIsInjective | clash-meta/adapter/outboundgroup/loadbalance.go:79 | The keys of a round are those of the round before in another order. |
| JumpHash.StepReaches | clash-meta/adapter/outboundgroup/loadbalance.go:80 | Without rounding, a draw leads from bucket b to n or beyond if and only if it is at most (b + 1) * 2^31 / n. |
| JumpHash.SomeBuckets | clash-meta/adapter/outboundgroup/loadbalance.go:74-84 | With roundings as accurate as IEEE doubles: key 4 goes to the second of two buckets, key 42 to bucket 43 of 57. |
| JumpHash.JumpHash | clash-meta/adapter/outboundgroup/loadbalance.go:74-84 | For every such rounding: terminates and returns a bucket in [0, n). |
| JumpHash.ConsistentBuckets | clash-meta/adapter/outboundgroup/loadbalance.go:74-84 | For every such rounding and bucket counts up to 2^31: from n to m buckets a key stays or moves to one of the new ones. |
| JumpHash.Consistent | clash-meta/adapter/outboundgroup/loadbalance.go:74-84 | From n to any m >= n buckets a key moves exactly if it lands in a new bucket; from n to n + 1 only to bucket n. |
| JumpHash.JumpFurther | clash-meta/adapter/outboundgroup/loadbalance.go:74-84 | The same from any point of the walk. |
| JumpHash.ConsistentHashing | clash-meta/adapter/outboundgroup/loadbalance.go:161-183 | Returns a live proxy whenever there is one, the first of five hashes that hits one if any does, else proxies[0]. |
| JumpHash.OneMoreProxy | clash-meta/adapter/outboundgroup/loadbalance.go:161-173 | Appending a proxy leaves a key's first choice or moves it to the new proxy. |
| RacingDialer.StepKeepsInv | clash-meta/component/dialer/dialer.go:213-250 | Every step of racers and receiver keeps the invariant: errors collected once each, closes counted, at most the returned connection delivered. |
| RacingDialer.RunKeepsInv | clash-meta/component/dialer/dialer.go:213-250 | So does every run. |
| RacingDialer.RunsEnd | clash-meta/component/dialer/dialer.go:213-250 | No run is longer than the work it starts with. |
| RacingDialer.NeverStuck | clash-meta/component/dialer/dialer.go:222-249 | Unless everything is over, some step can be taken: neither receiver nor racer is blocked for good. |
| RacingDialer.EveryRun | clash-meta/component/dialer/dialer.go:213-250 | Every run of n racers that can go no further: the function has returned, no racer is blocked, a connection was returned exactly when some dial finished with one, it is one of these, and every other opened connection was closed exactly once. |
| RacingDialer.AnyMoment | clash-meta/component/dialer/dialer.go:213-250 | At every moment: nothing closed twice, the returned connection was dialed and is not closed, failure only when no dial finished with a connection. |
| RacingDialer.OutcomeStays | clash-meta/component/dialer/dialer.go:240-241 | An outcome never changes. |

## Left out

- DomainSetStars.SetFindsOnlyMatches: patterns with a literal `+` inside, with a `*` inside a longer label, or without labels.
- Bitmaps.SetBit: 64-bit words are lists of 64 booleans, so or-ing and shifting are bit access; rank and select indexes are their counting definitions, not the tables of the bitmap package.
- DomainTries.DomainTrie.Foreach: the callback is a list of what it would be called with.
- DomainPatterns.SplitJoin: names are sequences of characters with ASCII case folding; reversal by runes and non-ASCII folding are not modelled.
- LruCaches.LruCache.Get: one clock reading per call, given as a parameter; 64-bit overflow of now plus age, locks, `GetWithExpire` and the eviction callback are not modelled.
- LruRuns.CloneBound: entries are shared by a cache and its clone, so a write through one changes values and ages in the other; runs are of one cache at a time.
- LruCaches.LruCache.Delete: `Clear`, which replaces the map but keeps the list, and with it every state after a `Clear`.
- FakeIpPools.Pool.Lookup: the mutex, skipped hosts, `FlushFakeIP`, the on-disk store and saving or restoring the cursor.
- FakeIpRuns.EveryRunIsRecent: runs with clones, which bring in addresses handed out by another pool's cursor.
- FakeIpRuns.EveryRunFits: clones from a larger pool, which overfill as `LruRuns.CloneBound` says.
- FakeIpPools.New: the pool starts from a fresh memory store; the choice of an on-disk store and restored state are not modelled.
- ProxyGroups.BuildGraph: graph nodes are values in a map instead of shared pointers, and decoding is a given result per entry.
- SubRules.VerifySubRule: of two kinds of errors the one found first depends on the map order; its evidence is proved, not its choice.
- IpCidrTries.IpCidrTrie.AddIpCidr: networks whose address is neither 4 nor 16 bytes, and IPv4-mapped networks given with a mask above 32; the original indexes past the address on both, unless for the latter an already marked prefix ends the walk first. Both families share one loop over groups here.
- IpCidrTries.IpCidrTrie.IsContain: parsing of textual networks and addresses.
- TlsSniffer.SniffTLS: names are byte strings; port filtering and the sniffer dispatch are not modelled.
- Murmur3.SumPieces: the mixing arithmetic is a parameter, as it does not matter for buffering, with the original's rounds as the instance in `SumPieces32`; words are loaded in little-endian order where the original reads them in the machine's own; the length is reduced modulo 2^32 from an unbounded count.
- WebSocketMask.XorDoubleWords: the sixteen unrolled statements of a 128-octet step are two halves of eight, and so on down to one 64-bit word.
- VlessPackets.PacketConn.ReadFrom: buffers shorter than two bytes, on which the original panics; locks and read errors other than the end of the stream.
- JumpHash.JumpHash: the particular rounding of the machine, and with it the particular buckets; every rounding that is monotone and keeps the integers up to 2^53, and 2^62, is covered, and bucket counts up to 2^31.
- JumpHash.ConsistentHashing: the key is a parameter instead of the hash of the destination, and liveness does not change during the call.
- RacingDialer.EveryRun: contexts and timeouts of the single dials; every dial finishes with a connection or an error.
- Round robin, sticky sessions, URL tests, `dualStackDialContext`, serial dialing, UDP NAT and DNS clients: driven by timing or by the outside.
- Listeners, REST routes, YAML decoding, process lookup, TLS transport, the updater and the rest of the repository: input and output or library calls.
