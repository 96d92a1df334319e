/** For every host name the patterns on which the set built from a trie and the search of the trie
    differ, as methods that start from the inserts. */
module DomainSetWitnesses {
  import opened DomainPatterns
  import opened DomainSetAgreement
  import opened DomainSetKeys
  import opened DomainSetRefinement
  import opened DomainSetStars
  import opened DomainSetStray
  import opened DomainSetWalks
  import opened DomainSets
  import opened DomainTries
  import opened Text
  import opened Wrappers

  // ---------------------------------------------------------------- inserting given paths

  /** The pattern that stores its data at the path `x`. */
  function PatternOf(x: Path): string {
    Join(ReverseLabels(x))
  }

  ghost predicate LowerLabel(l: string) {
    '.' !in l && '+' !in l && Lower(l) == l
  }

  /** Dot-free lower-case labels, of which only the leftmost of several may be empty. */
  ghost predicate Writable(x: Path) {
    && x != []
    && (forall i :: 0 <= i < |x| ==> LowerLabel(x[i]))
    && (forall i :: 0 <= i < |x| - 1 ==> x[i] != "")
    && (|x| > 1 || x[0] != "")
  }

  lemma {:induction false} LowerJoin(parts: seq<string>)
    requires forall i :: 0 <= i < |parts| ==> Lower(parts[i]) == parts[i]
    ensures Lower(Join(parts)) == Join(parts)
  {
    if |parts| > 1 {
      var rest := parts[1..];
      assert forall i :: 0 <= i < |rest| ==> rest[i] == parts[i + 1];
      LowerJoin(rest);
      LowerParts(parts[0], Join(rest));
    }
  }

  lemma LowerParts(l: string, s: string)
    requires Lower(l) == l && Lower(s) == s
    ensures Lower(l + "." + s) == l + "." + s
  {
    var t := l + "." + s;
    forall i | 0 <= i < |t| ensures LowerChar(t[i]) == t[i] {
      if i < |l| {
        assert t[i] == l[i] == Lower(l)[i];
      } else if i > |l| {
        assert t[i] == s[i - |l| - 1] == Lower(s)[i - |l| - 1];
      }
    }
  }

  lemma {:induction false} LastByte(parts: seq<string>)
    requires parts != [] && parts[|parts| - 1] != ""
    ensures Join(parts) != ""
    ensures Join(parts)[|Join(parts)| - 1] == parts[|parts| - 1][|parts[|parts| - 1]| - 1]
  {
    if |parts| > 1 {
      LastByte(parts[1..]);
    }
  }

  /** The trie takes the pattern and finds its labels again. */
  lemma PatternSplits(x: Path)
    requires Writable(x)
    ensures ValidAndSplitDomain(PatternOf(x)) == Some(ReverseLabels(x))
  {
    var parts := ReverseLabels(x);
    forall p | p in parts ensures '.' !in p {
      var i :| 0 <= i < |parts| && parts[i] == p;
      assert LowerLabel(x[|x| - 1 - i]);
    }
    forall i | 0 <= i < |parts| ensures Lower(parts[i]) == parts[i] {
      assert LowerLabel(x[|x| - 1 - i]);
    }
    SplitJoin(parts);
    LowerJoin(parts);
    LastByte(parts);
    assert LowerLabel(x[0]) && parts[|parts| - 1] == x[0];
    NoEmptyBehind(x);
  }

  lemma NoEmptyBehind(x: Path)
    requires x != [] && forall i :: 0 <= i < |x| - 1 ==> x[i] != ""
    ensures "" !in ReverseLabels(x)[1..]
  {
  }

  function Inserts<T>(paths: seq<Path>, data: T): (ops: seq<Op<T>>)
    ensures |ops| == |paths| && forall i :: 0 <= i < |ops| ==> ops[i] == InsertOp(PatternOf(paths[i]), data)
  {
    seq(|paths|, i requires 0 <= i < |paths| => InsertOp(PatternOf(paths[i]), data))
  }

  lemma InsertWrites<T>(x: Path, data: T, p: Path)
    requires Writable(x)
    ensures OpWrites(InsertOp(PatternOf(x), data), p) <==> p == x
  {
    PatternSplits(x);
    assert LowerLabel(x[|x| - 1]);
    assert ReverseLabels(x)[0] == x[|x| - 1] != COMPLEX_WILDCARD;
    ReverseTwice(x);
  }

  /** A run of these inserts stores exactly the paths. */
  lemma InsertsStore<T>(paths: seq<Path>, data: T, p: Path)
    requires forall i :: 0 <= i < |paths| ==> Writable(paths[i])
    ensures p in Run(Inserts(paths, data)) <==> exists i :: 0 <= i < |paths| && paths[i] == p
  {
    var ops := Inserts(paths, data);
    RunHolds(ops, p);
    forall i | 0 <= i < |paths| ensures OpWrites(ops[i], p) <==> paths[i] == p {
      InsertWrites(paths[i], data, p);
    }
  }

  lemma StoresTwo<T>(a: Path, b: Path, data: T)
    requires Writable(a) && Writable(b)
    ensures Run(Inserts([a, b], data)).Keys == {a, b}
  {
    forall p ensures p in Run(Inserts([a, b], data)) <==> p == a || p == b {
      InsertsStore([a, b], data, p);
    }
  }

  lemma StoresThree<T>(a: Path, b: Path, c: Path, data: T)
    requires Writable(a) && Writable(b) && Writable(c)
    ensures Run(Inserts([a, b, c], data)).Keys == {a, b, c}
  {
    forall p ensures p in Run(Inserts([a, b, c], data)) <==> p == a || p == b || p == c {
      var paths := [a, b, c];
      InsertsStore(paths, data, p);
      assert paths[0] == a && paths[1] == b && paths[2] == c;
    }
  }

  // ---------------------------------------------------------------- queries

  /** The labels of a host name, in lower case. */
  ghost predicate LowerHost(q: Path) {
    HostPath(q) && forall i :: 0 <= i < |q| ==> Lower(q[i]) == q[i]
  }

  ghost predicate IsHostName(domain: string) {
    QueryPath(domain).Some? && '+' !in domain && '*' !in domain
  }

  lemma QueryIsLower(domain: string)
    requires IsHostName(domain)
    ensures LowerHost(QueryPath(domain).value) && Lower(Reverse(domain)) == QueryText(QueryPath(domain).value)
  {
    QueryIsText(domain);
    QueryLabelsAreLower(domain);
  }

  lemma QueryLabelsAreLower(domain: string)
    requires QueryPath(domain).Some?
    ensures var q := QueryPath(domain).value; forall i :: 0 <= i < |q| ==> Lower(q[i]) == q[i]
  {
    var parts := Split(Lower(domain));
    ReversedLabelsAreLower(domain, parts);
  }

  lemma ReversedLabelsAreLower(domain: string, parts: seq<string>)
    requires parts == Split(Lower(domain))
    ensures forall i :: 0 <= i < |parts| ==> Lower(ReverseLabels(parts)[i]) == ReverseLabels(parts)[i]
  {
    forall i | 0 <= i < |parts| ensures Lower(ReverseLabels(parts)[i]) == ReverseLabels(parts)[i] {
      LabelIsLower(domain, |parts| - 1 - i);
    }
  }

  lemma LabelIsLower(domain: string, i: nat)
    requires i < |Split(Lower(domain))|
    ensures Lower(Split(Lower(domain))[i]) == Split(Lower(domain))[i]
  {
    var l := Split(Lower(domain))[i];
    forall k | 0 <= k < |l| ensures LowerChar(l[k]) == l[k] {
      if l[k] !in Lower(domain) {
        LabelBytes(Lower(domain), l, l[k]);
      }
      var m :| 0 <= m < |Lower(domain)| && Lower(domain)[m] == l[k];
      assert l[k] == LowerChar(domain[m]);
    }
  }

  lemma HostIsWritable(q: Path)
    requires LowerHost(q)
    ensures Writable(q)
  {
    forall i | 0 <= i < |q| ensures LowerLabel(q[i]) && q[i] != "" {
      assert HostLabel(q[i]);
    }
  }

  lemma OneMoreLabel(y: Path, l: string)
    requires (y == [] || LowerHost(y)) && LowerLabel(l) && (y != [] || l != "")
    ensures Writable(y + [l])
  {
    var x := y + [l];
    forall i | 0 <= i < |y| ensures LowerLabel(x[i]) && x[i] != "" {
      assert x[i] == y[i] && HostLabel(y[i]);
    }
  }

  lemma LongerIsLower(l: string)
    requires HostLabel(l) && Lower(l) == l
    ensures LowerLabel(LongerLabel(l)) && LongerLabel(l) != ""
  {
    var w := LongerLabel(l);
    forall i | 0 <= i < |w| ensures LowerChar(w[i]) == w[i] {
      if i > 0 {
        assert w[i] == l[i - 1] == Lower(l)[i - 1];
      }
    }
  }

  lemma StartOfHost(q: Path, n: nat)
    requires LowerHost(q) && n <= |q|
    ensures q[..n] == [] || LowerHost(q[..n])
  {
    forall l | l in q[..n] ensures HostLabel(l) {
      var i :| 0 <= i < n && q[..n][i] == l;
      assert HostLabel(q[i]);
    }
  }

  // ---------------------------------------------------------------- `*` labels that are found

  /** The query with some of its labels, counted from the rightmost one, replaced by `*`. */
  function Starred(q: Path, stars: set<nat>): (x: Path)
    ensures |x| == |q| && forall i :: 0 <= i < |q| ==> x[i] == if i in stars then WILDCARD else q[i]
  {
    seq(|q|, i requires 0 <= i < |q| => if i in stars then WILDCARD else q[i])
  }

  lemma StarredLabels(q: Path, stars: set<nat>)
    requires LowerHost(q)
    ensures Writable(Starred(q, stars)) && StarPath(Starred(q, stars))
  {
    var x := Starred(q, stars);
    StarIsLower();
    forall i | 0 <= i < |x| ensures LowerLabel(x[i]) && x[i] != "" && StarLabel(x[i]) {
      assert HostLabel(q[i]);
    }
  }

  /** One such pattern alone hides nothing from the query, nor cuts or outruns it. */
  lemma StarredIsClear(q: Path, stars: set<nat>)
    requires HostPath(q)
    ensures var stored := {Starred(q, stars)};
            TrieMatches(stored, q) && !Hidden(stored, q) && !Cut(stored, q) && !Outrun(stored, q)
  {
    var x := Starred(q, stars);
    assert Covers(x, q);
    forall n: nat ensures !HiddenBy(x, x, q, n) {
      StarredHidesNothing(q, stars, n);
    }
    StarredIsWhole(q, stars);
  }

  lemma StarredHidesNothing(q: Path, stars: set<nat>, n: nat)
    requires HostPath(q)
    ensures !HiddenBy(Starred(q, stars), Starred(q, stars), q, n)
  {
    if n < |q| {
      assert HostLabel(q[n]);
      LastIsMember(q[n]);
    }
  }

  lemma StarredIsWhole(q: Path, stars: set<nat>)
    requires HostPath(q)
    ensures !Cut({Starred(q, stars)}, q)
  {
    var x, n := Starred(q, stars), |q| - 1;
    assert HostLabel(q[n]);
    EndOfStar(q[n]);
    LastBack(x, n);
  }

  lemma LastBack(x: Path, n: nat)
    requires |x| == n + 1
    ensures x[..n] + [x[n]] == x
  {
  }

  lemma LastIsMember(l: string)
    ensures l != "" ==> l[|l| - 1] in l
  {
  }

  lemma EndOfStar(m: string)
    ensures EndsWith(WILDCARD, m) ==> m == "" || '*' in m
  {
    if EndsWith(WILDCARD, m) && m != "" {
      assert m[0] == '*';
    }
  }

  lemma StoresOne<T>(a: Path, data: T)
    requires Writable(a)
    ensures Run(Inserts([a], data)).Keys == {a}
  {
    forall p ensures p in Run(Inserts([a], data)) <==> p == a {
      var paths := [a];
      InsertsStore(paths, data, p);
      assert paths[0] == a;
    }
  }

  lemma StarredStored<T>(q: Path, stars: set<nat>, data: T)
    requires LowerHost(q)
    ensures Run(Inserts([Starred(q, stars)], data)).Keys == {Starred(q, stars)} && StarSet({Starred(q, stars)})
  {
    StarredLabels(q, stars);
    StoresOne(Starred(q, stars), data);
  }

  /** For every host name and every choice of its labels: the name with these labels replaced by
      `*` is inserted, and `Has` and `Search` both find the name. */
  method FoundByStars<T(0)>(domain: string, stars: set<nat>, data: T)
    returns (t: DomainTrie<T>, has: bool, found: bool)
    requires IsHostName(domain)
    ensures t.Valid() && t.Stored() == Run(Inserts([Starred(QueryPath(domain).value, stars)], data))
    ensures SetSays(t.Stored().Keys, Lower(Reverse(domain)), has)
    ensures has && found
  {
    var q := QueryPath(domain).value;
    QueryIsLower(domain);
    t := Replay(Inserts([Starred(q, stars)], data));
    StarredStored(q, stars, data);
    StarredIsClear(q, stars);
    StarsAreStored(t.Stored().Keys);
    has, found := HasAndSearch(t, domain);
    StarsAgree(t.Stored().Keys, q, has);
  }

  // ---------------------------------------------------------------- a `+` edge that is skipped

  function DotAndLonger(q: Path, j: nat): seq<Path>
    requires j < |q|
  {
    [q[..j] + [DOT_WILDCARD], q[..j] + [LongerLabel(q[j])]]
  }

  lemma DotAndLongerStored<T>(q: Path, j: nat, data: T)
    requires LowerHost(q) && EndsLow(q, j)
    ensures Run(Inserts(DotAndLonger(q, j), data)).Keys == {q[..j] + [DOT_WILDCARD], q[..j] + [LongerLabel(q[j])]}
  {
    StartOfHost(q, j);
    assert HostLabel(q[j]);
    LongerIsLower(q[j]);
    OneMoreLabel(q[..j], DOT_WILDCARD);
    OneMoreLabel(q[..j], LongerLabel(q[j]));
    StoresTwo(q[..j] + [DOT_WILDCARD], q[..j] + [LongerLabel(q[j])], data);
  }

  /** Whatever set is built from these two patterns, it misses the query. */
  lemma PlusIsSkipped(q: Path, j: nat, stored: set<Path>, r: bool)
    requires HostPath(q) && EndsLow(q, j)
    requires stored == {q[..j] + [DOT_WILDCARD], q[..j] + [LongerLabel(q[j])]} && SetSays(stored, QueryText(q), r)
    ensures PlainSet(stored) && TrieMatches(stored, q) && !r
  {
    var keys := SomeKeysAnswer(stored, QueryText(q), r);
    LowByteSkips(q, j, stored, keys);
    PlainKeysWithoutStar(keys, stored);
    WithoutStars(keys, QueryText(q), r);
  }

  /** For every host name with a label, not the rightmost, that ends in a byte below `+`: the two
      patterns are inserted, the set is built, and `Has` denies what `Search` finds. */
  method SkippedPlus<T(0)>(domain: string, j: nat, data: T) returns (t: DomainTrie<T>, has: bool, found: bool)
    requires IsHostName(domain) && EndsLow(QueryPath(domain).value, j)
    ensures t.Valid() && t.Stored() == Run(Inserts(DotAndLonger(QueryPath(domain).value, j), data))
    ensures PlainSet(t.Stored().Keys) && SetSays(t.Stored().Keys, Lower(Reverse(domain)), has)
    ensures found <==> TrieMatches(t.Stored().Keys, QueryPath(domain).value)
    ensures !has && found
  {
    var q := QueryPath(domain).value;
    QueryIsLower(domain);
    t := Replay(Inserts(DotAndLonger(q, j), data));
    DotAndLongerStored(q, j, data);
    LowPatternsArePlain(q, j);
    PlainIsStored(t.Stored().Keys);
    has, found := HasAndSearch(t, domain);
    PlusIsSkipped(q, j, t.Stored().Keys, has);
  }

  lemma LowPatternsArePlain(q: Path, j: nat)
    requires HostPath(q) && EndsLow(q, j)
    ensures PlainSet({q[..j] + [DOT_WILDCARD], q[..j] + [LongerLabel(q[j])]})
  {
    assert HostLabel(q[j]);
    LongerIsHost(q[j]);
    HostPrefix(q, j, LongerLabel(q[j]));
    TwoPatterns(q[..j], LongerLabel(q[j]));
  }

  // ---------------------------------------------------------------- a `*` that is missed

  lemma StarAndLongerStored<T>(q: Path, data: T)
    requires LowerHost(q)
    ensures Run(Inserts(StarFirst(q), data)).Keys == StarAndLonger(q)
  {
    var y, l := q[..|q| - 1], q[|q| - 1];
    StartOfHost(q, |q| - 1);
    assert HostLabel(q[|q| - 1]);
    LongerIsLower(l);
    StarIsLower();
    OneMoreLabel(y, WILDCARD);
    OneMoreLabel(y, LongerLabel(l));
    StoresTwo(y + [WILDCARD], y + [LongerLabel(l)], data);
  }

  lemma StarIsLower()
    ensures LowerLabel(WILDCARD) && WILDCARD != ""
  {
  }

  function StarFirst(q: Path): seq<Path>
    requires q != []
  {
    [q[..|q| - 1] + [WILDCARD], q[..|q| - 1] + [LongerLabel(q[|q| - 1])]]
  }

  lemma StarIsDenied(q: Path, stored: set<Path>, r: bool)
    requires HostPath(q) && stored == StarAndLonger(q) && SetSays(stored, QueryText(q), r)
    ensures TrieMatches(stored, q) && !r
  {
    var keys := SomeKeysAnswer(stored, QueryText(q), r);
    StarIsMissed(q, stored, keys);
  }

  lemma StarAndLongerIsStars(q: Path)
    requires HostPath(q)
    ensures StarSet(StarAndLonger(q))
  {
    LastLabel(q);
    StarPaths(q[..|q| - 1], q[|q| - 1]);
    StarTwo(q[..|q| - 1] + [WILDCARD], q[..|q| - 1] + [LongerLabel(q[|q| - 1])]);
  }

  /** For every host name: with a `*` for its leftmost label and a longer label beside it,
      `Has` denies what `Search` finds. */
  method MissedStar<T(0)>(domain: string, data: T) returns (t: DomainTrie<T>, has: bool, found: bool)
    requires IsHostName(domain)
    ensures t.Valid() && t.Stored() == Run(Inserts(StarFirst(QueryPath(domain).value), data))
    ensures StarSet(t.Stored().Keys) && SetSays(t.Stored().Keys, Lower(Reverse(domain)), has)
    ensures found <==> TrieMatches(t.Stored().Keys, QueryPath(domain).value)
    ensures !has && found
  {
    var q := QueryPath(domain).value;
    QueryIsLower(domain);
    t := Replay(Inserts(StarFirst(q), data));
    StarAndLongerStored(q, data);
    StarAndLongerIsStars(q);
    StarsAreStored(t.Stored().Keys);
    has, found := HasAndSearch(t, domain);
    StarIsDenied(q, t.Stored().Keys, has);
  }

  // ---------------------------------------------------------------- a walk that goes astray

  /** Two letters, neither of which ends the rightmost label. */
  function Pick(l: string): (p: (char, char))
    ensures p in {('a', 'b'), ('b', 'c'), ('a', 'c')}
    ensures l != "" ==> l[|l| - 1] !in {p.0, p.1}
  {
    if l == "" then ('a', 'b')
    else if l[|l| - 1] == 'a' then ('b', 'c')
    else if l[|l| - 1] == 'b' then ('a', 'c')
    else ('a', 'b')
  }

  /** `*`, the query without its rightmost label and with two bytes more, and two letters. */
  function StrayPatterns(q: Path): seq<Path>
    requires |q| >= 2
  {
    var (alpha, beta) := Pick(q[0]);
    [[WILDCARD], [q[1] + ['a', alpha]] + q[2..], [[beta], [beta]]]
  }

  ghost predicate StoresStray(q: Path, stored: set<Path>) {
    |q| >= 2 && stored == {StrayPatterns(q)[0], StrayPatterns(q)[1], StrayPatterns(q)[2]}
  }

  lemma StrayIsHost(q: Path)
    requires HostPath(q) && |q| >= 2
    ensures HostPath(StrayPatterns(q)[1]) && HostPath(StrayPatterns(q)[2])
  {
    var x := StrayPatterns(q)[1];
    assert HostLabel(q[1]);
    forall l | l in x ensures HostLabel(l) {
      var i :| 0 <= i < |x| && x[i] == l;
      if i > 0 {
        assert x[i] == q[i + 1] && HostLabel(q[i + 1]);
      }
    }
  }

  lemma StrayIsLower(q: Path)
    requires LowerHost(q) && |q| >= 2
    ensures LowerHost(StrayPatterns(q)[1]) && LowerHost(StrayPatterns(q)[2])
  {
    StrayIsHost(q);
    var (alpha, beta) := Pick(q[0]);
    var x := StrayPatterns(q)[1];
    forall k | 0 <= k < |x[0]| ensures LowerChar(x[0][k]) == x[0][k] {
      if k < |q[1]| {
        assert x[0][k] == q[1][k] == Lower(q[1])[k];
      }
    }
    forall i | 0 < i < |x| ensures Lower(x[i]) == x[i] {
      assert x[i] == q[i + 1];
    }
    assert Lower([beta]) == [beta];
  }

  lemma StrayStored<T>(q: Path, data: T)
    requires LowerHost(q) && |q| >= 2
    ensures StoresStray(q, Run(Inserts(StrayPatterns(q), data)).Keys)
  {
    var s := StrayPatterns(q);
    StrayIsLower(q);
    HostIsWritable(s[1]);
    HostIsWritable(s[2]);
    StarIsLower();
    OneMoreLabel([], WILDCARD);
    assert [] + [WILDCARD] == s[0] && s == [s[0], s[1], s[2]];
    StoresThree(s[0], s[1], s[2], data);
  }

  lemma StrayIsStars(q: Path, stored: set<Path>)
    requires HostPath(q) && StoresStray(q, stored)
    ensures StarSet(stored)
  {
    StrayIsHost(q);
    HostIsStars(StrayPatterns(q)[1]);
    HostIsStars(StrayPatterns(q)[2]);
  }

  lemma HostIsStars(x: Path)
    requires HostPath(x)
    ensures StarPath(x)
  {
    forall i | 0 <= i < |x| ensures HostLabel(x[i]) {
    }
  }

  /** None of the three patterns matches the query. */
  lemma NoStrayMatch(q: Path, stored: set<Path>)
    requires HostPath(q) && StoresStray(q, stored)
    ensures !TrieMatches(stored, q)
  {
    StrayIsHost(q);
    assert HostLabel(q[0]);
    var (alpha, beta) := Pick(q[0]);
    NoMatch(StrayPatterns(q)[1], q);
    NoMatch(StrayPatterns(q)[2], q);
  }

  lemma NoMatch(x: Path, q: Path)
    requires HostPath(x) && q != [] && (|x| != |q| || (x[0] != q[0] && x[0] != WILDCARD))
    ensures !Matches(x, q)
  {
    assert HostLabel(x[|x| - 1]);
    if |x| == |q| {
      assert !LabelMatches(x[0], q[0]);
    }
  }

  lemma JoinHead(s: string, l: string, rest: seq<string>)
    ensures Join([s + l] + rest) == s + Join([l] + rest)
  {
    if rest != [] {
      assert ([s + l] + rest)[1..] == rest && ([l] + rest)[1..] == rest;
    }
  }

  lemma TwoBytesInFront(l: string, alpha: char)
    ensures Reverse(l + ['a', alpha]) == [alpha, 'a'] + Reverse(l)
  {
    ReverseConcat(l, ['a', alpha]);
    assert Reverse(['a', alpha]) == [alpha, 'a'];
  }

  lemma EachOfCons(l: string, rest: Path)
    ensures ReverseEach([l] + rest) == [Reverse(l)] + ReverseEach(rest)
  {
  }

  lemma StrayKey(q: Path)
    requires HostPath(q) && |q| >= 2
    ensures KeyOf(StrayPatterns(q)[1]) == [Pick(q[0]).0, 'a'] + QueryText(q[1..])
  {
    var x, alpha := StrayPatterns(q)[1], Pick(q[0]).0;
    StrayIsHost(q);
    HostKey(x);
    TwoBytesInFront(q[1], alpha);
    EachOfCons(q[1] + ['a', alpha], q[2..]);
    EachOfCons(q[1], q[2..]);
    assert [q[1]] + q[2..] == q[1..];
    JoinHead([alpha, 'a'], Reverse(q[1]), ReverseEach(q[2..]));
  }

  lemma DottedKey(beta: char)
    requires HostPath([[beta], [beta]])
    ensures KeyOf([[beta], [beta]]) == [beta, '.', beta]
  {
    var x := [[beta], [beta]];
    HostKey(x);
    assert Reverse([beta]) == [beta];
    assert ReverseEach(x) == x && x[1..] == [[beta]];
  }

  lemma SingleStarKey()
    ensures KeyOf([WILDCARD]) == "*"
  {
    assert ReverseLabels([WILDCARD]) == [WILDCARD];
  }

  lemma KeysOfThree(keys: seq<string>, a: Path, b: Path, c: Path)
    requires KeysFor(keys, {a, b, c}) && a != [] && b != [] && c != []
    ensures forall k :: k in keys <==> k in {KeyOf(a), KeyOf(b), KeyOf(c)}
  {
  }

  lemma KeysAreStray(q: Path, stored: set<Path>, keys: seq<string>)
    requires HostPath(q) && StoresStray(q, stored) && KeysFor(keys, stored)
    ensures StrayKeys(keys, Pick(q[0]).0, Pick(q[0]).1, QueryText(q[1..]))
  {
    var s := StrayPatterns(q);
    StrayIsHost(q);
    StrayKey(q);
    DottedKey(Pick(q[0]).1);
    SingleStarKey();
    KeysOfThree(keys, s[0], s[1], s[2]);
  }

  lemma TextOfFirst(q: Path)
    requires HostPath(q) && |q| >= 2
    ensures QueryText(q) == Reverse(q[0]) + "." + QueryText(q[1..])
    ensures Reverse(q[0]) != "" && '.' !in Reverse(q[0]) && Reverse(q[0])[0] == q[0][|q[0]| - 1]
    ensures '*' !in QueryText(q)
  {
    assert HostLabel(q[0]);
    assert ReverseEach(q)[1..] == ReverseEach(q[1..]);
    ReverseKeepsBytes(q[0], '.');
    HostEach(q);
    JoinKeepsBytes(ReverseEach(q), '*');
  }

  /** Whatever set is built from the three patterns, it finds the query that none of them
      matches. */
  lemma StrayAnswer(q: Path, stored: set<Path>, r: bool)
    requires HostPath(q) && StoresStray(q, stored) && SetSays(stored, QueryText(q), r)
    ensures r && !TrieMatches(stored, q)
  {
    var ss, keys :| IsSetOf(ss, keys) && KeysFor(keys, stored) && Answers(ss, keys, QueryText(q), r);
    KeysAreStray(q, stored, keys);
    TextOfFirst(q);
    var paths, starts :| AnswersOn(OnBits(keys, ss.value, paths, starts), QueryText(q), r);
    var (alpha, beta) := Pick(q[0]);
    StrayWalk(OnBits(keys, ss.value, paths, starts), alpha, beta, Reverse(q[0]), QueryText(q[1..]));
    NoStrayMatch(q, stored);
  }

  /** For every host name of two labels or more: `Has` finds what `Search` denies. */
  method StrayFind<T(0)>(domain: string, data: T) returns (t: DomainTrie<T>, has: bool, found: bool)
    requires IsHostName(domain) && |QueryPath(domain).value| >= 2
    ensures t.Valid() && t.Stored() == Run(Inserts(StrayPatterns(QueryPath(domain).value), data))
    ensures StarSet(t.Stored().Keys) && SetSays(t.Stored().Keys, Lower(Reverse(domain)), has)
    ensures found <==> TrieMatches(t.Stored().Keys, QueryPath(domain).value)
    ensures has && !found
  {
    var q := QueryPath(domain).value;
    QueryIsLower(domain);
    t := Replay(Inserts(StrayPatterns(q), data));
    StrayStored(q, data);
    StrayIsStars(q, t.Stored().Keys);
    StarsAreStored(t.Stored().Keys);
    has, found := HasAndSearch(t, domain);
    StrayAnswer(q, t.Stored().Keys, has);
  }

  /** Whatever patterns with `*` labels a set is built from, it finds the query only if one of
      them matches. */
  ghost predicate OnlyMatchesFound(q: Path) {
    forall stored :: StarSet(stored) && SetSays(stored, QueryText(q), true) ==> TrieMatches(stored, q)
  }

  lemma SingleLabelSound(q: Path)
    requires HostPath(q) && |q| == 1
    ensures OnlyMatchesFound(q)
  {
    forall stored | StarSet(stored) && SetSays(stored, QueryText(q), true) ensures TrieMatches(stored, q) {
      StarAnswer(stored, q, true);
    }
  }

  /** That is so for exactly the names of one label; any other one is found in the set that is
      built here. */
  method FindsOnlyMatches<T(0)>(domain: string, data: T) returns (sound: bool)
    requires IsHostName(domain)
    ensures sound <==> OnlyMatchesFound(QueryPath(domain).value)
    ensures sound <==> |QueryPath(domain).value| == 1
  {
    QueryIsLower(domain);
    if |QueryPath(domain).value| == 1 {
      SingleLabelSound(QueryPath(domain).value);
      return true;
    }
    var t, has, found := StrayFind(domain, data);
    assert SetSays(t.Stored().Keys, QueryText(QueryPath(domain).value), has);
    return !has;
  }
}
