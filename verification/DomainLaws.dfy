/** What users of the domain matchers and of the address pool rely on: which names are accepted,
    that the case of letters does not matter, and that an inserted name is found. */
module DomainLaws {
  import opened Text
  import opened Wrappers
  import opened Addresses
  import opened DomainPatterns
  import opened DomainSets
  import opened DomainSetWalks
  import opened DomainTries
  import opened FakeIpPools
  import opened FakeIpSpec

  // ---------------------------------------------------------------- accepted names

  /** Two dots next to each other. */
  ghost predicate DotsMeet(s: string) {
    exists i :: 0 <= i < |s| - 1 && s[i] == '.' == s[i + 1]
  }

  ghost predicate EmptyBehind(parts: seq<string>) {
    exists i :: 0 < i < |parts| && parts[i] == ""
  }

  lemma {:induction false} EmptyLabelsAreDots(s: string)
    ensures Split(s)[0] == "" <==> s == "" || s[0] == '.'
    ensures EmptyBehind(Split(s)) <==> DotsMeet(s) || (s != "" && s[|s| - 1] == '.')
  {
    if s != "" {
      var rest := s[1..];
      EmptyLabelsAreDots(rest);
      DotsMeetFirst(s);
      EmptyFirst(s);
    }
  }

  lemma DotsMeetFirst(s: string)
    requires s != ""
    ensures DotsMeet(s) <==> DotsMeet(s[1..]) || (|s| > 1 && s[0] == '.' == s[1])
  {
    if i :| 0 <= i < |s| - 1 && s[i] == '.' == s[i + 1] {
      assert i == 0 || (s[1..][i - 1] == '.' == s[1..][i]);
    }
    if i :| 0 <= i < |s[1..]| - 1 && s[1..][i] == '.' == s[1..][i + 1] {
      assert s[i + 1] == '.' == s[i + 2];
    }
    if |s| > 1 && s[0] == '.' == s[1] {
      assert s[0 + 1] == '.';
    }
  }

  lemma EmptyFirst(s: string)
    requires s != ""
    ensures EmptyBehind(Split(s)) <==> EmptyBehind(Split(s[1..])) || (s[0] == '.' && Split(s[1..])[0] == "")
  {
    var parts, rest := Split(s), Split(s[1..]);
    if s[0] == '.' {
      assert forall i :: 0 <= i < |rest| ==> parts[i + 1] == rest[i];
    } else {
      assert forall i :: 0 < i < |rest| ==> parts[i] == rest[i];
    }
    if i :| 0 < i < |parts| && parts[i] == "" {
      assert s[0] == '.' ==> rest[i - 1] == "";
    }
    if i :| 0 < i < |rest| && rest[i] == "" {
      assert s[0] == '.' ==> parts[i + 1] == "";
    }
    if s[0] == '.' && rest[0] == "" {
      assert parts[0 + 1] == "";
    }
  }

  /** A name is accepted unless it is empty, ends in a dot or has two dots in a row; its labels
      are then the dot-free strings that dots join to the lower-case name. */
  lemma AcceptedNames(domain: string)
    ensures ValidAndSplitDomain(domain).Some? <==>
              domain != "" && domain[|domain| - 1] != '.' && !DotsMeet(domain)
    ensures ValidAndSplitDomain(domain).Some? ==>
              var parts := ValidAndSplitDomain(domain).value;
              parts != [] && NoDots(parts) && Join(parts) == Lower(domain)
    ensures QueryPath(domain).Some? <==> ValidAndSplitDomain(domain).Some? && domain[0] != '.'
  {
    EmptyLabelsAreDots(Lower(domain));
    JoinSplit(Lower(domain));
    SplitHasNoDots(Lower(domain));
    DotsKeepTheirPlaces(domain);
    EmptyInRest(Split(Lower(domain)));
  }

  lemma EmptyInRest(parts: seq<string>)
    requires parts != []
    ensures "" in parts[1..] <==> EmptyBehind(parts)
  {
    if "" in parts[1..] {
      var i :| 0 <= i < |parts[1..]| && parts[1..][i] == "";
      assert parts[i + 1] == "";
    }
    if i :| 0 < i < |parts| && parts[i] == "" {
      assert parts[1..][i - 1] == "";
    }
  }

  lemma DotsKeepTheirPlaces(s: string)
    ensures forall i :: 0 <= i < |s| ==> (Lower(s)[i] == '.' <==> s[i] == '.')
    ensures DotsMeet(Lower(s)) <==> DotsMeet(s)
  {
    forall i | 0 <= i < |s| ensures Lower(s)[i] == '.' <==> s[i] == '.' {
      assert Lower(s)[i] == LowerChar(s[i]);
    }
    if i :| 0 <= i < |s| - 1 && s[i] == '.' == s[i + 1] {
      assert Lower(s)[i] == '.' == Lower(s)[i + 1];
    }
    if i :| 0 <= i < |s| - 1 && Lower(s)[i] == '.' == Lower(s)[i + 1] {
      assert s[i] == '.' == s[i + 1];
    }
  }

  // ---------------------------------------------------------------- the case of letters

  lemma FoldedAlike(a: string, b: string)
    requires SameButCase(a, b)
    ensures Lower(a) == Lower(b) && Lower(Reverse(a)) == Lower(Reverse(b))
    ensures ValidAndSplitDomain(a) == ValidAndSplitDomain(b) && QueryPath(a) == QueryPath(b)
  {
    LowerFolds(a, b);
    ReverseLowered(a);
    ReverseLowered(b);
    if a != "" {
      assert Lower(a)[|a| - 1] == Lower(b)[|b| - 1];
      DotsKeepTheirPlaces(a);
      DotsKeepTheirPlaces(b);
    }
  }

  lemma ReverseLowered(s: string)
    ensures Lower(Reverse(s)) == Reverse(Lower(s))
  {
  }

  ghost predicate SameOps<T>(ops: seq<Op<T>>, ops': seq<Op<T>>) {
    |ops| == |ops'| && forall i :: 0 <= i < |ops| ==> SameOp(ops[i], ops'[i])
  }

  /** The same call, with letters in any case. */
  predicate SameOp<T(==)>(op: Op<T>, op': Op<T>) {
    op == op' || (op.InsertOp? && op'.InsertOp? && op.data == op'.data && SameButCase(op.domain, op'.domain))
  }

  /** Whatever the case of the inserted names, the trie is the same. */
  lemma {:induction false} RunIgnoresCase<T>(ops: seq<Op<T>>, ops': seq<Op<T>>)
    requires SameOps(ops, ops')
    ensures Run(ops) == Run(ops')
  {
    if ops != [] {
      var n := |ops| - 1;
      RunIgnoresCase(ops[..n], ops'[..n]);
      if ops[n] != ops'[n] {
        FoldedAlike(ops[n].domain, ops'[n].domain);
      }
    }
  }

  method SearchEither<T(0)>(t: DomainTrie<T>, a: string, b: string) returns (r: Node?<T>, s: Node?<T>)
    requires t.Valid() && SameButCase(a, b)
    ensures r == s
  {
    FoldedAlike(a, b);
    r := t.Search(a);
    s := t.Search(b);
  }

  method HasEither(ss: Option<DomainSet>, a: string, b: string, ghost keys: seq<string>) returns (r: bool, s: bool)
    requires IsSetOf(ss, keys) && SameButCase(a, b)
    ensures r == s
  {
    FoldedAlike(a, b);
    r := Has(ss, a, keys);
    s := Has(ss, b, keys);
    OneAnswer(ss, keys, Lower(Reverse(a)), r, s);
  }

  /** A stored path is the best match of the query that spells it out. */
  lemma OwnPathIsBest(stored: set<Path>, q: Path)
    requires q in stored && DOT_WILDCARD !in q
    ensures Best(stored, [], q) == Some(q)
  {
    BestIsBestMatch(stored, q);
    assert Covers(q, q);
  }

  /** An accepted name without a leading `+` is found with its data, in whatever case it is
      inserted and asked for. */
  method InsertThenSearch<T(0)>(t: DomainTrie<T>, name: string, data: T, asked: string) returns (r: Node?<T>)
    requires t.Valid() && SameButCase(name, asked)
    requires name != "" && name[0] !in {'.', '+'} && name[|name| - 1] != '.' && !DotsMeet(name)
    modifies t, t.nodes.Values
    ensures t.Valid() && r != null && r.data == data
  {
    FoldedAlike(name, asked);
    AcceptedNames(name);
    FirstByte(name);
    var _ := t.Insert(name, data);
    var q := QueryPath(name).value;
    QueryHasNoDotLabel(name);
    OwnPathIsBest(t.Stored().Keys, q);
    r := t.Search(asked);
  }

  lemma FirstByte(name: string)
    requires name != "" && name[0] !in {'.', '+'}
    ensures Split(Lower(name))[0] != COMPLEX_WILDCARD
  {
    assert Lower(name)[0] == LowerChar(name[0]);
    assert Split(Lower(name))[0][0] == Lower(name)[0];
  }

  /** The second of two lookups that differ in case only gets the address of the first. */
  method LookupEither(pool: Pool, a: string, b: string, now: int, later: int) returns (ip: Addr, again: Addr)
    requires pool.Valid() && SameButCase(a, b)
    modifies pool, pool.store, pool.store.cacheIP, pool.store.cacheHost
    ensures pool.Valid() && ip == again && pool.allocations <= old(pool.allocations) + 1
  {
    FoldedAlike(a, b);
    ghost var ps, n := pool.store.pairs, pool.allocations;
    ip := pool.Lookup(a, now);
    OutcomeIsMostRecent(pool.first, pool.last, pool.store.size, Lower(a), ip, ps, n,
                        pool.store.pairs, pool.allocations);
    InverseFinds(pool.store.pairs, |pool.store.pairs| - 1);
    again := pool.Lookup(b, later);
  }
}
