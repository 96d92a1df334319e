/** Domain names and patterns as label lists, and which stored pattern a query selects.
    A path is a pattern's labels read right to left, as the trie stores them. */
module DomainPatterns {
  import opened Text
  import opened Wrappers

  type Path = seq<string>

  const WILDCARD := "*"
  const DOT_WILDCARD := ""
  const COMPLEX_WILDCARD := "+"

  /** Splits at every dot; never empty. */
  function Split(s: string): (parts: seq<string>)
    ensures parts != []
  {
    if s == "" then [""]
    else if s[0] == '.' then [""] + Split(s[1..])
    else
      var rest := Split(s[1..]);
      [[s[0]] + rest[0]] + rest[1..]
  }

  function Join(parts: seq<string>): string {
    if parts == [] then ""
    else if |parts| == 1 then parts[0]
    else parts[0] + "." + Join(parts[1..])
  }

  ghost predicate NoDots(parts: seq<string>) {
    forall p :: p in parts ==> '.' !in p
  }

  lemma {:induction false} SplitHasNoDots(s: string)
    ensures NoDots(Split(s))
  {
    if s != "" {
      SplitHasNoDots(s[1..]);
    }
  }

  lemma {:induction false} JoinSplit(s: string)
    ensures Join(Split(s)) == s
  {
    if s != "" {
      JoinSplit(s[1..]);
      var rest := Split(s[1..]);
      if s[0] == '.' {
        assert Split(s)[1..] == rest;
      } else {
        assert Split(s)[1..] == rest[1..];
      }
    }
  }

  lemma {:induction false} SplitJoin(parts: seq<string>)
    requires parts != [] && NoDots(parts)
    ensures Split(Join(parts)) == parts
  {
    if |parts| == 1 {
      SplitPlain(parts[0]);
    } else {
      SplitJoin(parts[1..]);
      SplitAfterLabel(parts[0], Join(parts[1..]));
    }
  }

  lemma {:induction false} SplitPlain(p: string)
    requires '.' !in p
    ensures Split(p) == [p]
  {
    if p != "" {
      SplitPlain(p[1..]);
      assert [p[0]] + p[1..] == p;
    }
  }

  lemma {:induction false} SplitAfterLabel(p: string, s: string)
    requires '.' !in p
    ensures Split(p + "." + s) == [p] + Split(s)
  {
    if p == "" {
      assert (p + "." + s)[1..] == s;
    } else {
      assert (p + "." + s)[1..] == p[1..] + "." + s;
      SplitAfterLabel(p[1..], s);
      assert [p[0]] + p[1..] == p;
      assert ([p[1..]] + Split(s))[1..] == Split(s);
    }
  }

  /** `None` for a name the trie rejects: empty, ending in a dot, or with an empty label
      anywhere but in front. */
  function ValidAndSplitDomain(domain: string): Option<seq<string>> {
    if domain != "" && domain[|domain| - 1] == '.' then None
    else
      var parts := Split(Lower(domain));
      if |parts| == 1 then
        if parts[0] == "" then None else Some(parts)
      else if "" in parts[1..] then None
      else Some(parts)
  }

  function ReverseLabels(parts: seq<string>): (r: Path)
    ensures |r| == |parts| && forall i :: 0 <= i < |parts| ==> r[i] == parts[|parts| - 1 - i]
  {
    Reverse(parts)
  }

  // ---------------------------------------------------------------- matching

  /** Label `p` of a pattern stands for label `l` of a query. */
  predicate LabelMatches(p: string, l: string) {
    p == l || p == WILDCARD
  }

  /** `p` covers the labels of `q` one by one. */
  ghost predicate Covers(p: Path, q: Path) {
    |p| == |q| && forall i :: 0 <= i < |p| ==> LabelMatches(p[i], q[i])
  }

  /** A stored path matches a query if it covers all its labels, or if it ends in the
      leading dot and what is before covers a proper part of them. */
  ghost predicate Matches(p: Path, q: Path) {
    || Covers(p, q)
    || (p != [] && p[|p| - 1] == DOT_WILDCARD && |p| <= |q| && Covers(p[..|p| - 1], q[..|p| - 1]))
  }

  /** The two paths that a `+.` pattern stands for match a query exactly when the labels
      after the `+` cover its rightmost labels; the leading dot alone needs one label more. */
  lemma ComplexWildcardMeaning(p: Path, q: Path)
    requires p == [] || p[|p| - 1] != DOT_WILDCARD
    ensures Matches(p, q) || Matches(p + [DOT_WILDCARD], q) <==> |p| <= |q| && Covers(p, q[..|p|])
    ensures DOT_WILDCARD !in q ==>
              (Matches(p + [DOT_WILDCARD], q) <==> |p| < |q| && Covers(p, q[..|p|]))
  {
    var dot := p + [DOT_WILDCARD];
    assert dot[..|dot| - 1] == p;
    assert q[..|q|] == q;
    if |dot| == |q| && Covers(dot, q) {
      assert LabelMatches(dot[|p|], q[|p|]);
      assert forall i :: 0 <= i < |p| ==> LabelMatches(dot[i], q[i]) && dot[i] == p[i] && q[i] == q[..|p|][i];
      assert q[|p|] in q;
    }
  }

  /** Static labels rank before `*`, which ranks before the leading dot. */
  function Rank(p: string, l: string): nat {
    if p == l then 0 else if p == WILDCARD then 1 else 2
  }

  /** Read right to left, `a` is the better pattern where the two first differ. */
  ghost predicate Outranks(a: Path, b: Path, q: Path) {
    exists d :: 0 <= d < |a| && d < |b| && d < |q| && a[..d] == b[..d] && Rank(a[d], q[d]) < Rank(b[d], q[d])
  }

  /** The best of the paths in `stored` that start with `p` and go on like `q`. */
  ghost function Best(stored: set<Path>, p: Path, q: Path): Option<Path>
    decreases |q|
  {
    if q == [] then
      if p in stored then Some(p) else None
    else
      var exact := Best(stored, p + [q[0]], q[1..]);
      if exact.Some? then exact
      else
        var wild := Best(stored, p + [WILDCARD], q[1..]);
        if wild.Some? then wild
        else if p + [DOT_WILDCARD] in stored then Some(p + [DOT_WILDCARD])
        else None
  }

  ghost predicate IsBestMatch(stored: set<Path>, best: Option<Path>, q: Path) {
    match best
    case None => forall x :: x in stored ==> !Matches(x, q)
    case Some(b) => b in stored && Matches(b, q)
                    && forall x :: x in stored && Matches(x, q) && x != b ==> Outranks(b, x, q)
  }

  /** The search order finds the best match: nothing exactly when nothing matches. */
  lemma BestIsBestMatch(stored: set<Path>, q: Path)
    requires DOT_WILDCARD !in q
    ensures IsBestMatch(stored, Best(stored, [], q), q)
  {
    BestBelow(stored, [], q);
    assert forall x: Path :: x == [] + x;
    assert [] + q == q;
  }

  /** `Best` below `p`: `found` is what the best match adds to `p`. */
  ghost predicate BestBelowIs(stored: set<Path>, p: Path, q: Path, r: Option<Path>) {
    match r
    case None => forall x: Path :: p + x in stored ==> !Matches(x, q)
    case Some(b) => exists y: Path :: b == p + y && IsBestBelow(stored, p, q, y)
  }

  ghost predicate IsBestBelow(stored: set<Path>, p: Path, q: Path, y: Path) {
    && p + y in stored && Matches(y, q)
    && forall x: Path :: p + x in stored && Matches(x, q) && x != y ==> Outranks(y, x, q)
  }

  lemma {:induction false} BestBelow(stored: set<Path>, p: Path, q: Path)
    requires DOT_WILDCARD !in q
    ensures BestBelowIs(stored, p, q, Best(stored, p, q))
    decreases |q|
  {
    if q == [] {
      assert p + [] == p;
      assert forall x: Path :: Matches(x, q) <==> x == [];
      if p in stored {
        assert IsBestBelow(stored, p, q, []);
      }
    } else {
      assert q[0] in q;
      BestBelow(stored, p + [q[0]], q[1..]);
      BestBelow(stored, p + [WILDCARD], q[1..]);
      var exact, wild := Best(stored, p + [q[0]], q[1..]), Best(stored, p + [WILDCARD], q[1..]);
      if exact.Some? {
        BestThrough(stored, p, q, q[0], exact.value);
      } else if wild.Some? {
        BestThrough(stored, p, q, WILDCARD, wild.value);
      } else {
        NoBranchMatches(stored, p, q);
      }
    }
  }

  /** How the first label decides a match. */
  lemma MatchesFirst(l: string, rest: Path, q: Path)
    requires q != [] && q[0] != DOT_WILDCARD
    ensures Matches([l] + rest, q) <==>
              (LabelMatches(l, q[0]) && Matches(rest, q[1..])) || (l == DOT_WILDCARD && rest == [])
  {
    var p := [l] + rest;
    CoversFirst(l, rest, q);
    if rest == [] {
      assert Covers(p[..0], q[..0]);
    } else {
      assert p[..|p| - 1] == [l] + rest[..|rest| - 1];
      if |p| <= |q| {
        CoversFirst(l, rest[..|rest| - 1], q[..|p| - 1]);
        assert q[..|p| - 1][1..] == q[1..][..|rest| - 1];
      }
    }
  }

  lemma CoversFirst(l: string, rest: Path, q: Path)
    requires q != []
    ensures Covers([l] + rest, q) <==> LabelMatches(l, q[0]) && Covers(rest, q[1..])
  {
    var p := [l] + rest;
    if LabelMatches(l, q[0]) && Covers(rest, q[1..]) {
      forall i | 0 <= i < |p| ensures LabelMatches(p[i], q[i]) {
        assert i > 0 ==> LabelMatches(rest[i - 1], q[1..][i - 1]);
      }
    }
    if Covers(p, q) {
      forall i | 0 <= i < |rest| ensures LabelMatches(rest[i], q[1..][i]) {
        assert LabelMatches(p[i + 1], q[i + 1]);
      }
    }
  }

  lemma OutranksRest(l: string, a: Path, b: Path, q: Path)
    requires q != [] && Outranks(a, b, q[1..])
    ensures Outranks([l] + a, [l] + b, q)
  {
    var d :| 0 <= d < |a| && d < |b| && d < |q[1..]| && a[..d] == b[..d]
      && Rank(a[d], q[1..][d]) < Rank(b[d], q[1..][d]);
    var x, y := [l] + a, [l] + b;
    assert x[..d + 1] == [l] + a[..d] == [l] + b[..d] == y[..d + 1];
    assert Rank(x[d + 1], q[d + 1]) < Rank(y[d + 1], q[d + 1]);
  }

  /** The best match below the branch `l` is the best match, if no better branch has one. */
  lemma BestThrough(stored: set<Path>, p: Path, q: Path, l: string, b: Path)
    requires q != [] && q[0] != DOT_WILDCARD
    requires l == q[0] || (l == WILDCARD && forall x: Path :: p + [q[0]] + x in stored ==> !Matches(x, q[1..]))
    requires BestBelowIs(stored, p + [l], q[1..], Some(b))
    ensures BestBelowIs(stored, p, q, Some(b))
  {
    var y: Path :| b == p + [l] + y && IsBestBelow(stored, p + [l], q[1..], y);
    assert p + ([l] + y) == p + [l] + y;
    MatchesFirst(l, y, q);
    forall x: Path | p + x in stored && Matches(x, q) && x != [l] + y ensures Outranks([l] + y, x, q) {
      BranchOutranks(stored, p, q, l, y, x);
    }
    assert IsBestBelow(stored, p, q, [l] + y);
  }

  lemma BranchOutranks(stored: set<Path>, p: Path, q: Path, l: string, y: Path, x: Path)
    requires q != [] && q[0] != DOT_WILDCARD
    requires l == q[0] || (l == WILDCARD && forall x: Path :: p + [q[0]] + x in stored ==> !Matches(x, q[1..]))
    requires IsBestBelow(stored, p + [l], q[1..], y)
    requires p + x in stored && Matches(x, q) && x != [l] + y
    ensures Outranks([l] + y, x, q)
  {
    assert x != [];
    var rest := x[1..];
    assert x == [x[0]] + rest && p + x == p + [x[0]] + rest;
    MatchesFirst(x[0], rest, q);
    if x[0] == l {
      OutranksRest(l, y, rest, q);
    } else {
      assert ([l] + y)[..0] == x[..0] && Rank(l, q[0]) < Rank(x[0], q[0]);
    }
  }

  lemma NoBranchMatches(stored: set<Path>, p: Path, q: Path)
    requires q != [] && q[0] != DOT_WILDCARD
    requires forall x: Path :: p + [q[0]] + x in stored ==> !Matches(x, q[1..])
    requires forall x: Path :: p + [WILDCARD] + x in stored ==> !Matches(x, q[1..])
    ensures BestBelowIs(stored, p, q,
              if p + [DOT_WILDCARD] in stored then Some(p + [DOT_WILDCARD]) else None)
  {
    forall x: Path | p + x in stored && Matches(x, q) ensures x == [DOT_WILDCARD] {
      assert x != [];
      assert x == [x[0]] + x[1..] && p + x == p + [x[0]] + x[1..];
      MatchesFirst(x[0], x[1..], q);
    }
    if p + [DOT_WILDCARD] in stored {
      MatchesFirst(DOT_WILDCARD, [], q);
      assert [DOT_WILDCARD] + [] == [DOT_WILDCARD];
      assert IsBestBelow(stored, p, q, [DOT_WILDCARD]);
    }
  }
}
