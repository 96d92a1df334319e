/** When the set built from patterns with `*` labels finds all that the trie matches, and the end
    to end agreement of the two. */
module DomainSetAgreement {
  import opened Text
  import opened DomainPatterns
  import opened DomainSetKeys
  import opened DomainSetRefinement
  import opened DomainSets
  import opened DomainSetStars
  import opened DomainSetWalks
  import opened DomainTries

  // ---------------------------------------------------------------- what may be found from a node

  /** The labels `v` of a key stand for the query's labels `u`, or for some of them up to a `+`. */
  ghost predicate Goal(keys: seq<string>, u: seq<string>, v: seq<string>) {
    && NoDots(v) && v != [] && |v| <= |u| && CoversTo(v, u, |v| - 1) && SomeKeyExtends(keys, Join(v))
    && (v[|v| - 1] == "+" || (|v| == |u| && LabelMatches(v[|v| - 1], u[|v| - 1]) && Join(v) in keys))
  }

  /** They go on from where the walk stands: after the labels `a` and the start `r` of the next. */
  ghost predicate From(keys: seq<string>, u: seq<string>, a: seq<string>, r: string, v: seq<string>) {
    Goal(keys, u, v) && |a| < |v| && v[..|a|] == a && r <= v[|a|]
  }

  ghost predicate NothingFrom(keys: seq<string>, u: seq<string>, a: seq<string>, r: string) {
    forall v :: !From(keys, u, a, r, v)
  }

  ghost predicate NothingFromStar(keys: seq<string>, u: seq<string>, a: seq<string>) {
    forall v :: From(keys, u, a, "", v) ==> v[|a|] != WILDCARD
  }

  // ---------------------------------------------------------------- what stands in the way

  /** The edge of the query's next byte is met before the `*` or `+` edge beside it. */
  ghost predicate HiddenAt(keys: seq<string>, u: seq<string>, a: seq<string>) {
    && NoDots(a) && |a| < |u| && CoversTo(a, u, |a|) && u[|a|] != "" && u[|a|][0] < COMPLEX_WILDCARD_BYTE
    && SomeKeyExtends(keys, Dotted(a) + [u[|a|][0]])
    && (SomeKeyExtends(keys, Dotted(a) + [WILDCARD_BYTE]) || SomeKeyExtends(keys, Dotted(a) + [COMPLEX_WILDCARD_BYTE]))
  }

  /** The query ends inside a longer key. */
  ghost predicate CutAt(keys: seq<string>, u: seq<string>, a: seq<string>) {
    && NoDots(a) && |a| + 1 == |u| && CoversTo(a, u, |a|)
    && SomeKeyExtends(keys, Dotted(a) + u[|a|]) && Dotted(a) + u[|a|] !in keys
  }

  /** The query goes on after a `*` that ends all its keys. */
  ghost predicate OutrunAt(keys: seq<string>, u: seq<string>, a: seq<string>) {
    && NoDots(a) && |a| + 1 < |u| && CoversTo(a, u, |a|)
    && SomeKeyExtends(keys, Dotted(a) + [WILDCARD_BYTE])
    && !SomeKeyExtends(keys, Dotted(a) + [WILDCARD_BYTE] + [DOMAIN_STEP_BYTE])
  }

  ghost predicate HostParts(u: seq<string>) {
    forall i :: 0 <= i < |u| ==> u[i] != "" && '+' !in u[i] && '*' !in u[i]
  }

  ghost predicate Clear(keys: seq<string>, u: seq<string>) {
    && WholeLabels(keys) && NoDots(u) && u != [] && HostParts(u)
    && forall a :: !HiddenAt(keys, u, a) && !CutAt(keys, u, a) && !OutrunAt(keys, u, a)
  }

  // ---------------------------------------------------------------- prefixes of keys

  lemma ExtendsLess(keys: seq<string>, p: string, t: string)
    requires p <= t && SomeKeyExtends(keys, t)
    ensures SomeKeyExtends(keys, p)
  {
    var k :| k in keys && t <= k;
    assert p <= k;
  }

  lemma JoinStarts(v: seq<string>, n: nat)
    requires n < |v|
    ensures Dotted(v[..n]) + v[n] <= Join(v)
    ensures n + 1 < |v| ==> Dotted(v[..n]) + v[n] + ['.'] <= Join(v)
    ensures n + 1 == |v| ==> Dotted(v[..n]) + v[n] == Join(v)
  {
    JoinFrom(v, n);
    if n + 1 < |v| {
      LabelThenDot(v, n);
    } else {
      assert v[n..] == [v[n]];
    }
  }

  /** The next label of what may be found is the query's, or a `*`, or a `+` that is the last. */
  lemma NextOfGoal(keys: seq<string>, u: seq<string>, a: seq<string>, r: string, v: seq<string>)
    requires From(keys, u, a, r, v)
    ensures v[|a|] == u[|a|] || v[|a|] == WILDCARD || (v[|a|] == "+" && |v| == |a| + 1)
    ensures |v| == |a| + 1 && v[|a|] != "+" ==> |v| == |u| && Join(v) in keys
  {
    if |a| < |v| - 1 {
      assert LabelMatches(v[|a|], u[|a|]);
    }
  }

  lemma NoStarIn(u: seq<string>, n: nat, r: string)
    requires HostParts(u) && n < |u| && r <= u[n]
    ensures '+' !in r && '*' !in r
  {
    forall i | 0 <= i < |r| ensures r[i] != '+' && r[i] != '*' {
      assert r[i] == u[n][i];
    }
  }

  lemma StartsShort(r: string, c: char)
    requires r <= [c]
    ensures r == "" || c in r
  {
    if r != "" {
      assert r[0] == [c][0];
    }
  }

  // ---------------------------------------------------------------- one step

  lemma ByteOn(d: string, r: string, l: string)
    requires r <= l && |r| < |l|
    ensures r + [l[|r|]] <= l && d + r + [l[|r|]] <= d + l
  {
    Regroup(d, r, [l[|r|]]);
  }

  /** What goes on with the query's own label goes on from the next node. */
  lemma OnInLabel(keys: seq<string>, u: seq<string>, a: seq<string>, r: string, v: seq<string>)
    requires From(keys, u, a, r, v) && |r| < |v[|a|]|
    ensures var c := v[|a|][|r|]; SomeKeyExtends(keys, Dotted(a) + r + [c]) && From(keys, u, a, r + [c], v)
  {
    JoinStarts(v, |a|);
    ByteOn(Dotted(a), r, v[|a|]);
    ExtendsLess(keys, Dotted(a) + v[|a|], Join(v));
    ExtendsLess(keys, Dotted(a) + r + [v[|a|][|r|]], Dotted(a) + v[|a|]);
  }

  lemma TakeOneMore(v: seq<string>, a: seq<string>, r: string)
    requires |a| < |v| && v[..|a|] == a && v[|a|] == r
    ensures v[..|a| + 1] == a + [r]
  {
  }

  lemma OnBehindLabel(keys: seq<string>, u: seq<string>, a: seq<string>, r: string, v: seq<string>)
    requires From(keys, u, a, r, v) && v[|a|] == r && r != "+" && |a| + 1 < |u|
    ensures SomeKeyExtends(keys, Dotted(a) + r + ['.']) && From(keys, u, a + [r], "", v)
  {
    NextOfGoal(keys, u, a, r, v);
    JoinStarts(v, |a|);
    TakeOneMore(v, a, r);
    ExtendsLess(keys, Dotted(a) + r + ['.'], Join(v));
  }

  lemma ByteRead(u: seq<string>, a: seq<string>, r: string, p: string, i: nat)
    requires NoDots(u) && HostParts(u) && Standing(u, a, r, p, i) && i < |Join(u)|
    ensures |r| < |u[|a|]| ==> Join(u)[i] == u[|a|][|r|]
    ensures |r| >= |u[|a|]| ==> r == u[|a|] && Join(u)[i] == '.' && |a| + 1 < |u| && r != "+"
  {
    ByteAt(u, |a|, |r|);
    NoStarIn(u, |a|, r);
    assert '+' in "+";
  }

  lemma OnByByte(keys: seq<string>, u: seq<string>, a: seq<string>, r: string, p: string, i: nat, v: seq<string>)
    requires HostParts(u) && NoDots(u)
    requires Standing(u, a, r, p, i) && i < |Join(u)| && From(keys, u, a, r, v) && v[|a|] == u[|a|]
    ensures SomeKeyExtends(keys, p + [Join(u)[i]])
    ensures if |r| < |u[|a|]| then From(keys, u, a, r + [Join(u)[i]], v) else From(keys, u, a + [r], "", v)
  {
    ByteRead(u, a, r, p, i);
    if |r| < |u[|a|]| {
      OnInLabel(keys, u, a, r, v);
    } else {
      OnBehindLabel(keys, u, a, r, v);
    }
  }

  /** What goes on with a `*` or a `+` does so at the start of a label. */
  lemma WildcardAtStart(keys: seq<string>, u: seq<string>, a: seq<string>, r: string, v: seq<string>, c: char)
    requires HostParts(u) && |a| < |u| && r <= u[|a|] && From(keys, u, a, r, v)
    requires v[|a|] == [c] && (c == '*' || c == '+')
    ensures r == "" && SomeKeyExtends(keys, Dotted(a) + [c])
  {
    NoStarIn(u, |a|, r);
    StartsShort(r, c);
    JoinStarts(v, |a|);
    ExtendsLess(keys, Dotted(a) + [c], Join(v));
  }

  lemma FirstOfLabel(u: seq<string>, a: seq<string>, p: string, i: nat)
    requires NoDots(u) && HostParts(u) && Standing(u, a, "", p, i) && i < |Join(u)|
    ensures u[|a|] != "" && Join(u)[i] == u[|a|][0] && p == Dotted(a)
  {
    ByteAt(u, |a|, 0);
  }

  /** And the edge beside it is met. */
  lemma OnByWildcard(keys: seq<string>, u: seq<string>, a: seq<string>, r: string, p: string, i: nat,
                     v: seq<string>, c: char)
    requires Clear(keys, u) && Standing(u, a, r, p, i) && i < |Join(u)| && From(keys, u, a, r, v)
    requires v[|a|] == [c] && (c == '*' || c == '+')
    ensures r == "" && if c == '*' then StarPassed(keys, p, Join(u)[i]) else PlusFirst(keys, p, Join(u)[i])
  {
    WildcardAtStart(keys, u, a, r, v, c);
    FirstOfLabel(u, a, p, i);
    assert !HiddenAt(keys, u, a);
  }

  /** What may be found shows at the node: its `+` edge is met, the next byte leads on to it, or
      its `*` edge does. */
  lemma GoesOnSomewhere(keys: seq<string>, u: seq<string>, a: seq<string>, r: string, p: string, i: nat,
                        v: seq<string>)
    requires Clear(keys, u) && Standing(u, a, r, p, i) && i < |Join(u)| && From(keys, u, a, r, v)
    ensures || PlusFirst(keys, p, Join(u)[i])
            || (SomeKeyExtends(keys, p + [Join(u)[i]]) &&
                if |r| < |u[|a|]| then From(keys, u, a, r + [Join(u)[i]], v) else From(keys, u, a + [r], "", v))
            || (StarPassed(keys, p, Join(u)[i]) && From(keys, u, a, "", v) && v[|a|] == WILDCARD)
  {
    NextOfGoal(keys, u, a, r, v);
    if v[|a|] == u[|a|] {
      OnByByte(keys, u, a, r, p, i, v);
    } else {
      OnByWildcard(keys, u, a, r, p, i, v, v[|a|][0]);
    }
  }

  /** A walk that found nothing further on and nothing at the edges beside has nothing to find. */
  lemma NothingLeft(keys: seq<string>, u: seq<string>, a: seq<string>, r: string, p: string, i: nat)
    requires Clear(keys, u) && Standing(u, a, r, p, i) && i < |Join(u)|
    requires !PlusFirst(keys, p, Join(u)[i])
    requires SomeKeyExtends(keys, p + [Join(u)[i]]) ==>
               if |r| < |u[|a|]| then NothingFrom(keys, u, a, r + [Join(u)[i]]) else NothingFrom(keys, u, a + [r], "")
    requires StarPassed(keys, p, Join(u)[i]) ==> NothingFromStar(keys, u, a)
    ensures NothingFrom(keys, u, a, r)
  {
    forall v ensures !From(keys, u, a, r, v) {
      if From(keys, u, a, r, v) {
        GoesOnSomewhere(keys, u, a, r, p, i, v);
      }
    }
  }

  /** How the answer at a node is put together. */
  lemma Outcome(keys: seq<string>, p: string, q: string, i: nat)
    requires i < |q| && q[i] != WILDCARD_BYTE
    ensures var t := OnKeys(keys);
            var on := if SomeKeyExtends(keys, p + [q[i]]) then Find(t, p + [q[i]], q, i + 1) else Back;
            Find(t, p, q, i) ==
              if PlusFirst(keys, p, q[i]) then Yes
              else if on == Back && StarPassed(keys, p, q[i]) then Resume(t, p + [WILDCARD_BYTE], q, i)
              else on
  {
  }

  // ---------------------------------------------------------------- the walk finds what there is

  ghost predicate FoundOrNothing(keys: seq<string>, u: seq<string>, a: seq<string>, r: string, f: Answer) {
    f == Yes || (f == Back && NothingFrom(keys, u, a, r))
  }

  /** Wherever the walk stands, it answers yes or comes back from where there is nothing to find. */
  lemma {:induction false} FindFindsAll(keys: seq<string>, u: seq<string>, a: seq<string>, r: string,
                                        p: string, i: nat)
    requires Clear(keys, u) && Standing(u, a, r, p, i) && SomeKeyExtends(keys, p)
    ensures FoundOrNothing(keys, u, a, r, Find(OnKeys(keys), p, Join(u), i))
    decreases |Join(u)| - i, 1
  {
    WhereItStands(u, a, r, p, i);
    if i == |Join(u)| {
      assert !CutAt(keys, u, a);
    } else {
      ByteAt(u, |a|, |r|);
      if SomeKeyExtends(keys, p + [Join(u)[i]]) {
        NextFindsAll(keys, u, a, r, p, i);
      }
      if StarPassed(keys, p, Join(u)[i]) {
        StarAtStart(keys, u, a, r, p);
        ResumeFindsAll(keys, u, a, p + [WILDCARD_BYTE], i);
      }
      NotAStar(u, a, r, i);
      Outcome(keys, p, Join(u), i);
      if Find(OnKeys(keys), p, Join(u), i) != Yes {
        NothingLeft(keys, u, a, r, p, i);
      }
    }
  }

  lemma NotAStar(u: seq<string>, a: seq<string>, r: string, i: nat)
    requires HostParts(u) && NoDots(u) && |a| < |u| && r <= u[|a|]
    requires i == |Dotted(u[..|a|])| + |r| < |Join(u)|
    ensures Join(u)[i] != WILDCARD_BYTE
  {
    ByteAt(u, |a|, |r|);
    if |r| < |u[|a|]| {
      assert u[|a|][|r|] in u[|a|];
    }
  }

  lemma StarAtStart(keys: seq<string>, u: seq<string>, a: seq<string>, r: string, p: string)
    requires WholeLabels(keys) && NoDots(a) && '.' !in r && p == Dotted(a) + r
    requires SomeKeyExtends(keys, p + [WILDCARD_BYTE])
    ensures r == "" && p == Dotted(a)
  {
    assert LabelStart(keys, a, r);
  }

  lemma {:induction false} NextFindsAll(keys: seq<string>, u: seq<string>, a: seq<string>, r: string,
                                        p: string, i: nat)
    requires Clear(keys, u) && Standing(u, a, r, p, i) && i < |Join(u)|
    requires SomeKeyExtends(keys, p + [Join(u)[i]])
    ensures var f := Find(OnKeys(keys), p + [Join(u)[i]], Join(u), i + 1);
            if |r| < |u[|a|]| then FoundOrNothing(keys, u, a, r + [Join(u)[i]], f)
            else FoundOrNothing(keys, u, a + [r], "", f)
    decreases |Join(u)| - i, 0
  {
    ByteAt(u, |a|, |r|);
    assert u[|a|] in u;
    if |r| < |u[|a|]| {
      NextByte(u, a, r, p, i);
      FindFindsAll(keys, u, a, r + [Join(u)[i]], p + [Join(u)[i]], i + 1);
    } else {
      AfterLabel(u, a, r, p);
      FindFindsAll(keys, u, a + [r], "", p + [Join(u)[i]], i + 1);
    }
  }

  lemma {:induction false} ResumeFindsAll(keys: seq<string>, u: seq<string>, a: seq<string>, p: string, i: nat)
    requires Clear(keys, u) && NoDots(a) && |a| < |u| && CoversTo(a, u, |a|)
    requires p == Dotted(a) + [WILDCARD_BYTE] && i == |Dotted(u[..|a|])| < |Join(u)| && SomeKeyExtends(keys, p)
    ensures var f := Resume(OnKeys(keys), p, Join(u), i);
            f == Yes || (f == Back && NothingFromStar(keys, u, a))
    decreases |Join(u)| - i, 0
  {
    var j := LabelEnd(u, a, p, i);
    ResumeOutcome(keys, p, Join(u), i, j);
    if |a| + 1 == |u| {
      StarIsLast(keys, u, a);
    } else {
      GoesOnBehindStar(keys, u, a);
      FindFindsAll(keys, u, a + [WILDCARD], "", p + [DOMAIN_STEP_BYTE], j + 1);
      StarGoesOn(keys, u, a);
    }
  }

  /** Where the label that a `*` takes ends, and where the walk stands behind it. */
  lemma LabelEnd(u: seq<string>, a: seq<string>, p: string, i: nat) returns (j: nat)
    requires NoDots(u) && NoDots(a) && |a| < |u| && CoversTo(a, u, |a|)
    requires p == Dotted(a) + [WILDCARD_BYTE] && i == |Dotted(u[..|a|])| <= |Join(u)|
    ensures i <= j <= |Join(u)| && j == NextDot(Join(u), i) && (j == |Join(u)| <==> |a| + 1 == |u|)
    ensures |a| + 1 < |u| ==> Standing(u, a + [WILDCARD], "", p + [DOMAIN_STEP_BYTE], j + 1)
  {
    j := i + |u[|a|]|;
    DotBehind(u, |a|, 0);
    ByteAt(u, |a|, |u[|a|]|);
    if |a| + 1 < |u| {
      AfterLabel(u, a, WILDCARD, p);
    }
  }

  lemma GoesOnBehindStar(keys: seq<string>, u: seq<string>, a: seq<string>)
    requires Clear(keys, u) && NoDots(a) && |a| + 1 < |u| && CoversTo(a, u, |a|)
    requires SomeKeyExtends(keys, Dotted(a) + [WILDCARD_BYTE])
    ensures SomeKeyExtends(keys, Dotted(a) + [WILDCARD_BYTE] + [DOMAIN_STEP_BYTE])
  {
    assert !OutrunAt(keys, u, a);
  }

  lemma ResumeOutcome(keys: seq<string>, p: string, q: string, i: nat, j: nat)
    requires i <= j <= |q| && j == NextDot(q, i)
    ensures var t, next := OnKeys(keys), p + [DOMAIN_STEP_BYTE];
            Resume(t, p, q, i) ==
              if j == |q| then if p in keys then Yes else Back
              else if SomeKeyExtends(keys, next) then Find(t, next, q, j + 1)
              else Astray
  {
  }

  lemma StarIsLast(keys: seq<string>, u: seq<string>, a: seq<string>)
    requires |a| + 1 == |u|
    ensures Dotted(a) + [WILDCARD_BYTE] in keys || NothingFromStar(keys, u, a)
  {
    forall v | From(keys, u, a, "", v) && v[|a|] == WILDCARD ensures Dotted(a) + [WILDCARD_BYTE] in keys {
      NextOfGoal(keys, u, a, "", v);
      JoinStarts(v, |a|);
    }
  }

  lemma StarGoesOn(keys: seq<string>, u: seq<string>, a: seq<string>)
    requires |a| + 1 < |u|
    ensures NothingFrom(keys, u, a + [WILDCARD], "") ==> NothingFromStar(keys, u, a)
  {
    forall v | From(keys, u, a, "", v) && v[|a|] == WILDCARD ensures From(keys, u, a + [WILDCARD], "", v) {
      NextOfGoal(keys, u, a, "", v);
      TakeOneMore(v, a, WILDCARD);
    }
  }

  // ---------------------------------------------------------------- the same of patterns and queries

  predicate EndsWith(l: string, m: string) {
    |m| <= |l| && l[|l| - |m|..] == m
  }

  /** Some pattern goes on where the query ends, in its leftmost label or behind it, and the part
      of it up to there is no pattern itself. */
  ghost predicate Cut(stored: set<Path>, q: Path)
    requires q != []
  {
    var n := |q| - 1;
    exists x :: x in stored && |x| > n && CoversTo(x, q, n) && EndsWith(x[n], q[n]) && x[..n] + [q[n]] !in stored
  }

  /** After the same labels, one pattern has a wildcard, and the label of another one ends in the
      byte in which the query's next label ends, one below `+`. */
  ghost predicate HiddenBy(x: Path, y: Path, q: Path, n: nat) {
    && n < |x| && n < |y| && n < |q| && x[..n] == y[..n] && CoversTo(x, q, n)
    && x[n] != "" && q[n] != "" && x[n][|x[n]| - 1] == q[n][|q[n]| - 1] < '+'
    && (y[n] == WILDCARD || y[n] == DOT_WILDCARD)
  }

  ghost predicate Hidden(stored: set<Path>, q: Path) {
    exists x, y, n :: x in stored && y in stored && HiddenBy(x, y, q, n)
  }

  /** A pattern with a leftmost `*` stands for a part of the query only, and no pattern goes on
      after it. */
  ghost predicate Outrun(stored: set<Path>, q: Path) {
    exists y :: && y in stored && 0 < |y| < |q| && y[|y| - 1] == WILDCARD && CoversTo(y, q, |y|)
                && forall x :: x in stored ==> !(y < x)
  }

  lemma ReversedPrefix(m: string, l: string)
    requires Reverse(m) <= Reverse(l)
    ensures EndsWith(l, m)
  {
    var d := |l| - |m|;
    forall i | 0 <= i < |m| ensures l[d + i] == m[i] {
      assert Reverse(m)[|m| - 1 - i] == Reverse(l)[|m| - 1 - i];
    }
  }

  /** The pattern of a key that goes on after `Dotted(a)` with a byte of a label. */
  lemma PatternThrough(stored: set<Path>, keys: seq<string>, a: seq<string>, s: string) returns (x: Path)
    requires StarSet(stored) && KeysFor(keys, stored) && NoDots(a) && '.' !in s
    requires SomeKeyExtends(keys, Dotted(a) + s)
    ensures x in stored && StarPath(x) && |a| < |x| && KeyLabels(x)[..|a|] == a && s <= KeyLabels(x)[|a|]
  {
    var k :| k in keys && Dotted(a) + s <= k;
    x :| x in stored && x != [] && KeyOf(x) == k;
    KeyIsJoin(x);
    LabelsAgree(a, s, KeyLabels(x));
  }

  /** The labels of a key that start a pattern, read backwards, are the pattern's. */
  lemma LabelRead(x: Path, i: nat)
    requires StarPath(x) && i < |x|
    ensures KeyLabels(x)[i] != "+" ==> KeyLabels(x)[i] == Reverse(x[i]) && x[i] == Reverse(KeyLabels(x)[i])
    ensures KeyLabels(x)[i] == "+" ==> i == |x| - 1 && x[i] == DOT_WILDCARD
    ensures KeyLabels(x)[i] == "*" ==> x[i] == WILDCARD
  {
    LabelOfKey(x, i);
    ReverseTwice(x[i]);
    assert Reverse("*") == "*";
  }

  lemma SameStart(x: Path, y: Path, n: nat)
    requires StarPath(x) && StarPath(y) && n < |x| && n < |y| && KeyLabels(x)[..n] == KeyLabels(y)[..n]
    ensures x[..n] == y[..n]
  {
    forall i | 0 <= i < n ensures x[i] == y[i] {
      assert KeyLabels(x)[i] == KeyLabels(x)[..n][i] == KeyLabels(y)[i];
      LabelRead(x, i);
      LabelRead(y, i);
    }
  }

  lemma StartCovers(x: Path, q: Path, a: seq<string>)
    requires StarPath(x) && HostPath(q) && |a| <= |x| && |a| <= |q|
    requires KeyLabels(x)[..|a|] == a && CoversTo(a, ReverseEach(q), |a|)
    ensures CoversTo(x, q, |a|)
  {
    SamePrefix(KeyLabels(x), a, ReverseEach(q));
    SameLabels(x, q, |a|);
  }

  lemma LastReversed(l: string)
    requires l != ""
    ensures Reverse(l) != "" && Reverse(l)[0] == l[|l| - 1]
  {
  }

  lemma HiddenIsStored(stored: set<Path>, keys: seq<string>, q: Path, a: seq<string>)
    requires StarSet(stored) && KeysFor(keys, stored) && HostPath(q) && HiddenAt(keys, ReverseEach(q), a)
    ensures Hidden(stored, q)
  {
    var n := |a|;
    var c := ReverseEach(q)[n][0];
    assert HostLabel(q[n]);
    LastReversed(q[n]);
    assert c in q[n];
    var x := PatternThrough(stored, keys, a, [c]);
    var w := if SomeKeyExtends(keys, Dotted(a) + [WILDCARD_BYTE]) then WILDCARD_BYTE else COMPLEX_WILDCARD_BYTE;
    var y := PatternThrough(stored, keys, a, [w]);
    SameStart(x, y, n);
    StartCovers(x, q, a);
    ByteOfPattern(x, n, c);
    WildcardOfPattern(y, n, w);
    assert HiddenBy(x, y, q, n);
  }

  lemma ByteOfPattern(x: Path, n: nat, c: char)
    requires StarPath(x) && n < |x| && [c] <= KeyLabels(x)[n] && c != '+'
    ensures x[n] != "" && x[n][|x[n]| - 1] == c
  {
    var l := KeyLabels(x)[n];
    assert l[0] == [c][0] == c;
    LabelRead(x, n);
  }

  lemma WildcardOfPattern(y: Path, n: nat, w: char)
    requires StarPath(y) && n < |y| && [w] <= KeyLabels(y)[n] && (w == '*' || w == '+')
    ensures y[n] == if w == '*' then WILDCARD else DOT_WILDCARD
    ensures KeyLabels(y)[n] == [w]
  {
    LabelOfKey(y, n);
    WholeLabel("", w, KeyLabels(y)[n]);
    LabelRead(y, n);
  }

  lemma CutIsStored(stored: set<Path>, keys: seq<string>, q: Path, a: seq<string>)
    requires StarSet(stored) && KeysFor(keys, stored) && HostPath(q) && CutAt(keys, ReverseEach(q), a)
    ensures Cut(stored, q)
  {
    var n, m := |a|, ReverseEach(q)[|a|];
    assert HostLabel(q[n]);
    ReverseKeepsBytes(q[n], '.');
    ReverseKeepsBytes(q[n], '+');
    var x := PatternThrough(stored, keys, a, m);
    StartCovers(x, q, a);
    EndOfPattern(x, q, n);
    if x[..n] + [q[n]] in stored {
      ShortKey(x, q, a);
    }
  }

  lemma StartOfPlus(r: string, l: string)
    requires r <= l
    ensures l == "+" ==> r == "" || '+' in r
  {
    if l == "+" {
      StartsShort(r, '+');
    }
  }

  lemma EndOfPattern(x: Path, q: Path, n: nat)
    requires StarPath(x) && HostPath(q) && n < |x| && n < |q| && Reverse(q[n]) <= KeyLabels(x)[n]
    ensures EndsWith(x[n], q[n])
  {
    assert HostLabel(q[n]);
    ReverseKeepsBytes(q[n], '+');
    StartOfPlus(Reverse(q[n]), KeyLabels(x)[n]);
    LabelRead(x, n);
    ReversedPrefix(q[n], x[n]);
  }

  /** The part of a pattern up to the end of the query has the key `Dotted(a)` and the rest. */
  lemma ShortKey(x: Path, q: Path, a: seq<string>)
    requires StarPath(x) && HostPath(q) && |a| + 1 == |q| && |a| < |x| && KeyLabels(x)[..|a|] == a
    ensures KeyOf(x[..|a|] + [q[|a|]]) == Dotted(a) + Reverse(q[|a|])
  {
    var n := |a|;
    var y := x[..n] + [q[n]];
    assert HostLabel(q[n]);
    ShortIsStar(x, n, q[n]);
    KeyIsJoin(y);
    ShortLabels(x, n, q[n]);
    JoinSnoced(a, Reverse(q[n]));
  }

  lemma ShortIsStar(x: Path, n: nat, l: string)
    requires StarPath(x) && n < |x| && HostLabel(l)
    ensures StarPath(x[..n] + [l])
  {
  }

  lemma KeyLabelIs(x: Path, i: nat)
    requires i < |x| && (i < |x| - 1 || x[i] != DOT_WILDCARD)
    ensures KeyLabels(x)[i] == Reverse(x[i])
  {
    assert Shown(x)[i] == x[i];
  }

  lemma ShortLabels(x: Path, n: nat, l: string)
    requires n < |x| && l != DOT_WILDCARD
    ensures KeyLabels(x[..n] + [l]) == KeyLabels(x)[..n] + [Reverse(l)]
  {
    var y := x[..n] + [l];
    KeyLabelIs(y, n);
    forall i | 0 <= i < n ensures KeyLabels(y)[i] == KeyLabels(x)[i] {
      KeyLabelIs(x, i);
      KeyLabelIs(y, i);
    }
    SameLists(KeyLabels(y), KeyLabels(x), n, Reverse(l));
  }

  lemma SameLists(v: seq<string>, w: seq<string>, n: nat, l: string)
    requires |v| == n + 1 && n <= |w| && v[n] == l && forall i :: 0 <= i < n ==> v[i] == w[i]
    ensures v == w[..n] + [l]
  {
  }

  lemma OutrunIsStored(stored: set<Path>, keys: seq<string>, q: Path, a: seq<string>)
    requires StarSet(stored) && KeysFor(keys, stored) && HostPath(q) && OutrunAt(keys, ReverseEach(q), a)
    ensures Outrun(stored, q)
  {
    var y := PatternThrough(stored, keys, a, [WILDCARD_BYTE]);
    WildcardOfPattern(y, |a|, WILDCARD_BYTE);
    NothingLonger(stored, keys, a, y);
    StartCovers(y, q, a);
    StarCovers(y, q);
  }

  lemma StarCovers(y: Path, q: Path)
    requires 0 < |y| < |q| && y[|y| - 1] == WILDCARD && CoversTo(y, q, |y| - 1)
    ensures CoversTo(y, q, |y|)
  {
  }

  /** If no key goes on after the `*`, then no pattern does. */
  lemma NothingLonger(stored: set<Path>, keys: seq<string>, a: seq<string>, y: Path)
    requires StarSet(stored) && KeysFor(keys, stored) && y in stored
    requires |a| < |y| && KeyLabels(y)[..|a|] == a && y[|a|] == WILDCARD
    requires !SomeKeyExtends(keys, Dotted(a) + [WILDCARD_BYTE] + [DOMAIN_STEP_BYTE])
    ensures |y| == |a| + 1 && forall x :: x in stored ==> !(y < x)
  {
    if |y| > |a| + 1 {
      LongerGoesOn(stored, keys, a, y, y);
    }
    forall x | x in stored ensures !(y < x) {
      IfLonger(stored, keys, a, x, y);
    }
  }

  lemma IfLonger(stored: set<Path>, keys: seq<string>, a: seq<string>, x: Path, y: Path)
    requires StarSet(stored) && KeysFor(keys, stored) && x in stored && y in stored
    requires |a| + 1 == |y| && KeyLabels(y)[..|a|] == a && y[|a|] == WILDCARD
    ensures y < x ==> SomeKeyExtends(keys, Dotted(a) + [WILDCARD_BYTE] + [DOMAIN_STEP_BYTE])
  {
    if y < x {
      LongerGoesOn(stored, keys, a, x, y);
    }
  }

  /** Patterns that start alike have keys that start alike. */
  lemma SameKeyStart(x: Path, y: Path, n: nat)
    requires n < |x| - 1 && n < |y| && x[..n + 1] == y[..n + 1] && y[n] == WILDCARD
    ensures KeyLabels(x)[..n] == KeyLabels(y)[..n] && KeyLabels(x)[n] == "*"
  {
    forall i | 0 <= i <= n ensures KeyLabels(x)[i] == KeyLabels(y)[i] {
      assert x[i] == x[..n + 1][i] == y[i];
      KeyLabelIs(x, i);
      KeyLabelIs(y, i);
    }
    KeyLabelIs(x, n);
    assert x[n] == x[..n + 1][n] == WILDCARD && Reverse(WILDCARD) == "*";
  }

  /** A pattern that goes on after a `*` has a key that does. */
  lemma LongerGoesOn(stored: set<Path>, keys: seq<string>, a: seq<string>, x: Path, y: Path)
    requires StarSet(stored) && KeysFor(keys, stored) && x in stored && y in stored
    requires |a| < |y| && |a| + 1 < |x| && x[..|a| + 1] == y[..|a| + 1]
    requires KeyLabels(y)[..|a|] == a && y[|a|] == WILDCARD
    ensures SomeKeyExtends(keys, Dotted(a) + [WILDCARD_BYTE] + [DOMAIN_STEP_BYTE])
  {
    SameKeyStart(x, y, |a|);
    KeyIsJoin(x);
    LabelThenDot(KeyLabels(x), |a|);
    assert Join(KeyLabels(x)) in keys;
  }

  /** Without the three obstacles on patterns there are none on keys. */
  lemma ClearKeys(stored: set<Path>, keys: seq<string>, q: Path)
    requires StarSet(stored) && KeysFor(keys, stored) && HostPath(q)
    requires !Hidden(stored, q) && !Cut(stored, q) && !Outrun(stored, q)
    ensures Clear(keys, ReverseEach(q))
  {
    var u := ReverseEach(q);
    HostEach(q);
    StarKeysWholeLabels(stored, keys);
    forall i | 0 <= i < |u| ensures u[i] != "" && '+' !in u[i] && '*' !in u[i] {
      assert u[i] in u;
    }
    forall a ensures !HiddenAt(keys, u, a) && !CutAt(keys, u, a) && !OutrunAt(keys, u, a) {
      if HiddenAt(keys, u, a) {
        HiddenIsStored(stored, keys, q, a);
      }
      if CutAt(keys, u, a) {
        CutIsStored(stored, keys, q, a);
      }
      if OutrunAt(keys, u, a) {
        OutrunIsStored(stored, keys, q, a);
      }
    }
  }

  // ---------------------------------------------------------------- set and trie

  lemma MatchIsGoal(stored: set<Path>, keys: seq<string>, q: Path, x: Path)
    requires StarSet(stored) && KeysFor(keys, stored) && HostPath(q) && x in stored && Matches(x, q)
    ensures Goal(keys, ReverseEach(q), KeyLabels(x))
  {
    var u, v, n := ReverseEach(q), KeyLabels(x), |x| - 1;
    KeyIsJoin(x);
    StartStands(x, q);
    if x[n] == DOT_WILDCARD {
      LabelOfKey(x, n);
    } else {
      LabelStands(x, q, n);
    }
  }

  lemma StartStands(x: Path, q: Path)
    requires StarPath(x) && HostPath(q) && Matches(x, q)
    ensures |x| <= |q| && CoversTo(KeyLabels(x), ReverseEach(q), |x| - 1)
    ensures x[|x| - 1] != DOT_WILDCARD ==> |x| == |q| && LabelMatches(x[|x| - 1], q[|x| - 1])
  {
    forall i | 0 <= i < |x| - 1 ensures LabelMatches(KeyLabels(x)[i], ReverseEach(q)[i]) {
      assert LabelMatches(x[i], q[i]);
      LabelStands(x, q, i);
    }
  }

  lemma LabelStands(x: Path, q: Path, i: nat)
    requires StarPath(x) && HostPath(q) && i < |x| && i < |q| && LabelMatches(x[i], q[i])
    ensures LabelMatches(KeyLabels(x)[i], ReverseEach(q)[i])
  {
    assert HostLabel(q[i]);
    LabelOfKey(x, i);
    assert Reverse(WILDCARD) == "*";
  }

  lemma RootFindsAll(keys: seq<string>, u: seq<string>)
    requires Clear(keys, u)
    ensures FoundOrNothing(keys, u, [], "", Find(OnKeys(keys), "", Join(u), 0))
  {
    if SomeKeyExtends(keys, "") {
      FindFindsAll(keys, u, [], "", "", 0);
    } else {
      ByteAt(u, 0, 0);
      NoKeys(keys, Join(u));
      forall v ensures !From(keys, u, [], "", v) {
        if From(keys, u, [], "", v) {
          ExtendsLess(keys, "", Join(v));
        }
      }
    }
  }

  lemma NoKeys(keys: seq<string>, q: string)
    requires !SomeKeyExtends(keys, "") && q != ""
    ensures Find(OnKeys(keys), "", q, 0) == Back
  {
    forall p ensures !SomeKeyExtends(keys, p) {
      if SomeKeyExtends(keys, p) {
        ExtendsLess(keys, "", p);
      }
    }
  }

  lemma FoundIfMatched(stored: set<Path>, keys: seq<string>, q: Path)
    requires StarSet(stored) && KeysFor(keys, stored) && HostPath(q)
    requires !Hidden(stored, q) && !Cut(stored, q) && !Outrun(stored, q)
    ensures Find(OnKeys(keys), "", QueryText(q), 0) != Astray
    ensures TrieMatches(stored, q) ==> Find(OnKeys(keys), "", QueryText(q), 0) == Yes
  {
    ClearKeys(stored, keys, q);
    RootFindsAll(keys, ReverseEach(q));
    if x :| x in stored && Matches(x, q) {
      MatchIsGoal(stored, keys, q, x);
      assert From(keys, ReverseEach(q), [], "", KeyLabels(x));
    }
  }

  /** Patterns with `*` labels anywhere: unless the query is cut or outrun, or a wildcard hidden, the
      set finds exactly what the trie matches. */
  lemma StarsAgree(stored: set<Path>, q: Path, r: bool)
    requires StarSet(stored) && HostPath(q) && SetSays(stored, QueryText(q), r)
    requires !Hidden(stored, q) && !Cut(stored, q) && !Outrun(stored, q)
    ensures r <==> TrieMatches(stored, q)
  {
    var keys := SomeKeysAnswer(stored, QueryText(q), r);
    FoundIfMatched(stored, keys, q);
    SetFindsOnlyMatches(stored, keys, q, r);
  }

  /** End to end, for every trie of such patterns. */
  method HasAgreesOnStars<T(0)>(t: DomainTrie<T>, domain: string) returns (has: bool, found: bool)
    requires t.Valid() && StarSet(t.Stored().Keys)
    requires QueryPath(domain).Some? && '+' !in domain && '*' !in domain
    ensures var stored, q := t.Stored().Keys, QueryPath(domain).value;
            && (found <==> TrieMatches(stored, q))
            && (!Hidden(stored, q) && !Cut(stored, q) && !Outrun(stored, q) ==> (has <==> found))
  {
    StarsAreStored(t.Stored().Keys);
    has, found := HasAndSearch(t, domain);
    QueryIsText(domain);
    ghost var stored, q := t.Stored().Keys, QueryPath(domain).value;
    if !Hidden(stored, q) && !Cut(stored, q) && !Outrun(stored, q) {
      StarsAgree(stored, q, has);
    }
  }
}
