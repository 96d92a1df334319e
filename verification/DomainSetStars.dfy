/** Tries with `*` labels and the sets built from them: unless the walk goes astray, what the set
    finds the trie matches, but not the other way round. */
module DomainSetStars {
  import opened Text
  import opened DomainPatterns
  import opened DomainSetKeys
  import opened DomainSetRefinement
  import opened DomainSets
  import opened DomainSetWalks
  import opened DomainTries

  /** A label of host name bytes, or one that stands for any label. */
  ghost predicate StarLabel(l: string) {
    HostLabel(l) || l == WILDCARD
  }

  ghost predicate StarPath(x: Path) {
    && x != []
    && (forall i :: 0 <= i < |x| - 1 ==> StarLabel(x[i]))
    && (StarLabel(x[|x| - 1]) || (|x| > 1 && x[|x| - 1] == DOT_WILDCARD))
  }

  ghost predicate StarSet(stored: set<Path>) {
    forall x :: x in stored ==> StarPath(x)
  }

  // ---------------------------------------------------------------- labels of keys

  function KeyLabels(x: Path): seq<string> {
    ReverseEach(Shown(x))
  }

  /** `*` and `+` occur in keys as whole labels only. */
  ghost predicate KeyLabel(l: string) {
    l != "" && '.' !in l && ('*' in l ==> l == "*") && ('+' in l ==> l == "+")
  }

  ghost predicate KeyLabelOf(x: Path, i: nat)
    requires i < |x|
  {
    var l := KeyLabels(x)[i];
    && KeyLabel(l)
    && (if l == "+" then i == |x| - 1 && i > 0 && x[i] == DOT_WILDCARD else l == Reverse(x[i]))
  }

  lemma ReversedLabel(l: string)
    requires StarLabel(l)
    ensures KeyLabel(Reverse(l)) && Reverse(l) != "+"
  {
    if l != WILDCARD {
      ReverseKeepsBytes(l, '.');
      ReverseKeepsBytes(l, '*');
      ReverseKeepsBytes(l, '+');
      assert '+' in "+";
    } else {
      assert Reverse(l) == "*";
    }
  }

  lemma LabelOfKey(x: Path, i: nat)
    requires StarPath(x) && i < |x|
    ensures KeyLabelOf(x, i)
  {
    if i == |x| - 1 && x[i] == DOT_WILDCARD {
      assert Shown(x)[i] == COMPLEX_WILDCARD;
      assert Reverse(COMPLEX_WILDCARD) == "+";
    } else {
      assert Shown(x)[i] == x[i];
      ReversedLabel(x[i]);
    }
  }

  lemma KeyIsJoin(x: Path)
    requires StarPath(x)
    ensures KeyOf(x) == Join(KeyLabels(x)) && |KeyLabels(x)| == |x|
    ensures NoDots(KeyLabels(x)) && forall i :: 0 <= i < |x| ==> KeyLabelOf(x, i)
  {
    forall i | 0 <= i < |x| ensures KeyLabelOf(x, i) && '.' !in KeyLabels(x)[i] {
      LabelOfKey(x, i);
    }
    StarIsStored(x);
    DisplayIsShown(x);
    ReverseJoin(ReverseLabels(Shown(x)));
    ReverseTwice(Shown(x));
  }

  lemma StarIsStored(x: Path)
    requires StarPath(x)
    ensures StoredPath(x)
  {
    forall l | l in x ensures '.' !in l {
      var i :| 0 <= i < |x| && x[i] == l;
    }
  }

  // ---------------------------------------------------------------- labels and positions

  /** The labels, each followed by a dot. */
  function Dotted(a: seq<string>): string {
    if a == [] then "" else a[0] + "." + Dotted(a[1..])
  }

  lemma {:induction false} DottedSnoc(a: seq<string>, l: string)
    ensures Dotted(a + [l]) == Dotted(a) + l + "."
  {
    if a != [] {
      assert (a + [l])[1..] == a[1..] + [l];
      DottedSnoc(a[1..], l);
    }
  }

  lemma {:induction false} JoinFrom(u: seq<string>, n: nat)
    requires n < |u|
    ensures Join(u) == Dotted(u[..n]) + Join(u[n..])
  {
    if n > 0 {
      assert u[..n][1..] == u[1..][..n - 1] && u[1..][n - 1..] == u[n..];
      JoinFrom(u[1..], n - 1);
    }
  }

  lemma StartsFirstLabel(s: string, v: seq<string>)
    requires v != [] && '.' !in s && s <= Join(v)
    ensures s <= v[0]
  {
    if |v| > 1 {
      assert Join(v) == v[0] + ("." + Join(v[1..]));
      assert Join(v)[|v[0]|] == '.';
    }
  }

  /** Complete labels and the start of one more can be read off a joined list. */
  lemma {:induction false} LabelsAgree(a: seq<string>, s: string, v: seq<string>)
    requires NoDots(a) && NoDots(v) && '.' !in s && v != [] && Dotted(a) + s <= Join(v)
    ensures |a| < |v| && a == v[..|a|] && s <= v[|a|]
  {
    assert v[0] in v;
    if a == [] {
      StartsFirstLabel(s, v);
    } else {
      assert a[0] in a;
      assert Dotted(a) + s == a[0] + "." + (Dotted(a[1..]) + s);
      FirstLabel(a[0], Dotted(a[1..]) + s, v);
      LabelsAgree(a[1..], s, v[1..]);
      assert a == [a[0]] + a[1..] && v[..|a|] == [v[0]] + v[1..][..|a| - 1];
    }
  }

  /** What the text holds `m` bytes into label `n`. */
  lemma ByteAt(u: seq<string>, n: nat, m: nat)
    requires NoDots(u) && n < |u| && m <= |u[n]|
    ensures var text, i := Join(u), |Dotted(u[..n])| + m;
            && i <= |text|
            && (m < |u[n]| ==> i < |text| && text[i] == u[n][m] != '.')
            && (m == |u[n]| && n + 1 < |u| ==> i < |text| && text[i] == '.')
            && (m == |u[n]| && n + 1 == |u| ==> i == |text|)
  {
    JoinFrom(u, n);
    assert u[n] in u;
    var rest := u[n..];
    assert rest[0] == u[n] && |rest| == |u| - n;
  }

  /** From inside a label the next dot is the one behind it. */
  lemma {:induction false} DotBehind(u: seq<string>, n: nat, m: nat)
    requires NoDots(u) && n < |u| && m <= |u[n]| && |Dotted(u[..n])| + m <= |Join(u)|
    ensures NextDot(Join(u), |Dotted(u[..n])| + m) == |Dotted(u[..n])| + |u[n]|
    decreases |u[n]| - m
  {
    ByteAt(u, n, m);
    if m < |u[n]| {
      ByteAt(u, n, m + 1);
      DotBehind(u, n, m + 1);
    }
  }

  // ---------------------------------------------------------------- the set finds only matches

  /** The first `n` labels of `p` cover those of `q`. */
  ghost predicate CoversTo(p: Path, q: Path, n: nat)
    requires n <= |p| && n <= |q|
  {
    forall i :: 0 <= i < n ==> LabelMatches(p[i], q[i])
  }

  lemma SameLabel(x: Path, q: Path, i: nat)
    requires StarPath(x) && HostPath(q) && i < |x| && i < |q|
    requires LabelMatches(KeyLabels(x)[i], ReverseEach(q)[i])
    ensures LabelMatches(x[i], q[i])
  {
    LabelOfKey(x, i);
    HostEach(q);
    assert ReverseEach(q)[i] in ReverseEach(q);
    assert '+' in "+";
    ReverseTwice(x[i]);
    ReverseTwice(q[i]);
  }

  /** Labels of a key that cover the query's reversed ones belong to a path that covers it. */
  lemma SameLabels(x: Path, q: Path, n: nat)
    requires StarPath(x) && HostPath(q) && n <= |x| && n <= |q|
    requires CoversTo(KeyLabels(x), ReverseEach(q), n)
    ensures CoversTo(x, q, n)
  {
    forall i | 0 <= i < n ensures LabelMatches(x[i], q[i]) {
      SameLabel(x, q, i);
    }
  }

  lemma WholeKey(stored: set<Path>, keys: seq<string>, q: Path, b: seq<string>)
    requires StarSet(stored) && KeysFor(keys, stored) && HostPath(q)
    requires NoDots(b) && |b| == |q| && CoversTo(b, ReverseEach(q), |q|) && Join(b) in keys
    ensures TrieMatches(stored, q)
  {
    var x :| x in stored && x != [] && KeyOf(x) == Join(b);
    KeyIsJoin(x);
    SplitJoin(b);
    SplitJoin(KeyLabels(x));
    SameLabels(x, q, |q|);
    CoverMatches(stored, x, q);
  }

  lemma CoverMatches(stored: set<Path>, x: Path, q: Path)
    requires x in stored && |x| == |q| && CoversTo(x, q, |q|)
    ensures TrieMatches(stored, q)
  {
    assert Matches(x, q);
  }

  lemma DotMatchesBelow(stored: set<Path>, x: Path, q: Path, n: nat)
    requires x in stored && |x| == n + 1 && n < |q| && x[n] == DOT_WILDCARD && CoversTo(x, q, n)
    ensures TrieMatches(stored, q)
  {
    assert Covers(x[..n], q[..n]);
    assert Matches(x, q);
  }

  /** The labels of the key that goes on after `Dotted(a)` with `r` and one of the bytes. */
  lemma KeyThrough(stored: set<Path>, keys: seq<string>, a: seq<string>, r: string, c: char) returns (x: Path)
    requires StarSet(stored) && KeysFor(keys, stored) && NoDots(a) && '.' !in r && (c == '*' || c == '+')
    requires SomeKeyExtends(keys, Dotted(a) + r + [c])
    ensures x in stored && |a| < |x| && KeyLabels(x)[..|a|] == a && r == "" && KeyLabels(x)[|a|] == [c]
    ensures KeyOf(x) in keys && KeyLabelOf(x, |a|)
  {
    var k :| k in keys && Dotted(a) + r + [c] <= k;
    x :| x in stored && x != [] && KeyOf(x) == k;
    KeyIsJoin(x);
    LabelThrough(a, r, c, KeyLabels(x));
    LabelOfKey(x, |a|);
    WholeLabel(r, c, KeyLabels(x)[|a|]);
  }

  lemma LabelThrough(a: seq<string>, r: string, c: char, v: seq<string>)
    requires NoDots(a) && NoDots(v) && v != [] && '.' !in r && c != '.' && Dotted(a) + r + [c] <= Join(v)
    ensures |a| < |v| && a == v[..|a|] && r + [c] <= v[|a|]
  {
    Regroup(Dotted(a), r, [c]);
    NoDotAdded(r, c);
    LabelsAgree(a, r + [c], v);
  }

  lemma NoDotAdded(r: string, c: char)
    requires '.' !in r && c != '.'
    ensures '.' !in r + [c]
  {
  }

  lemma Regroup(s: string, t: string, u: string)
    ensures s + t + u == s + (t + u)
  {
  }

  lemma WholeLabel(r: string, c: char, l: string)
    requires KeyLabel(l) && r + [c] <= l && (c == '*' || c == '+')
    ensures r == "" && l == [c]
  {
    assert (r + [c])[|r|] == l[|r|];
    assert c in l;
  }

  lemma PlusSound(stored: set<Path>, keys: seq<string>, q: Path, a: seq<string>, r: string)
    requires StarSet(stored) && KeysFor(keys, stored) && HostPath(q) && NoDots(a) && '.' !in r
    requires |a| < |q| && CoversTo(a, ReverseEach(q), |a|)
    requires SomeKeyExtends(keys, Dotted(a) + r + [COMPLEX_WILDCARD_BYTE])
    ensures TrieMatches(stored, q)
  {
    var x := KeyThrough(stored, keys, a, r, COMPLEX_WILDCARD_BYTE);
    SamePrefix(KeyLabels(x), a, ReverseEach(q));
    SameLabels(x, q, |a|);
    DotMatchesBelow(stored, x, q, |a|);
  }

  lemma SamePrefix(v: seq<string>, a: seq<string>, u: seq<string>)
    requires |a| <= |v| && |a| <= |u| && v[..|a|] == a && CoversTo(a, u, |a|)
    ensures CoversTo(v, u, |a|)
  {
    forall i | 0 <= i < |a| ensures LabelMatches(v[i], u[i]) {
      assert v[i] == v[..|a|][i];
    }
  }

  lemma Snoc(a: seq<string>, l: string, u: seq<string>, n: nat)
    requires NoDots(a) && '.' !in l && n == |a| + 1 <= |u| && CoversTo(a, u, |a|) && LabelMatches(l, u[|a|])
    ensures NoDots(a + [l]) && CoversTo(a + [l], u, n)
  {
  }

  lemma JoinSnoced(a: seq<string>, l: string)
    ensures Join(a + [l]) == Dotted(a) + l
  {
    var b := a + [l];
    JoinFrom(b, |a|);
    assert b[..|a|] == a && b[|a|..] == [l];
  }

  /** Where the walk stands: at the node of `p`, after the complete labels `a`, which cover
      those of the query, and the start `r` of the next one. */
  ghost predicate Standing(u: seq<string>, a: seq<string>, r: string, p: string, i: nat) {
    && NoDots(a) && |a| < |u| && CoversTo(a, u, |a|)
    && r <= u[|a|] && i == |Dotted(u[..|a|])| + |r| <= |Join(u)| && p == Dotted(a) + r
  }

  lemma NextByte(u: seq<string>, a: seq<string>, r: string, p: string, i: nat)
    requires NoDots(u) && Standing(u, a, r, p, i) && i < |Join(u)| && |r| < |u[|a|]|
    ensures Standing(u, a, r + [Join(u)[i]], p + [Join(u)[i]], i + 1)
  {
    ByteAt(u, |a|, |r|);
    Regroup(Dotted(a), r, [Join(u)[i]]);
  }

  /** The position after a complete label and its dot. */
  lemma AfterLabel(u: seq<string>, a: seq<string>, l: string, p: string)
    requires NoDots(u) && NoDots(a) && '.' !in l && |a| + 1 < |u| && p == Dotted(a) + l
    requires CoversTo(a, u, |a|) && LabelMatches(l, u[|a|])
    ensures Standing(u, a + [l], "", p + ['.'], |Dotted(u[..|a|])| + |u[|a|]| + 1)
  {
    Snoc(a, l, u, |a| + 1);
    DottedNext(u, |a|);
    ByteAt(u, |a| + 1, 0);
    DottedSnoc(a, l);
  }

  lemma StepOn(u: seq<string>, a: seq<string>, r: string, p: string, i: nat) returns (b: seq<string>, s: string)
    requires NoDots(u) && Standing(u, a, r, p, i) && i < |Join(u)|
    ensures Standing(u, b, s, p + [Join(u)[i]], i + 1)
  {
    ByteAt(u, |a|, |r|);
    assert u[|a|] in u;
    if |r| < |u[|a|]| {
      NextByte(u, a, r, p, i);
      b, s := a, r + [Join(u)[i]];
    } else {
      AfterLabel(u, a, r, p);
      b, s := a + [r], "";
    }
  }

  lemma WhereItStands(u: seq<string>, a: seq<string>, r: string, p: string, i: nat)
    requires NoDots(u) && Standing(u, a, r, p, i)
    ensures '.' !in r && (i == |Join(u)| ==> |a| + 1 == |u| && r == u[|a|])
  {
    ByteAt(u, |a|, |r|);
    assert u[|a|] in u;
  }

  lemma DottedNext(u: seq<string>, n: nat)
    requires n < |u|
    ensures Dotted(u[..n + 1]) == Dotted(u[..n]) + u[n] + "."
  {
    assert u[..n] + [u[n]] == u[..n + 1];
    DottedSnoc(u[..n], u[n]);
  }

  /** What a yes can come from. */
  lemma YesFrom(t: Tree, p: string, q: string, i: nat)
    requires i < |q| && Find(t, p, q, i).Yes?
    ensures || PlusFirst(t.keys, p, q[i])
            || Find(t, p + [q[i]], q, i + 1).Yes?
            || (SomeKeyExtends(t.keys, p + [WILDCARD_BYTE]) && Resume(t, p + [WILDCARD_BYTE], q, i).Yes?)
  {
  }

  lemma YesBehindStar(t: Tree, p: string, u: seq<string>, n: nat, i: nat)
    requires StaysInside(t) && NoDots(u) && n < |u| && i == |Dotted(u[..n])| <= |Join(u)|
    requires Resume(t, p, Join(u), i).Yes?
    ensures i + |u[n]| <= |Join(u)|
    ensures if n + 1 == |u| then p in t.keys
            else i + |u[n]| < |Join(u)| && Find(t, p + [DOMAIN_STEP_BYTE], Join(u), i + |u[n]| + 1).Yes?
  {
    DotBehind(u, n, 0);
    ByteAt(u, n, |u[n]|);
  }

  /** A `*` or `+` follows complete labels only. */
  ghost predicate LabelStart(keys: seq<string>, a: seq<string>, r: string) {
    NoDots(a) && '.' !in r && r != "" ==>
      && !SomeKeyExtends(keys, Dotted(a) + r + [WILDCARD_BYTE])
      && !SomeKeyExtends(keys, Dotted(a) + r + [COMPLEX_WILDCARD_BYTE])
  }

  ghost predicate WholeLabels(keys: seq<string>) {
    forall a, r :: LabelStart(keys, a, r)
  }

  ghost predicate CoveredBy(keys: seq<string>, u: seq<string>, b: seq<string>) {
    NoDots(b) && |b| == |u| && CoversTo(b, u, |u|) && Join(b) in keys
  }

  ghost predicate CoveredByPlus(keys: seq<string>, u: seq<string>, a: seq<string>) {
    NoDots(a) && |a| < |u| && CoversTo(a, u, |a|) && SomeKeyExtends(keys, Dotted(a) + [COMPLEX_WILDCARD_BYTE])
  }

  /** Some key covers the labels `u`, or covers some and goes on with a `+`. */
  ghost predicate KeyCovers(keys: seq<string>, u: seq<string>) {
    (exists b :: CoveredBy(keys, u, b)) || (exists a :: CoveredByPlus(keys, u, a))
  }

  lemma LastLabelCovers(keys: seq<string>, u: seq<string>, a: seq<string>, l: string)
    requires NoDots(a) && '.' !in l && |a| + 1 == |u| && CoversTo(a, u, |a|)
    requires LabelMatches(l, u[|a|]) && Dotted(a) + l in keys
    ensures KeyCovers(keys, u)
  {
    JoinSnoced(a, l);
    Snoc(a, l, u, |u|);
    assert CoveredBy(keys, u, a + [l]);
  }

  lemma PlusCovers(keys: seq<string>, u: seq<string>, a: seq<string>, r: string)
    requires WholeLabels(keys) && NoDots(a) && '.' !in r && |a| < |u| && CoversTo(a, u, |a|)
    requires SomeKeyExtends(keys, Dotted(a) + r + [COMPLEX_WILDCARD_BYTE])
    ensures KeyCovers(keys, u)
  {
    assert LabelStart(keys, a, r);
    assert Dotted(a) + r == Dotted(a);
    assert CoveredByPlus(keys, u, a);
  }

  /** Wherever the walk stands, its path covers what it has read of the query. */
  lemma {:induction false} FindCovers(t: Tree, u: seq<string>, a: seq<string>, r: string, p: string, i: nat)
    requires StaysInside(t) && WholeLabels(t.keys) && NoDots(u)
    requires Standing(u, a, r, p, i) && Find(t, p, Join(u), i).Yes?
    ensures KeyCovers(t.keys, u)
    decreases |Join(u)| - i
  {
    WhereItStands(u, a, r, p, i);
    if i == |Join(u)| {
      LastLabelCovers(t.keys, u, a, r);
    } else {
      YesFrom(t, p, Join(u), i);
      if PlusFirst(t.keys, p, Join(u)[i]) {
        PlusCovers(t.keys, u, a, r);
      } else if Find(t, p + [Join(u)[i]], Join(u), i + 1).Yes? {
        var b, s := StepOn(u, a, r, p, i);
        FindCovers(t, u, b, s, p + [Join(u)[i]], i + 1);
      } else {
        assert LabelStart(t.keys, a, r);
        ResumeCovers(t, u, a, p + [WILDCARD_BYTE], i);
      }
    }
  }

  lemma {:induction false} ResumeCovers(t: Tree, u: seq<string>, a: seq<string>, p: string, i: nat)
    requires StaysInside(t) && WholeLabels(t.keys) && NoDots(u) && NoDots(a) && |a| < |u| && CoversTo(a, u, |a|)
    requires p == Dotted(a) + WILDCARD && i == |Dotted(u[..|a|])| < |Join(u)| && Resume(t, p, Join(u), i).Yes?
    ensures KeyCovers(t.keys, u)
    decreases |Join(u)| - i, 0
  {
    YesBehindStar(t, p, u, |a|, i);
    if |a| + 1 == |u| {
      LastLabelCovers(t.keys, u, a, WILDCARD);
    } else {
      AfterLabel(u, a, WILDCARD, p);
      FindCovers(t, u, a + [WILDCARD], "", p + [DOMAIN_STEP_BYTE], i + |u[|a|]| + 1);
    }
  }

  lemma StarKeysWholeLabels(stored: set<Path>, keys: seq<string>)
    requires StarSet(stored) && KeysFor(keys, stored)
    ensures WholeLabels(keys)
  {
    forall a, r ensures LabelStart(keys, a, r) {
      if NoDots(a) && '.' !in r && r != "" {
        if SomeKeyExtends(keys, Dotted(a) + r + [WILDCARD_BYTE]) {
          var x := KeyThrough(stored, keys, a, r, WILDCARD_BYTE);
        }
        if SomeKeyExtends(keys, Dotted(a) + r + [COMPLEX_WILDCARD_BYTE]) {
          var x := KeyThrough(stored, keys, a, r, COMPLEX_WILDCARD_BYTE);
        }
      }
    }
  }

  lemma CoveringKeyMatches(stored: set<Path>, keys: seq<string>, q: Path)
    requires StarSet(stored) && KeysFor(keys, stored) && HostPath(q) && KeyCovers(keys, ReverseEach(q))
    ensures TrieMatches(stored, q)
  {
    if b :| CoveredBy(keys, ReverseEach(q), b) {
      WholeKey(stored, keys, q, b);
    } else {
      var a :| CoveredByPlus(keys, ReverseEach(q), a);
      assert Dotted(a) + "" == Dotted(a);
      PlusSound(stored, keys, q, a, "");
    }
  }

  /** Unless its walk goes astray, a set built from a trie finds only names that the trie
      matches, `*` labels included. */
  lemma SetFindsOnlyMatches(stored: set<Path>, keys: seq<string>, q: Path, r: bool)
    requires StarSet(stored) && KeysFor(keys, stored) && HostPath(q)
    requires KeysAnswer(keys, QueryText(q), r) && Find(OnKeys(keys), "", QueryText(q), 0) != Astray
    ensures r ==> TrieMatches(stored, q)
  {
    if r {
      StarKeysWholeLabels(stored, keys);
      HostEach(q);
      FindCovers(OnKeys(keys), ReverseEach(q), [], "", "", 0);
      CoveringKeyMatches(stored, keys, q);
    }
  }

  // ---------------------------------------------------------------- but not all of them

  /** The last byte of a label list's text belongs to its last label. */
  lemma LongerLast(y: Path, l: string)
    requires HostPath(y + [l])
    ensures QueryText(y + [LongerLabel(l)]) == QueryText(y + [l]) + "a"
  {
    ReverseConcat("a", l);
    assert Reverse("a" + l) == Reverse(l) + "a";
    TextSnoc(y, l);
    TextSnoc(y, "a" + l);
  }

  lemma TextSnoc(y: Path, l: string)
    ensures QueryText(y + [l]) == Dotted(ReverseEach(y)) + Reverse(l)
  {
    assert ReverseEach(y + [l]) == ReverseEach(y) + [Reverse(l)];
    JoinSnoced(ReverseEach(y), Reverse(l));
  }

  /** A `*` for the query's last label, and a longer label in its place. */
  function StarAndLonger(q: Path): set<Path>
    requires q != []
  {
    {q[..|q| - 1] + [WILDCARD], q[..|q| - 1] + [LongerLabel(q[|q| - 1])]}
  }

  /** A `*` for the last label next to a longer label: the walk follows the longer label, is
      used up inside it and does not come back to the `*`. */
  lemma StarIsMissed(q: Path, stored: set<Path>, keys: seq<string>)
    requires HostPath(q) && stored == StarAndLonger(q) && KeysFor(keys, stored)
    ensures StarSet(stored) && TrieMatches(stored, q) && Find(OnKeys(keys), "", QueryText(q), 0) == No
  {
    var y, l := q[..|q| - 1], q[|q| - 1];
    LastLabel(q);
    StarPaths(y, l);
    StarTwo(y + [WILDCARD], y + [LongerLabel(l)]);
    StarMatches(stored, q, y, l);
    KeysOfTwo(keys, y + [WILDCARD], y + [LongerLabel(l)]);
    KeysFit(y, l);
    NotFound(keys, QueryText(q), KeyOf(y + [WILDCARD]), KeyOf(y + [LongerLabel(l)]));
  }

  lemma KeysOfTwo(keys: seq<string>, a: Path, b: Path)
    requires KeysFor(keys, {a, b}) && a != [] && b != []
    ensures KeyOf(b) in keys && forall k :: k in keys ==> k == KeyOf(a) || k == KeyOf(b)
  {
  }

  lemma LastLabel(q: Path)
    requires HostPath(q)
    ensures var y, l := q[..|q| - 1], q[|q| - 1];
            q == y + [l] && HostLabel(l) && HostPath(y + [LongerLabel(l)])
  {
    var y, l := q[..|q| - 1], q[|q| - 1];
    assert HostLabel(q[|q| - 1]);
    forall k | k in y + [LongerLabel(l)] ensures HostLabel(k) {
      if k != LongerLabel(l) {
        var i :| 0 <= i < |y| && y[i] == k;
        assert q[i] == k && HostLabel(q[i]);
      }
    }
  }

  lemma StarTwo(a: Path, b: Path)
    requires StarPath(a) && StarPath(b)
    ensures StarSet({a, b})
  {
  }

  lemma KeysFit(y: Path, l: string)
    requires HostPath(y + [l]) && HostPath(y + [LongerLabel(l)]) && StarPath(y + [WILDCARD])
    ensures var text, star, longer := QueryText(y + [l]), KeyOf(y + [WILDCARD]), KeyOf(y + [LongerLabel(l)]);
            '*' !in text && '+' !in text && '*' in star && '+' !in star && longer == text + "a"
  {
    LongerLast(y, l);
    HostKey(y + [LongerLabel(l)]);
    HostKey(y + [l]);
    StarKey(y);
    TextSnoc(y, l);
  }

  lemma NotFound(keys: seq<string>, text: string, star: string, longer: string)
    requires longer in keys && forall k :: k in keys ==> k == star || k == longer
    requires '*' !in text && '+' !in text && '*' in star && '+' !in star && longer == text + "a"
    ensures Find(OnKeys(keys), "", text, 0) == No
  {
    assert text <= longer;
    forall k | 0 <= k < |text| ensures !PlusHit(keys, text, k) {
      NoPlus(keys, text[..k]);
    }
    FindUsedUp(keys, text, 0);
  }

  lemma PlusInside(p: string, k: string)
    ensures p + [COMPLEX_WILDCARD_BYTE] <= k ==> '+' in k
  {
    if p + [COMPLEX_WILDCARD_BYTE] <= k {
      assert k[|p|] == '+';
    }
  }

  lemma NoPlus(keys: seq<string>, p: string)
    requires forall k :: k in keys ==> '+' !in k
    ensures !SomeKeyExtends(keys, p + [COMPLEX_WILDCARD_BYTE])
  {
    forall k | k in keys ensures !(p + [COMPLEX_WILDCARD_BYTE] <= k) {
      PlusInside(p, k);
    }
  }

  lemma StarPaths(y: Path, l: string)
    requires HostPath(y + [l]) && HostPath(y + [LongerLabel(l)])
    ensures StarPath(y + [WILDCARD]) && StarPath(y + [LongerLabel(l)])
  {
    var star, longer := y + [WILDCARD], y + [LongerLabel(l)];
    forall i | 0 <= i < |y| ensures HostLabel(y[i]) {
      assert y[i] in y + [l];
    }
    assert LongerLabel(l) in longer;
  }

  lemma StarMatches(stored: set<Path>, q: Path, y: Path, l: string)
    requires y + [WILDCARD] in stored && q == y + [l]
    ensures TrieMatches(stored, q)
  {
    CoverMatches(stored, y + [WILDCARD], q);
  }

  lemma StarKey(y: Path)
    requires StarPath(y + [WILDCARD])
    ensures KeyOf(y + [WILDCARD]) == Dotted(ReverseEach(y)) + "*"
  {
    var x := y + [WILDCARD];
    KeyIsJoin(x);
    assert Shown(x) == x;
    TextSnoc(y, WILDCARD);
    assert Reverse(WILDCARD) == "*";
  }

  ghost predicate AgreesOnStars(q: Path) {
    forall stored, keys, r :: StarSet(stored) && KeysFor(keys, stored) && KeysAnswer(keys, QueryText(q), r) ==>
      (r <==> TrieMatches(stored, q))
  }

  /** With `*` patterns, set and trie agree on no query at all for every trie. */
  lemma NeverAgreesOnStars(q: Path)
    requires HostPath(q)
    ensures !AgreesOnStars(q)
  {
    var star, longer := q[..|q| - 1] + [WILDCARD], q[..|q| - 1] + [LongerLabel(q[|q| - 1])];
    var keys := [KeyOf(star), KeyOf(longer)];
    KeysForTwo(star, longer);
    StarIsMissed(q, StarAndLonger(q), keys);
    assert KeysAnswer(keys, QueryText(q), false);
  }

  // ---------------------------------------------------------------- set and trie

  /** No pattern has its leftmost label `*`. */
  ghost predicate NoStarInFront(stored: set<Path>) {
    forall x :: x in stored && x != [] ==> x[|x| - 1] != WILDCARD
  }

  /** Where in a joined list a byte other than the dot lies. */
  lemma {:induction false} LabelAt(v: seq<string>, t: nat) returns (n: nat, r: string)
    requires v != [] && t < |Join(v)| && Join(v)[t] != '.'
    ensures n < |v| && Join(v)[..t] == Dotted(v[..n]) + r
    ensures |r| < |v[n]| && r == v[n][..|r|] && v[n][|r|] == Join(v)[t]
  {
    if t < |v[0]| {
      n, r := 0, v[0][..t];
      assert Join(v)[..t] == r;
    } else {
      var s := t - |v[0]| - 1;
      assert Join(v) == v[0] + "." + Join(v[1..]);
      assert Join(v)[t] == Join(v[1..])[s];
      var m, r' := LabelAt(v[1..], s);
      n, r := m + 1, r';
      assert v[n] == v[1..][m];
      AfterFirstLabel(v, m, s, r);
    }
  }

  lemma AfterFirstLabel(v: seq<string>, m: nat, s: nat, r: string)
    requires m + 1 < |v| && s <= |Join(v[1..])| && Join(v[1..])[..s] == Dotted(v[1..][..m]) + r
    ensures |v[0]| + 1 + s <= |Join(v)|
    ensures Join(v)[..|v[0]| + 1 + s] == Dotted(v[..m + 1]) + r
  {
    assert v[..m + 1][1..] == v[1..][..m];
    var rest := Join(v[1..]);
    assert (v[0] + "." + rest)[..|v[0]| + 1 + s] == v[0] + "." + rest[..s];
  }

  /** Then every `*` in a key is followed by a dot. */
  lemma StarsAreFollowed(stored: set<Path>, keys: seq<string>)
    requires StarSet(stored) && KeysFor(keys, stored) && NoStarInFront(stored)
    ensures StarsGoOn(keys)
  {
    forall p {:trigger p + [WILDCARD_BYTE]} | SomeKeyExtends(keys, p + [WILDCARD_BYTE])
      ensures SomeKeyExtends(keys, p + [WILDCARD_BYTE] + [DOMAIN_STEP_BYTE])
    {
      var k :| k in keys && p + [WILDCARD_BYTE] <= k;
      var x :| x in stored && x != [] && KeyOf(x) == k;
      KeyIsJoin(x);
      StarIsFollowed(x, p);
    }
  }

  lemma StarIsFollowed(x: Path, p: string)
    requires StarPath(x) && x[|x| - 1] != WILDCARD && p + [WILDCARD_BYTE] <= Join(KeyLabels(x))
    ensures p + [WILDCARD_BYTE] + [DOMAIN_STEP_BYTE] <= Join(KeyLabels(x))
  {
    var v := KeyLabels(x);
    StarAt(p, Join(v));
    var n, r := LabelAt(v, |p|);
    LabelOfKey(x, n);
    StartsLabel(r, v[n]);
    WholeLabel(r, WILDCARD_BYTE, v[n]);
    LastIsNoStar(x);
    LabelThenDot(v, n);
  }

  lemma StartsLabel(r: string, l: string)
    requires |r| < |l| && r == l[..|r|]
    ensures r + [l[|r|]] <= l
  {
  }

  lemma LastIsNoStar(x: Path)
    requires StarPath(x) && x[|x| - 1] != WILDCARD
    ensures KeyLabels(x)[|x| - 1] != "*"
  {
    LabelOfKey(x, |x| - 1);
    ReverseTwice(x[|x| - 1]);
    assert Reverse("*") == "*";
  }

  lemma StarAt(p: string, k: string)
    requires p + [WILDCARD_BYTE] <= k
    ensures |p| < |k| && k[|p|] == WILDCARD_BYTE && k[..|p|] == p
  {
    assert (p + [WILDCARD_BYTE])[|p|] == WILDCARD_BYTE;
  }

  lemma LabelThenDot(v: seq<string>, n: nat)
    requires n + 1 < |v|
    ensures Dotted(v[..n]) + v[n] + ['.'] <= Join(v)
  {
    JoinFrom(v, n + 1);
    DottedNext(v, n);
    StartOf(Dotted(v[..n + 1]), Join(v[n + 1..]));
  }

  lemma StartOf(s: string, t: string)
    ensures s <= s + t
  {
  }

  /** A query with one label has no dot to search for. */
  lemma {:induction false} SingleLabelStays(keys: seq<string>, p: string, q: string, i: nat)
    requires i <= |q| && '.' !in q
    ensures Find(OnKeys(keys), p, q, i) != Astray
    decreases |q| - i
  {
    if i < |q| {
      SingleLabelStays(keys, p + [q[i]], q, i + 1);
      assert NextDot(q, i) == |q|;
    }
  }

  /** On one label, or without a leftmost `*`, the walk does not go astray. */
  lemma StarAnswer(stored: set<Path>, q: Path, r: bool)
    requires StarSet(stored) && HostPath(q) && SetSays(stored, QueryText(q), r)
    requires |q| == 1 || NoStarInFront(stored)
    ensures r ==> TrieMatches(stored, q)
  {
    var keys := SomeKeysAnswer(stored, QueryText(q), r);
    if |q| == 1 {
      HostEach(q);
      assert ReverseEach(q)[0] in ReverseEach(q);
      SingleLabelStays(keys, "", QueryText(q), 0);
    } else {
      StarsAreFollowed(stored, keys);
      NeverAstray(keys, "", QueryText(q), 0);
    }
    SetFindsOnlyMatches(stored, keys, q, r);
  }

  /** End to end: for a query of one label, or without a leftmost `*`, the set finds only what
      the search finds. */
  method HasOnlyWithSearch<T(0)>(t: DomainTrie<T>, domain: string) returns (has: bool, found: bool)
    requires t.Valid() && StarSet(t.Stored().Keys)
    requires QueryPath(domain).Some? && '+' !in domain && '*' !in domain
    ensures found <==> TrieMatches(t.Stored().Keys, QueryPath(domain).value)
    ensures |QueryPath(domain).value| == 1 || NoStarInFront(t.Stored().Keys) ==> (has ==> found)
  {
    StarsAreStored(t.Stored().Keys);
    has, found := HasAndSearch(t, domain);
    QueryIsText(domain);
    if |QueryPath(domain).value| == 1 || NoStarInFront(t.Stored().Keys) {
      StarAnswer(t.Stored().Keys, QueryPath(domain).value, has);
    }
  }

  lemma StarsAreStored(stored: set<Path>)
    requires StarSet(stored)
    ensures StoredSet(stored) && NoTwins(stored)
  {
    forall x | x in stored ensures StoredPath(x) {
      StarIsStored(x);
    }
    forall x: Path | x != [] ensures x + [COMPLEX_WILDCARD] !in stored {
      assert '+' in COMPLEX_WILDCARD;
    }
  }
}
