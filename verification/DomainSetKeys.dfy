/** From the trie to the keys of its set: which stored paths share a key, what that does to the
    build, and the set of a trie without such pairs. */
module DomainSetKeys {
  import opened Text
  import opened Wrappers
  import opened DomainPatterns
  import opened DomainSets
  import opened DomainTries

  /** The set's key for a stored path: the reported name, read backwards. */
  function KeyOf(x: Path): string {
    Reverse(Display(x))
  }

  /** `keys` are the keys of the stored paths other than the root. */
  ghost predicate KeysFor(keys: seq<string>, stored: set<Path>) {
    && (forall k :: k in keys ==> exists x :: x in stored && x != [] && KeyOf(x) == k)
    && (forall x :: x in stored && x != [] ==> KeyOf(x) in keys)
  }

  // ---------------------------------------------------------------- what tries store

  /** Labels hold no dots, and only the leftmost one may be empty. */
  ghost predicate StoredPath(x: Path) {
    NoDots(x) && forall i :: 0 <= i < |x| - 1 ==> x[i] != ""
  }

  ghost predicate StoredSet(stored: set<Path>) {
    forall x :: x in stored ==> StoredPath(x)
  }

  lemma WrittenIsStoredPath(parts: seq<string>)
    requires NoDots(parts) && forall i :: 0 < i < |parts| ==> parts[i] != ""
    ensures StoredPath(ReverseLabels(parts))
  {
    var x := ReverseLabels(parts);
    forall l | l in x ensures '.' !in l {
      var i :| 0 <= i < |x| && x[i] == l;
      assert parts[|parts| - 1 - i] == l;
    }
  }

  lemma InsertKeepsStored<T>(stored: map<Path, T>, domain: string, data: T)
    requires StoredSet(stored.Keys) && ValidAndSplitDomain(domain).Some?
    ensures StoredSet(InsertInto(stored, ValidAndSplitDomain(domain).value, data).Keys)
  {
    var parts := ValidAndSplitDomain(domain).value;
    SplitHasNoDots(Lower(domain));
    forall i | 0 < i < |parts| ensures parts[i] != "" {
      assert parts[1..][i - 1] == parts[i];
    }
    WrittenIsStoredPath(parts);
    var rest, dot := parts[1..], [DOT_WILDCARD] + parts[1..];
    forall i | 0 < i < |dot| ensures dot[i] != "" {
      assert dot[i] == parts[i];
    }
    assert forall i :: 0 < i < |rest| ==> rest[i] == parts[i + 1];
    WrittenIsStoredPath(rest);
    WrittenIsStoredPath(dot);
  }

  /** Whatever is inserted, a trie stores only such paths. */
  lemma {:induction false} RunIsStored<T>(ops: seq<Op<T>>)
    ensures StoredSet(Run(ops).Keys)
  {
    if ops != [] {
      var init, op := ops[..|ops| - 1], ops[|ops| - 1];
      RunIsStored(init);
      if op.InsertOp? && ValidAndSplitDomain(op.domain).Some? {
        InsertKeepsStored(Run(init), op.domain, op.data);
      }
    }
  }

  // ---------------------------------------------------------------- paths with the same key

  /** One path leads to the leading dot, the other to the literal label `+`, below the same
      labels. */
  ghost predicate Twins(a: Path, b: Path) {
    exists x: Path :: x != [] && {a, b} == {x + [DOT_WILDCARD], x + [COMPLEX_WILDCARD]}
  }

  ghost predicate NoTwins(stored: set<Path>) {
    forall x: Path {:trigger x + [DOT_WILDCARD]} :: x != [] ==>
      !(x + [DOT_WILDCARD] in stored && x + [COMPLEX_WILDCARD] in stored)
  }

  /** The labels whose names are displayed. */
  function Shown(x: Path): Path {
    if |x| > 1 && x[|x| - 1] == DOT_WILDCARD then x[..|x| - 1] + [COMPLEX_WILDCARD] else x
  }

  lemma DisplayIsShown(x: Path)
    requires StoredPath(x) && x != []
    ensures Display(x) == Join(ReverseLabels(Shown(x)))
  {
    var parts := ReverseLabels(x);
    if |x| > 1 {
      var rest := parts[1..];
      assert Join(parts) == parts[0] + "." + Join(rest);
      assert parts[0] == x[|x| - 1] && '.' !in parts[0];
      if parts[0] == DOT_WILDCARD {
        assert Join(parts)[0] == '.';
        assert ReverseLabels(Shown(x)) == [COMPLEX_WILDCARD] + rest;
        assert ([COMPLEX_WILDCARD] + rest)[1..] == rest;
      } else {
        assert Join(parts)[0] == parts[0][0];
      }
    } else {
      assert Join(parts) == x[0];
    }
  }

  lemma ShownIsDotFree(x: Path)
    requires StoredPath(x)
    ensures NoDots(ReverseLabels(Shown(x)))
  {
    var parts := ReverseLabels(Shown(x));
    forall l | l in parts ensures '.' !in l {
      var i :| 0 <= i < |parts| && parts[i] == l;
      assert Shown(x)[|parts| - 1 - i] == l;
      assert l == COMPLEX_WILDCARD || l in x;
    }
  }

  lemma SameShown(a: Path, b: Path)
    requires StoredPath(a) && StoredPath(b) && a != [] && b != []
    ensures Display(a) == Display(b) <==> Shown(a) == Shown(b)
  {
    DisplayIsShown(a);
    DisplayIsShown(b);
    ShownIsDotFree(a);
    ShownIsDotFree(b);
    if Display(a) == Display(b) {
      var p, q := ReverseLabels(Shown(a)), ReverseLabels(Shown(b));
      SplitJoin(p);
      SplitJoin(q);
      ReverseTwice(Shown(a));
      ReverseTwice(Shown(b));
    }
  }

  /** Two stored paths have the same key if and only if they are the same or twins. */
  lemma SameKey(a: Path, b: Path)
    requires StoredPath(a) && StoredPath(b) && a != [] && b != []
    ensures KeyOf(a) == KeyOf(b) <==> a == b || Twins(a, b)
  {
    ReverseTwice(Display(a));
    ReverseTwice(Display(b));
    SameShown(a, b);
    ShownTwins(a, b);
  }

  lemma ShownTwins(a: Path, b: Path)
    requires a != [] && b != []
    ensures Shown(a) == Shown(b) <==> a == b || Twins(a, b)
  {
    if Shown(a) == Shown(b) && a != b {
      if Shown(a) != a {
        TwinsOf(a, b);
      } else {
        TwinsOf(b, a);
      }
    }
    if Twins(a, b) && a != b {
      var x: Path :| x != [] && {a, b} == {x + [DOT_WILDCARD], x + [COMPLEX_WILDCARD]};
      assert a in {a, b} && b in {a, b};
      assert (x + [DOT_WILDCARD])[..|x|] == x;
    }
  }

  lemma TwinsOf(a: Path, b: Path)
    requires a != [] && b != [] && a != b && Shown(a) == Shown(b) && Shown(a) != a
    ensures Twins(a, b)
  {
    var x := a[..|a| - 1];
    assert a == x + [DOT_WILDCARD];
    assert Shown(a)[..|x|] == x && Shown(b)[..|x|] == b[..|x|];
    assert b == b[..|x|] + [b[|x|]];
    assert b == x + [COMPLEX_WILDCARD];
    assert {a, b} == {x + [DOT_WILDCARD], x + [COMPLEX_WILDCARD]};
  }

  /** `+.+.x` next to `.x` stores such a pair. */
  lemma TwinsExample<T>(data: T)
    ensures var stored := Run([InsertOp("+.+.x", data), InsertOp(".x", data)]);
            && ["x", "+"] in stored && ["x", ""] in stored && KeyOf(["x", "+"]) == KeyOf(["x", ""])
            && !NoTwins(stored.Keys)
  {
    var ops := [InsertOp("+.+.x", data), InsertOp(".x", data)];
    ExampleWrites(data);
    assert OpWrites(ops[0], ["x", "+"]) && OpWrites(ops[1], ["x", ""]);
    RunHolds(ops, ["x", "+"]);
    RunHolds(ops, ["x", ""]);
    ExampleTwins(Run(ops).Keys);
  }

  lemma ExampleWrites<T>(data: T)
    ensures OpWrites(InsertOp("+.+.x", data), ["x", "+"]) && OpWrites(InsertOp(".x", data), ["x", ""])
  {
    ExampleParts();
    assert ReverseLabels(["+", "x"]) == ["x", "+"] && ReverseLabels(["", "x"]) == ["x", ""];
    assert ["+", "+", "x"][1..] == ["+", "x"];
  }

  lemma ExampleTwins(stored: set<Path>)
    requires ["x", "+"] in stored && ["x", ""] in stored
    ensures KeyOf(["x", "+"]) == KeyOf(["x", ""]) && !NoTwins(stored)
  {
    var x: Path := ["x"];
    assert x + [DOT_WILDCARD] == ["x", ""] && x + [COMPLEX_WILDCARD] == ["x", "+"];
    assert Twins(["x", "+"], ["x", ""]);
    SameKey(["x", "+"], ["x", ""]);
  }

  lemma ExampleParts()
    ensures ValidAndSplitDomain("+.+.x") == Some(["+", "+", "x"])
    ensures ValidAndSplitDomain(".x") == Some(["", "x"])
  {
    SplitJoin(["+", "+", "x"]);
    SplitJoin(["", "x"]);
    assert Join(["+", "+", "x"]) == "+.+.x" by {
      assert Join(["+", "+", "x"][1..]) == "+.x" && Join(["+", "x"][1..]) == "x";
    }
    assert Join(["", "x"]) == ".x" by {
      assert Join(["", "x"][1..]) == "x";
    }
    assert Lower("+.+.x") == "+.+.x" && Lower(".x") == ".x";
  }

  // ---------------------------------------------------------------- what duplicate keys do

  /** What lies between two extensions of a string in byte order extends it as well. */
  lemma {:induction false} BetweenExtensions(k: string, a: string, b: string, c: string)
    requires k <= a && k <= c && (a == b || Less(a, b)) && (b == c || Less(b, c))
    ensures k <= b
  {
    if k != "" && a != b && b != c {
      assert a[0] == k[0] == c[0];
      assert k[1..] <= a[1..] && k[1..] <= c[1..];
      BetweenExtensions(k[1..], a[1..], b[1..], c[1..]);
      assert k == [k[0]] + k[1..] && b == [b[0]] + b[1..];
    }
  }

  /** The range of the keys that extend key `a`. */
  lemma ExtensionRange(keys: seq<string>, a: nat) returns (s: nat, e: nat)
    requires WeaklySorted(keys) && a < |keys|
    ensures s <= a < e <= |keys|
    ensures forall j :: 0 <= j < |keys| ==> (s <= j < e <==> keys[a] <= keys[j])
  {
    var k := keys[a];
    s, e := a, a + 1;
    while s > 0 && k <= keys[s - 1]
      invariant s <= a && forall j :: s <= j <= a ==> k <= keys[j]
    {
      s := s - 1;
    }
    while e < |keys| && k <= keys[e]
      invariant a < e <= |keys| && forall j :: a <= j < e ==> k <= keys[j]
    {
      e := e + 1;
    }
    forall j | 0 <= j < s ensures !(k <= keys[j]) {
      if k <= keys[j] && j < s - 1 {
        BetweenExtensions(k, keys[j], keys[s - 1], keys[a]);
      }
    }
    forall j | e <= j < |keys| ensures !(k <= keys[j]) {
      if k <= keys[j] && e < j {
        BetweenExtensions(k, keys[a], keys[e], keys[j]);
      }
    }
  }

  /** The node of a key that occurs twice reads past the end of its second occurrence. */
  lemma DuplicateReadsPastKey(keys: seq<string>, a: nat, b: nat) returns (q: QElt)
    requires WeaklySorted(keys) && a < b < |keys| && keys[a] == keys[b]
    ensures EltOk(keys, q) && PathOf(keys, q) == keys[a] && !ReadsInRange(keys, q)
  {
    var s, e := ExtensionRange(keys, a);
    var k := keys[a];
    assert keys[s] == k by {
      if s < a {
        ExtensionIsNotLess(k, keys[s]);
        SameOrLess(keys, s, a);
      }
    }
    q := QElt(s, e, |k|);
    assert keys[b] == k && s < b < e;
  }

  lemma SameOrLess(keys: seq<string>, i: nat, j: nat)
    requires WeaklySorted(keys) && i < j < |keys|
    ensures keys[i] == keys[j] || Less(keys[i], keys[j])
  {
  }

  // ---------------------------------------------------------------- from the trie to the set

  /** The set encodes the keys of exactly the stored paths; without any it is nil. */
  ghost predicate IsSetFor(ss: Option<DomainSet>, stored: set<Path>) {
    exists keys :: IsSetOf(ss, keys) && KeysFor(keys, stored)
  }

  /** Collects the reversed names, sorts them and encodes them; nil without patterns. It fails,
      as the original does by indexing past the end of a key, exactly if twins are stored. */
  method NewDomainSet<T(0)>(t: DomainTrie<T>) returns (built: bool, ss: Option<DomainSet>)
    requires t.Valid() && StoredSet(t.Stored().Keys)
    ensures built <==> NoTwins(t.Stored().Keys)
    ensures built ==> IsSetFor(ss, t.Stored().Keys)
  {
    var out := t.Foreach();
    var keys := SortedKeys(out, t.Stored());
    if |keys| == 0 {
      return true, None;
    }
    ss := DomainSets.NewDomainSet(keys);
    built := ss.Some?;
    assert ss.Some? ==> IsSetOf(ss, keys);
  }

  method SortedKeys<T(0)>(out: seq<(string, T)>, ghost stored: map<Path, T>) returns (keys: seq<string>)
    requires StoredSet(stored.Keys) && Reported(out, stored, StoredBelow(stored, []))
    ensures WeaklySorted(keys) && KeysFor(keys, stored.Keys)
    ensures NoDuplicates(keys) <==> NoTwins(stored.Keys)
  {
    ghost var order :| Reports(out, order, stored, StoredBelow(stored, []));
    var reserveDomains := ReversedNames(out, order);
    KeysOfReport(reserveDomains, order, stored.Keys);
    NamesDistinct(reserveDomains, order, stored.Keys);
    keys := SortStrings(reserveDomains);
    SameKeysFor(reserveDomains, keys, stored.Keys);
  }

  method ReversedNames<T>(out: seq<(string, T)>, ghost order: seq<Path>) returns (names: seq<string>)
    requires |out| == |order| && forall i :: 0 <= i < |out| ==> out[i].0 == Display(order[i])
    ensures |names| == |order| && forall i :: 0 <= i < |names| ==> names[i] == KeyOf(order[i])
  {
    names := [];
    for i := 0 to |out|
      invariant |names| == i
      invariant forall j :: 0 <= j < i ==> names[j] == KeyOf(order[j])
    {
      assert Reverse(out[i].0) == KeyOf(order[i]);
      names := names + [Reverse(out[i].0)];
    }
  }

  method SortStrings(names: seq<string>) returns (sorted: seq<string>)
    ensures WeaklySorted(sorted) && multiset(sorted) == multiset(names)
    ensures NoDuplicates(sorted) <==> NoDuplicates(names)
  {
    SortSortsWeakly(names);
    SortKeepsDistinct(names);
    sorted := Sort(names);
  }

  lemma SameKeysFor(names: seq<string>, keys: seq<string>, stored: set<Path>)
    requires KeysFor(names, stored) && multiset(keys) == multiset(names)
    ensures KeysFor(keys, stored)
  {
    forall k ensures k in keys <==> k in names {
      SameMembers(keys, names, k);
    }
  }

  /** The names are distinct exactly if no twins are stored. */
  lemma NamesDistinct(names: seq<string>, order: seq<Path>, stored: set<Path>)
    requires |names| == |order| && NoDuplicates(order) && StoredSet(stored)
    requires forall x :: x in order <==> x in stored && x != []
    requires forall i :: 0 <= i < |names| ==> names[i] == KeyOf(order[i])
    ensures NoDuplicates(names) <==> NoTwins(stored)
  {
    if NoTwins(stored) {
      forall i, j | 0 <= i < j < |names| ensures names[i] != names[j] {
        assert order[i] in order && order[j] in order;
        DifferentKeys(order[i], order[j], stored);
      }
    } else {
      TwinNamesRepeat(names, order, stored);
    }
  }

  lemma TwinNamesRepeat(names: seq<string>, order: seq<Path>, stored: set<Path>)
    requires |names| == |order| && StoredSet(stored) && !NoTwins(stored)
    requires forall x :: x in order <==> x in stored && x != []
    requires forall i :: 0 <= i < |names| ==> names[i] == KeyOf(order[i])
    ensures !NoDuplicates(names)
  {
    var x: Path :| x != [] && x + [DOT_WILDCARD] in stored && x + [COMPLEX_WILDCARD] in stored;
    var a, b := x + [DOT_WILDCARD], x + [COMPLEX_WILDCARD];
    assert a in order && b in order && a[|x|] != b[|x|];
    assert Twins(a, b);
    SameKey(a, b);
    var i :| 0 <= i < |order| && order[i] == a;
    var j :| 0 <= j < |order| && order[j] == b;
    assert names[i] == names[j] && i != j;
  }

  lemma DifferentKeys(a: Path, b: Path, stored: set<Path>)
    requires StoredSet(stored) && NoTwins(stored) && a in stored && b in stored && a != [] && b != [] && a != b
    ensures KeyOf(a) != KeyOf(b)
  {
    SameKey(a, b);
    TwinsStored(a, b, stored);
  }

  lemma TwinsStored(a: Path, b: Path, stored: set<Path>)
    requires a in stored && b in stored
    ensures Twins(a, b) ==> !NoTwins(stored)
  {
    if Twins(a, b) {
      var x: Path :| x != [] && {a, b} == {x + [DOT_WILDCARD], x + [COMPLEX_WILDCARD]};
      assert x + [DOT_WILDCARD] in {a, b} && x + [COMPLEX_WILDCARD] in {a, b};
    }
  }

  lemma KeysOfReport(names: seq<string>, order: seq<Path>, stored: set<Path>)
    requires |names| == |order|
    requires forall i :: 0 <= i < |names| ==> names[i] == KeyOf(order[i])
    requires forall x :: x in order <==> x in stored && x != []
    ensures KeysFor(names, stored)
  {
    forall k | k in names ensures exists x :: x in stored && x != [] && KeyOf(x) == k {
      var i :| 0 <= i < |names| && names[i] == k;
      assert order[i] in order;
    }
    forall x | x in stored && x != [] ensures KeyOf(x) in names {
      var i :| 0 <= i < |order| && order[i] == x;
      assert names[i] == KeyOf(x);
    }
  }
}
