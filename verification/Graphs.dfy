/** Finite directed graphs over names: walks, cycles, and what lies on the way from or to
    a cycle. */
module Graphs {
  import opened Text

  type Edges = set<(string, string)>

  ghost predicate IsWalk(e: Edges, w: seq<string>) {
    w != [] && forall i :: 0 <= i < |w| - 1 ==> (w[i], w[i + 1]) in e
  }

  ghost predicate WalkBetween(e: Edges, w: seq<string>, a: string, b: string) {
    IsWalk(e, w) && w[0] == a && w[|w| - 1] == b
  }

  ghost predicate Reaches(e: Edges, a: string, b: string) {
    exists w :: WalkBetween(e, w, a, b)
  }

  ghost predicate OnCycle(e: Edges, a: string) {
    exists w :: |w| > 1 && WalkBetween(e, w, a, a)
  }

  ghost predicate Acyclic(e: Edges) {
    forall a :: !OnCycle(e, a)
  }

  ghost predicate FromCycle(e: Edges, x: string) {
    exists c :: OnCycle(e, c) && Reaches(e, c, x)
  }

  ghost predicate ToCycle(e: Edges, x: string) {
    exists c :: OnCycle(e, c) && Reaches(e, x, c)
  }

  function Flip(e: Edges): Edges {
    set p | p in e :: (p.1, p.0)
  }

  lemma FlipWalk(e: Edges, w: seq<string>, a: string, b: string)
    requires WalkBetween(e, w, a, b)
    ensures WalkBetween(Flip(e), Reverse(w), b, a)
  {
    var r := Reverse(w);
    forall i | 0 <= i < |r| - 1 ensures (r[i], r[i + 1]) in Flip(e) {
      assert r[i] == w[|w| - 1 - i] && r[i + 1] == w[|w| - 2 - i];
      assert (w[|w| - 2 - i], w[|w| - 2 - i + 1]) in e;
    }
  }

  lemma FlipTwice(e: Edges)
    ensures Flip(Flip(e)) == e
  {
    forall p | p in e ensures p in Flip(Flip(e)) {
      assert (p.1, p.0) in Flip(e);
    }
  }

  lemma FlipOnCycle(e: Edges, a: string)
    ensures OnCycle(e, a) ==> OnCycle(Flip(e), a)
  {
    if OnCycle(e, a) {
      var w :| |w| > 1 && WalkBetween(e, w, a, a);
      FlipWalk(e, w, a, a);
    }
  }

  /** Reaching a cycle is coming from one in the flipped graph. */
  lemma ToCycleIsFlippedFromCycle(e: Edges, x: string)
    ensures ToCycle(e, x) <==> FromCycle(Flip(e), x)
  {
    if ToCycle(e, x) {
      FromFlips(e, x);
    }
    if FromCycle(Flip(e), x) {
      var c :| OnCycle(Flip(e), c) && Reaches(Flip(e), c, x);
      var w :| WalkBetween(Flip(e), w, c, x);
      FlipWalk(Flip(e), w, c, x);
      FlipOnCycle(Flip(e), c);
      FlipTwice(e);
      assert Reaches(e, x, c);
    }
  }

  lemma FromFlips(e: Edges, x: string)
    requires ToCycle(e, x)
    ensures FromCycle(Flip(e), x)
  {
    var c :| OnCycle(e, c) && Reaches(e, x, c);
    var w :| WalkBetween(e, w, x, c);
    FlipWalk(e, w, x, c);
    FlipOnCycle(e, c);
    assert Reaches(Flip(e), c, x);
  }

  // ---------------------------------------------------------------- removal orders

  /** Every element of `order` comes after all its predecessors. */
  ghost predicate TopoOrder(e: Edges, order: seq<string>) {
    forall i, p :: 0 <= i < |order| && (p, order[i]) in e ==> p in order[..i]
  }

  function IndexIn(order: seq<string>, x: string): (i: nat)
    requires x in order
    ensures i < |order| && order[i] == x && x !in order[..i]
  {
    if order[0] == x then 0
    else
      var i := 1 + IndexIn(order[1..], x);
      assert order[..i] == [order[0]] + order[1..][..i - 1];
      i
  }

  lemma PredecessorIsEarlier(e: Edges, order: seq<string>, p: string, x: string)
    requires TopoOrder(e, order) && x in order && (p, x) in e
    ensures p in order && IndexIn(order, p) < IndexIn(order, x)
  {
    var i := IndexIn(order, x);
    assert p in order[..i];
    var j :| 0 <= j < i && order[j] == p;
    assert IndexIn(order, p) <= j;
  }

  /** A walk that ends in a topological order lies in it and moves forward. */
  lemma {:induction false} WalkMovesForward(e: Edges, order: seq<string>, w: seq<string>)
    requires TopoOrder(e, order) && IsWalk(e, w) && w[|w| - 1] in order
    ensures w[0] in order && IndexIn(order, w[0]) + |w| - 1 <= IndexIn(order, w[|w| - 1])
  {
    if |w| > 1 {
      var init := w[..|w| - 1];
      PredecessorIsEarlier(e, order, w[|w| - 2], w[|w| - 1]);
      forall i | 0 <= i < |init| - 1 ensures (init[i], init[i + 1]) in e {
        assert (w[i], w[i + 1]) in e;
      }
      WalkMovesForward(e, order, init);
    }
  }

  /** Nothing in a topological order comes from a cycle. */
  lemma OrderedIsCycleFree(e: Edges, order: seq<string>, x: string)
    requires TopoOrder(e, order) && x in order
    ensures !FromCycle(e, x)
  {
    if c :| OnCycle(e, c) && Reaches(e, c, x) {
      var w :| WalkBetween(e, w, c, x);
      WalkMovesForward(e, order, w);
      var z :| |z| > 1 && WalkBetween(e, z, c, c);
      WalkMovesForward(e, order, z);
    }
  }

  // ---------------------------------------------------------------- stuck sets

  /** Every member of `s` has a predecessor in `s`. */
  ghost predicate Stuck(e: Edges, s: set<string>) {
    forall x {:trigger HasPredecessor(e, s, x)} :: x in s ==> HasPredecessor(e, s, x)
  }

  ghost predicate HasPredecessor(e: Edges, s: set<string>, x: string) {
    exists p :: p in s && (p, x) in e
  }

  lemma WalkCons(e: Edges, p: string, w: seq<string>)
    requires IsWalk(e, w) && (p, w[0]) in e
    ensures IsWalk(e, [p] + w)
  {
    var v := [p] + w;
    forall i | 0 <= i < |v| - 1 ensures (v[i], v[i + 1]) in e {
      if i > 0 {
        assert (w[i - 1], w[i - 1 + 1]) in e;
      }
    }
  }

  lemma WalkCut(e: Edges, w: seq<string>, i: nat, j: nat)
    requires IsWalk(e, w) && i < j <= |w|
    ensures IsWalk(e, w[i..j])
  {
    var v := w[i..j];
    forall k | 0 <= k < |v| - 1 ensures (v[k], v[k + 1]) in e {
      assert (w[i + k], w[i + k + 1]) in e;
    }
  }

  /** Stepping back from a walk onto one of its own nodes closes a cycle. */
  lemma StepBackCloses(e: Edges, p: string, w: seq<string>, i: nat)
    requires IsWalk(e, w) && (p, w[0]) in e && i < |w| && w[i] == p
    ensures FromCycle(e, w[|w| - 1])
  {
    WalkCons(e, p, w);
    var v := [p] + w;
    WalkCut(e, v, 0, i + 2);
    var cycle := v[0..i + 2];
    assert cycle[0] == p && cycle[i + 1] == p;
    assert WalkBetween(e, cycle, p, p);
    WalkCut(e, w, i, |w|);
    var tail := w[i..|w|];
    assert WalkBetween(e, tail, p, w[|w| - 1]);
    assert OnCycle(e, p) && Reaches(e, p, w[|w| - 1]);
  }

  ghost predicate DistinctWalkIn(e: Edges, s: set<string>, w: seq<string>) {
    IsWalk(e, w) && NoDuplicates(w) && forall x :: x in w ==> x in s
  }

  lemma DistinctCons(e: Edges, s: set<string>, p: string, w: seq<string>)
    requires DistinctWalkIn(e, s, w) && (p, w[0]) in e && p in s && p !in w
    ensures DistinctWalkIn(e, s, [p] + w)
  {
    WalkCons(e, p, w);
    var v := [p] + w;
    forall i, j | 0 <= i < j < |v| ensures v[i] != v[j] {
      assert v[j] == w[j - 1];
    }
  }

  /** Walking backwards inside a stuck set must repeat a node. */
  lemma {:induction false} StuckComesFromCycle(e: Edges, s: set<string>, w: seq<string>)
    requires Stuck(e, s) && DistinctWalkIn(e, s, w)
    ensures FromCycle(e, w[|w| - 1])
    decreases |s| - |w|
  {
    assert w[0] in w && HasPredecessor(e, s, w[0]);
    var p :| p in s && (p, w[0]) in e;
    if p in w {
      var i :| 0 <= i < |w| && w[i] == p;
      StepBackCloses(e, p, w, i);
    } else {
      DistinctCons(e, s, p, w);
      DistinctFit([p] + w, s);
      StuckComesFromCycle(e, s, [p] + w);
    }
  }

  lemma StuckMemberComesFromCycle(e: Edges, s: set<string>, x: string)
    requires Stuck(e, s) && x in s
    ensures FromCycle(e, x)
  {
    var w := [x];
    assert DistinctWalkIn(e, s, w);
    StuckComesFromCycle(e, s, w);
  }
}
