/** The succinct domain set: a level-order bitmap encoding of a sorted list of
    keys, built breadth first and walked with rank and select. */
module DomainSets {
  import opened Bitmaps
  import opened Text
  import opened Wrappers

  const COMPLEX_WILDCARD_BYTE := '+'
  const WILDCARD_BYTE := '*'

  /** Node `n` of the encoded tree owns one run of clear bits in `labelBitmap`, one
      per outgoing edge, closed by a set bit; `labels` holds the edge bytes in order. */
  datatype DomainSet = DomainSet(leaves: seq<Word>, labelBitmap: seq<Word>, labels: string)

  // ---------------------------------------------------------------- specification

  ghost predicate SomeKeyExtends(keys: seq<string>, p: string) {
    exists k :: k in keys && p <= k
  }

  /** Shorter paths first; among equally long ones, byte order. */
  ghost predicate LevelLess(p: string, q: string) {
    |p| < |q| || (|p| == |q| && Less(p, q))
  }

  /** `paths` lists every prefix of every key exactly once, breadth first. */
  ghost predicate IsLevelOrder(keys: seq<string>, paths: seq<string>) {
    && (forall p :: p in paths <==> SomeKeyExtends(keys, p))
    && (forall m, n :: 0 <= m < n < |paths| ==> LevelLess(paths[m], paths[n]))
  }

  /** Where the edges of node `n` start in `labelBitmap`, when `starts[n]` is the id of
      its first child. */
  function BlockStart(starts: seq<nat>, n: nat): int
    requires n < |starts|
  {
    starts[n] - 1 + n
  }

  ghost predicate GoodStarts(starts: seq<nat>, count: nat) {
    && |starts| == count + 1 && starts[0] == 1 && starts[count] == count
    && (forall m, n :: 0 <= m <= n <= count ==> starts[m] <= starts[n])
    && (forall n :: 0 <= n < count ==> n < starts[n])
  }

  /** The children of node `n` are the nodes `starts[n] .. starts[n + 1]`, one for each
      byte that can follow its path in a key. */
  ghost predicate ChildrenOf(keys: seq<string>, paths: seq<string>, starts: seq<nat>, labels: string, n: nat)
    requires GoodStarts(starts, |paths|) && |labels| == |paths| - 1 && n < |paths|
  {
    && (forall c :: starts[n] <= c < starts[n + 1] ==> paths[c] == paths[n] + [labels[c - 1]])
    && (forall ch :: SomeKeyExtends(keys, paths[n] + [ch]) ==>
          exists c :: starts[n] <= c < starts[n + 1] && paths[c] == paths[n] + [ch])
  }

  /** The bits of node `n`: a clear bit per child, then a set bit. */
  ghost predicate BlockBits(bm: seq<Word>, starts: seq<nat>, n: nat)
    requires n + 1 < |starts|
  {
    var last := BlockStart(starts, n + 1) - 1;
    && last >= 0 && BitAt(bm, last)
    && (forall b: nat :: BlockStart(starts, n) <= b < last ==> !BitAt(bm, b))
  }

  ghost predicate Layout(ss: DomainSet, keys: seq<string>, paths: seq<string>, starts: seq<nat>) {
    && |paths| > 0 && paths[0] == ""
    && GoodStarts(starts, |paths|)
    && |ss.labels| == |paths| - 1
    && (forall n :: 0 <= n < |paths| ==> SomeKeyExtends(keys, paths[n]))
    && (forall n :: 0 <= n < |paths| ==> ChildrenOf(keys, paths, starts, ss.labels, n))
    && (forall n :: 0 <= n < |paths| ==> BlockBits(ss.labelBitmap, starts, n))
    && (forall n :: 0 <= n < |paths| ==> (BitAt(ss.leaves, n) <==> paths[n] in keys))
    && |ss.leaves| == (|paths| - 1) / 64 + 1
  }

  /** `ss` is the encoding of the tree of all prefixes of `keys`. */
  ghost predicate Encodes(ss: DomainSet, keys: seq<string>) {
    exists paths, starts :: Layout(ss, keys, paths, starts) && IsLevelOrder(keys, paths)
  }

  // ---------------------------------------------------------------- construction

  /** A pending node: the keys `s .. e` share the path of length `col`. */
  datatype QElt = QElt(s: nat, e: nat, col: nat)

  predicate InKeys(keys: seq<string>, q: QElt) {
    q.s < q.e <= |keys| && q.col <= |keys[q.s]|
  }

  ghost function PathOf(keys: seq<string>, q: QElt): string
    requires InKeys(keys, q)
  {
    keys[q.s][..q.col]
  }

  /** The range of `q` holds exactly the keys that extend its path. */
  ghost predicate EltOk(keys: seq<string>, q: QElt) {
    && InKeys(keys, q)
    && forall j :: 0 <= j < |keys| ==> (q.s <= j < q.e <==> PathOf(keys, q) <= keys[j])
  }

  function FirstLonger(keys: seq<string>, q: QElt): nat
    requires InKeys(keys, q)
  {
    if q.col == |keys[q.s]| then q.s + 1 else q.s
  }

  /** Grouping the keys of the node reads no key past its end. */
  ghost predicate ReadsInRange(keys: seq<string>, q: QElt)
    requires InKeys(keys, q)
  {
    forall j :: FirstLonger(keys, q) <= j < q.e ==> q.col < |keys[j]|
  }

  lemma StaysLonger(p: string, a: string, b: string)
    requires p <= a && p <= b && |p| < |a| && (a == b || Less(a, b))
    ensures |p| < |b|
  {
    ExtensionIsNotLess(p, a);
    assert |p| == |b| ==> p == b;
  }

  /** If the first key that is read is long enough, all of them are. */
  lemma FirstReadDecides(keys: seq<string>, q: QElt)
    requires WeaklySorted(keys) && EltOk(keys, q)
    ensures var from := FirstLonger(keys, q); ReadsInRange(keys, q) <==> (from < q.e ==> q.col < |keys[from]|)
  {
    var from := FirstLonger(keys, q);
    if from < q.e && q.col < |keys[from]| {
      forall j | from <= j < q.e ensures q.col < |keys[j]| {
        assert PathOf(keys, q) <= keys[j] && PathOf(keys, q) <= keys[from];
        StaysLonger(PathOf(keys, q), keys[from], keys[j]);
      }
    }
  }

  /** In the column after the shared path the keys that are read ascend. */
  lemma ColumnAscends(keys: seq<string>, q: QElt)
    requires WeaklySorted(keys) && EltOk(keys, q) && ReadsInRange(keys, q)
    ensures forall i, j :: FirstLonger(keys, q) <= i < j < q.e ==> keys[i][q.col] <= keys[j][q.col]
  {
    forall i, j | FirstLonger(keys, q) <= i < j < q.e ensures keys[i][q.col] <= keys[j][q.col] {
      assert PathOf(keys, q) <= keys[i] && PathOf(keys, q) <= keys[j];
      if keys[i] != keys[j] {
        LessAfterCommonPrefix(keys[i], keys[j], q.col);
      }
    }
  }

  /** In the column after the shared path the keys of a node ascend, and only the first
      can end there. */
  lemma ColumnSorted(keys: seq<string>, q: QElt)
    requires StrictlySorted(keys) && EltOk(keys, q)
    ensures forall j :: q.s < j < q.e ==> q.col < |keys[j]|
    ensures forall i, j :: q.s <= i < j < q.e && q.col < |keys[i]| ==> keys[i][q.col] <= keys[j][q.col]
  {
    forall i, j | q.s <= i < j < q.e
      ensures q.col < |keys[j]| && (q.col < |keys[i]| ==> keys[i][q.col] <= keys[j][q.col])
    {
      assert keys[i][..q.col] == PathOf(keys, q) == keys[j][..q.col];
      LessAfterCommonPrefix(keys[i], keys[j], q.col);
    }
  }

  ghost predicate IsChild(keys: seq<string>, q: QElt, child: QElt, edge: char, upto: nat)
    requires InKeys(keys, q)
  {
    && EltOk(keys, child) && child.col == q.col + 1
    && q.s <= child.s && child.e <= upto
    && PathOf(keys, child) == PathOf(keys, q) + [edge]
  }

  ghost predicate Covered(queue: seq<QElt>, lo: nat, hi: nat, j: nat)
    requires hi <= |queue|
  {
    exists c :: lo <= c < hi && queue[c].s <= j < queue[c].e
  }

  /** What the queue and the edge bytes look like once node `q` has been expanded into
      the entries `lo .. hi`; `from` is the first key of `q` longer than its path. */
  ghost predicate Expanded(keys: seq<string>, queue: seq<QElt>, labels: string,
                           q: QElt, lo: nat, hi: nat, from: nat, upto: nat)
    requires EltOk(keys, q) && 1 <= lo <= hi <= |queue| && |labels| == |queue| - 1
  {
    && upto <= q.e
    && (forall c :: lo <= c < hi ==> IsChild(keys, q, queue[c], labels[c - 1], upto))
    && (forall c, d :: lo <= c < d < hi ==> queue[c].e <= queue[d].s)
    && (forall j :: from <= j < upto ==> Covered(queue, lo, hi, j))
  }

  method ExpandNode(keys: seq<string>, q: QElt, from: nat, queue0: seq<QElt>, labels0: string,
                    bitmap0: seq<Word>, lIdx0: nat)
    returns (queue: seq<QElt>, labels: string, bitmap: seq<Word>, lIdx: nat)
    requires WeaklySorted(keys) && EltOk(keys, q) && ReadsInRange(keys, q) && from == FirstLonger(keys, q)
    requires 1 <= |queue0| && |labels0| == |queue0| - 1
    requires forall b: nat :: b >= lIdx0 ==> !BitAt(bitmap0, b)
    ensures queue0 <= queue && labels0 <= labels && |labels| == |queue| - 1
    ensures Expanded(keys, queue, labels, q, |queue0|, |queue|, from, q.e)
    ensures lIdx == lIdx0 + (|queue| - |queue0|) + 1
    ensures forall b: nat :: BitAt(bitmap, b) <==> BitAt(bitmap0, b) || b == lIdx - 1
  {
    queue, labels, bitmap, lIdx := queue0, labels0, bitmap0, lIdx0;
    var j := from;
    while j < q.e
      invariant from <= j <= q.e
      invariant queue0 <= queue && labels0 <= labels && |labels| == |queue| - 1
      invariant Expanded(keys, queue, labels, q, |queue0|, |queue|, from, j)
      invariant from < j < q.e ==> keys[j - 1][q.col] != keys[j][q.col]
      invariant lIdx == lIdx0 + (|queue| - |queue0|)
      invariant forall b: nat :: BitAt(bitmap, b) <==> BitAt(bitmap0, b)
    {
      var frm := j;
      while j < q.e && keys[j][q.col] == keys[frm][q.col]
        invariant frm <= j <= q.e
        invariant forall k :: frm <= k < j ==> keys[k][q.col] == keys[frm][q.col]
      {
        j := j + 1;
      }
      ghost var before, labelsBefore := queue, labels;
      queue := queue + [QElt(frm, j, q.col + 1)];
      labels := labels + [keys[frm][q.col]];
      AddGroup(keys, q, before, labelsBefore, queue, labels, |queue0|, from, frm, j);
      bitmap := SetBit(bitmap, lIdx, false);
      lIdx := lIdx + 1;
    }
    bitmap := SetBit(bitmap, lIdx, true);
    lIdx := lIdx + 1;
  }

  /** The keys `frm .. j` with the same next byte are exactly the keys of one child. */
  lemma GroupIsChild(keys: seq<string>, q: QElt, from: nat, frm: nat, j: nat)
    requires WeaklySorted(keys) && EltOk(keys, q) && ReadsInRange(keys, q) && from == FirstLonger(keys, q)
    requires from <= frm < j <= q.e
    requires q.col < |keys[frm]|
    requires from < frm ==> q.col < |keys[frm - 1]| && keys[frm - 1][q.col] != keys[frm][q.col]
    requires forall k :: frm <= k < j ==> q.col < |keys[k]| && keys[k][q.col] == keys[frm][q.col]
    requires j < q.e ==> q.col < |keys[j]| && keys[j][q.col] != keys[frm][q.col]
    ensures EltOk(keys, QElt(frm, j, q.col + 1))
    ensures PathOf(keys, QElt(frm, j, q.col + 1)) == PathOf(keys, q) + [keys[frm][q.col]]
  {
    ColumnAscends(keys, q);
    var child := QElt(frm, j, q.col + 1);
    assert PathOf(keys, q) <= keys[frm];
    var ch := keys[frm][q.col];
    assert PathOf(keys, child) == PathOf(keys, q) + [ch];
    forall k | from <= k < frm ensures keys[k][q.col] != ch {
      assert k < frm - 1 ==> keys[k][q.col] <= keys[frm - 1][q.col];
    }
    forall k | 0 <= k < |keys| ensures frm <= k < j <==> PathOf(keys, child) <= keys[k] {
      assert PathOf(keys, q) <= keys[k] <==> q.s <= k < q.e;
      assert PathOf(keys, child) <= keys[k] <==>
             PathOf(keys, q) <= keys[k] && q.col < |keys[k]| && keys[k][q.col] == ch;
    }
  }

  lemma AddGroup(keys: seq<string>, q: QElt, queue: seq<QElt>, labels: string,
                 queue': seq<QElt>, labels': string, lo: nat, from: nat, frm: nat, j: nat)
    requires WeaklySorted(keys) && EltOk(keys, q) && ReadsInRange(keys, q) && from == FirstLonger(keys, q)
    requires from <= frm < j <= q.e
    requires 1 <= lo <= |queue| && |labels| == |queue| - 1
    requires Expanded(keys, queue, labels, q, lo, |queue|, from, frm)
    requires q.col < |keys[frm]|
    requires from < frm ==> q.col < |keys[frm - 1]| && keys[frm - 1][q.col] != keys[frm][q.col]
    requires forall k :: frm <= k < j ==> q.col < |keys[k]| && keys[k][q.col] == keys[frm][q.col]
    requires j < q.e ==> q.col < |keys[j]| && keys[j][q.col] != keys[frm][q.col]
    requires queue' == queue + [QElt(frm, j, q.col + 1)] && labels' == labels + [keys[frm][q.col]]
    ensures Expanded(keys, queue', labels', q, lo, |queue'|, from, j)
  {
    GroupIsChild(keys, q, from, frm, j);
    forall c | lo <= c <= |queue| ensures IsChild(keys, q, queue'[c], labels'[c - 1], j) {
      assert c < |queue| ==> IsChild(keys, q, queue[c], labels[c - 1], frm);
    }
    forall c, d | lo <= c < d <= |queue|
      ensures queue'[c].e <= queue'[d].s
    {
      assert IsChild(keys, q, queue[c], labels[c - 1], frm);
    }
    CoverageGrows(queue, QElt(frm, j, q.col + 1), queue', lo, from);
  }

  lemma CoverageGrows(queue: seq<QElt>, last: QElt, queue': seq<QElt>, lo: nat, from: nat)
    requires lo <= |queue| && queue' == queue + [last]
    requires forall k :: from <= k < last.s ==> Covered(queue, lo, |queue|, k)
    ensures forall k :: from <= k < last.e ==> Covered(queue', lo, |queue'|, k)
  {
    forall k | from <= k < last.e ensures Covered(queue', lo, |queue'|, k) {
      if k < last.s {
        assert Covered(queue, lo, |queue|, k);
        var c :| lo <= c < |queue| && queue[c].s <= k < queue[c].e;
        assert queue'[c].s <= k < queue'[c].e;
      } else {
        assert queue'[|queue|].s <= k < queue'[|queue|].e;
      }
    }
  }

  // Breadth-first order of the queue: shallower entries first, then left to right.

  ghost predicate Before(x: QElt, y: QElt) {
    x.col < y.col || (x.col == y.col && x.e <= y.s)
  }

  ghost predicate BreadthFirst(queue: seq<QElt>, i: nat) {
    && (forall a, b :: 0 <= a < b < |queue| ==> Before(queue[a], queue[b]))
    && (i < |queue| ==> forall c :: 0 <= c < |queue| ==>
          queue[c].col <= queue[i].col || (queue[c].col == queue[i].col + 1 && queue[c].e <= queue[i].s))
  }

  lemma BreadthFirstStep(keys: seq<string>, queue: seq<QElt>, labels: string, queue': seq<QElt>, i: nat, from: nat)
    requires i < |queue| && queue <= queue' && BreadthFirst(queue, i) && |labels| == |queue'| - 1
    requires forall c :: 0 <= c < |queue| ==> EltOk(keys, queue[c])
    requires Expanded(keys, queue', labels, queue[i], |queue|, |queue'|, from, queue[i].e)
    ensures BreadthFirst(queue', i + 1)
  {
    var q := queue[i];
    assert forall c :: |queue| <= c < |queue'| ==> IsChild(keys, q, queue'[c], labels[c - 1], q.e);
    forall a, b | 0 <= a < b < |queue'| ensures Before(queue'[a], queue'[b]) {
      if b < |queue| {
        assert Before(queue[a], queue[b]);
      }
    }
    if i + 1 < |queue'| {
      assert Before(queue'[i], queue'[i + 1]);
    }
  }

  ghost function MaxLen(keys: seq<string>): (m: nat)
    ensures forall k :: k in keys ==> |k| <= m
  {
    if keys == [] then 0
    else
      var rest := MaxLen(keys[1..]);
      if |keys[0]| > rest then |keys[0]| else rest
  }

  ghost predicate AllOk(keys: seq<string>, queue: seq<QElt>) {
    forall c :: 0 <= c < |queue| ==> EltOk(keys, queue[c])
  }

  /** The state of the construction when the nodes before `i` have been expanded. */
  ghost predicate Built(keys: seq<string>, queue: seq<QElt>, labels: string, starts: seq<nat>, i: nat) {
    && i <= |queue| && |labels| == |queue| - 1
    && queue[0] == QElt(0, |keys|, 0)
    && AllOk(keys, queue)
    && |starts| == i + 1 && starts[0] == 1 && starts[i] == |queue|
    && (forall m, n :: 0 <= m <= n <= i ==> starts[m] <= starts[n])
    && (forall n :: 0 <= n < i ==> n < starts[n])
    && (forall n :: 0 <= n < i ==> NodeExpanded(keys, queue, labels, starts, n))
    && BreadthFirst(queue, i)
  }

  ghost predicate NodeExpanded(keys: seq<string>, queue: seq<QElt>, labels: string, starts: seq<nat>, n: nat)
    requires n < |queue| && n + 1 < |starts| && 1 <= starts[n] <= starts[n + 1] <= |queue| && |labels| == |queue| - 1
    requires EltOk(keys, queue[n])
  {
    Expanded(keys, queue, labels, queue[n], starts[n], starts[n + 1], FirstLonger(keys, queue[n]), queue[n].e)
  }

  lemma BuiltStep(keys: seq<string>, queue: seq<QElt>, labels: string, queue': seq<QElt>, labels': string,
                  starts: seq<nat>, i: nat)
    requires Built(keys, queue, labels, starts, i) && i < |queue|
    requires queue <= queue' && labels <= labels' && |labels'| == |queue'| - 1
    requires Expanded(keys, queue', labels', queue[i], |queue|, |queue'|, FirstLonger(keys, queue[i]), queue[i].e)
    ensures Built(keys, queue', labels', starts + [|queue'|], i + 1)
  {
    var starts' := starts + [|queue'|];
    BreadthFirstStep(keys, queue, labels', queue', i, FirstLonger(keys, queue[i]));
    forall c | 0 <= c < |queue'| ensures EltOk(keys, queue'[c]) {
      if c >= |queue| {
        assert IsChild(keys, queue[i], queue'[c], labels'[c - 1], queue[i].e);
      }
    }
    forall n | 0 <= n < i + 1 ensures NodeExpanded(keys, queue', labels', starts', n) {
      if n < i {
        assert NodeExpanded(keys, queue, labels, starts, n);
        ExpandedGrows(keys, queue, labels, queue', labels', queue[n], starts[n], starts[n + 1],
                      FirstLonger(keys, queue[n]), queue[n].e);
      }
    }
  }

  lemma ExpandedGrows(keys: seq<string>, queue: seq<QElt>, labels: string, queue': seq<QElt>, labels': string,
                      q: QElt, lo: nat, hi: nat, from: nat, upto: nat)
    requires queue <= queue' && labels <= labels' && |labels'| == |queue'| - 1
    requires EltOk(keys, q) && 1 <= lo <= hi <= |queue| && |labels| == |queue| - 1
    requires Expanded(keys, queue, labels, q, lo, hi, from, upto)
    ensures Expanded(keys, queue', labels', q, lo, hi, from, upto)
  {
    forall c | lo <= c < hi ensures IsChild(keys, q, queue'[c], labels'[c - 1], upto) {
      assert IsChild(keys, q, queue[c], labels[c - 1], upto);
    }
    forall c, d | lo <= c < d < hi
      ensures queue'[c].e <= queue'[d].s
    {
      assert queue[c].e <= queue[d].s;
    }
    forall j | from <= j < upto ensures Covered(queue', lo, hi, j) {
      assert Covered(queue, lo, hi, j);
      var c :| lo <= c < hi && queue[c].s <= j < queue[c].e;
      assert queue'[c].s <= j < queue'[c].e;
    }
  }

  /** The label bitmap once the nodes before `i` have been written. */
  ghost predicate BitsWritten(bm: seq<Word>, starts: seq<nat>, i: nat, lIdx: nat)
    requires |starts| == i + 1
  {
    && lIdx == BlockStart(starts, i)
    && (forall b: nat :: b >= lIdx ==> !BitAt(bm, b))
    && (forall n :: 0 <= n < i ==> BlockBits(bm, starts, n))
  }

  /** The root alone, nothing expanded yet. */
  lemma NothingBuilt(keys: seq<string>)
    requires keys != []
    ensures Built(keys, [QElt(0, |keys|, 0)], "", [1], 0)
    ensures BitsWritten([], [1], 0, 0) && LeavesWritten([], keys, [QElt(0, |keys|, 0)], 0)
  {
  }

  /** Queue, edge bytes, label bits and leaf bits when the nodes before `i` are done. */
  ghost predicate Stage(keys: seq<string>, queue: seq<QElt>, labels: string, starts: seq<nat>, i: nat,
                        labelBitmap: seq<Word>, lIdx: nat, leaves: seq<Word>)
  {
    && Built(keys, queue, labels, starts, i)
    && BitsWritten(labelBitmap, starts, i, lIdx)
    && LeavesWritten(leaves, keys, queue, i)
  }

  /** One node of the breadth-first walk: its leaf bit, its children and its block of bits.
      It fails where the original indexes past the end of a key. */
  method VisitNode(keys: seq<string>, elt: QElt, i: nat, leaves0: seq<Word>, queue0: seq<QElt>, labels0: string,
                   labelBitmap0: seq<Word>, lIdx0: nat, ghost starts: seq<nat>)
    returns (ok: bool, leaves: seq<Word>, queue: seq<QElt>, labels: string, labelBitmap: seq<Word>, lIdx: nat,
             ghost next: seq<nat>)
    requires WeaklySorted(keys) && Stage(keys, queue0, labels0, starts, i, labelBitmap0, lIdx0, leaves0)
    requires i < |queue0| && elt == queue0[i]
    ensures ok <==> ReadsInRange(keys, elt)
    ensures !ok ==> !NoDuplicates(keys)
    ensures ok ==> Stage(keys, queue, labels, next, i + 1, labelBitmap, lIdx, leaves)
    ensures ok ==> Later(keys, queue0, queue, i)
  {
    var from := elt.s;
    leaves, queue, labels, labelBitmap, lIdx, next := leaves0, queue0, labels0, labelBitmap0, lIdx0, starts;
    if elt.col == |keys[from]| {
      from := from + 1;
      leaves := SetBit(leaves, i, true);
    }
    FirstReadDecides(keys, elt);
    BuildNeedsDistinctKeys(keys, queue0, labels0, starts, i);
    ok := from == elt.e || elt.col < |keys[from]|;
    if ok {
      queue, labels, labelBitmap, lIdx := ExpandNode(keys, elt, from, queue0, labels0, labelBitmap0, lIdx0);
      BuiltStep(keys, queue0, labels0, queue, labels, starts, i);
      BitsStep(labelBitmap0, labelBitmap, starts, |queue|, i, lIdx0, lIdx);
      LeavesStep(leaves0, leaves, keys, queue0, queue, i);
      NextIsLater(keys, queue0, queue, i);
      next := starts + [|queue|];
    }
  }

  /** The build over a sorted list; without a set, the original has indexed past the end of a
      key. That happens exactly if some key occurs twice. */
  method NewDomainSet(keys: seq<string>) returns (ss: Option<DomainSet>)
    requires keys != [] && WeaklySorted(keys)
    ensures ss.Some? <==> NoDuplicates(keys)
    ensures ss.Some? ==> Encodes(ss.value, keys)
  {
    var leaves: seq<Word>, labelBitmap: seq<Word>, labels := [], [], "";
    var lIdx := 0;
    var queue := [QElt(0, |keys|, 0)];
    ghost var starts: seq<nat> := [1];
    var i := 0;
    NothingBuilt(keys);
    while i < |queue|
      invariant Stage(keys, queue, labels, starts, i, labelBitmap, lIdx, leaves)
      decreases Depth(keys, queue, i), Right(keys, queue, i)
    {
      var ok;
      ok, leaves, queue, labels, labelBitmap, lIdx, starts :=
        VisitNode(keys, queue[i], i, leaves, queue, labels, labelBitmap, lIdx, starts);
      if !ok {
        return None;
      }
      i := i + 1;
    }
    ss := Some(DomainSet(leaves, labelBitmap, labels));
    BuiltEncodes(ss.value, keys, queue, starts, lIdx);
  }

  // Which lists can be built from.

  /** The finished queue has an entry for every prefix of every key. */
  lemma {:induction false} BuiltReaches(keys: seq<string>, queue: seq<QElt>, labels: string, starts: seq<nat>,
                                        k: string, n: nat) returns (c: nat)
    requires Built(keys, queue, labels, starts, |queue|) && k in keys && n <= |k|
    ensures c < |queue| && PathOf(keys, queue[c]) == k[..n]
  {
    if n == 0 {
      c := 0;
    } else {
      var parent := BuiltReaches(keys, queue, labels, starts, k, n - 1);
      assert k[..n - 1] + [k[n - 1]] == k[..n] && k[..n] <= k;
      assert NodeExpanded(keys, queue, labels, starts, parent);
      ExtensionHasChild(keys, queue, labels, starts, parent, k[n - 1]);
      c :| starts[parent] <= c < starts[parent + 1] && Paths(keys, queue)[c] == k[..n];
    }
  }

  /** Among the keys of an entry only the first can end there: another one would be covered by
      a child, whose path is longer. */
  lemma OnlyFirstEndsHere(keys: seq<string>, queue: seq<QElt>, labels: string, starts: seq<nat>, c: nat, b: nat)
    requires Built(keys, queue, labels, starts, |queue|) && c < |queue| && b < |keys|
    requires keys[b] == PathOf(keys, queue[c])
    ensures b == queue[c].s
  {
    var q := queue[c];
    assert NodeExpanded(keys, queue, labels, starts, c);
    forall d | starts[c] <= d < starts[c + 1] ensures !(queue[d].s <= b < queue[d].e) {
      assert IsChild(keys, q, queue[d], labels[d - 1], q.e);
    }
    assert !Covered(queue, starts[c], starts[c + 1], b);
  }

  lemma BuiltIsDistinct(keys: seq<string>, queue: seq<QElt>, labels: string, starts: seq<nat>)
    requires Built(keys, queue, labels, starts, |queue|)
    ensures NoDuplicates(keys)
  {
    forall a, b | 0 <= a < b < |keys| ensures keys[a] != keys[b] {
      var k := keys[a];
      assert k[..|k|] == k;
      var c := BuiltReaches(keys, queue, labels, starts, k, |k|);
      OnlyFirstEndsHere(keys, queue, labels, starts, c, a);
      if keys[b] == k {
        OnlyFirstEndsHere(keys, queue, labels, starts, c, b);
      }
    }
  }

  /** At every stage of the build: without a doubled key, no entry of the queue is read past the
      end of a key; and a queue that has been worked off shows that no key is doubled. */
  lemma BuildNeedsDistinctKeys(keys: seq<string>, queue: seq<QElt>, labels: string, starts: seq<nat>, i: nat)
    requires WeaklySorted(keys) && Built(keys, queue, labels, starts, i)
    ensures NoDuplicates(keys) ==> forall c :: 0 <= c < |queue| ==> ReadsInRange(keys, queue[c])
    ensures i == |queue| ==> NoDuplicates(keys)
  {
    if NoDuplicates(keys) {
      StrictIsWeakAndDistinct(keys);
      forall c | 0 <= c < |queue| ensures ReadsInRange(keys, queue[c]) {
        ColumnSorted(keys, queue[c]);
      }
    }
    if i == |queue| {
      BuiltIsDistinct(keys, queue, labels, starts);
    }
  }

  lemma LeavesStep(leaves: seq<Word>, leaves': seq<Word>, keys: seq<string>,
                   queue: seq<QElt>, queue': seq<QElt>, i: nat)
    requires i < |queue| && queue <= queue' && AllOk(keys, queue) && AllOk(keys, queue')
    requires LeavesWritten(leaves, keys, queue, i)
    requires |leaves'| <= if i / 64 < |leaves| then |leaves| else i / 64 + 1
    requires forall n: nat :: BitAt(leaves', n) <==> BitAt(leaves, n) || (n == i && EndsHere(keys, queue[i]))
    ensures LeavesWritten(leaves', keys, queue', i + 1)
  {
  }

  // Each queue entry lies after the previous one, which bounds the length of the queue.

  ghost function Depth(keys: seq<string>, queue: seq<QElt>, i: nat): int {
    if i < |queue| then MaxLen(keys) + 1 - queue[i].col else 0
  }

  ghost function Right(keys: seq<string>, queue: seq<QElt>, i: nat): int {
    if i < |queue| then |keys| - queue[i].s else 0
  }

  /** Entry `i + 1` of the grown queue lies below entry `i`, or to its right. */
  ghost predicate Later(keys: seq<string>, queue: seq<QElt>, queue': seq<QElt>, i: nat) {
    && 0 <= Depth(keys, queue', i + 1) <= Depth(keys, queue, i) && 0 <= Right(keys, queue, i)
    && (Depth(keys, queue', i + 1) == Depth(keys, queue, i) ==> Right(keys, queue', i + 1) < Right(keys, queue, i))
  }

  lemma NextIsLater(keys: seq<string>, queue: seq<QElt>, queue': seq<QElt>, i: nat)
    requires i < |queue| && queue <= queue' && AllOk(keys, queue') && BreadthFirst(queue', i + 1)
    ensures Later(keys, queue, queue', i)
  {
    assert keys[queue'[i].s] in keys;
    if i + 1 < |queue'| {
      assert keys[queue'[i + 1].s] in keys && Before(queue'[i], queue'[i + 1]);
    }
  }

  predicate EndsHere(keys: seq<string>, q: QElt)
    requires InKeys(keys, q)
  {
    q.col == |keys[q.s]|
  }

  ghost predicate LeavesWritten(leaves: seq<Word>, keys: seq<string>, queue: seq<QElt>, i: nat)
    requires i <= |queue|
    requires forall c :: 0 <= c < |queue| ==> InKeys(keys, queue[c])
  {
    && (forall n: nat :: BitAt(leaves, n) <==> n < i && EndsHere(keys, queue[n]))
    && 64 * |leaves| < i + 64
  }

  lemma BitsStep(bm: seq<Word>, bm': seq<Word>, starts: seq<nat>, next: nat, i: nat, lIdx: nat, lIdx': nat)
    requires |starts| == i + 1 && BitsWritten(bm, starts, i, lIdx) && starts[i] <= next
    requires forall m, n :: 0 <= m <= n <= i ==> starts[m] <= starts[n]
    requires lIdx' == lIdx + (next - starts[i]) + 1
    requires forall b: nat :: BitAt(bm', b) <==> BitAt(bm, b) || b == lIdx' - 1
    ensures BitsWritten(bm', starts + [next], i + 1, lIdx')
  {
    forall n | 0 <= n < i ensures BlockBits(bm', starts + [next], n) {
      assert BlockBits(bm, starts, n);
      assert BlockStart(starts, n + 1) <= BlockStart(starts, i);
    }
  }

  // The finished construction satisfies the specification.

  ghost function Paths(keys: seq<string>, queue: seq<QElt>): (paths: seq<string>)
    requires forall c :: 0 <= c < |queue| ==> InKeys(keys, queue[c])
    ensures |paths| == |queue|
    ensures forall c :: 0 <= c < |queue| ==> paths[c] == PathOf(keys, queue[c])
  {
    seq(|queue|, c requires 0 <= c < |queue| => PathOf(keys, queue[c]))
  }

  lemma ExpandedGivesChildren(keys: seq<string>, queue: seq<QElt>, labels: string, starts: seq<nat>, n: nat)
    requires AllOk(keys, queue) && GoodStarts(starts, |queue|) && |labels| == |queue| - 1 && n < |queue|
    requires NodeExpanded(keys, queue, labels, starts, n)
    ensures ChildrenOf(keys, Paths(keys, queue), starts, labels, n)
  {
    var paths, q := Paths(keys, queue), queue[n];
    forall c | starts[n] <= c < starts[n + 1] ensures paths[c] == paths[n] + [labels[c - 1]] {
      assert IsChild(keys, q, queue[c], labels[c - 1], q.e);
    }
    forall ch | SomeKeyExtends(keys, paths[n] + [ch])
      ensures exists c :: starts[n] <= c < starts[n + 1] && paths[c] == paths[n] + [ch]
    {
      ExtensionHasChild(keys, queue, labels, starts, n, ch);
    }
  }

  lemma ExtensionHasChild(keys: seq<string>, queue: seq<QElt>, labels: string, starts: seq<nat>, n: nat, ch: char)
    requires AllOk(keys, queue) && GoodStarts(starts, |queue|) && |labels| == |queue| - 1 && n < |queue|
    requires NodeExpanded(keys, queue, labels, starts, n)
    requires SomeKeyExtends(keys, PathOf(keys, queue[n]) + [ch])
    ensures exists c :: starts[n] <= c < starts[n + 1] && Paths(keys, queue)[c] == PathOf(keys, queue[n]) + [ch]
  {
    var q := queue[n];
    var k :| k in keys && PathOf(keys, q) + [ch] <= k;
    var j :| 0 <= j < |keys| && keys[j] == k;
    ExtensionIsLonger(keys, q, j, ch);
    assert Covered(queue, starts[n], starts[n + 1], j);
    var c :| starts[n] <= c < starts[n + 1] && queue[c].s <= j < queue[c].e;
    assert IsChild(keys, q, queue[c], labels[c - 1], q.e);
    SameLengthPrefixes(PathOf(keys, queue[c]), PathOf(keys, q) + [ch], keys[j]);
    assert Paths(keys, queue)[c] == PathOf(keys, q) + [ch];
  }

  lemma ExtensionIsLonger(keys: seq<string>, q: QElt, j: nat, ch: char)
    requires EltOk(keys, q) && j < |keys| && PathOf(keys, q) + [ch] <= keys[j]
    ensures FirstLonger(keys, q) <= j < q.e
  {
    assert PathOf(keys, q) <= keys[j];
  }

  lemma SameLengthPrefixes(a: string, b: string, s: string)
    requires a <= s && b <= s && |a| == |b|
    ensures a == b
  {
    assert a == s[..|a|] && b == s[..|b|];
  }

  lemma BeforeIsLevelLess(keys: seq<string>, x: QElt, y: QElt)
    requires StrictlySorted(keys) && EltOk(keys, x) && EltOk(keys, y) && Before(x, y)
    ensures LevelLess(PathOf(keys, x), PathOf(keys, y))
  {
    if x.col == y.col {
      assert !(PathOf(keys, x) <= keys[y.s]);
      LessTruncated(keys[x.s], keys[y.s], x.col);
    }
  }

  /** A node without children holds a key; the last node of the queue is one. */
  lemma LastNodeIsLeaf(keys: seq<string>, queue: seq<QElt>, labels: string, starts: seq<nat>)
    requires Built(keys, queue, labels, starts, |queue|)
    ensures var q := queue[|queue| - 1]; q.col == |keys[q.s]|
  {
    var n := |queue| - 1;
    var q := queue[n];
    assert NodeExpanded(keys, queue, labels, starts, n);
    assert starts[n] == starts[n + 1] == |queue|;
    assert !Covered(queue, starts[n], starts[n + 1], q.s);
  }

  lemma BuiltEncodes(ss: DomainSet, keys: seq<string>, queue: seq<QElt>, starts: seq<nat>, lIdx: nat)
    requires keys != [] && WeaklySorted(keys)
    requires Built(keys, queue, ss.labels, starts, |queue|)
    requires BitsWritten(ss.labelBitmap, starts, |queue|, lIdx)
    requires LeavesWritten(ss.leaves, keys, queue, |queue|)
    ensures NoDuplicates(keys) && Encodes(ss, keys)
  {
    BuiltIsDistinct(keys, queue, ss.labels, starts);
    StrictIsWeakAndDistinct(keys);
    var paths := Paths(keys, queue);
    BuiltIsLayout(ss, keys, queue, starts, lIdx);
    forall p | SomeKeyExtends(keys, p) ensures p in paths {
      EveryPrefixIsANode(ss, keys, paths, starts, p);
    }
    forall m, n | 0 <= m < n < |paths| ensures LevelLess(paths[m], paths[n]) {
      BeforeIsLevelLess(keys, queue[m], queue[n]);
    }
  }

  lemma BuiltIsLayout(ss: DomainSet, keys: seq<string>, queue: seq<QElt>, starts: seq<nat>, lIdx: nat)
    requires keys != [] && StrictlySorted(keys)
    requires Built(keys, queue, ss.labels, starts, |queue|)
    requires BitsWritten(ss.labelBitmap, starts, |queue|, lIdx)
    requires LeavesWritten(ss.leaves, keys, queue, |queue|)
    ensures Layout(ss, keys, Paths(keys, queue), starts)
  {
    var paths := Paths(keys, queue);
    LastNodeIsLeaf(keys, queue, ss.labels, starts);
    assert BitAt(ss.leaves, |queue| - 1);
    forall n | 0 <= n < |paths| ensures ChildrenOf(keys, paths, starts, ss.labels, n) {
      assert NodeExpanded(keys, queue, ss.labels, starts, n);
      ExpandedGivesChildren(keys, queue, ss.labels, starts, n);
    }
    forall n | 0 <= n < |paths|
      ensures SomeKeyExtends(keys, paths[n])
      ensures BitAt(ss.leaves, n) <==> paths[n] in keys
    {
      assert keys[queue[n].s] in keys && paths[n] <= keys[queue[n].s];
      LeafIffKey(keys, queue[n]);
    }
  }

  lemma LeafIffKey(keys: seq<string>, q: QElt)
    requires StrictlySorted(keys) && EltOk(keys, q)
    ensures q.col == |keys[q.s]| <==> PathOf(keys, q) in keys
  {
    ColumnSorted(keys, q);
    if PathOf(keys, q) in keys {
      var j :| 0 <= j < |keys| && keys[j] == PathOf(keys, q);
      assert j == q.s;
    }
    assert keys[q.s] in keys && keys[q.s][..|keys[q.s]|] == keys[q.s];
  }

  lemma {:induction false} EveryPrefixIsANode(ss: DomainSet, keys: seq<string>, paths: seq<string>,
                                              starts: seq<nat>, p: string)
    requires Layout(ss, keys, paths, starts) && SomeKeyExtends(keys, p)
    ensures p in paths
    decreases |p|
  {
    if p == "" {
      assert paths[0] == p;
    } else {
      var parent, last := p[..|p| - 1], p[|p| - 1];
      var k :| k in keys && p <= k;
      assert parent <= k;
      EveryPrefixIsANode(ss, keys, paths, starts, parent);
      var n :| 0 <= n < |paths| && paths[n] == parent;
      assert p == paths[n] + [last];
      assert ChildrenOf(keys, paths, starts, ss.labels, n);
    }
  }

  // ---------------------------------------------------------------- navigation

  /** Before any bit of block `n` there are exactly `n` set bits. */
  lemma {:induction false} OnesBefore(ss: DomainSet, keys: seq<string>, paths: seq<string>, starts: seq<nat>,
                                      n: nat, b: nat)
    requires Layout(ss, keys, paths, starts) && n < |paths|
    requires BlockStart(starts, n) <= b < BlockStart(starts, n + 1)
    ensures b - CountZeros(ss.labelBitmap, b) == n
    decreases b
  {
    if b > BlockStart(starts, n) {
      assert BlockBits(ss.labelBitmap, starts, n);
      OnesBefore(ss, keys, paths, starts, n, b - 1);
    } else if n > 0 {
      assert BlockBits(ss.labelBitmap, starts, n - 1);
      OnesBefore(ss, keys, paths, starts, n - 1, b - 1);
    }
  }

  /** The clear bit at position `b` of block `n` leads to node `CountZeros(b + 1)`, along
      the edge byte `labels[b - n]`. */
  lemma EdgeLeadsToChild(ss: DomainSet, keys: seq<string>, paths: seq<string>, starts: seq<nat>, n: nat, b: nat)
    requires Layout(ss, keys, paths, starts) && n < |paths|
    requires IsEdge(starts, n, b)
    ensures n <= b && b - n < |ss.labels|
    ensures var c := CountZeros(ss.labelBitmap, b + 1);
            c == b - n + 1 && starts[n] <= c < starts[n + 1] && paths[c] == paths[n] + [ss.labels[b - n]]
  {
    assert BlockBits(ss.labelBitmap, starts, n);
    OnesBefore(ss, keys, paths, starts, n, b);
    assert ChildrenOf(keys, paths, starts, ss.labels, n);
  }

  /** The edges of node `n` start right after the set bit that closes node `n - 1`. */
  lemma SelectFindsBlock(ss: DomainSet, keys: seq<string>, paths: seq<string>, starts: seq<nat>, n: nat)
    requires Layout(ss, keys, paths, starts) && 0 < n < |paths|
    ensures SelectIthOne(ss.labelBitmap, n - 1) + 1 == BlockStart(starts, n)
  {
    var last := BlockStart(starts, n) - 1;
    assert BlockBits(ss.labelBitmap, starts, n - 1);
    OnesBefore(ss, keys, paths, starts, n - 1, last);
    SelectIsInverseOfRank(ss.labelBitmap, n - 1, last);
  }

  /** Position `b` is an edge of node `n`. */
  ghost predicate IsEdge(starts: seq<nat>, n: nat, b: nat) {
    n + 1 < |starts| && BlockStart(starts, n) <= b < BlockStart(starts, n + 1) - 1
  }

  ghost predicate EdgeWith(ss: DomainSet, starts: seq<nat>, n: nat, b: nat, ch: char) {
    IsEdge(starts, n, b) && n <= b < n + |ss.labels| && ss.labels[b - n] == ch
  }

  /** A node has an edge for a byte exactly when some key goes on with that byte. */
  lemma EdgeIffExtension(ss: DomainSet, keys: seq<string>, paths: seq<string>, starts: seq<nat>, n: nat, ch: char)
    requires Layout(ss, keys, paths, starts) && n < |paths|
    ensures SomeKeyExtends(keys, paths[n] + [ch]) <==> exists b: nat :: EdgeWith(ss, starts, n, b, ch)
  {
    if SomeKeyExtends(keys, paths[n] + [ch]) {
      ExtensionHasEdge(ss, keys, paths, starts, n, ch);
    }
    if b: nat :| EdgeWith(ss, starts, n, b, ch) {
      EdgeLeadsToChild(ss, keys, paths, starts, n, b);
      assert SomeKeyExtends(keys, paths[b - n + 1]);
    }
  }

  lemma ExtensionHasEdge(ss: DomainSet, keys: seq<string>, paths: seq<string>, starts: seq<nat>, n: nat, ch: char)
    requires Layout(ss, keys, paths, starts) && n < |paths|
    requires SomeKeyExtends(keys, paths[n] + [ch])
    ensures exists b: nat :: EdgeWith(ss, starts, n, b, ch)
  {
    assert ChildrenOf(keys, paths, starts, ss.labels, n);
    var c :| starts[n] <= c < starts[n + 1] && paths[c] == paths[n] + [ch];
    assert paths[c][|paths[n]|] == ss.labels[c - 1] == ch;
    assert EdgeWith(ss, starts, n, c - 1 + n, ch);
  }

  /** The clear bit `b` of node `n` leads, by rank, to the node one byte further. */
  ghost predicate EdgeOk(ss: DomainSet, paths: seq<string>, n: nat, b: nat)
    requires n < |paths|
  {
    var c := CountZeros(ss.labelBitmap, b + 1);
    0 < c < |paths| && n <= b < n + |ss.labels| && paths[c] == paths[n] + [ss.labels[b - n]]
  }

  /** Everything the query relies on, in the words of the encoding: node ids follow the
      level order `paths`, every clear bit leads to the node of the longer path, select
      finds each block, and leaf bits mark the keys; every leaf read is in range. */
  lemma EncodingIsNavigable(ss: DomainSet, keys: seq<string>, paths: seq<string>, starts: seq<nat>)
    requires Layout(ss, keys, paths, starts)
    ensures forall n, b: nat :: 0 <= n < |paths| && IsEdge(starts, n, b) ==> EdgeOk(ss, paths, n, b)
    ensures forall n :: 0 < n < |paths| ==> SelectIthOne(ss.labelBitmap, n - 1) + 1 == BlockStart(starts, n)
    ensures forall n :: 0 <= n < |paths| ==>
              n / 64 < |ss.leaves| && (GetBit(ss.leaves, n) <==> paths[n] in keys)
  {
    forall n, b: nat | 0 <= n < |paths| && IsEdge(starts, n, b) ensures EdgeOk(ss, paths, n, b) {
      EdgeLeadsToChild(ss, keys, paths, starts, n, b);
    }
    forall n | 0 < n < |paths| ensures SelectIthOne(ss.labelBitmap, n - 1) + 1 == BlockStart(starts, n) {
      SelectFindsBlock(ss, keys, paths, starts, n);
    }
    forall n | 0 <= n < |paths| ensures n / 64 < |ss.leaves| && (GetBit(ss.leaves, n) <==> paths[n] in keys) {
      LeafReadInRange(ss, keys, paths, starts, n);
    }
  }

  lemma LeafReadInRange(ss: DomainSet, keys: seq<string>, paths: seq<string>, starts: seq<nat>, n: nat)
    requires Layout(ss, keys, paths, starts) && n < |paths|
    ensures n / 64 < |ss.leaves| && (GetBit(ss.leaves, n) <==> paths[n] in keys)
  {
  }

  // ---------------------------------------------------------------- queries

  ghost predicate IsSetOf(ss: Option<DomainSet>, keys: seq<string>) {
    match ss
    case None => keys == []
    case Some(s) => Encodes(s, keys)
  }

  /** The edges of a node come in ascending byte order. */
  lemma EdgesAscend(ss: DomainSet, keys: seq<string>, paths: seq<string>, starts: seq<nat>, n: nat, b: nat, d: nat)
    requires Layout(ss, keys, paths, starts) && IsLevelOrder(keys, paths) && n < |paths|
    requires IsEdge(starts, n, b) && IsEdge(starts, n, d) && b < d
    ensures n <= b && d - n < |ss.labels| && ss.labels[b - n] < ss.labels[d - n]
  {
    EdgeLeadsToChild(ss, keys, paths, starts, n, b);
    EdgeLeadsToChild(ss, keys, paths, starts, n, d);
    var x, y := paths[b - n + 1], paths[d - n + 1];
    assert LevelLess(x, y);
    LessAfterCommonPrefix(x, y, |paths[n]|);
    if ss.labels[b - n] == ss.labels[d - n] {
      LessAfterCommonPrefix(x, y, |x|);
    }
  }
}
