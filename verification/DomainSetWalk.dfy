/** The walk of a domain set over a query, with the `*` edges it may come back to. */
module DomainSetWalks {
  import opened Bitmaps
  import opened DomainSets
  import opened Text
  import opened Wrappers

  const DOMAIN_STEP_BYTE := '.'

  // ---------------------------------------------------------------- where the search for a dot leads

  /** The search for a dot finds none, ends on the bit that closes a node, or goes on behind an
      edge. Of a node without a dot edge the keys alone do not say which. */
  datatype Jump = NoDotLeft | Closed | To(path: string) | Unknown

  /** What is known of a set: its keys alone, or the nodes and bits of its encoding as well; and
      where the search for a dot leads from each node. */
  datatype Tree =
    | Prefixes(keys: seq<string>, jump: string -> Jump)
    | Encoded(keys: seq<string>, jump: string -> Jump, ss: DomainSet, paths: seq<string>, starts: seq<nat>)

  ghost predicate IsEncoded(t: Tree) {
    t.Encoded? && Layout(t.ss, t.keys, t.paths, t.starts) && IsLevelOrder(t.keys, t.paths)
  }

  predicate IsDotLabel(ss: DomainSet, k: int) {
    0 <= k < |ss.labels| && ss.labels[k] == DOMAIN_STEP_BYTE
  }

  /** The first bit from `b` on that has a dot as its label, counted from node `n`; or where
      the labels end. */
  function FirstDot(ss: DomainSet, n: nat, b: nat): (r: nat)
    requires n <= b
    ensures b <= r && (r - n < |ss.labels| ==> IsDotLabel(ss, r - n))
    ensures forall k :: b - n <= k < r - n ==> !IsDotLabel(ss, k)
    decreases |ss.labels| + n - b
  {
    if b - n >= |ss.labels| || IsDotLabel(ss, b - n) then b else FirstDot(ss, n, b + 1)
  }

  /** The path of the node behind the edge at bit `b`. */
  ghost function PathBehind(ss: DomainSet, paths: seq<string>, b: nat): string {
    var c := CountZeros(ss.labelBitmap, b + 1);
    if c < |paths| then paths[c] else ""
  }

  ghost function JumpOnBits(ss: DomainSet, paths: seq<string>, n: nat, from: nat): Jump {
    if from < n then Unknown
    else
      var b := FirstDot(ss, n, from);
      if b - n >= |ss.labels| then NoDotLeft
      else if BitAt(ss.labelBitmap, b) then Closed
      else To(PathBehind(ss, paths, b))
  }

  ghost function JumpFrom(ss: DomainSet, paths: seq<string>, starts: seq<nat>, p: string): Jump {
    if p in paths && |paths| < |starts| && BlockStart(starts, IndexOf(paths, p)) >= 0 then
      JumpOnBits(ss, paths, IndexOf(paths, p), BlockStart(starts, IndexOf(paths, p)))
    else Unknown
  }

  ghost function IndexOf(paths: seq<string>, p: string): (n: nat)
    requires p in paths
    ensures n < |paths| && paths[n] == p
  {
    var n :| 0 <= n < |paths| && paths[n] == p; n
  }

  ghost function OnBits(keys: seq<string>, ss: DomainSet, paths: seq<string>, starts: seq<nat>): Tree {
    Encoded(keys, p => JumpFrom(ss, paths, starts, p), ss, paths, starts)
  }

  ghost predicate JumpsOnBits(t: Tree) {
    t.Encoded? && forall p :: t.jump(p) == JumpFrom(t.ss, t.paths, t.starts, p)
  }

  ghost function OnKeys(keys: seq<string>): Tree {
    Prefixes(keys, p => if SomeKeyExtends(keys, p + [DOMAIN_STEP_BYTE]) then To(p + [DOMAIN_STEP_BYTE]) else Unknown)
  }

  // ---------------------------------------------------------------- the answer on the prefix tree

  /** `Back`: there is no way on, and the latest `*` edge that was passed is tried instead.
      `Astray`: the walk leaves the node it comes back to, and the keys say nothing more. */
  datatype Answer = Yes | No | Back | Astray

  /** The first dot of `q` from `i` on, or its end. */
  function NextDot(q: string, i: nat): (j: nat)
    requires i <= |q|
    ensures i <= j <= |q| && (j < |q| ==> q[j] == DOMAIN_STEP_BYTE)
    ensures forall k :: i <= k < j ==> q[k] != DOMAIN_STEP_BYTE
    decreases |q| - i
  {
    if i == |q| || q[i] == DOMAIN_STEP_BYTE then i else NextDot(q, i + 1)
  }

  /** The scan of the node of `p` for `c` meets its `+` edge. */
  ghost predicate PlusFirst(keys: seq<string>, p: string, c: char) {
    && SomeKeyExtends(keys, p + [COMPLEX_WILDCARD_BYTE])
    && (c >= COMPLEX_WILDCARD_BYTE || c == WILDCARD_BYTE || !SomeKeyExtends(keys, p + [c]))
  }

  /** The scan of the node of `p` for `c` passes its `*` edge. */
  ghost predicate StarPassed(keys: seq<string>, p: string, c: char) {
    && SomeKeyExtends(keys, p + [WILDCARD_BYTE])
    && (c >= WILDCARD_BYTE || !SomeKeyExtends(keys, p + [c]))
  }

  /** The answer from the node of `p` on, with the query read up to `i`. */
  ghost function Find(t: Tree, p: string, q: string, i: nat): Answer
    requires i <= |q|
    decreases |q| - i, 1
  {
    if i == |q| then
      if p in t.keys then Yes else No
    else
      var on := Forward(t, p, q, i);
      if on.Back? && StarPassed(t.keys, p, q[i]) then Resume(t, p + [WILDCARD_BYTE], q, i) else on
  }

  /** The answer that the `+` edge and the edge of the next byte give. */
  ghost function Forward(t: Tree, p: string, q: string, i: nat): Answer
    requires i < |q|
    decreases |q| - i, 0
  {
    if PlusFirst(t.keys, p, q[i]) then Yes
    else if q[i] != WILDCARD_BYTE && SomeKeyExtends(t.keys, p + [q[i]]) then Find(t, p + [q[i]], q, i + 1)
    else Back
  }

  /** The answer from the node `p` behind a `*` edge that takes the label at `i`. */
  ghost function Resume(t: Tree, p: string, q: string, i: nat): Answer
    requires i <= |q|
    decreases |q| - i, 0
  {
    var j := NextDot(q, i);
    if j == |q| then
      if p in t.keys then Yes else Back
    else
      match t.jump(p)
      case To(next) => Find(t, next, q, j + 1)
      case Closed => Back
      case NoDotLeft => No
      case Unknown => Astray
  }

  /** `r` is the answer of the set for the reversed, lower-cased query. */
  ghost predicate Answers(ss: Option<DomainSet>, keys: seq<string>, q: string, r: bool) {
    match ss
    case None => !r
    case Some(s) => exists paths, starts :: AnswersOn(OnBits(keys, s, paths, starts), q, r)
  }

  ghost predicate AnswersOn(t: Tree, q: string, r: bool) {
    IsEncoded(t) && (r <==> Find(t, "", q, 0).Yes?)
  }

  /** The same as far as the keys tell; only of an astray walk nothing is said. */
  ghost predicate KeysAnswer(keys: seq<string>, q: string, r: bool) {
    match Find(OnKeys(keys), "", q, 0)
    case Yes => r
    case No => !r
    case Back => !r
    case Astray => true
  }

  // ---------------------------------------------------------------- the answer on the bitmap

  /** A `*` edge and the query position at which it was passed. */
  datatype Cursor = Cursor(bmIdx: nat, index: nat)

  /** The answer from bit `b` of node `n` on. */
  ghost function Scan(t: Tree, q: string, i: nat, n: nat, b: nat): Answer
    requires t.Encoded? && i < |q|
    decreases if n + 1 < |t.starts| then BlockStart(t.starts, n + 1) - b else 0
  {
    if !IsEdge(t.starts, n, b) || !(n <= b < n + |t.ss.labels|) then Back
    else
      var edge := t.ss.labels[b - n];
      if edge == COMPLEX_WILDCARD_BYTE then Yes
      else if edge == WILDCARD_BYTE then
        var on := Scan(t, q, i, n, b + 1);
        if on.Back? then Resume(t, PathBehind(t.ss, t.paths, b), q, i) else on
      else if edge == q[i] then Find(t, PathBehind(t.ss, t.paths, b), q, i + 1)
      else Scan(t, q, i, n, b + 1)
  }

  ghost predicate SomeEdgeFrom(ss: DomainSet, starts: seq<nat>, n: nat, b: nat, ch: char) {
    exists d: nat :: b <= d && EdgeWith(ss, starts, n, d, ch)
  }

  ghost predicate NoEdgeBefore(ss: DomainSet, starts: seq<nat>, n: nat, b: nat, ch: char) {
    forall d: nat :: d < b ==> !EdgeWith(ss, starts, n, d, ch)
  }

  /** Neither the `+` edge nor the edge of the query byte lies before bit `b`. */
  ghost predicate NothingBefore(ss: DomainSet, starts: seq<nat>, n: nat, b: nat, c: char) {
    && NoEdgeBefore(ss, starts, n, b, COMPLEX_WILDCARD_BYTE)
    && (c != WILDCARD_BYTE ==> NoEdgeBefore(ss, starts, n, b, c))
  }

  /** Smaller edges come before, larger ones after. */
  lemma EdgesAround(ss: DomainSet, keys: seq<string>, paths: seq<string>, starts: seq<nat>, n: nat, b: nat)
    requires Layout(ss, keys, paths, starts) && IsLevelOrder(keys, paths) && n < |paths| && IsEdge(starts, n, b)
    requires n <= b < n + |ss.labels|
    ensures forall d: nat, ch {:trigger EdgeWith(ss, starts, n, d, ch)} :: EdgeWith(ss, starts, n, d, ch) ==>
              (d < b <==> ch < ss.labels[b - n]) && (d == b <==> ch == ss.labels[b - n])
  {
    forall d: nat, ch | EdgeWith(ss, starts, n, d, ch)
      ensures (d < b <==> ch < ss.labels[b - n]) && (d == b <==> ch == ss.labels[b - n])
    {
      if d < b {
        EdgesAscend(ss, keys, paths, starts, n, d, b);
      } else if b < d {
        EdgesAscend(ss, keys, paths, starts, n, b, d);
      }
    }
  }

  lemma PlusDecides(ss: DomainSet, keys: seq<string>, paths: seq<string>, starts: seq<nat>, n: nat, b: nat, c: char)
    requires Layout(ss, keys, paths, starts) && IsLevelOrder(keys, paths) && n < |paths|
    requires EdgeWith(ss, starts, n, b, COMPLEX_WILDCARD_BYTE) && NothingBefore(ss, starts, n, b, c)
    ensures PlusFirst(keys, paths[n], c)
  {
    EdgeIffExtension(ss, keys, paths, starts, n, c);
    EdgeIffExtension(ss, keys, paths, starts, n, COMPLEX_WILDCARD_BYTE);
    EdgesAround(ss, keys, paths, starts, n, b);
  }

  lemma StarDecides(ss: DomainSet, keys: seq<string>, paths: seq<string>, starts: seq<nat>, n: nat, b: nat, c: char)
    requires Layout(ss, keys, paths, starts) && IsLevelOrder(keys, paths) && n < |paths|
    requires EdgeWith(ss, starts, n, b, WILDCARD_BYTE) && NothingBefore(ss, starts, n, b, c)
    ensures StarPassed(keys, paths[n], c)
  {
    EdgeIffExtension(ss, keys, paths, starts, n, c);
    EdgeIffExtension(ss, keys, paths, starts, n, WILDCARD_BYTE);
    EdgesAround(ss, keys, paths, starts, n, b);
  }

  lemma ByteDecides(ss: DomainSet, keys: seq<string>, paths: seq<string>, starts: seq<nat>, n: nat, b: nat, c: char)
    requires Layout(ss, keys, paths, starts) && IsLevelOrder(keys, paths) && n < |paths|
    requires EdgeWith(ss, starts, n, b, c) && NothingBefore(ss, starts, n, b, c)
    requires c != COMPLEX_WILDCARD_BYTE && c != WILDCARD_BYTE
    ensures !PlusFirst(keys, paths[n], c) && SomeKeyExtends(keys, paths[n] + [c])
    ensures StarPassed(keys, paths[n], c) ==> !SomeEdgeFrom(ss, starts, n, b, WILDCARD_BYTE)
  {
    EdgeIffExtension(ss, keys, paths, starts, n, c);
    EdgeIffExtension(ss, keys, paths, starts, n, COMPLEX_WILDCARD_BYTE);
    EdgesAround(ss, keys, paths, starts, n, b);
  }

  lemma EndDecides(ss: DomainSet, keys: seq<string>, paths: seq<string>, starts: seq<nat>, n: nat, b: nat, c: char)
    requires Layout(ss, keys, paths, starts) && n < |paths|
    requires BlockStart(starts, n) <= b && !IsEdge(starts, n, b) && NothingBefore(ss, starts, n, b, c)
    ensures !PlusFirst(keys, paths[n], c) && (c == WILDCARD_BYTE || !SomeKeyExtends(keys, paths[n] + [c]))
    ensures !SomeEdgeFrom(ss, starts, n, b, WILDCARD_BYTE)
  {
    EdgeIffExtension(ss, keys, paths, starts, n, c);
    EdgeIffExtension(ss, keys, paths, starts, n, COMPLEX_WILDCARD_BYTE);
  }

  lemma OneEdgeOn(ss: DomainSet, starts: seq<nat>, n: nat, b: nat, ch: char)
    ensures SomeEdgeFrom(ss, starts, n, b, ch) <==>
              EdgeWith(ss, starts, n, b, ch) || SomeEdgeFrom(ss, starts, n, b + 1, ch)
  {
    if d: nat :| b <= d && EdgeWith(ss, starts, n, d, ch) {
      assert d == b || b + 1 <= d;
    }
  }

  /** From any bit that the scan reaches, it gives the answer of the tree. */
  lemma {:induction false} ScanFrom(t: Tree, q: string, i: nat, n: nat, b: nat)
    requires IsEncoded(t) && n < |t.paths| && i < |q|
    requires BlockStart(t.starts, n) <= b < BlockStart(t.starts, n + 1)
    requires NothingBefore(t.ss, t.starts, n, b, q[i])
    ensures var on := Forward(t, t.paths[n], q, i);
            Scan(t, q, i, n, b) ==
              if on.Back? && StarPassed(t.keys, t.paths[n], q[i]) && SomeEdgeFrom(t.ss, t.starts, n, b, WILDCARD_BYTE)
              then Resume(t, t.paths[n] + [WILDCARD_BYTE], q, i) else on
    decreases BlockStart(t.starts, n + 1) - b
  {
    if !IsEdge(t.starts, n, b) {
      EndDecides(t.ss, t.keys, t.paths, t.starts, n, b, q[i]);
    } else {
      EdgeLeadsToChild(t.ss, t.keys, t.paths, t.starts, n, b);
      var edge := t.ss.labels[b - n];
      OneEdgeOn(t.ss, t.starts, n, b, WILDCARD_BYTE);
      if edge == COMPLEX_WILDCARD_BYTE {
        PlusDecides(t.ss, t.keys, t.paths, t.starts, n, b, q[i]);
      } else if edge == WILDCARD_BYTE {
        StarDecides(t.ss, t.keys, t.paths, t.starts, n, b, q[i]);
        EdgesAround(t.ss, t.keys, t.paths, t.starts, n, b);
        ScanFrom(t, q, i, n, b + 1);
      } else if edge == q[i] {
        ByteDecides(t.ss, t.keys, t.paths, t.starts, n, b, q[i]);
      } else {
        ScanFrom(t, q, i, n, b + 1);
      }
    }
  }

  lemma ScanIsFind(t: Tree, q: string, i: nat, n: nat)
    requires IsEncoded(t) && n < |t.paths| && i < |q|
    ensures BlockStart(t.starts, n) >= 0
    ensures Scan(t, q, i, n, BlockStart(t.starts, n)) == Find(t, t.paths[n], q, i)
  {
    assert t.starts[0] <= t.starts[n] <= t.starts[n + 1];
    var b := BlockStart(t.starts, n);
    assert BlockBits(t.ss.labelBitmap, t.starts, n);
    ScanFrom(t, q, i, n, b);
    EdgeIffExtension(t.ss, t.keys, t.paths, t.starts, n, WILDCARD_BYTE);
  }

  // ---------------------------------------------------------------- pending `*` edges

  ghost predicate IsSomeEdge(starts: seq<nat>, b: nat) {
    exists n: nat :: IsEdge(starts, n, b)
  }

  ghost predicate Pending(starts: seq<nat>, q: string, stack: seq<Cursor>) {
    forall k :: 0 <= k < |stack| ==> stack[k].index < |q| && IsSomeEdge(starts, stack[k].bmIdx)
  }

  /** The final answer, when the walk at hand gives `a` and `stack` is still pending. */
  ghost function Rest(t: Tree, q: string, a: Answer, stack: seq<Cursor>): (r: Answer)
    requires t.Encoded? && Pending(t.starts, q, stack)
    ensures !a.Back? ==> r == a
    decreases |stack|
  {
    if a.Back? && stack != [] then
      var top, rest := stack[|stack| - 1], stack[..|stack| - 1];
      Rest(t, q, Resume(t, PathBehind(t.ss, t.paths, top.bmIdx), q, top.index), rest)
    else a
  }

  ghost function Pow3(n: int): nat
    ensures Pow3(n) >= 1
  {
    if n <= 0 then 1 else 3 * Pow3(n - 1)
  }

  lemma {:induction false} Pow3Grows(m: int, n: int)
    requires m <= n
    ensures Pow3(m) <= Pow3(n)
    decreases n - m
  {
    if m < n {
      Pow3Grows(m, n - 1);
    }
  }

  ghost function Stacked(total: nat, stack: seq<Cursor>): nat {
    if stack == [] then 0
    else Stacked(total, stack[..|stack| - 1]) + Pow3(total - stack[|stack| - 1].bmIdx)
  }

  /** What is left of the walk: later bits weigh less, and a pending edge less than the bit
      after it. */
  ghost function Fuel(total: nat, stack: seq<Cursor>, bmIdx: nat): nat {
    Stacked(total, stack) + Pow3(total - bmIdx + 1)
  }

  lemma FuelAdvances(total: nat, stack: seq<Cursor>, x: nat, y: nat)
    requires x < y <= total
    ensures Fuel(total, stack, y) < Fuel(total, stack, x)
  {
    Pow3Grows(total - y + 1, total - x);
  }

  lemma FuelPushes(total: nat, stack: seq<Cursor>, x: nat, i: nat)
    requires x < total
    ensures Fuel(total, stack + [Cursor(x, i)], x + 1) < Fuel(total, stack, x)
  {
    assert (stack + [Cursor(x, i)])[..|stack|] == stack;
  }

  lemma FuelPops(total: nat, stack: seq<Cursor>, x: nat, y: nat)
    requires stack != [] && stack[|stack| - 1].bmIdx < y <= total
    ensures Fuel(total, stack[..|stack| - 1], y) < Fuel(total, stack, x)
  {
    Pow3Grows(total - y + 1, total - stack[|stack| - 1].bmIdx);
  }

  lemma FuelDrops(total: nat, stack: seq<Cursor>, x: nat)
    requires stack != []
    ensures Fuel(total, stack[..|stack| - 1], x) < Fuel(total, stack, x)
  {
  }

  // ---------------------------------------------------------------- positions

  /** Every bit belongs to the block of some node. */
  lemma {:induction false} BlockOf(starts: seq<nat>, count: nat, upto: nat, b: nat) returns (n: nat)
    requires GoodStarts(starts, count) && 0 < upto <= count && b < BlockStart(starts, upto)
    ensures n < upto && BlockStart(starts, n) <= b < BlockStart(starts, n + 1)
  {
    if b < BlockStart(starts, upto - 1) {
      n := BlockOf(starts, count, upto - 1, b);
    } else {
      n := upto - 1;
    }
  }

  /** Every bit of a block can be read; the one that closes the block is set. */
  lemma BlockReads(ss: DomainSet, keys: seq<string>, paths: seq<string>, starts: seq<nat>, n: nat, b: nat)
    requires Layout(ss, keys, paths, starts) && n < |paths|
    requires BlockStart(starts, n) <= b < BlockStart(starts, n + 1)
    ensures b / 64 < |ss.labelBitmap|
    ensures GetBit(ss.labelBitmap, b) <==> !IsEdge(starts, n, b)
    ensures BlockStart(starts, n + 1) <= BlockStart(starts, |paths|)
  {
    assert BlockBits(ss.labelBitmap, starts, n);
    assert BitAt(ss.labelBitmap, b) <==> !IsEdge(starts, n, b);
    assert starts[n + 1] <= starts[|paths|];
  }

  /** Ranks lead forward: the block behind an edge starts after it. */
  lemma Behind(ss: DomainSet, keys: seq<string>, paths: seq<string>, starts: seq<nat>, n: nat, b: nat)
    returns (c: nat)
    requires Layout(ss, keys, paths, starts) && n < |paths| && IsEdge(starts, n, b)
    ensures n <= b < n + |ss.labels|
    ensures c == CountZeros(ss.labelBitmap, b + 1) && 0 < c < |paths|
    ensures paths[c] == PathBehind(ss, paths, b) == paths[n] + [ss.labels[b - n]]
    ensures SelectIthOne(ss.labelBitmap, c - 1) + 1 == BlockStart(starts, c)
    ensures b < BlockStart(starts, c) < BlockStart(starts, |paths|) && c <= BlockStart(starts, c)
  {
    EdgeLeadsToChild(ss, keys, paths, starts, n, b);
    c := CountZeros(ss.labelBitmap, b + 1);
    SelectFindsBlock(ss, keys, paths, starts, c);
    assert starts[n + 1] <= starts[|paths|] && starts[c] <= starts[|paths|];
  }

  // ---------------------------------------------------------------- the walk

  /** Bit `bmIdx` lies in the block of node `at`, which is the walk's own node unless it has
      just gone astray. */
  ghost predicate Placed(ss: DomainSet, starts: seq<nat>, at: nat, nodeId: nat, bmIdx: nat, c: char) {
    && at + 1 < |starts| && BlockStart(starts, at) <= bmIdx < BlockStart(starts, at + 1)
    && (nodeId == at ||
        (c == DOMAIN_STEP_BYTE && nodeId <= bmIdx < nodeId + |ss.labels| && ss.labels[bmIdx - nodeId] == c))
  }

  /** The answer from where the walk is. */
  ghost function Here(t: Tree, q: string, at: nat, nodeId: nat, bmIdx: nat, i: nat): Answer
    requires t.Encoded? && i < |q|
  {
    if at == nodeId then Scan(t, q, i, at, bmIdx)
    else if IsEdge(t.starts, at, bmIdx) then Find(t, PathBehind(t.ss, t.paths, bmIdx), q, i + 1)
    else Back
  }

  /** The walk is inside the block of a node. */
  ghost predicate Walking(t: Tree, q: string, at: nat, nodeId: nat, bmIdx: nat, i: nat, stack: seq<Cursor>) {
    && t.Encoded? && i < |q| && Placed(t.ss, t.starts, at, nodeId, bmIdx, q[i])
    && Pending(t.starts, q, stack)
    && Find(t, "", q, 0) == Rest(t, q, Here(t, q, at, nodeId, bmIdx, i), stack)
  }

  /** The walk is at the start of a node. */
  ghost predicate AtNode(t: Tree, q: string, nodeId: nat, i: nat, stack: seq<Cursor>) {
    && t.Encoded? && i <= |q| && nodeId < |t.paths|
    && Pending(t.starts, q, stack)
    && Find(t, "", q, 0) == Rest(t, q, Find(t, t.paths[nodeId], q, i), stack)
  }

  ghost function FuelAt(t: Tree, stack: seq<Cursor>, bmIdx: nat): nat
    requires IsEncoded(t)
  {
    Fuel(BlockStart(t.starts, |t.paths|), stack, bmIdx)
  }

  /** The walk has entered a node, or is still inside a block, with less than `fuel` left. */
  ghost predicate Gone(t: Tree, q: string, entered: bool, at: nat, n: nat, b: nat, i: nat, stack: seq<Cursor>,
                       fuel: nat)
    requires IsEncoded(t)
  {
    && FuelAt(t, stack, b) < fuel
    && if entered then AtNode(t, q, n, i, stack) && b == BlockStart(t.starts, n)
       else Walking(t, q, at, n, b, i, stack)
  }

  /** Where the walk is: the node, the bit, the query position and the pending `*` edges. */
  datatype Walker = Done(found: bool) | At(nodeId: nat, bmIdx: nat, index: nat, stack: seq<Cursor>)

  /** The walk is over with the right answer, or has gone on. */
  ghost predicate Moved(t: Tree, q: string, entered: bool, at: nat, w: Walker, fuel: nat)
    requires IsEncoded(t)
  {
    || (w.Done? && AnswersOn(t, q, w.found))
    || (w.At? && Gone(t, q, entered, at, w.nodeId, w.bmIdx, w.index, w.stack, fuel))
  }

  lemma EnterNode(t: Tree, q: string, nodeId: nat, i: nat, stack: seq<Cursor>)
    requires IsEncoded(t)
    requires AtNode(t, q, nodeId, i, stack) && i < |q|
    ensures BlockStart(t.starts, nodeId) >= 0
    ensures Walking(t, q, nodeId, nodeId, BlockStart(t.starts, nodeId), i, stack)
  {
    ScanIsFind(t, q, i, nodeId);
    assert t.starts[nodeId] <= t.starts[nodeId + 1];
  }

  /** An edge that is passed is only remembered, and only if it is a `*`. */
  lemma PassEdge(t: Tree, q: string, nodeId: nat, bmIdx: nat, i: nat, stack: seq<Cursor>, next: seq<Cursor>)
    requires IsEncoded(t) && nodeId < |t.paths|
    requires Walking(t, q, nodeId, nodeId, bmIdx, i, stack)
    requires IsEdge(t.starts, nodeId, bmIdx) && nodeId <= bmIdx < nodeId + |t.ss.labels|
    requires t.ss.labels[bmIdx - nodeId] != COMPLEX_WILDCARD_BYTE
    requires if t.ss.labels[bmIdx - nodeId] == WILDCARD_BYTE then next == stack + [Cursor(bmIdx, i)]
             else next == stack && t.ss.labels[bmIdx - nodeId] != q[i]
    ensures Gone(t, q, false, nodeId, nodeId, bmIdx + 1, i, next, FuelAt(t, stack, bmIdx))
  {
    assert t.starts[nodeId + 1] <= t.starts[|t.paths|];
    if next == stack {
      FuelAdvances(BlockStart(t.starts, |t.paths|), stack, bmIdx, bmIdx + 1);
    } else {
      FuelPushes(BlockStart(t.starts, |t.paths|), stack, bmIdx, i);
      assert next[..|stack|] == stack;
    }
  }

  /** The node behind an edge, and where its block starts. */
  lemma BlockBehind(t: Tree, at: nat, bmIdx: nat, stack: seq<Cursor>, child: nat, start: nat)
    requires IsEncoded(t) && at < |t.paths| && IsEdge(t.starts, at, bmIdx)
    requires child == CountZeros(t.ss.labelBitmap, bmIdx + 1) && child > 0
    requires start == SelectIthOne(t.ss.labelBitmap, child - 1) + 1
    ensures child < |t.paths| && t.paths[child] == PathBehind(t.ss, t.paths, bmIdx)
    ensures start == BlockStart(t.starts, child) && FuelAt(t, stack, start) < FuelAt(t, stack, bmIdx)
  {
    var c := Behind(t.ss, t.keys, t.paths, t.starts, at, bmIdx);
    FuelAdvances(BlockStart(t.starts, |t.paths|), stack, bmIdx, start);
  }

  /** The walk enters the node behind the edge. */
  lemma TakeByte(t: Tree, q: string, at: nat, nodeId: nat, bmIdx: nat, i: nat, stack: seq<Cursor>, child: nat)
    requires Walking(t, q, at, nodeId, bmIdx, i, stack)
    requires IsEdge(t.starts, at, bmIdx) && nodeId <= bmIdx < nodeId + |t.ss.labels|
    requires t.ss.labels[bmIdx - nodeId] == q[i] && q[i] !in {COMPLEX_WILDCARD_BYTE, WILDCARD_BYTE}
    requires child < |t.paths| && t.paths[child] == PathBehind(t.ss, t.paths, bmIdx)
    ensures AtNode(t, q, child, i + 1, stack)
  {
  }

  lemma MeetPlus(t: Tree, q: string, nodeId: nat, bmIdx: nat, i: nat, stack: seq<Cursor>)
    requires IsEncoded(t) && Walking(t, q, nodeId, nodeId, bmIdx, i, stack)
    requires IsEdge(t.starts, nodeId, bmIdx) && nodeId <= bmIdx < nodeId + |t.ss.labels|
    requires t.ss.labels[bmIdx - nodeId] == COMPLEX_WILDCARD_BYTE
    ensures AnswersOn(t, q, true)
  {
  }

  /** At the end of a block without pending edges the answer is no. */
  lemma NoneLeft(t: Tree, q: string, at: nat, nodeId: nat, bmIdx: nat, i: nat)
    requires IsEncoded(t) && Walking(t, q, at, nodeId, bmIdx, i, []) && !IsEdge(t.starts, at, bmIdx)
    ensures AnswersOn(t, q, false)
  {
  }

  /** At the end of a block the latest pending edge decides. */
  lemma GoBack(t: Tree, q: string, at: nat, nodeId: nat, bmIdx: nat, i: nat, stack: seq<Cursor>)
    requires IsEncoded(t) && Walking(t, q, at, nodeId, bmIdx, i, stack) && !IsEdge(t.starts, at, bmIdx)
    requires stack != []
    ensures var top, rest := stack[|stack| - 1], stack[..|stack| - 1];
            var a := Resume(t, PathBehind(t.ss, t.paths, top.bmIdx), q, top.index);
            && (a == Yes ==> AnswersOn(t, q, true))
            && (a == Back ==> Walking(t, q, at, nodeId, bmIdx, i, rest))
            && (a == No ==> AnswersOn(t, q, false))
            && Pending(t.starts, q, rest) && Find(t, "", q, 0) == Rest(t, q, a, rest)
  {
  }

  /** The walk goes on at the dot. */
  lemma StepToDot(t: Tree, q: string, a: Answer, n: nat, b: nat, j: nat, stack: seq<Cursor>) returns (at: nat)
    requires IsEncoded(t) && Pending(t.starts, q, stack) && Find(t, "", q, 0) == Rest(t, q, a, stack)
    requires j < |q| && OnDot(t, q, a, n, b, j)
    ensures Walking(t, q, at, n, b, j, stack)
  {
    if n < |t.paths| && BlockStart(t.starts, n) <= b < BlockStart(t.starts, n + 1) {
      at := n;
    } else {
      at := BlockOf(t.starts, |t.paths|, |t.paths|, b);
    }
    BlockReads(t.ss, t.keys, t.paths, t.starts, at, b);
  }

  datatype Resumed = End(isKey: bool) | AtDot(bmIdx: nat, nodeId: nat, index: nat) | NoDot

  /** The walk is on a dot label, perhaps of another node. */
  ghost predicate OnDot(t: Tree, q: string, a: Answer, n: nat, b: nat, j: nat)
    requires t.Encoded? && j < |q|
  {
    && q[j] == DOMAIN_STEP_BYTE
    && n <= b < n + |t.ss.labels| && t.ss.labels[b - n] == DOMAIN_STEP_BYTE
    && |t.paths| < |t.starts| && b < BlockStart(t.starts, |t.paths|)
    && a == if BitAt(t.ss.labelBitmap, b) then Back else Find(t, PathBehind(t.ss, t.paths, b), q, j + 1)
  }

  /** Goes back to a pending `*`: it takes the label at its query position, and the walk is
      to go on at a dot. The search for the dot is not confined to the node. */
  method BackToWildcard(ss: DomainSet, q: string, cursor: Cursor, ghost t: Tree)
    returns (r: Resumed)
    requires IsEncoded(t) && JumpsOnBits(t) && t.ss == ss
    requires cursor.index < |q| && IsSomeEdge(t.starts, cursor.bmIdx)
    ensures var a := Resume(t, PathBehind(ss, t.paths, cursor.bmIdx), q, cursor.index);
            match r
            case End(isKey) => a == if isKey then Yes else Back
            case NoDot => a == No
            case AtDot(b, n, j) => j < |q| && cursor.bmIdx < b && OnDot(t, q, a, n, b, j)
  {
    ghost var n: nat :| IsEdge(t.starts, n, cursor.bmIdx);
    ghost var child := Behind(ss, t.keys, t.paths, t.starts, n, cursor.bmIdx);
    var nextNodeId := CountZeros(ss.labelBitmap, cursor.bmIdx + 1);
    var nextBmIdx := SelectIthOne(ss.labelBitmap, nextNodeId - 1) + 1;
    var j := cursor.index;
    while j < |q| && q[j] != DOMAIN_STEP_BYTE
      invariant j <= |q| && NextDot(q, cursor.index) == NextDot(q, j)
    {
      j := j + 1;
    }
    if j == |q| {
      LeafReadInRange(ss, t.keys, t.paths, t.starts, nextNodeId);
      return End(GetBit(ss.leaves, nextNodeId));
    }
    var dot := FindDotLabel(ss, nextNodeId, nextBmIdx);
    DotIsFirst(t, q, cursor.index, nextNodeId, nextBmIdx, dot);
    if dot - nextNodeId < |ss.labels| {
      return AtDot(dot, nextNodeId, j);
    }
    return NoDot;
  }

  /** The search for a dot label from bit `from` on. */
  method FindDotLabel(ss: DomainSet, n: nat, from: nat) returns (b: nat)
    requires n <= from
    ensures b == FirstDot(ss, n, from)
  {
    b := from;
    while b - n < |ss.labels|
      invariant from <= b && FirstDot(ss, n, b) == FirstDot(ss, n, from)
      decreases |ss.labels| + n - b
    {
      if ss.labels[b - n] == DOMAIN_STEP_BYTE {
        return;
      }
      b := b + 1;
    }
  }

  /** A path is listed once. */
  lemma ListedOnce(t: Tree, n: nat)
    requires IsEncoded(t) && n < |t.paths|
    ensures IndexOf(t.paths, t.paths[n]) == n
  {
    SamePlace(t.keys, t.paths, IndexOf(t.paths, t.paths[n]), n);
  }

  lemma SamePlace(keys: seq<string>, paths: seq<string>, m: nat, n: nat)
    requires IsLevelOrder(keys, paths) && m < |paths| && n < |paths| && paths[m] == paths[n]
    ensures m == n
  {
    NotBelowItself(paths[m]);
  }

  lemma NotBelowItself(p: string)
    ensures !LevelLess(p, p)
  {
    ExtensionIsNotLess(p, p);
  }

  /** If node `n` has a dot edge, the search ends there. */
  lemma OwnDotIsFirst(t: Tree, n: nat, from: nat, b: nat)
    requires IsEncoded(t) && n < |t.paths| && n <= from == BlockStart(t.starts, n)
    requires b == FirstDot(t.ss, n, from) && SomeKeyExtends(t.keys, t.paths[n] + [DOMAIN_STEP_BYTE])
    ensures b - n < |t.ss.labels| && IsEdge(t.starts, n, b)
    ensures PathBehind(t.ss, t.paths, b) == t.paths[n] + [DOMAIN_STEP_BYTE]
  {
    EdgeIffExtension(t.ss, t.keys, t.paths, t.starts, n, DOMAIN_STEP_BYTE);
    var d: nat :| EdgeWith(t.ss, t.starts, n, d, DOMAIN_STEP_BYTE);
    assert IsDotLabel(t.ss, d - n);
    var c := Behind(t.ss, t.keys, t.paths, t.starts, n, b);
  }

  /** The search leads where the jump says. */
  lemma DotIsFirst(t: Tree, q: string, i: nat, n: nat, from: nat, b: nat)
    requires IsEncoded(t) && JumpsOnBits(t) && n < |t.paths| && i < |q| && NextDot(q, i) < |q|
    requires n <= from == BlockStart(t.starts, n) && b == FirstDot(t.ss, n, from)
    ensures var a := Resume(t, t.paths[n], q, i);
            if b - n < |t.ss.labels| then OnDot(t, q, a, n, b, NextDot(q, i)) else a == No
  {
    assert BlockStart(t.starts, |t.paths|) == 2 * |t.paths| - 1;
    ListedOnce(t, n);
    assert t.jump(t.paths[n]) == JumpOnBits(t.ss, t.paths, n, from);
  }

  /** At the end of a block the latest pending edge is tried. */
  method TryPending(ss: DomainSet, q: string, nodeId: nat, bmIdx: nat, i: nat, stack: seq<Cursor>,
                    ghost at: nat, ghost t: Tree)
    returns (r: Walker)
    requires IsEncoded(t) && JumpsOnBits(t) && t.ss == ss
    requires Walking(t, q, at, nodeId, bmIdx, i, stack) && !IsEdge(t.starts, at, bmIdx)
    ensures match r
            case Done(found) => AnswersOn(t, q, found)
            case At(n, b, j, rest) =>
              && FuelAt(t, rest, b) < FuelAt(t, stack, bmIdx)
              && exists a: nat :: Walking(t, q, a, n, b, j, rest)
  {
    if |stack| == 0 {
      NoneLeft(t, q, at, nodeId, bmIdx, i);
      return Done(false);
    }
    GoBack(t, q, at, nodeId, bmIdx, i, stack);
    var cursor, rest := stack[|stack| - 1], stack[..|stack| - 1];
    var back := BackToWildcard(ss, q, cursor, t);
    match back {
      case End(isKey) =>
        FuelDrops(BlockStart(t.starts, |t.paths|), stack, bmIdx);
        r := if isKey then Done(true) else At(nodeId, bmIdx, i, rest);
      case NoDot =>
        r := Done(false);
      case AtDot(b, n, j) =>
        FuelPops(BlockStart(t.starts, |t.paths|), stack, bmIdx, b);
        ghost var a := StepToDot(t, q,
          Resume(t, PathBehind(ss, t.paths, cursor.bmIdx), q, cursor.index), n, b, j, rest);
        r := At(n, b, j, rest);
    }
  }

  /** The label of the edge where the walk is can be read. */
  lemma LabelInRange(t: Tree, q: string, at: nat, nodeId: nat, bmIdx: nat, i: nat, stack: seq<Cursor>)
    requires IsEncoded(t) && at < |t.paths|
    requires Walking(t, q, at, nodeId, bmIdx, i, stack) && IsEdge(t.starts, at, bmIdx)
    ensures nodeId <= bmIdx < nodeId + |t.ss.labels|
    ensures t.ss.labels[bmIdx - nodeId] != DOMAIN_STEP_BYTE || q[i] != DOMAIN_STEP_BYTE ==> at == nodeId
  {
    EdgeLeadsToChild(t.ss, t.keys, t.paths, t.starts, at, bmIdx);
  }

  /** Goes behind the edge by rank and select. */
  method EnterNext(ss: DomainSet, q: string, nodeId: nat, bmIdx: nat, i: nat, stack: seq<Cursor>,
                   ghost at: nat, ghost t: Tree)
    returns (r: Walker)
    requires IsEncoded(t) && t.ss == ss && at < |t.paths|
    requires Walking(t, q, at, nodeId, bmIdx, i, stack) && IsEdge(t.starts, at, bmIdx)
    requires nodeId <= bmIdx < nodeId + |ss.labels|
    requires ss.labels[bmIdx - nodeId] == q[i] && q[i] !in {COMPLEX_WILDCARD_BYTE, WILDCARD_BYTE}
    ensures Moved(t, q, true, at, r, FuelAt(t, stack, bmIdx))
  {
    EdgeLeadsToChild(ss, t.keys, t.paths, t.starts, at, bmIdx);
    var child: nat := CountZeros(ss.labelBitmap, bmIdx + 1);
    var start: nat := SelectIthOne(ss.labelBitmap, child - 1) + 1;
    BlockBehind(t, at, bmIdx, stack, child, start);
    TakeByte(t, q, at, nodeId, bmIdx, i, stack, child);
    r := At(child, start, i + 1, stack);
  }

  /** Meets one edge: the walk is over, enters the node behind it, or passes it by. */
  method MeetEdge(ss: DomainSet, q: string, nodeId: nat, bmIdx: nat, i: nat, stack: seq<Cursor>,
                  ghost at: nat, ghost t: Tree)
    returns (r: Walker, entered: bool)
    requires IsEncoded(t) && t.ss == ss && at < |t.paths|
    requires Walking(t, q, at, nodeId, bmIdx, i, stack) && IsEdge(t.starts, at, bmIdx)
    ensures Moved(t, q, entered, at, r, FuelAt(t, stack, bmIdx))
  {
    LabelInRange(t, q, at, nodeId, bmIdx, i, stack);
    var edge := ss.labels[bmIdx - nodeId];
    if edge == COMPLEX_WILDCARD_BYTE {
      MeetPlus(t, q, nodeId, bmIdx, i, stack);
      return Done(true), false;
    } else if edge == WILDCARD_BYTE {
      r := PassBy(ss, q, nodeId, bmIdx, i, stack, t);
    } else if edge == q[i] {
      r := EnterNext(ss, q, nodeId, bmIdx, i, stack, at, t);
      return r, true;
    } else {
      r := PassBy(ss, q, nodeId, bmIdx, i, stack, t);
    }
    entered := false;
  }

  /** Passes an edge by; a `*` is kept for later. */
  method PassBy(ss: DomainSet, q: string, nodeId: nat, bmIdx: nat, i: nat, stack: seq<Cursor>, ghost t: Tree)
    returns (r: Walker)
    requires IsEncoded(t) && t.ss == ss && nodeId < |t.paths|
    requires Walking(t, q, nodeId, nodeId, bmIdx, i, stack) && IsEdge(t.starts, nodeId, bmIdx)
    requires nodeId <= bmIdx < nodeId + |ss.labels|
    requires ss.labels[bmIdx - nodeId] != COMPLEX_WILDCARD_BYTE
    requires ss.labels[bmIdx - nodeId] == WILDCARD_BYTE || ss.labels[bmIdx - nodeId] != q[i]
    ensures Moved(t, q, false, nodeId, r, FuelAt(t, stack, bmIdx))
  {
    var next := stack;
    if ss.labels[bmIdx - nodeId] == WILDCARD_BYTE {
      next := stack + [Cursor(bmIdx, i)];
    }
    PassEdge(t, q, nodeId, bmIdx, i, stack, next);
    r := At(nodeId, bmIdx + 1, i, next);
  }

  /** Scans a node for the next query byte; where there is no way on, the pending edges are
      tried, latest first, until the walk can enter a node or is over. */
  method ScanNode(ss: DomainSet, q: string, node: nat, from: nat, index: nat, pending: seq<Cursor>, ghost t: Tree)
    returns (r: Walker)
    requires IsEncoded(t) && JumpsOnBits(t) && t.ss == ss && index < |q|
    requires AtNode(t, q, node, index, pending) && from == BlockStart(t.starts, node)
    ensures match r
            case Done(found) => AnswersOn(t, q, found)
            case At(n, b, i, stack) =>
              && AtNode(t, q, n, i, stack) && b == BlockStart(t.starts, n)
              && FuelAt(t, stack, b) < FuelAt(t, pending, from)
  {
    var nodeId: nat, bmIdx: nat, i: nat, stack := node, from, index, pending;
    EnterNode(t, q, nodeId, i, stack);
    ghost var at := nodeId;
    while true
      invariant Walking(t, q, at, nodeId, bmIdx, i, stack)
      invariant FuelAt(t, stack, bmIdx) <= FuelAt(t, pending, from)
      decreases FuelAt(t, stack, bmIdx)
    {
      var entered := false;
      BlockReads(ss, t.keys, t.paths, t.starts, at, bmIdx);
      if GetBit(ss.labelBitmap, bmIdx) {
        r := TryPending(ss, q, nodeId, bmIdx, i, stack, at, t);
      } else {
        r, entered := MeetEdge(ss, q, nodeId, bmIdx, i, stack, at, t);
      }
      if r.Done? || entered {
        return;
      }
      nodeId, bmIdx, i, stack := r.nodeId, r.bmIdx, r.index, r.stack;
      at :| Walking(t, q, at, nodeId, bmIdx, i, stack);
    }
  }

  method Walk(ss: DomainSet, q: string, ghost t: Tree)
    returns (r: bool)
    requires IsEncoded(t) && JumpsOnBits(t) && t.ss == ss
    ensures AnswersOn(t, q, r)
  {
    var nodeId: nat, bmIdx: nat, i: nat := 0, 0, 0;
    var stack: seq<Cursor> := [];
    while i < |q|
      invariant AtNode(t, q, nodeId, i, stack) && bmIdx == BlockStart(t.starts, nodeId)
      decreases FuelAt(t, stack, bmIdx)
    {
      var walker := ScanNode(ss, q, nodeId, bmIdx, i, stack, t);
      match walker {
        case Done(found) =>
          return found;
        case At(n, b, j, rest) =>
          nodeId, bmIdx, i, stack := n, b, j, rest;
      }
    }
    LeafReadInRange(ss, t.keys, t.paths, t.starts, nodeId);
    r := GetBit(ss.leaves, nodeId);
  }

  method Has(ss: Option<DomainSet>, key: string, ghost keys: seq<string>) returns (r: bool)
    requires IsSetOf(ss, keys)
    ensures Answers(ss, keys, Lower(Reverse(key)), r)
  {
    if ss.None? {
      return false;
    }
    ghost var paths, starts :| Layout(ss.value, keys, paths, starts) && IsLevelOrder(keys, paths);
    r := Walk(ss.value, Lower(Reverse(key)), OnBits(keys, ss.value, paths, starts));
  }

  // ---------------------------------------------------------------- there is one answer

  lemma LevelOneWay(p: string, q: string)
    requires LevelLess(p, q)
    ensures !LevelLess(q, p)
  {
    if |p| == |q| && Less(q, p) {
      LessTransitive(p, q, p);
      ExtensionIsNotLess(p, p);
    }
  }

  lemma {:induction false} SameOrder(keys: seq<string>, paths: seq<string>, paths': seq<string>, n: nat)
    requires IsLevelOrder(keys, paths) && IsLevelOrder(keys, paths') && n <= |paths| && n <= |paths'|
    ensures paths[..n] == paths'[..n]
  {
    if n > 0 {
      var m := n - 1;
      SameOrder(keys, paths, paths', m);
      assert paths[m] in paths' && paths'[m] in paths;
      var j :| 0 <= j < |paths'| && paths'[j] == paths[m];
      var k :| 0 <= k < |paths| && paths[k] == paths'[m];
      NextListed(keys, paths, paths', m, j);
      NextListed(keys, paths', paths, m, k);
      if j > m && k > m {
        LevelOneWay(paths[m], paths'[m]);
      }
      assert paths[..n] == paths[..m] + [paths[m]] && paths'[..n] == paths'[..m] + [paths'[m]];
    }
  }

  lemma NextListed(keys: seq<string>, paths: seq<string>, paths': seq<string>, m: nat, j: nat)
    requires IsLevelOrder(keys, paths) && m < |paths| && m <= |paths'| && paths[..m] == paths'[..m]
    requires j < |paths'| && paths'[j] == paths[m]
    ensures j >= m
  {
    if j < m {
      assert paths[j] == paths[..m][j] == paths'[j];
      SamePlace(keys, paths, j, m);
    }
  }

  lemma SamePaths(keys: seq<string>, paths: seq<string>, paths': seq<string>)
    requires IsLevelOrder(keys, paths) && IsLevelOrder(keys, paths') && |paths| <= |paths'|
    ensures paths == paths'
  {
    SameOrder(keys, paths, paths', |paths|);
    if |paths| < |paths'| {
      assert paths'[|paths|] in paths;
      var k :| 0 <= k < |paths| && paths[k] == paths'[|paths|];
      assert paths'[k] == paths'[..|paths|][k] == paths[..|paths|][k] == paths[k];
      SamePlace(keys, paths', k, |paths|);
    }
  }

  lemma SameStarts(ss: DomainSet, keys: seq<string>, paths: seq<string>, starts: seq<nat>, starts': seq<nat>)
    requires Layout(ss, keys, paths, starts) && Layout(ss, keys, paths, starts')
    ensures starts == starts'
  {
    forall n | 0 <= n < |starts| ensures starts[n] == starts'[n] {
      if 0 < n < |paths| {
        SelectFindsBlock(ss, keys, paths, starts, n);
        SelectFindsBlock(ss, keys, paths, starts', n);
      }
    }
  }

  /** A set gives a query one answer. */
  lemma OneAnswer(ss: Option<DomainSet>, keys: seq<string>, q: string, r: bool, r': bool)
    requires Answers(ss, keys, q, r) && Answers(ss, keys, q, r')
    ensures r == r'
  {
    if ss.Some? {
      var paths, starts :| AnswersOn(OnBits(keys, ss.value, paths, starts), q, r);
      var paths', starts' :| AnswersOn(OnBits(keys, ss.value, paths', starts'), q, r');
      if |paths| <= |paths'| {
        SamePaths(keys, paths, paths');
      } else {
        SamePaths(keys, paths', paths);
      }
      SameStarts(ss.value, keys, paths, starts, starts');
    }
  }

  // ---------------------------------------------------------------- what the answers mean

  /** If a node has a dot edge, the search for a dot goes along it. */
  ghost predicate OwnDotFirst(t: Tree) {
    forall p :: SomeKeyExtends(t.keys, p + [DOMAIN_STEP_BYTE]) ==> t.jump(p) == To(p + [DOMAIN_STEP_BYTE])
  }

  lemma BitsGoAlongOwnDot(t: Tree)
    requires IsEncoded(t) && JumpsOnBits(t)
    ensures OwnDotFirst(t)
  {
    forall p | SomeKeyExtends(t.keys, p + [DOMAIN_STEP_BYTE]) ensures t.jump(p) == To(p + [DOMAIN_STEP_BYTE]) {
      var k :| k in t.keys && p + [DOMAIN_STEP_BYTE] <= k;
      assert p <= k;
      var n := IndexOf(t.paths, p);
      BlockIsLate(t, n);
      OwnDotIsFirst(t, n, BlockStart(t.starts, n), FirstDot(t.ss, n, BlockStart(t.starts, n)));
      BlockReads(t.ss, t.keys, t.paths, t.starts, n, FirstDot(t.ss, n, BlockStart(t.starts, n)));
    }
  }

  lemma BlockIsLate(t: Tree, n: nat)
    requires IsEncoded(t) && n < |t.paths|
    ensures n <= BlockStart(t.starts, n)
  {
    assert t.starts[0] <= t.starts[n];
  }

  /** The only jumps that are known are along a node's own dot edge. */
  ghost predicate StaysInside(t: Tree) {
    forall p :: t.jump(p) == Unknown || t.jump(p) == To(p + [DOMAIN_STEP_BYTE])
  }

  /** `t` goes where `o` knows to go. */
  ghost predicate Knows(t: Tree, o: Tree) {
    t.keys == o.keys && forall p :: o.jump(p) != Unknown ==> t.jump(p) == o.jump(p)
  }

  /** As long as one walk knows the way, one that knows more is the same. */
  lemma {:induction false} SameWalk(t: Tree, o: Tree, p: string, q: string, i: nat)
    requires Knows(t, o) && i <= |q| && Find(o, p, q, i) != Astray
    ensures Find(t, p, q, i) == Find(o, p, q, i)
    decreases |q| - i
  {
    if i < |q| {
      var c, star, j := q[i], p + [WILDCARD_BYTE], NextDot(q, i);
      if !PlusFirst(o.keys, p, c) && c != WILDCARD_BYTE && SomeKeyExtends(o.keys, p + [c]) {
        SameWalk(t, o, p + [c], q, i + 1);
      }
      if Forward(o, p, q, i).Back? && StarPassed(o.keys, p, c) && j < |q| && o.jump(star).To? {
        SameWalk(t, o, o.jump(star).path, q, j + 1);
      }
    }
  }

  lemma EncodingAnswersLikeKeys(ss: Option<DomainSet>, keys: seq<string>, q: string, r: bool)
    requires IsSetOf(ss, keys) && Answers(ss, keys, q, r)
    ensures KeysAnswer(keys, q, r)
  {
    match ss {
      case None => NothingInNil(q);
      case Some(s) =>
        var paths, starts :| AnswersOn(OnBits(keys, s, paths, starts), q, r);
        BitsGoAlongOwnDot(OnBits(keys, s, paths, starts));
        if Find(OnKeys(keys), "", q, 0) != Astray {
          SameWalk(OnBits(keys, s, paths, starts), OnKeys(keys), "", q, 0);
        }
    }
  }

  lemma NothingInNil(q: string)
    ensures KeysAnswer([], q, false)
  {
    assert forall p :: !SomeKeyExtends([], p);
    if q != "" {
      assert Forward(OnKeys([]), "", q, 0) == Back;
    }
  }

  /** The `+` edge below the first `i` bytes of `q` answers the query: the scan of that
      node meets it before a smaller edge that continues with `q[i]`. */
  ghost predicate PlusHit(keys: seq<string>, q: string, i: nat)
    requires i < |q|
  {
    && SomeKeyExtends(keys, q[..i] + [COMPLEX_WILDCARD_BYTE])
    && (q[i] >= COMPLEX_WILDCARD_BYTE || !SomeKeyExtends(keys, q[..i + 1]))
  }

  /** What a set without `*` edges answers for the reversed, lower-cased query `q`. */
  ghost predicate SetMatches(keys: seq<string>, q: string) {
    q in keys || exists i :: 0 <= i < |q| && PlusHit(keys, q, i)
  }

  /** No cut of the query from byte `i` on has a `*` edge. */
  ghost predicate NoStarFrom(keys: seq<string>, q: string, i: nat) {
    forall k {:trigger q[..k]} :: i <= k < |q| ==> !SomeKeyExtends(keys, q[..k] + [WILDCARD_BYTE])
  }

  lemma CutsExtend(keys: seq<string>, q: string, m: nat, k: nat, rest: string)
    requires m <= k <= |q|
    ensures SomeKeyExtends(keys, q[..k] + rest) ==> SomeKeyExtends(keys, q[..m])
  {
    if key :| key in keys && q[..k] + rest <= key {
      assert q[..m] <= key;
    }
  }

  /** A missing edge for the byte at `i` ends all longer cuts. */
  lemma NothingFurther(keys: seq<string>, q: string, i: nat)
    requires i < |q| && !SomeKeyExtends(keys, q[..i + 1])
    ensures q !in keys && forall k :: i < k < |q| ==> !PlusHit(keys, q, k)
  {
    assert q[..|q|] + "" == q && q <= q;
    CutsExtend(keys, q, i + 1, |q|, "");
    forall k | i < k < |q| ensures !PlusHit(keys, q, k) {
      CutsExtend(keys, q, i + 1, k, [COMPLEX_WILDCARD_BYTE]);
    }
  }

  lemma {:induction false} FindWithoutStar(keys: seq<string>, q: string, i: nat)
    requires i <= |q| && NoStarFrom(keys, q, i)
    ensures var a := Find(OnKeys(keys), q[..i], q, i);
            a != Astray && (a.Yes? <==> q in keys || exists k :: i <= k < |q| && PlusHit(keys, q, k))
    decreases |q| - i
  {
    if i == |q| {
      assert q[..i] == q;
    } else {
      assert q[..i + 1] == q[..i] + [q[i]];
      FindWithoutStar(keys, q, i + 1);
      assert PlusFirst(keys, q[..i], q[i]) <==> PlusHit(keys, q, i);
      if !SomeKeyExtends(keys, q[..i + 1]) {
        NothingFurther(keys, q, i);
      }
    }
  }

  /** Where no `*` edge is met, the set answers whether the query is a key or hits a `+`. */
  lemma WithoutStars(keys: seq<string>, q: string, r: bool)
    requires NoStarFrom(keys, q, 0) && KeysAnswer(keys, q, r)
    ensures r <==> SetMatches(keys, q)
  {
    FindWithoutStar(keys, q, 0);
  }

  lemma {:induction false} FindPlainly(keys: seq<string>, q: string, i: nat)
    requires i <= |q| && WILDCARD_BYTE !in q
    requires q in keys || exists k :: i <= k < |q| && PlusHit(keys, q, k)
    ensures Find(OnKeys(keys), q[..i], q, i) == Yes
    decreases |q| - i
  {
    if i == |q| {
      assert q[..i] == q;
    } else {
      assert q[..i + 1] == q[..i] + [q[i]];
      if !PlusHit(keys, q, i) {
        if !SomeKeyExtends(keys, q[..i + 1]) {
          NothingFurther(keys, q, i);
        }
        FindPlainly(keys, q, i + 1);
      }
    }
  }

  /** `*` edges never hide what the other edges answer. */
  lemma StarsOnlyAdd(keys: seq<string>, q: string, r: bool)
    requires WILDCARD_BYTE !in q && SetMatches(keys, q) && KeysAnswer(keys, q, r)
    ensures r
  {
    FindPlainly(keys, q, 0);
  }

  lemma {:induction false} FindUsedUp(keys: seq<string>, q: string, i: nat)
    requires i <= |q| && WILDCARD_BYTE !in q && SomeKeyExtends(keys, q)
    requires q !in keys && forall k :: i <= k < |q| ==> !PlusHit(keys, q, k)
    ensures Find(OnKeys(keys), q[..i], q, i) == No
    decreases |q| - i
  {
    if i == |q| {
      assert q[..i] == q;
    } else {
      assert q[..i + 1] == q[..i] + [q[i]] && q[..|q|] + "" == q;
      CutsExtend(keys, q, i + 1, |q|, "");
      assert !PlusHit(keys, q, i);
      FindUsedUp(keys, q, i + 1);
    }
  }

  /** A query that is used up inside a longer key is not looked for behind pending `*` edges. */
  lemma UsedUpInLongerKey(keys: seq<string>, q: string, r: bool)
    requires WILDCARD_BYTE !in q && SomeKeyExtends(keys, q) && KeysAnswer(keys, q, r)
    ensures r <==> SetMatches(keys, q)
  {
    if SetMatches(keys, q) {
      StarsOnlyAdd(keys, q, r);
    } else {
      FindUsedUp(keys, q, 0);
    }
  }

  /** Every key goes on with a dot after a `*`. */
  ghost predicate StarsGoOn(keys: seq<string>) {
    forall p {:trigger p + [WILDCARD_BYTE]} :: SomeKeyExtends(keys, p + [WILDCARD_BYTE]) ==>
      SomeKeyExtends(keys, p + [WILDCARD_BYTE] + [DOMAIN_STEP_BYTE])
  }

  /** Only a `*` that ends its keys leads the walk astray. */
  lemma {:induction false} NeverAstray(keys: seq<string>, p: string, q: string, i: nat)
    requires StarsGoOn(keys) && i <= |q|
    ensures Find(OnKeys(keys), p, q, i) != Astray
    decreases |q| - i
  {
    if i < |q| {
      NeverAstray(keys, p + [q[i]], q, i + 1);
      var j := NextDot(q, i);
      if j < |q| {
        NeverAstray(keys, p + [WILDCARD_BYTE] + [DOMAIN_STEP_BYTE], q, j + 1);
      }
    }
  }
}
