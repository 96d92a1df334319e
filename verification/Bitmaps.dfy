/** Growable bitmaps in 64-bit words, with the rank and select queries of the
    domain set given by their counting definitions. A word is the sequence of its
    bits, lowest first. */
module Bitmaps {

  type Word = w: seq<bool> | |w| == 64 witness ZERO

  const ZERO: seq<bool> := seq(64, i => false)

  /** The bit at position `i`; positions beyond the last word read as clear. */
  predicate BitAt(bm: seq<Word>, i: nat) {
    i / 64 < |bm| && bm[i / 64][i % 64]
  }

  /** A read as the code does it: the word index must be in range. */
  predicate GetBit(bm: seq<Word>, i: nat)
    requires i / 64 < |bm|
  {
    bm[i / 64][i % 64]
  }

  /** Grows `bm` with zero words until position `i` exists, then ors `v` in. */
  method SetBit(bm: seq<Word>, i: nat, v: bool) returns (r: seq<Word>)
    ensures |r| == if i / 64 < |bm| then |bm| else i / 64 + 1
    ensures forall j: nat :: BitAt(r, j) <==> (BitAt(bm, j) || (j == i && v))
  {
    r := bm;
    while i / 64 >= |r|
      invariant |bm| <= |r| && (|r| <= i / 64 + 1 || r == bm)
      invariant forall w :: 0 <= w < |r| ==> r[w] == if w < |bm| then bm[w] else ZERO
      decreases i / 64 - |r|
    {
      r := r + [ZERO];
    }
    var w := r[i / 64];
    r := r[i / 64 := w[i % 64 := w[i % 64] || v]];
    forall j: nat ensures BitAt(r, j) <==> (BitAt(bm, j) || (j == i && v)) {
      SamePosition(i, j);
    }
  }

  lemma SamePosition(i: nat, j: nat)
    ensures i / 64 == j / 64 && i % 64 == j % 64 <==> i == j
  {
    assert i == 64 * (i / 64) + i % 64 && j == 64 * (j / 64) + j % 64;
  }

  /** Number of clear bits strictly before position `i` (rank of zeros). */
  function CountZeros(bm: seq<Word>, i: nat): (c: nat)
    ensures c <= i
  {
    if i == 0 then 0
    else CountZeros(bm, i - 1) + if BitAt(bm, i - 1) then 0 else 1
  }

  /** Searches from `from` on for the set bit with `n` set bits in between. */
  function SelectFrom(bm: seq<Word>, n: nat, from: nat): nat
    decreases 64 * |bm| - from
  {
    if from >= 64 * |bm| then from
    else if !BitAt(bm, from) then SelectFrom(bm, n, from + 1)
    else if n == 0 then from
    else SelectFrom(bm, n - 1, from + 1)
  }

  function SelectIthOne(bm: seq<Word>, n: nat): nat {
    SelectFrom(bm, n, 0)
  }

  /** `SelectIthOne` finds the only set bit that has `n` set bits before it. */
  lemma SelectIsInverseOfRank(bm: seq<Word>, n: nat, p: nat)
    requires BitAt(bm, p) && p - CountZeros(bm, p) == n
    ensures SelectIthOne(bm, n) == p
  {
    RankMonotone(bm, 0, p);
    SelectFromFinds(bm, p, 0);
  }

  lemma {:induction false} SelectFromFinds(bm: seq<Word>, p: nat, from: nat)
    requires from <= p && BitAt(bm, p)
    requires p - CountZeros(bm, p) >= from - CountZeros(bm, from)
    ensures SelectFrom(bm, (p - CountZeros(bm, p)) - (from - CountZeros(bm, from)), from) == p
    decreases p - from
  {
    assert from < 64 * |bm|;
    if from < p {
      RankMonotone(bm, from + 1, p);
      SelectFromFinds(bm, p, from + 1);
    }
  }

  lemma {:induction false} RankMonotone(bm: seq<Word>, a: nat, b: nat)
    requires a <= b
    ensures a - CountZeros(bm, a) <= b - CountZeros(bm, b)
    decreases b - a
  {
    if a < b {
      RankMonotone(bm, a, b - 1);
    }
  }
}
