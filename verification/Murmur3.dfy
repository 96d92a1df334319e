/** The 32-bit murmur3 hash: one shot over a whole input, and a digest that is fed piece by
    piece and keeps the bytes of an unfinished block. Buffering does not depend on the
    mixing arithmetic, so that is a parameter here, as the digest's mixer is in the source. */
module Murmur3 {

  const C1: bv32 := 0xcc9e2d51
  const C2: bv32 := 0x1b873593
  const SIZE := 4

  function MixKey(k1: bv32): bv32 {
    (k1 * C1).RotateLeft(15) * C2
  }

  function MixBlock(h1: bv32, k1: bv32): bv32 {
    var h := (h1 ^ MixKey(k1)).RotateLeft(13);
    h * 4 + h + 0xe6546b64
  }

  function Avalanche(h0: bv32): bv32 {
    var h1 := (h0 ^ (h0 >> 16)) * 0x85ebca6b;
    var h2 := (h1 ^ (h1 >> 13)) * 0xc2b2ae35;
    h2 ^ (h2 >> 16)
  }

  /** The length as a 32-bit word, which counts on from zero when it is full. */
  function Length(length: nat): bv32 {
    if length == 0 then 0 else Length(length - 1) + 1
  }

  function Finish(h: bv32, length: nat): bv32 {
    Avalanche(h ^ Length(length))
  }

  /** The mixing arithmetic: of one word, of one block, and of the end. */
  datatype Rounds = Rounds(key: bv32 -> bv32, block: (bv32, bv32) -> bv32, finish: (bv32, nat) -> bv32)

  const MURMUR := Rounds(MixKey, MixBlock, Finish)

  /** The first four bytes as a little-endian word. */
  function Load(p: seq<bv8>): bv32
    requires |p| >= 4
  {
    p[0] as bv32 | (p[1] as bv32 << 8) | (p[2] as bv32 << 16) | (p[3] as bv32 << 24)
  }

  /** Folds the whole blocks of the input into the running hash. */
  function Blocks(r: Rounds, h1: bv32, p: seq<bv8>): bv32
    decreases |p|
  {
    if |p| < 4 then h1 else Blocks(r, r.block(h1, Load(p)), p[4..])
  }

  /** What the whole blocks leave over. */
  function Tail(p: seq<bv8>): (t: seq<bv8>)
    ensures |t| == |p| % 4
  {
    p[|p| / 4 * 4..]
  }

  /** Folds one to three left-over bytes in. */
  function MixTail(r: Rounds, h1: bv32, tail: seq<bv8>): bv32
    requires |tail| < 4
  {
    if tail == [] then h1
    else
      h1 ^ r.key(TailKey(tail))
  }

  /** The left-over bytes as the low end of a little-endian word. */
  function TailKey(tail: seq<bv8>): bv32
    requires 0 < |tail| < 4
  {
    if |tail| == 3 then (tail[2] as bv32 << 16) ^ (tail[1] as bv32 << 8) ^ tail[0] as bv32
    else if |tail| == 2 then (tail[1] as bv32 << 8) ^ tail[0] as bv32
    else tail[0] as bv32
  }

  function Hash(r: Rounds, seed: bv32, data: seq<bv8>): bv32 {
    r.finish(MixTail(r, Blocks(r, seed, data), Tail(data)), |data|)
  }

  // ---------------------------------------------------------------- words and known hashes

  /** Octet `i` of a word, counted from the low end. */
  function Octet(w: bv32, i: nat): bv8
    requires i < 4
  {
    match i
    case 0 => (w & 0xFF) as bv8
    case 1 => ((w >> 8) & 0xFF) as bv8
    case 2 => ((w >> 16) & 0xFF) as bv8
    case 3 => ((w >> 24) & 0xFF) as bv8
  }

  /** A word holds its four bytes, the first one lowest. */
  lemma LoadOctets(p: seq<bv8>, i: nat)
    requires |p| >= 4 && i < 4
    ensures Octet(Load(p), i) == p[i]
  {
  }

  /** The left-over bytes are read like a whole word that zeros fill up. */
  lemma TailIsWord(tail: seq<bv8>)
    requires 0 < |tail| < 4
    ensures TailKey(tail) == Load(tail + [0, 0, 0])
  {
    var p := tail + [0, 0, 0];
    if |tail| == 3 {
      ThreeOctets(tail[0], tail[1], tail[2]);
      assert p[2] == tail[2] && p[3] == 0;
    } else if |tail| == 2 {
      ThreeOctets(tail[0], tail[1], 0);
      assert p[2] == p[3] == 0;
    } else {
      ThreeOctets(tail[0], 0, 0);
      assert p[1] == p[2] == p[3] == 0;
    }
  }

  lemma ThreeOctets(a: bv8, b: bv8, c: bv8)
    ensures (c as bv32 << 16) ^ (b as bv32 << 8) ^ a as bv32
         == a as bv32 | (b as bv32 << 8) | (c as bv32 << 16) | (0 as bv8 as bv32 << 24)
    ensures (0 as bv8 as bv32 << 16) ^ (b as bv32 << 8) ^ a as bv32 == (b as bv32 << 8) ^ a as bv32
    ensures (0 as bv8 as bv32 << 16) ^ (0 as bv8 as bv32 << 8) ^ a as bv32 == a as bv32
  {
  }

  lemma LengthBits()
    ensures Length(4) == 4 && Length(13) == 13
  {
    assert Length(2) == 2;
    assert Length(4) == 4;
    assert Length(6) == 6;
    assert Length(8) == 8;
    assert Length(10) == 10;
    assert Length(12) == 12;
  }

  lemma TestEnds()
    ensures Finish(0x7985975b, 4) == 0xba6bd213
  {
    LengthBits();
    assert Avalanche(0x7985975f) == 0xba6bd213;
  }

  lemma HelloEnds()
    ensures Finish(0x0ea2b86a, 13) == 0xfaf6cdb3
  {
    LengthBits();
    assert Avalanche(0x0ea2b867) == 0xfaf6cdb3;
  }

  /** The hash of "test" with seed 0. */
  lemma HashOfTest()
    ensures Hash(MURMUR, 0, [0x74, 0x65, 0x73, 0x74]) == 0xba6bd213
  {
    var p: seq<bv8> := [0x74, 0x65, 0x73, 0x74];
    assert Load(p) == 0x74736574;
    assert MixBlock(0, 0x74736574) == 0x7985975b;
    assert p[4..] == [] && Blocks(MURMUR, 0x7985975b, []) == 0x7985975b;
    assert Tail(p) == [];
    TestEnds();
  }

  /** The hash of "Hello, world!", three blocks and a byte, with seed 1234. */
  lemma HashOfHello()
    ensures Hash(MURMUR, 1234, [72, 101, 108, 108, 111, 44, 32, 119, 111, 114, 108, 100, 33]) == 0xfaf6cdb3
  {
    var p: seq<bv8> := [72, 101, 108, 108, 111, 44, 32, 119, 111, 114, 108, 100, 33];
    var q, r := p[4..], p[8..];
    assert q == [111, 44, 32, 119, 111, 114, 108, 100, 33] && r == [111, 114, 108, 100, 33];
    assert q[4..] == r && r[4..] == [33];
    assert Load(p) == 0x6c6c6548 && Load(q) == 0x77202c6f && Load(r) == 0x646c726f;
    assert MixBlock(1234, 0x6c6c6548) == 0xce5f2c36;
    assert MixBlock(0xce5f2c36, 0x77202c6f) == 0xcab5bb8f;
    assert MixBlock(0xcab5bb8f, 0x646c726f) == 0xa2fce949;
    assert Blocks(MURMUR, 0xa2fce949, [33]) == 0xa2fce949;
    assert Blocks(MURMUR, 0xcab5bb8f, r) == 0xa2fce949;
    assert Blocks(MURMUR, 0xce5f2c36, q) == 0xa2fce949;
    assert Tail(p) == [33];
    assert MixKey(33) == 0xac5e5123;
    HelloEnds();
  }

  // ---------------------------------------------------------------- splitting the input

  lemma TailOfRest(p: seq<bv8>)
    requires |p| >= 4
    ensures Tail(p[4..]) == Tail(p)
  {
    assert (|p| - 4) / 4 == |p| / 4 - 1;
  }

  /** Hashing may stop anywhere and go on with the left-over bytes in front of the rest. */
  lemma {:induction false} SplitAnywhere(r: Rounds, h1: bv32, a: seq<bv8>, b: seq<bv8>)
    ensures Blocks(r, h1, a + b) == Blocks(r, Blocks(r, h1, a), Tail(a) + b)
    ensures Tail(a + b) == Tail(Tail(a) + b)
    decreases |a|
  {
    if |a| < 4 {
      assert Tail(a) == a;
    } else {
      assert (a + b)[4..] == a[4..] + b;
      assert Load(a + b) == Load(a);
      SplitAnywhere(r, r.block(h1, Load(a)), a[4..], b);
      TailOfRest(a);
      TailOfRest(a + b);
    }
  }

  // ---------------------------------------------------------------- one shot

  /** The block loop that both forms run. */
  method Fold(r: Rounds, h: bv32, p: seq<bv8>) returns (h1: bv32, tail: seq<bv8>)
    ensures h1 == Blocks(r, h, p) && tail == Tail(p)
  {
    h1 := h;
    var nblocks := |p| / 4;
    assert p[0..] == p;
    for i := 0 to nblocks
      invariant Blocks(r, h1, p[i * 4..]) == Blocks(r, h, p)
    {
      assert p[i * 4..][4..] == p[(i + 1) * 4..];
      h1 := r.block(h1, Load(p[i * 4..]));
    }
    tail := p[nblocks * 4..];
  }

  /** The switch on the left-over bytes, from the last of them down to the first. */
  method FoldTail(r: Rounds, h: bv32, tail: seq<bv8>) returns (h1: bv32)
    requires |tail| < 4
    ensures h1 == MixTail(r, h, tail)
  {
    h1 := h;
    var k1: bv32 := 0;
    if |tail| == 3 {
      k1 := k1 ^ (tail[2] as bv32 << 16);
    }
    if |tail| >= 2 {
      k1 := k1 ^ (tail[1] as bv32 << 8);
    }
    if |tail| >= 1 {
      k1 := k1 ^ tail[0] as bv32;
      assert k1 == TailKey(tail);
      h1 := h1 ^ r.key(k1);
    }
  }

  method Sum32WithSeed(r: Rounds, data: seq<bv8>, seed: bv32) returns (h1: bv32)
    ensures h1 == Hash(r, seed, data)
  {
    var tail;
    h1, tail := Fold(r, seed, data);
    h1 := FoldTail(r, h1, tail);
    h1 := r.finish(h1, |data|);
  }

  // ---------------------------------------------------------------- streaming

  class Digest32 {
    var clen: nat
    /** The pending bytes are a view of the first `tailLen` bytes of `buf`. */
    var tailLen: nat
    const buf: array<bv8>
    const rounds: Rounds
    const seed: bv32
    var h1: bv32
    /** Everything written since the last reset. */
    ghost var data: seq<bv8>

    ghost predicate Valid()
      reads this, buf
    {
      && buf.Length == 16 && tailLen < SIZE
      && clen == |data| && h1 == Blocks(rounds, seed, data) && buf[..tailLen] == Tail(data)
    }

    constructor (rounds: Rounds, seed: bv32)
      ensures Valid() && data == [] && this.seed == seed && this.rounds == rounds && fresh(buf)
    {
      buf := new bv8[16];
      this.rounds, this.seed := rounds, seed;
      clen, tailLen, h1, data := 0, 0, seed, [];
    }

    method Reset()
      requires Valid()
      modifies this
      ensures Valid() && data == []
    {
      clen, tailLen, h1, data := 0, 0, seed, [];
    }

    /** Digests as many blocks as possible and returns the rest. */
    method Bmix(p: seq<bv8>) returns (tail: seq<bv8>)
      modifies this`h1
      ensures h1 == Blocks(rounds, old(h1), p) && tail == Tail(p)
    {
      h1, tail := Fold(rounds, h1, p);
    }

    /** Copies `p` behind the first `at` bytes of the buffer. */
    method Copy(at: nat, p: seq<bv8>)
      requires at + |p| <= buf.Length
      modifies buf
      ensures buf[..at + |p|] == old(buf[..at]) + p
    {
      for i := 0 to |p|
        invariant buf[..at + i] == old(buf[..at]) + p[..i]
      {
        buf[at + i] := p[i];
        assert buf[..at + i + 1] == buf[..at + i] + [p[i]];
      }
    }

    /** Pending bytes go in front; what no longer fills a block is kept. */
    method Write(input: seq<bv8>) returns (n: nat)
      requires Valid()
      modifies this, buf
      ensures Valid() && data == old(data) + input && n == |input|
    {
      n := |input|;
      clen := clen + n;
      var p := Refill(input);
      var tail := Bmix(p);
      Copy(0, tail);
      tailLen := |tail|;
      data := data + input;
    }

    /** Puts the pending bytes in front of the input; digests a block if that fills one. */
    method Refill(input: seq<bv8>) returns (p: seq<bv8>)
      requires buf.Length == 16 && tailLen < SIZE
      requires h1 == Blocks(rounds, seed, data) && buf[..tailLen] == Tail(data)
      modifies this`h1, buf
      ensures Blocks(rounds, h1, p) == Blocks(rounds, seed, data + input)
      ensures Tail(p) == Tail(data + input)
    {
      p := input;
      PendingFirst(rounds, seed, data, input);
      if tailLen > 0 {
        var nfree := SIZE - tailLen;
        if nfree < |p| {
          PendingFilled(rounds, seed, data, input);
          Copy(tailLen, p[..nfree]);
          p := p[nfree..];
          var _ := Bmix(buf[..SIZE]);
        } else {
          Copy(tailLen, p);
          p := buf[..tailLen + |p|];
        }
      }
    }

    method Sum32() returns (h: bv32)
      requires Valid()
      ensures h == Hash(rounds, seed, data)
    {
      h := FoldTail(rounds, h1, buf[..tailLen]);
      h := rounds.finish(h, clen);
    }
  }

  /** A piece that fills the pending block up, and one that does not. */
  lemma PendingFilled(r: Rounds, seed: bv32, data: seq<bv8>, p: seq<bv8>)
    requires 0 < |Tail(data)| && 4 - |Tail(data)| < |p|
    ensures var (h, t) := (Blocks(r, seed, data), Tail(data));
            && Blocks(r, seed, data + p) == Blocks(r, Blocks(r, h, t + p[..4 - |t|]), p[4 - |t|..])
            && Tail(data + p) == Tail(p[4 - |t|..])
  {
    var t, rest := Tail(data), p[4 - |Tail(data)|..];
    var block := t + p[..4 - |t|];
    SplitAnywhere(r, seed, data, p);
    assert t + p == block + rest;
    assert Tail(block) + rest == rest;
    SplitAnywhere(r, Blocks(r, seed, data), block, rest);
  }

  lemma PendingFirst(r: Rounds, seed: bv32, data: seq<bv8>, p: seq<bv8>)
    ensures var (h, t) := (Blocks(r, seed, data), Tail(data));
            && Blocks(r, seed, data + p) == Blocks(r, h, t + p) && Tail(data + p) == Tail(t + p)
            && (t == [] ==> t + p == p)
  {
    SplitAnywhere(r, seed, data, p);
  }

  // ---------------------------------------------------------------- streaming equals one shot

  function Concat(pieces: seq<seq<bv8>>): seq<bv8> {
    if pieces == [] then [] else Concat(pieces[..|pieces| - 1]) + pieces[|pieces| - 1]
  }

  lemma ConcatNext(pieces: seq<seq<bv8>>, i: nat)
    requires i < |pieces|
    ensures Concat(pieces[..i + 1]) == Concat(pieces[..i]) + pieces[i]
  {
    assert pieces[..i + 1][..i] == pieces[..i];
  }

  method WritePieces(d: Digest32, pieces: seq<seq<bv8>>)
    requires d.Valid() && d.data == []
    modifies d, d.buf
    ensures d.Valid() && d.data == Concat(pieces)
  {
    for i := 0 to |pieces|
      invariant d.Valid() && d.data == Concat(pieces[..i])
    {
      ConcatNext(pieces, i);
      var _ := d.Write(pieces[i]);
    }
    assert pieces[..|pieces|] == pieces;
  }

  /** However the input is cut into pieces, the digest is the hash of the whole. */
  method SumPieces(r: Rounds, pieces: seq<seq<bv8>>, seed: bv32) returns (streamed: bv32, whole: bv32)
    ensures streamed == whole == Hash(r, seed, Concat(pieces))
  {
    var d := new Digest32(r, seed);
    WritePieces(d, pieces);
    streamed := d.Sum32();
    whole := Sum32WithSeed(r, Concat(pieces), seed);
  }

  /** In particular with murmur3's own rounds. */
  method SumPieces32(pieces: seq<seq<bv8>>, seed: bv32) returns (streamed: bv32, whole: bv32)
    ensures streamed == whole == Hash(MURMUR, seed, Concat(pieces))
  {
    streamed, whole := SumPieces(MURMUR, pieces, seed);
  }
}
