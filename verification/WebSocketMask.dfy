/** WebSocket masking (section 5.3 of RFC 6455): word by word in unrolled loops, against
    octet i XOR key octet i mod 4. */
module WebSocketMask {

  // ---------------------------------------------------------------- octet by octet

  /** The four octets of a masking key. */
  type Key = k: seq<bv8> | |k| == 4 witness [0, 0, 0, 0]

  /** The message with octet i XOR key octet i mod 4. */
  function Mask(k: Key, s: seq<bv8>): (r: seq<bv8>)
    ensures |r| == |s|
  {
    MaskRange(s, k, 0, |s|)
  }

  /** Masks `n` octets from `at` on, with a key that starts there. */
  function MaskRange(s: seq<bv8>, k: Key, at: nat, n: nat): (r: seq<bv8>)
    requires at + n <= |s|
    ensures |r| == |s|
  {
    seq(|s|, i requires 0 <= i < |s| => MaskedAt(s, k, at, n, i))
  }

  function MaskedAt(s: seq<bv8>, k: Key, at: nat, n: nat, i: nat): bv8
    requires i < |s|
  {
    if at <= i < at + n then s[i] ^ k[(i - at) % 4] else s[i]
  }

  /** The key to go on with after `n` octets. */
  function Rotated(k: Key, n: nat): Key {
    k[n % 4..] + k[..n % 4]
  }

  // ---------------------------------------------------------------- what masking promises

  lemma RotatedAt(k: Key, n: nat, i: nat)
    ensures Rotated(k, n)[i % 4] == k[(n + i) % 4]
  {
    assert (n + i) % 4 == (n % 4 + i % 4) % 4;
  }

  /** A message masked in two parts, the second with the key that the first returned. */
  lemma MaskInParts(k: Key, a: seq<bv8>, b: seq<bv8>)
    ensures Mask(k, a + b) == Mask(k, a) + Mask(Rotated(k, |a|), b)
  {
    var whole, parts := Mask(k, a + b), Mask(k, a) + Mask(Rotated(k, |a|), b);
    forall i | 0 <= i < |a + b| ensures whole[i] == parts[i] {
      if i >= |a| {
        RotatedAt(k, |a|, i - |a|);
      }
    }
  }

  lemma RotatedStep(k: Key, n: nat)
    ensures Rotated(Rotated(k, n), 1) == Rotated(k, n + 1)
  {
    if n % 4 == 3 {
      assert (n + 1) % 4 == 0;
    } else {
      assert (n + 1) % 4 == n % 4 + 1;
    }
  }

  /** Threading the key through two parts rotates it by both lengths. */
  lemma {:induction false} RotatedTwice(k: Key, n: nat, m: nat)
    ensures Rotated(Rotated(k, n), m) == Rotated(k, n + m)
  {
    if m > 0 {
      RotatedTwice(k, n, m - 1);
      RotatedStep(Rotated(k, n), m - 1);
      RotatedStep(k, n + m - 1);
    }
  }

  /** Masking again with the same key undoes it. */
  lemma MaskTwice(k: Key, s: seq<bv8>)
    ensures Mask(k, Mask(k, s)) == s
  {
    forall i | 0 <= i < |s| ensures Mask(k, Mask(k, s))[i] == s[i] {
      XorTwice(s[i], k[i % 4]);
    }
  }

  lemma XorTwice(x: bv8, y: bv8)
    ensures (x ^ y) ^ y == x
  {
  }

  /** Two neighbouring ranges, the first a whole number of keys long. */
  lemma MaskNext(s: seq<bv8>, k: Key, n: nat, m: nat)
    requires n + m <= |s| && n % 4 == 0
    ensures MaskRange(MaskRange(s, k, 0, n), k, n, m) == MaskRange(s, k, 0, n + m)
  {
    MaskBeside(s, k, 0, n, m);
  }

  lemma MaskOne(s: seq<bv8>, k: Key, n: nat)
    requires n < |s|
    ensures MaskRange(s, k, 0, n)[n] == s[n]
    ensures MaskRange(s, k, 0, n)[n := s[n] ^ Rotated(k, n)[0]] == MaskRange(s, k, 0, n + 1)
  {
    RotatedAt(k, n, 0);
  }

  lemma MaskBeside(s: seq<bv8>, k: Key, at: nat, n: nat, m: nat)
    requires at + n + m <= |s| && n % 4 == 0
    ensures MaskRange(MaskRange(s, k, at, n), k, at + n, m) == MaskRange(s, k, at, n + m)
  {
    var once := MaskRange(s, k, at, n);
    var twice, both := MaskRange(once, k, at + n, m), MaskRange(s, k, at, n + m);
    forall i | 0 <= i < |s| ensures twice[i] == both[i] {
      assert once[i] == MaskedAt(s, k, at, n, i);
      if at + n <= i {
        assert (i - at) % 4 == (i - (at + n)) % 4;
      }
    }
  }

  // ---------------------------------------------------------------- words

  function Octet0(w: bv32): bv8 { (w & 0xFF) as bv8 }
  function Octet1(w: bv32): bv8 { ((w >> 8) & 0xFF) as bv8 }
  function Octet2(w: bv32): bv8 { ((w >> 16) & 0xFF) as bv8 }
  function Octet3(w: bv32): bv8 { ((w >> 24) & 0xFF) as bv8 }

  /** The octets of a little-endian word. */
  function Octets(w: bv32): Key {
    [Octet0(w), Octet1(w), Octet2(w), Octet3(w)]
  }

  function Load(b0: bv8, b1: bv8, b2: bv8, b3: bv8): bv32 {
    b0 as bv32 | (b1 as bv32 << 8) | (b2 as bv32 << 16) | (b3 as bv32 << 24)
  }

  function XorKey(b0: bv8, b1: bv8, b2: bv8, b3: bv8, k: Key): seq<bv8> {
    [b0 ^ k[0], b1 ^ k[1], b2 ^ k[2], b3 ^ k[3]]
  }

  /** XOR on a word is XOR on its octets. */
  lemma XorOctets(b0: bv8, b1: bv8, b2: bv8, b3: bv8, key: bv32)
    ensures Octets(Load(b0, b1, b2, b3) ^ key) == XorKey(b0, b1, b2, b3, Octets(key))
  {
    XorOctet0(b0, b1, b2, b3, key);
    XorOctet1(b0, b1, b2, b3, key);
    XorOctet2(b0, b1, b2, b3, key);
    XorOctet3(b0, b1, b2, b3, key);
    XorKeyOctets(b0, b1, b2, b3, Load(b0, b1, b2, b3) ^ key, Octets(key));
  }

  lemma XorKeyOctets(b0: bv8, b1: bv8, b2: bv8, b3: bv8, v: bv32, k: Key)
    requires Octet0(v) == b0 ^ k[0] && Octet1(v) == b1 ^ k[1] && Octet2(v) == b2 ^ k[2] && Octet3(v) == b3 ^ k[3]
    ensures Octets(v) == XorKey(b0, b1, b2, b3, k)
  {
  }

  lemma XorOctet0(b0: bv8, b1: bv8, b2: bv8, b3: bv8, key: bv32)
    ensures Octet0(Load(b0, b1, b2, b3) ^ key) == b0 ^ Octet0(key)
  {
  }

  lemma XorOctet1(b0: bv8, b1: bv8, b2: bv8, b3: bv8, key: bv32)
    ensures Octet1(Load(b0, b1, b2, b3) ^ key) == b1 ^ Octet1(key)
  {
  }

  lemma XorOctet2(b0: bv8, b1: bv8, b2: bv8, b3: bv8, key: bv32)
    ensures Octet2(Load(b0, b1, b2, b3) ^ key) == b2 ^ Octet2(key)
  {
  }

  lemma XorOctet3(b0: bv8, b1: bv8, b2: bv8, b3: bv8, key: bv32)
    ensures Octet3(Load(b0, b1, b2, b3) ^ key) == b3 ^ Octet3(key)
  {
  }

  lemma RotateOctets(w: bv32)
    ensures var r := w.RotateRight(8);
            Octet0(r) == Octet1(w) && Octet1(r) == Octet2(w) && Octet2(r) == Octet3(w) && Octet3(r) == Octet0(w)
  {
  }

  lemma RotatedOnce(k: Key)
    ensures Rotated(k, 1) == [k[1], k[2], k[3], k[0]]
  {
  }

  /** Rotating the word by eight bits rotates its octets by one. */
  lemma RotateWord(w: bv32)
    ensures Octets(w.RotateRight(8)) == Rotated(Octets(w), 1)
  {
    RotateOctets(w);
    RotatedOnce(Octets(w));
  }

  function Join(high: bv32, low: bv32): bv64 {
    (high as bv64 << 32) | low as bv64
  }

  function Low(v: bv64): bv32 {
    (v & 0xFFFF_FFFF) as bv32
  }

  function High(v: bv64): bv32 {
    (v >> 32) as bv32
  }

  /** XOR on a double word is XOR on its halves. */
  lemma XorHalves(high: bv32, low: bv32, key: bv32)
    ensures Low(Join(high, low) ^ Join(key, key)) == low ^ key
    ensures High(Join(high, low) ^ Join(key, key)) == high ^ key
  {
  }

  function Uint32(s: seq<bv8>, at: nat): bv32
    requires at + 4 <= |s|
  {
    Load(s[at], s[at + 1], s[at + 2], s[at + 3])
  }

  function Uint64(s: seq<bv8>, at: nat): bv64
    requires at + 8 <= |s|
  {
    Join(Uint32(s, at + 4), Uint32(s, at))
  }

  /** Four octets of `s` under the key. */
  function XorFour(s: seq<bv8>, at: nat, k: Key): (r: seq<bv8>)
    requires at + 4 <= |s|
    ensures |r| == 4
  {
    XorKey(s[at], s[at + 1], s[at + 2], s[at + 3], k)
  }

  lemma XorWord(s: seq<bv8>, at: nat, key: bv32)
    requires at + 4 <= |s|
    ensures Octets(Uint32(s, at) ^ key) == XorFour(s, at, Octets(key))
  {
    XorOctets(s[at], s[at + 1], s[at + 2], s[at + 3], key);
  }

  lemma XorFourAt(s: seq<bv8>, at: nat, k: Key, i: nat)
    requires at + 4 <= |s| && at <= i < at + 4
    ensures XorFour(s, at, k)[i - at] == s[i] ^ k[i - at]
  {
    if i == at {
    } else if i == at + 1 {
    } else if i == at + 2 {
    }
  }

  lemma MaskFour(s: seq<bv8>, at: nat, k: Key)
    requires at + 4 <= |s|
    ensures s[..at] + XorFour(s, at, k) + s[at + 4..] == MaskRange(s, k, at, 4)
  {
    var four := XorFour(s, at, k);
    var put, masked := s[..at] + four + s[at + 4..], MaskRange(s, k, at, 4);
    forall i | 0 <= i < |s| ensures put[i] == masked[i] {
      if at <= i < at + 4 {
        assert put[i] == four[i - at];
        XorFourAt(s, at, k, i);
        assert (i - at) % 4 == i - at;
      }
    }
  }

  lemma MaskEight(s: seq<bv8>, at: nat, k: Key)
    requires at + 8 <= |s|
    ensures s[..at] + (XorFour(s, at, k) + XorFour(s, at + 4, k)) + s[at + 8..] == MaskRange(s, k, at, 8)
  {
    var low, high := XorFour(s, at, k), XorFour(s, at + 4, k);
    var put, masked := s[..at] + (low + high) + s[at + 8..], MaskRange(s, k, at, 8);
    forall i | 0 <= i < |s| ensures put[i] == masked[i] {
      if at <= i < at + 4 {
        assert put[i] == (low + high)[i - at] == low[i - at];
        XorFourAt(s, at, k, i);
        assert (i - at) % 4 == i - at;
      } else if at + 4 <= i < at + 8 {
        assert put[i] == (low + high)[i - at] == high[i - at - 4];
        XorFourAt(s, at + 4, k, i);
        assert (i - at) % 4 == i - at - 4;
      }
    }
  }

  method PutFour(b: array<bv8>, at: nat, four: seq<bv8>)
    requires at + 4 <= b.Length && |four| == 4
    modifies b
    ensures b[..] == old(b[..])[..at] + four + old(b[..])[at + 4..]
  {
    b[at], b[at + 1], b[at + 2], b[at + 3] := four[0], four[1], four[2], four[3];
  }

  /** Stores a word in little-endian order. */
  method PutUint32(b: array<bv8>, at: nat, v: bv32)
    requires at + 4 <= b.Length
    modifies b
    ensures b[..] == old(b[..])[..at] + Octets(v) + old(b[..])[at + 4..]
  {
    PutFour(b, at, Octets(v));
  }

  method PutUint64(b: array<bv8>, at: nat, v: bv64)
    requires at + 8 <= b.Length
    modifies b
    ensures b[..] == old(b[..])[..at] + (Octets(Low(v)) + Octets(High(v))) + old(b[..])[at + 8..]
  {
    PutUint32(b, at, Low(v));
    PutUint32(b, at + 4, High(v));
  }

  method XorUint32(b: array<bv8>, at: nat, key: bv32)
    requires at + 4 <= b.Length
    modifies b
    ensures b[..] == MaskRange(old(b[..]), Octets(key), at, 4)
  {
    XorWord(b[..], at, key);
    MaskFour(b[..], at, Octets(key));
    PutUint32(b, at, Uint32(b[..], at) ^ key);
  }

  lemma XorDoubleWord(s: seq<bv8>, at: nat, key: bv32)
    requires at + 8 <= |s|
    ensures var v := Uint64(s, at) ^ Join(key, key);
            s[..at] + (Octets(Low(v)) + Octets(High(v))) + s[at + 8..] == MaskRange(s, Octets(key), at, 8)
  {
    XorHalves(Uint32(s, at + 4), Uint32(s, at), key);
    XorWord(s, at, key);
    XorWord(s, at + 4, key);
    MaskEight(s, at, Octets(key));
  }

  method XorUint64(b: array<bv8>, at: nat, ghost key: bv32, key64: bv64)
    requires at + 8 <= b.Length && key64 == Join(key, key)
    modifies b
    ensures b[..] == MaskRange(old(b[..]), Octets(key), at, 8)
  {
    XorDoubleWord(b[..], at, key);
    PutUint64(b, at, Uint64(b[..], at) ^ key64);
  }

  // ---------------------------------------------------------------- unrolled loops

  method Xor16(b: array<bv8>, at: nat, ghost key: bv32, key64: bv64)
    requires at + 16 <= b.Length && key64 == Join(key, key)
    modifies b
    ensures b[..] == MaskRange(old(b[..]), Octets(key), at, 16)
  {
    MaskBeside(b[..], Octets(key), at, 8, 8);
    XorUint64(b, at, key, key64);
    XorUint64(b, at + 8, key, key64);
  }

  method Xor32(b: array<bv8>, at: nat, ghost key: bv32, key64: bv64)
    requires at + 32 <= b.Length && key64 == Join(key, key)
    modifies b
    ensures b[..] == MaskRange(old(b[..]), Octets(key), at, 32)
  {
    MaskBeside(b[..], Octets(key), at, 16, 16);
    Xor16(b, at, key, key64);
    Xor16(b, at + 16, key, key64);
  }

  method Xor64(b: array<bv8>, at: nat, ghost key: bv32, key64: bv64)
    requires at + 64 <= b.Length && key64 == Join(key, key)
    modifies b
    ensures b[..] == MaskRange(old(b[..]), Octets(key), at, 64)
  {
    MaskBeside(b[..], Octets(key), at, 32, 32);
    Xor32(b, at, key, key64);
    Xor32(b, at + 32, key, key64);
  }

  method Xor128(b: array<bv8>, at: nat, ghost key: bv32, key64: bv64)
    requires at + 128 <= b.Length && key64 == Join(key, key)
    modifies b
    ensures b[..] == MaskRange(old(b[..]), Octets(key), at, 128)
  {
    MaskBeside(b[..], Octets(key), at, 64, 64);
    Xor64(b, at, key, key64);
    Xor64(b, at + 64, key, key64);
  }

  /** Steps of 128, 64, 32, 16 and 8 octets, for as long as so many are left. */
  method XorDoubleWords(key: bv32, b: array<bv8>) returns (at: nat)
    modifies b
    ensures at <= b.Length && at % 4 == 0 && b.Length - at < 8
    ensures b[..] == MaskRange(old(b[..]), Octets(key), 0, at)
  {
    var key64 := Join(key, key);
    ghost var s, k := b[..], Octets(key);
    at := 0;
    while b.Length - at >= 128
      invariant at <= b.Length && at % 4 == 0 && b[..] == MaskRange(s, k, 0, at)
    {
      MaskNext(s, k, at, 128);
      Xor128(b, at, key, key64);
      at := at + 128;
    }
    while b.Length - at >= 64
      invariant at <= b.Length && at % 4 == 0 && b[..] == MaskRange(s, k, 0, at)
    {
      MaskNext(s, k, at, 64);
      Xor64(b, at, key, key64);
      at := at + 64;
    }
    while b.Length - at >= 32
      invariant at <= b.Length && at % 4 == 0 && b[..] == MaskRange(s, k, 0, at)
    {
      MaskNext(s, k, at, 32);
      Xor32(b, at, key, key64);
      at := at + 32;
    }
    while b.Length - at >= 16
      invariant at <= b.Length && at % 4 == 0 && b[..] == MaskRange(s, k, 0, at)
    {
      MaskNext(s, k, at, 16);
      Xor16(b, at, key, key64);
      at := at + 16;
    }
    while b.Length - at >= 8
      invariant at <= b.Length && at % 4 == 0 && b[..] == MaskRange(s, k, 0, at)
    {
      MaskNext(s, k, at, 8);
      XorUint64(b, at, key, key64);
      at := at + 8;
    }
  }

  /** XORs the last octets one by one with the low octet of a key that is rotated each time. */
  method XorLast(key: bv32, b: array<bv8>, from: nat, ghost s: seq<bv8>) returns (next: bv32)
    requires from <= b.Length == |s| && from % 4 == 0 && b[..] == MaskRange(s, Octets(key), 0, from)
    modifies b
    ensures b[..] == Mask(Octets(key), s)
    ensures Octets(next) == Rotated(Octets(key), b.Length)
  {
    ghost var k := Octets(key);
    next := key;
    for at := from to b.Length
      invariant b[..] == MaskRange(s, k, 0, at) && Octets(next) == Rotated(k, at)
    {
      MaskOne(s, k, at);
      RotatedStep(k, at);
      RotateWord(next);
      assert Octet0(next) == Octets(next)[0];
      XorAt(b, at, Octet0(next));
      next := next.RotateRight(8);
    }
  }

  method XorAt(b: array<bv8>, at: nat, octet: bv8)
    requires at < b.Length
    modifies b
    ensures b[..] == old(b[..])[at := old(b[at]) ^ octet]
  {
    b[at] := b[at] ^ octet;
  }

  /** Masks in place and returns the key to go on with. */
  method MaskWebSocket(key: bv32, b: array<bv8>) returns (next: bv32)
    modifies b
    ensures b[..] == Mask(Octets(key), old(b[..]))
    ensures Octets(next) == Rotated(Octets(key), b.Length)
  {
    ghost var s, k := b[..], Octets(key);
    var at := 0;
    if b.Length >= 8 {
      at := XorDoubleWords(key, b);
    }
    while b.Length - at >= 4
      invariant at <= b.Length && at % 4 == 0 && b[..] == MaskRange(s, k, 0, at)
    {
      MaskNext(s, k, at, 4);
      XorUint32(b, at, key);
      at := at + 4;
    }
    next := XorLast(key, b, at, s);
  }
}
