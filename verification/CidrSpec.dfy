/** IP networks as byte strings, and which addresses the CIDR trie covers for each. */
module CidrSpec {
  import opened Bytes
  import opened Wrappers

  /** A network address in 4 or 16 bytes with its mask length. */
  datatype Net = Net(ip: seq<byte>, maskSize: nat)

  function FamilyBytes(isIpv4: bool): nat {
    if isIpv4 then 4 else 16
  }

  ghost predicate ValidNet(n: Net, isIpv4: bool) {
    |n.ip| == FamilyBytes(isIpv4) && n.maskSize <= 8 * FamilyBytes(isIpv4)
  }

  /** Four bytes for an IPv4 or IPv4-mapped address, sixteen for any other, else nothing. */
  function CheckAndConvertIp(ip: seq<byte>): (r: Option<(seq<byte>, bool)>)
    ensures r.Some? ==> |r.value.0| == FamilyBytes(r.value.1)
  {
    if |ip| == 4 then Some((ip, true))
    else if |ip| != 16 then None
    else if ip[..12] == [0, 0, 0, 0, 0, 0, 0, 0, 0, 0, 0xFF, 0xFF] then Some((ip[12..], true))
    else Some((ip, false))
  }

  function GroupBytes(isIpv4: bool): nat {
    if isIpv4 then 1 else 2
  }

  /** The trie's edge labels for an address: bytes, or pairs of bytes. */
  function Groups(ip: seq<byte>, isIpv4: bool): (g: seq<nat>)
    requires |ip| == FamilyBytes(isIpv4)
    ensures |g| == |ip| / GroupBytes(isIpv4)
    ensures forall i :: 0 <= i < |g| ==> g[i] == GroupAt(ip, isIpv4, i)
  {
    seq(|ip| / GroupBytes(isIpv4), i requires 0 <= i < |ip| / GroupBytes(isIpv4) => GroupAt(ip, isIpv4, i))
  }

  function GroupAt(ip: seq<byte>, isIpv4: bool, i: nat): nat
    requires |ip| == FamilyBytes(isIpv4) && i < |ip| / GroupBytes(isIpv4)
  {
    if isIpv4 then ip[i] else U16(ip[2 * i], ip[2 * i + 1])
  }

  /** 0xFF shifted right by `r` bits. */
  function Shifted(r: nat): (m: nat)
    requires r < 8
    ensures m < 256
  {
    [255, 127, 63, 31, 15, 7, 3, 1][r]
  }

  /** How many groups of the (adjusted) address are marked; at least one always is. */
  function MarkedGroups(maskSize: nat, isIpv4: bool): nat {
    var k := maskSize / (8 * GroupBytes(isIpv4));
    if k == 0 then 1 else k
  }

  /** Whether the mask ends inside a group, so that the network is split up. */
  predicate Splits(n: Net, isIpv4: bool) {
    n.maskSize % (8 * GroupBytes(isIpv4)) != 0
  }

  /** The mask length after splitting: the end of the group that the mask ends in. */
  function NewMaskSize(n: Net, isIpv4: bool): nat {
    if !Splits(n, isIpv4) then n.maskSize
    else if isIpv4 then (n.maskSize / 8 + 1) * 8
    else (n.maskSize / 8 / 2 + 1) * 16
  }

  /** The `i`-th address the network is split into. */
  function SubIp(n: Net, isIpv4: bool, i: nat): (r: seq<byte>)
    requires ValidNet(n, isIpv4)
    ensures |r| == |n.ip|
  {
    if !Splits(n, isIpv4) then n.ip
    else n.ip[n.maskSize / 8 := (n.ip[n.maskSize / 8] + i) % 256]
  }

  function SubCount(n: Net, isIpv4: bool): nat {
    if Splits(n, isIpv4) then Shifted(n.maskSize % 8) + 1 else 1
  }

  /** How many bytes of an address the marks of a network look at. */
  function CoveredBytes(n: Net, isIpv4: bool): nat {
    MarkedGroups(NewMaskSize(n, isIpv4), isIpv4) * GroupBytes(isIpv4)
  }

  /** Exactly the addresses that the marks of a network accept: all bytes up to the end of
      the marked groups must agree, save the last masked byte, which may run through the
      values that the host bits allow. */
  ghost predicate Covered(n: Net, isIpv4: bool, x: seq<byte>)
    requires ValidNet(n, isIpv4) && |x| == FamilyBytes(isIpv4)
  {
    forall j :: 0 <= j < |x| ==> CoveredAt(n, isIpv4, x, j)
  }

  ghost predicate CoveredAt(n: Net, isIpv4: bool, x: seq<byte>, j: nat)
    requires ValidNet(n, isIpv4) && j < |x| == FamilyBytes(isIpv4)
  {
    j < CoveredBytes(n, isIpv4) ==>
      if Splits(n, isIpv4) && j == n.maskSize / 8 then (x[j] as int - n.ip[j] as int) % 256 <= Shifted(n.maskSize % 8)
      else x[j] == n.ip[j]
  }

  lemma CoveredBytesFit(n: Net, isIpv4: bool)
    requires ValidNet(n, isIpv4)
    ensures GroupBytes(isIpv4) <= CoveredBytes(n, isIpv4) <= FamilyBytes(isIpv4)
    ensures Splits(n, isIpv4) ==> n.maskSize / 8 < CoveredBytes(n, isIpv4)
  {
  }

  // ---------------------------------------------------------------- the marks of a network

  /** The path marked for the `i`-th address the network is split into. */
  function MarkedPath(n: Net, isIpv4: bool, i: nat): seq<nat>
    requires ValidNet(n, isIpv4)
  {
    CoveredBytesFit(n, isIpv4);
    Groups(SubIp(n, isIpv4, i), isIpv4)[..MarkedGroups(NewMaskSize(n, isIpv4), isIpv4)]
  }

  /** Group prefixes agree exactly when all their bytes do. */
  lemma PrefixAgrees(a: seq<byte>, x: seq<byte>, isIpv4: bool, k: nat)
    requires |a| == |x| == FamilyBytes(isIpv4) && k <= |Groups(a, isIpv4)|
    ensures Groups(a, isIpv4)[..k] <= Groups(x, isIpv4)
       <==> forall j :: 0 <= j < k * GroupBytes(isIpv4) ==> a[j] == x[j]
  {
    var ga, gx := Groups(a, isIpv4), Groups(x, isIpv4);
    assert |ga| == |gx|;
    assert ga[..k] <= gx <==> forall i :: 0 <= i < k ==> GroupAt(a, isIpv4, i) == GroupAt(x, isIpv4, i) by {
      assert forall i :: 0 <= i < k ==> ga[i] == GroupAt(a, isIpv4, i) && gx[i] == GroupAt(x, isIpv4, i);
      if ga[..k] <= gx {
        assert forall i :: 0 <= i < k ==> ga[..k][i] == gx[i];
      }
    }
    if isIpv4 {
      assert forall i :: 0 <= i < k ==> GroupAt(a, true, i) == a[i] && GroupAt(x, true, i) == x[i];
    } else {
      PairsAgree(a, x, k);
    }
  }

  lemma PairsAgree(a: seq<byte>, x: seq<byte>, k: nat)
    requires |a| == |x| == 16 && k <= 8
    ensures (forall i :: 0 <= i < k ==> GroupAt(a, false, i) == GroupAt(x, false, i))
       <==> forall j :: 0 <= j < 2 * k ==> a[j] == x[j]
  {
    if forall i :: 0 <= i < k ==> GroupAt(a, false, i) == GroupAt(x, false, i) {
      forall j | 0 <= j < 2 * k ensures a[j] == x[j] {
        var i := j / 2;
        assert GroupAt(a, false, i) == GroupAt(x, false, i);
        assert U16(a[2 * i], a[2 * i + 1]) == U16(x[2 * i], x[2 * i + 1]);
      }
    }
  }

  /** A byte in which one of the split addresses agrees is covered. */
  lemma SplitByteIsCovered(n: Net, isIpv4: bool, x: seq<byte>, i: nat, j: nat)
    requires ValidNet(n, isIpv4) && i < SubCount(n, isIpv4) && j < |x| == FamilyBytes(isIpv4)
    requires j < CoveredBytes(n, isIpv4) ==> SubIp(n, isIpv4, i)[j] == x[j]
    ensures CoveredAt(n, isIpv4, x, j)
  {
  }

  /** Adding the difference back, modulo the byte. */
  lemma AddBack(base: byte, v: byte)
    ensures (base as int + (v as int - base as int) % 256) % 256 == v
  {
    var d := v as int - base as int;
    assert d % 256 == if d >= 0 then d else d + 256;
  }

  /** Which of the split addresses to look at for a covered address. */
  lemma SplitIndex(n: Net, isIpv4: bool, x: seq<byte>) returns (i: nat)
    requires ValidNet(n, isIpv4) && |x| == FamilyBytes(isIpv4) && Covered(n, isIpv4, x)
    ensures i < SubCount(n, isIpv4)
    ensures forall j :: 0 <= j < CoveredBytes(n, isIpv4) && j < |x| ==> SubIp(n, isIpv4, i)[j] == x[j]
  {
    var m := n.maskSize / 8;
    if Splits(n, isIpv4) {
      CoveredBytesFit(n, isIpv4);
      assert CoveredAt(n, isIpv4, x, m);
      i := (x[m] as int - n.ip[m] as int) % 256;
      AddBack(n.ip[m], x[m]);
      assert SubIp(n, isIpv4, i)[m] == x[m];
    } else {
      i := 0;
    }
    forall j | 0 <= j < CoveredBytes(n, isIpv4) && j < |x| ensures SubIp(n, isIpv4, i)[j] == x[j] {
      assert CoveredAt(n, isIpv4, x, j);
    }
  }

  /** Some marked path of the network is a prefix of the address's groups exactly when the
      network covers the address. */
  lemma CoveredByMark(n: Net, isIpv4: bool, x: seq<byte>)
    requires ValidNet(n, isIpv4) && |x| == FamilyBytes(isIpv4)
    ensures Covered(n, isIpv4, x)
       <==> exists i :: 0 <= i < SubCount(n, isIpv4) && MarkedPath(n, isIpv4, i) <= Groups(x, isIpv4)
  {
    CoveredBytesFit(n, isIpv4);
    var k := MarkedGroups(NewMaskSize(n, isIpv4), isIpv4);
    forall i: nat | i < SubCount(n, isIpv4) && MarkedPath(n, isIpv4, i) <= Groups(x, isIpv4)
      ensures Covered(n, isIpv4, x)
    {
      PrefixAgrees(SubIp(n, isIpv4, i), x, isIpv4, k);
      forall j | 0 <= j < |x| ensures CoveredAt(n, isIpv4, x, j) {
        SplitByteIsCovered(n, isIpv4, x, i, j);
      }
    }
    if Covered(n, isIpv4, x) {
      var i := SplitIndex(n, isIpv4, x);
      PrefixAgrees(SubIp(n, isIpv4, i), x, isIpv4, k);
      assert MarkedPath(n, isIpv4, i) <= Groups(x, isIpv4);
    }
  }

  // ---------------------------------------------------------------- ranges

  /** Bit `b` of an address, counted from the most significant one. */
  predicate BitOf(x: seq<byte>, b: nat)
    requires b < 8 * |x|
  {
    BitOfByte(x[b / 8], b % 8)
  }

  predicate BitOfByte(v: byte, i: nat)
    requires i < 8
  {
    v / [128, 64, 32, 16, 8, 4, 2, 1][i] % 2 == 1
  }

  /** The address lies in the network: the first `maskSize` bits agree. */
  ghost predicate InNet(n: Net, x: seq<byte>)
    requires |x| == |n.ip|
  {
    forall b: nat :: b < n.maskSize && b < 8 * |x| ==> (BitOf(x, b) <==> BitOf(n.ip, b))
  }

  /** The host bits of the network address are clear. */
  ghost predicate Masked(n: Net) {
    forall b: nat :: n.maskSize <= b < 8 * |n.ip| ==> !BitOf(n.ip, b)
  }

  /** Byte `j` of the address lies in the network's range. */
  ghost predicate InNetAt(n: Net, x: seq<byte>, j: nat)
    requires j < |x| == |n.ip|
  {
    if 8 * j + 8 <= n.maskSize then x[j] == n.ip[j]
    else if 8 * j < n.maskSize then
      x[j] / (Shifted(n.maskSize - 8 * j) + 1) == n.ip[j] / (Shifted(n.maskSize - 8 * j) + 1)
    else true
  }

  ghost predicate MaskedAt(n: Net, j: nat)
    requires j < |n.ip|
  {
    8 * j + 8 > n.maskSize ==>
      if 8 * j >= n.maskSize then n.ip[j] == 0 else n.ip[j] % (Shifted(n.maskSize - 8 * j) + 1) == 0
  }

  lemma OneMoreBit(v: byte, r: nat)
    requires r < 7
    ensures v / (Shifted(r + 1) + 1) == 2 * (v / (Shifted(r) + 1)) + if BitOfByte(v, r) then 1 else 0
  {
  }

  /** The first `r` bits of two bytes agree exactly when the bytes are equal without the rest. */
  lemma {:induction false} TopBits(v: byte, w: byte, r: nat)
    requires r < 8
    ensures v / (Shifted(r) + 1) == w / (Shifted(r) + 1)
       <==> forall i :: 0 <= i < r ==> (BitOfByte(v, i) <==> BitOfByte(w, i))
  {
    if r > 0 {
      TopBits(v, w, r - 1);
      OneMoreBit(v, r - 1);
      OneMoreBit(w, r - 1);
    }
  }

  lemma AllBits(v: byte, w: byte)
    ensures v == w <==> forall i :: 0 <= i < 8 ==> (BitOfByte(v, i) <==> BitOfByte(w, i))
  {
    TopBits(v, w, 7);
    assert v == 2 * (v / 2) + v % 2 && w == 2 * (w / 2) + w % 2;
    assert BitOfByte(v, 7) <==> v % 2 == 1;
    assert BitOfByte(w, 7) <==> w % 2 == 1;
  }

  /** The bits of a byte from `r` on are clear exactly when it is a multiple of 2^(8 - r). */
  lemma LowBitsClear(v: byte, r: nat)
    requires r < 8
    ensures v % (Shifted(r) + 1) == 0 <==> forall i :: r <= i < 8 ==> !BitOfByte(v, i)
  {
    var w := v - v % (Shifted(r) + 1);
    LowBitsOfMultiple(w, r);
    TopBits(v, w, r);
    AllBits(v, w);
  }

  lemma {:induction false} LowBitsOfMultiple(w: byte, r: nat)
    requires r < 8 && w % (Shifted(r) + 1) == 0
    ensures forall i :: r <= i < 8 ==> !BitOfByte(w, i)
    decreases 8 - r
  {
    if r < 7 {
      OneMoreBit(w, r);
      LowBitsOfMultiple(w, r + 1);
    }
  }

  lemma BitsByBytes(n: Net, x: seq<byte>, j: nat)
    requires j < |x| == |n.ip|
    ensures InNetAt(n, x, j) <==>
              forall i :: 0 <= i < 8 && 8 * j + i < n.maskSize ==> (BitOfByte(x[j], i) <==> BitOfByte(n.ip[j], i))
  {
    AllBits(x[j], n.ip[j]);
    if 8 * j < n.maskSize < 8 * j + 8 {
      TopBits(x[j], n.ip[j], n.maskSize - 8 * j);
    }
  }

  lemma InNetByBytes(n: Net, x: seq<byte>)
    requires |x| == |n.ip|
    ensures InNet(n, x) <==> forall j :: 0 <= j < |x| ==> InNetAt(n, x, j)
  {
    forall j | 0 <= j < |x| && InNet(n, x) ensures InNetAt(n, x, j) {
      BitsByBytes(n, x, j);
      forall i | 0 <= i < 8 && 8 * j + i < n.maskSize ensures BitOfByte(x[j], i) <==> BitOfByte(n.ip[j], i) {
        assert BitOf(x, 8 * j + i) <==> BitOf(n.ip, 8 * j + i);
        assert (8 * j + i) / 8 == j && (8 * j + i) % 8 == i;
      }
    }
    if forall j :: 0 <= j < |x| ==> InNetAt(n, x, j) {
      forall b: nat | b < n.maskSize && b < 8 * |x| ensures BitOf(x, b) <==> BitOf(n.ip, b) {
        assert InNetAt(n, x, b / 8);
        BitsByBytes(n, x, b / 8);
        assert b == 8 * (b / 8) + b % 8;
      }
    }
  }

  lemma MaskedByBytes(n: Net)
    requires Masked(n)
    ensures forall j :: 0 <= j < |n.ip| ==> MaskedAt(n, j)
  {
    forall j | 0 <= j < |n.ip| ensures MaskedAt(n, j) {
      forall i | 0 <= i < 8 && n.maskSize <= 8 * j + i ensures !BitOfByte(n.ip[j], i) {
        assert !BitOf(n.ip, 8 * j + i);
        assert (8 * j + i) / 8 == j && (8 * j + i) % 8 == i;
      }
      AllBits(n.ip[j], 0);
      assert forall i :: 0 <= i < 8 ==> !BitOfByte(0, i);
      if 8 * j < n.maskSize < 8 * j + 8 {
        LowBitsClear(n.ip[j], n.maskSize - 8 * j);
      }
    }
  }

  /** The part of a network that its marks leave out: with no mask at all everything outside
      the first group, and for an IPv6 mask that ends in the upper byte of a group whatever
      has a lower byte other than zero there. */
  ghost predicate LeftOut(n: Net, isIpv4: bool, x: seq<byte>) {
    exists j :: 0 <= j < |x| && LeftOutAt(n, isIpv4, x, j)
  }

  ghost predicate LeftOutAt(n: Net, isIpv4: bool, x: seq<byte>, j: nat)
    requires j < |x|
  {
    && x[j] != 0
    && if n.maskSize == 0 then j < (if isIpv4 then 1 else 2)
       else !isIpv4 && 0 < n.maskSize % 16 < 8 && j == n.maskSize / 8 + 1
  }

  lemma LastByte(v: byte, base: byte, r: nat)
    requires r < 8 && base % (Shifted(r) + 1) == 0
    ensures (v as int - base as int) % 256 <= Shifted(r) <==> v / (Shifted(r) + 1) == base / (Shifted(r) + 1)
  {
  }

  lemma CoveredBytesValue(n: Net, isIpv4: bool)
    requires ValidNet(n, isIpv4)
    ensures CoveredBytes(n, isIpv4) ==
            if n.maskSize == 0 then GroupBytes(isIpv4)
            else if !Splits(n, isIpv4) then n.maskSize / 8
            else if isIpv4 || n.maskSize / 8 % 2 == 1 then n.maskSize / 8 + 1
            else n.maskSize / 8 + 2
    ensures !isIpv4 && Splits(n, isIpv4) ==> (0 < n.maskSize % 16 < 8 <==> n.maskSize / 8 % 2 == 0)
    ensures !isIpv4 && !Splits(n, isIpv4) ==> n.maskSize % 16 == 0
    ensures !Splits(n, isIpv4) ==> n.maskSize % 8 == 0
  {
    ByteInPair(n.maskSize);
    var q := n.maskSize / 8;
    assert (q + 1) * 8 / 8 == q + 1 && (q / 2 + 1) * 16 / 16 == q / 2 + 1;
  }

  /** Where a bit lies in its byte and in its pair of bytes. */
  lemma ByteInPair(maskSize: nat)
    ensures maskSize / 16 == maskSize / 8 / 2
    ensures maskSize % 16 == 8 * (maskSize / 8 % 2) + maskSize % 8
  {
    var q, r := maskSize / 8, maskSize % 8;
    assert maskSize == 16 * (q / 2) + (8 * (q % 2) + r);
  }

  lemma EndsInByte(maskSize: nat)
    requires maskSize % 8 != 0
    ensures maskSize % 16 != 0
    ensures 8 * (maskSize / 8) < maskSize < 8 * (maskSize / 8) + 8
    ensures maskSize - 8 * (maskSize / 8) == maskSize % 8
  {
    assert maskSize == 8 * (maskSize / 8) + maskSize % 8;
    ByteInPair(maskSize);
  }

  /** The byte in which the mask ends. */
  lemma CoveredLastByte(n: Net, isIpv4: bool, x: seq<byte>)
    requires ValidNet(n, isIpv4) && Masked(n) && |x| == FamilyBytes(isIpv4) && n.maskSize % 8 != 0
    ensures var j := n.maskSize / 8;
            && CoveredAt(n, isIpv4, x, j) == InNetAt(n, x, j)
            && !LeftOutAt(n, isIpv4, x, j)
  {
    var j := n.maskSize / 8;
    CoveredBytesFit(n, isIpv4);
    EndsInByte(n.maskSize);
    MaskedByBytes(n);
    assert MaskedAt(n, j);
    assert Splits(n, isIpv4);
    LastByte(x[j], n.ip[j], n.maskSize % 8);
  }

  lemma CoveredByte(n: Net, isIpv4: bool, x: seq<byte>, j: nat)
    requires ValidNet(n, isIpv4) && Masked(n) && j < |x| == FamilyBytes(isIpv4)
    ensures CoveredAt(n, isIpv4, x, j) <==> InNetAt(n, x, j) && !LeftOutAt(n, isIpv4, x, j)
  {
    var q := n.maskSize / 8;
    CoveredBytesValue(n, isIpv4);
    if j == q && n.maskSize % 8 != 0 {
      CoveredLastByte(n, isIpv4, x);
    } else if j < q {
      assert 8 * j + 8 <= n.maskSize;
      assert !LeftOutAt(n, isIpv4, x, j);
    } else {
      MaskedByBytes(n);
      assert MaskedAt(n, j);
      assert 8 * j >= n.maskSize && n.ip[j] == 0;
      assert InNetAt(n, x, j);
    }
  }

  /** A masked network covers its whole range but what is left out. */
  lemma CoveredIsRange(n: Net, isIpv4: bool, x: seq<byte>)
    requires ValidNet(n, isIpv4) && Masked(n) && |x| == FamilyBytes(isIpv4)
    ensures Covered(n, isIpv4, x) <==> InNet(n, x) && !LeftOut(n, isIpv4, x)
  {
    InNetByBytes(n, x);
    forall j | 0 <= j < |x|
      ensures CoveredAt(n, isIpv4, x, j) <==> InNetAt(n, x, j) && !LeftOutAt(n, isIpv4, x, j)
    {
      CoveredByte(n, isIpv4, x, j);
    }
  }

  /** The mask lengths for which nothing is left out. */
  predicate ExactLength(maskSize: nat, isIpv4: bool) {
    maskSize >= 1 && (isIpv4 || maskSize % 16 == 0 || maskSize % 16 >= 8)
  }

  /** Some address of a network is left out exactly when its mask length is not exact. */
  lemma NothingLeftOut(n: Net, isIpv4: bool)
    requires ValidNet(n, isIpv4) && Masked(n)
    ensures ExactLength(n.maskSize, isIpv4)
       <==> forall x: seq<byte> :: |x| == FamilyBytes(isIpv4) && InNet(n, x) ==> Covered(n, isIpv4, x)
  {
    forall x: seq<byte> | |x| == FamilyBytes(isIpv4) && InNet(n, x) && ExactLength(n.maskSize, isIpv4)
      ensures Covered(n, isIpv4, x)
    {
      CoveredIsRange(n, isIpv4, x);
    }
    if !ExactLength(n.maskSize, isIpv4) {
      var j := if n.maskSize == 0 then 0 else n.maskSize / 8 + 1;
      var x := n.ip[j := 1];
      forall i | 0 <= i < |x| ensures InNetAt(n, x, i) {
      }
      InNetByBytes(n, x);
      assert LeftOutAt(n, isIpv4, x, j);
      CoveredIsRange(n, isIpv4, x);
    }
  }
}
