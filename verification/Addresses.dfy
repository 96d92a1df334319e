/** IP addresses and prefixes as numbers, and the last address of a prefix. */
module Addresses {

  datatype Family = V4 | V6

  /** `Zero` is the invalid address. */
  datatype Addr = Zero | IP(family: Family, value: nat)

  datatype Prefix = Prefix(addr: Addr, bits: nat)

  const TWO32: nat := 0x1_0000_0000
  const TWO64: nat := 0x1_0000_0000_0000_0000
  const TWO128: nat := 0x1_0000_0000_0000_0000_0000_0000_0000_0000

  function Width(f: Family): nat {
    if f.V4? then 32 else 128
  }

  function Count(f: Family): nat {
    if f.V4? then TWO32 else TWO128
  }

  function Pow2(k: nat): (p: nat)
    ensures p > 0
  {
    if k == 0 then 1 else 2 * Pow2(k - 1)
  }

  predicate InRange(a: Addr) {
    a.IP? ==> a.value < Count(a.family)
  }

  function Next(a: Addr): Addr {
    if a.IP? && a.value + 1 < Count(a.family) then a.(value := a.value + 1) else Zero
  }

  function Prev(a: Addr): Addr {
    if a.IP? && a.value > 0 then a.(value := a.value - 1) else Zero
  }

  predicate AddrLess(a: Addr, b: Addr) {
    match (a, b)
    case (Zero, Zero) => false
    case (Zero, IP(_, _)) => true
    case (IP(_, _), Zero) => false
    case (IP(f, x), IP(g, y)) => if f == g then x < y else f.V4?
  }

  predicate ValidPrefix(p: Prefix) {
    p.addr.IP? && InRange(p.addr) && p.bits <= Width(p.addr.family)
  }

  function HostBits(p: Prefix): nat
    requires ValidPrefix(p)
  {
    Width(p.addr.family) - p.bits
  }

  /** The number with its bits below the power of two `m` cleared, and with them set. */
  function ClearLow(x: nat, m: nat): (r: nat)
    requires m > 0
    ensures r <= x
  {
    x - x % m
  }

  function SetLow(x: nat, m: nat): (r: nat)
    requires m > 0
    ensures x <= r
  {
    x - x % m + m - 1
  }

  function Masked(p: Prefix): Addr {
    if ValidPrefix(p) then p.addr.(value := ClearLow(p.addr.value, Pow2(HostBits(p)))) else Zero
  }

  ghost predicate Contains(p: Prefix, a: Addr)
    requires ValidPrefix(p)
  {
    var m := Pow2(HostBits(p));
    a.IP? && a.family == p.addr.family && a.value / m == p.addr.value / m
  }

  function As16(a: Addr): nat
    requires a.IP?
  {
    if a.family.V4? then 0xFFFF * TWO32 + a.value else a.value
  }

  /** The prefix's last address, by word arithmetic on the 16-byte form: or-ing a word with
      its low bits set is `SetLow`. Lengths up to 32 count as IPv4 lengths. */
  function UnMasked(p: Prefix): Addr {
    if !ValidPrefix(p) then Zero
    else
      var x := As16(p.addr);
      var bits := if p.bits <= 32 then p.bits + 96 else p.bits;
      var v := SetWords(x / TWO64, x % TWO64, bits);
      if p.addr.family.V4? && v / TWO32 == 0xFFFF then IP(V4, v % TWO32) else IP(V6, v)
  }

  /** Sets the low `128 - bits` bits of the number held in two words. */
  function SetWords(hi: nat, lo: nat, bits: nat): nat
    requires bits <= 128
  {
    var hi' := SetLow(hi, Pow2(if bits < 64 then 64 - bits else 0));
    var lo' := SetLow(lo, Pow2(if bits <= 64 then 64 else 128 - bits));
    hi' * TWO64 + lo'
  }

  // ---------------------------------------------------------------- arithmetic

  lemma {:induction false} Pow2Add(a: nat, b: nat)
    ensures Pow2(a + b) == Pow2(a) * Pow2(b)
  {
    if a > 0 {
      Pow2Add(a - 1, b);
    }
  }

  lemma Pow2Values()
    ensures Pow2(32) == TWO32 && Pow2(64) == TWO64
  {
    assert Pow2(8) == 0x100;
    Pow2Add(8, 8);
    Pow2Add(16, 16);
    Pow2Add(32, 32);
  }

  lemma NoMultipleBetween(d: int, m: int)
    requires m > 0 && -m < d * m < m
    ensures d == 0
  {
  }

  lemma DivUnique(x: int, m: int, q: int, r: int)
    requires m > 0 && x == q * m + r && 0 <= r < m
    ensures x / m == q && x % m == r
  {
    var d := x / m - q;
    assert x == x / m * m + x % m;
    assert d * m == x / m * m - q * m;
    NoMultipleBetween(d, m);
  }

  lemma MulAssoc(a: int, b: int, c: int)
    ensures a * (b * c) == (a * b) * c
  {
  }

  lemma MulDist(a: int, b: int, c: int)
    ensures (a + b) * c == a * c + b * c
  {
  }

  lemma MulMono(a: int, b: int, c: int)
    requires a <= b && c >= 0
    ensures a * c <= b * c
  {
  }

  /** The remainder by a divisor of `m` ignores multiples of `m`. */
  lemma ModOfLow(h: nat, c: nat, k: nat, l: nat)
    requires k > 0
    ensures (h * (c * k) + l) % k == l % k
  {
    MulAssoc(h, c, k);
    MulDist(h * c, l / k, k);
    DivUnique(h * (c * k) + l, k, h * c + l / k, l % k);
  }

  /** The remainder by a multiple of `m` keeps the low part. */
  lemma ModOfHigh(h: nat, m: nat, p: nat, l: nat)
    requires m > 0 && p > 0 && l < m
    ensures p * m > 0 && (h * m + l) % (p * m) == h % p * m + l
  {
    var q, r := h / p, h % p;
    assert h == q * p + r;
    MulDist(q * p, r, m);
    MulAssoc(q, p, m);
    MulMono(r + 1, p, m);
    MulDist(r, 1, m);
    MulMono(0, r, m);
    DivUnique(h * m + l, p * m, q, r * m + l);
  }

  /** The two words together set the low `128 - bits` bits. */
  lemma WordsSetLow(hi: nat, lo: nat, bits: nat)
    requires bits <= 128 && lo < TWO64
    ensures SetWords(hi, lo, bits) == SetLow(hi * TWO64 + lo, Pow2(128 - bits))
  {
    if bits >= 64 {
      LowWordSetLow(hi, lo, bits);
    } else {
      HighWordSetLow(hi, lo, bits);
    }
  }

  lemma LowWordSetLow(hi: nat, lo: nat, bits: nat)
    requires 64 <= bits <= 128 && lo < TWO64
    ensures SetWords(hi, lo, bits) == SetLow(hi * TWO64 + lo, Pow2(128 - bits))
  {
    Pow2Values();
    var k := 128 - bits;
    Pow2Add(64 - k, k);
    ModOfLow(hi, Pow2(64 - k), Pow2(k), lo);
  }

  lemma HighWordSetLow(hi: nat, lo: nat, bits: nat)
    requires bits < 64 && lo < TWO64
    ensures SetWords(hi, lo, bits) == SetLow(hi * TWO64 + lo, Pow2(128 - bits))
  {
    Pow2Values();
    var p := Pow2(64 - bits);
    Pow2Add(64 - bits, 64);
    ModOfHigh(hi, TWO64, p, lo);
    HighWordSum(hi, lo, hi % p, p);
  }

  lemma HighWordSum(hi: int, lo: int, r: int, p: int)
    ensures (hi - r + p - 1) * TWO64 + (lo - lo + TWO64 - 1) == (hi * TWO64 + lo) - (r * TWO64 + lo) + p * TWO64 - 1
  {
  }

  /** The last address that agrees with the prefix's address outside the host bits. */
  function LastValue(p: Prefix): nat
    requires ValidPrefix(p)
  {
    SetLow(p.addr.value, Pow2(HostBits(p)))
  }

  /** It is in the prefix, and nothing in the prefix is above it. */
  lemma LastValueIsLast(p: Prefix)
    requires ValidPrefix(p)
    ensures Contains(p, IP(p.addr.family, LastValue(p)))
    ensures forall a :: Contains(p, a) ==> a.value <= LastValue(p)
  {
    var m := Pow2(HostBits(p));
    var q := p.addr.value / m;
    assert p.addr.value == q * m + p.addr.value % m;
    DivUnique(LastValue(p), m, q, m - 1);
    forall a | Contains(p, a) ensures a.value <= LastValue(p) {
      assert a.value == q * m + a.value % m;
    }
  }

  /** IPv4 prefixes, and IPv6 prefixes longer than 32 bits, get their last address. */
  lemma UnMaskedIsLast(p: Prefix)
    requires ValidPrefix(p) && (p.addr.family.V4? || p.bits > 32)
    ensures UnMasked(p) == IP(p.addr.family, LastValue(p))
  {
    var x := As16(p.addr);
    if p.addr.family.V6? {
      WordsSetLow(x / TWO64, x % TWO64, p.bits);
    } else {
      WordsSetLow(x / TWO64, x % TWO64, p.bits + 96);
      V4InMapped(p.addr.value, 32 - p.bits);
    }
  }

  lemma UnMaskedInRange(p: Prefix)
    requires ValidPrefix(p)
    ensures UnMasked(p).IP? && UnMasked(p).family == p.addr.family && InRange(UnMasked(p))
  {
    if p.addr.family.V4? {
      UnMaskedIsLast(p);
      V4InMapped(p.addr.value, 32 - p.bits);
    } else {
      var bits := if p.bits <= 32 then p.bits + 96 else p.bits;
      WordsSetLow(p.addr.value / TWO64, p.addr.value % TWO64, bits);
      SetLowInRange(p.addr.value, bits);
    }
  }

  lemma SetLowInRange(v: nat, bits: nat)
    requires v < TWO128 && bits <= 128
    ensures SetLow(v, Pow2(128 - bits)) < TWO128
  {
    Pow2Values();
    Pow2Add(64, 64);
    Pow2Add(bits, 128 - bits);
    BelowMultiple(v, Pow2(bits), Pow2(128 - bits));
  }

  /** In the mapped form of an IPv4 address only the address changes. */
  lemma V4InMapped(v: nat, k: nat)
    requires v < TWO32 && k <= 32
    ensures SetLow(v, Pow2(k)) < TWO32
    ensures SetLow(0xFFFF * TWO32 + v, Pow2(k)) == 0xFFFF * TWO32 + SetLow(v, Pow2(k))
  {
    var m, c := Pow2(k), Pow2(32 - k);
    Pow2Values();
    Pow2Add(32 - k, k);
    ModOfLow(0xFFFF, c, m, v);
    BelowMultiple(v, c, m);
  }

  lemma BelowMultiple(v: nat, c: nat, m: nat)
    requires m > 0 && v < c * m
    ensures v - v % m + m <= c * m
  {
    assert v == v / m * m + v % m;
    if v / m >= c {
      MulMono(c, v / m, m);
    }
    MulMono(v / m + 1, c, m);
    MulDist(v / m, 1, m);
  }

  /** For every other prefix the length is taken for an IPv4 length, and the result is the
      last address exactly when the host bits left out are all set already. */
  lemma UnMaskedShortV6(p: Prefix)
    requires ValidPrefix(p) && p.addr.family.V6? && p.bits <= 32
    ensures UnMasked(p) == IP(V6, SetLow(p.addr.value, Pow2(32 - p.bits)))
    ensures UnMasked(p) == IP(V6, LastValue(p)) <==>
              p.addr.value / Pow2(32 - p.bits) % Pow2(96) == Pow2(96) - 1
  {
    WordsSetLow(p.addr.value / TWO64, p.addr.value % TWO64, p.bits + 96);
    Pow2Add(96, 32 - p.bits);
    LowBitsSufficeIff(p.addr.value, Pow2(32 - p.bits), Pow2(96));
  }

  lemma LowBitsSufficeIff(x: nat, a: nat, m: nat)
    requires a > 0 && m > 0
    ensures m * a > 0 && (SetLow(x, a) == SetLow(x, m * a) <==> x / a % m == m - 1)
    ensures SetLow(x, a) <= SetLow(x, m * a)
  {
    var r := x / a % m;
    MulMono(1, m, a);
    assert x == x / a * a + x % a;
    ModOfHigh(x / a, a, m, x % a);
    FactorOut(r, m, a);
    assert SetLow(x, a) - SetLow(x, m * a) == (r + 1 - m) * a;
    ZeroFactor(r + 1 - m, a);
    MulMono(r + 1 - m, 0, a);
  }

  lemma FactorOut(r: int, m: int, a: int)
    ensures r * a + a - m * a == (r + 1 - m) * a
  {
    MulDist(r + 1, - m, a);
    MulDist(r, 1, a);
  }

  lemma ZeroFactor(d: int, a: int)
    requires a > 0
    ensures d * a == 0 <==> d == 0
  {
    if d * a == 0 {
      NoMultipleBetween(d, a);
    }
  }

  /** Right or not, the result is never above the last address. */
  lemma UnMaskedAtMostLast(p: Prefix)
    requires ValidPrefix(p)
    ensures UnMasked(p).IP? && UnMasked(p).family == p.addr.family && UnMasked(p).value <= LastValue(p)
  {
    if p.addr.family.V4? || p.bits > 32 {
      UnMaskedIsLast(p);
    } else {
      UnMaskedShortV6(p);
      Pow2Add(96, 32 - p.bits);
      LowBitsSufficeIff(p.addr.value, Pow2(32 - p.bits), Pow2(96));
    }
  }

  /** A prefix of the full length is one address, whatever address that is. */
  lemma FullLength(a: Addr)
    requires a.IP? && a.value < if a.family.V4? then 0x1_0000_0000 else 0x1_0000_0000_0000_0000_0000_0000_0000_0000
    ensures UnMasked(Prefix(a, if a.family.V4? then 32 else 128)) == a
  {
    UnMaskedIsLast(Prefix(a, if a.family.V4? then 32 else 128));
  }

  /** The prefix ::/32 shows the difference: the result is :: itself. */
  lemma ShortV6Example()
    ensures var p := Prefix(IP(V6, 0), 32); ValidPrefix(p) && UnMasked(p) == p.addr != IP(V6, LastValue(p))
  {
    UnMaskedShortV6(Prefix(IP(V6, 0), 32));
    assert Pow2(0) == 1 && Pow2(96) == 2 * Pow2(95);
    assert 0 / 1 % Pow2(96) == 0;
  }
}
