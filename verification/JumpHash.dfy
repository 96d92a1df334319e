/** Jump consistent hashing and the load-balancing strategy built on it. The jump is a product
    of floating point numbers in the source. All that the hash needs of it is that it goes
    strictly forward, which any rounding that keeps order and small integers does. */
module JumpHash {

  const MULTIPLIER := 2862933555777941757
  const TWO_64 := 0x1_0000_0000_0000_0000
  const TWO_33 := 0x2_0000_0000
  const TWO_31 := 0x8000_0000
  const TWO_53 := 0x20_0000_0000_0000
  const TWO_62 := 0x4000_0000_0000_0000

  type Step = (nat, nat) -> nat

  /** The linear congruential step on 64-bit keys. */
  function NextKey(key: nat): (k: nat)
    ensures k < TWO_64
  {
    (key * MULTIPLIER + 1) % TWO_64
  }

  /** The divisor drawn from the upper 31 bits of a key. */
  function Draw(key: nat): (d: nat)
    requires key < TWO_64
    ensures 1 <= d <= TWO_31
  {
    key / TWO_33 + 1
  }

  /** From every bucket that a 32-bit count allows, each divisor leads to a later bucket. */
  ghost predicate Forward(step: Step) {
    forall b: nat, d: nat :: b < TWO_31 && 1 <= d <= TWO_31 ==> step(b, d) > b
  }

  // ---------------------------------------------------------------- the jump in floating point

  ghost predicate KeepsOrder(rd: real -> real, x: real, y: real) {
    x <= y ==> rd(x) <= rd(y)
  }

  ghost predicate Keeps(rd: real -> real, i: nat) {
    rd(i as real) == i as real
  }

  /** Rounding keeps the order, and keeps the integers up to 2^53 and the number 2^62. */
  ghost predicate Rounding(rd: real -> real) {
    && (forall x, y {:trigger KeepsOrder(rd, x, y)} :: KeepsOrder(rd, x, y))
    && (forall i: nat {:trigger Keeps(rd, i)} :: i <= TWO_53 ==> Keeps(rd, i))
    && Keeps(rd, TWO_62)
  }

  /** (b + 1) * (2^31 / d) with both operations rounded, then cut to an integer. */
  function RoundedStep(rd: real -> real, b: nat, d: nat): nat {
    if d == 0 then 0
    else
      var j := rd((b + 1) as real * rd(TWO_31 as real / d as real)).Floor;
      if j < 0 then 0 else j
  }

  lemma SignOfProduct(x: real, d: real)
    requires d > 0.0
    ensures x * d >= 0.0 <==> x >= 0.0
  {
  }

  lemma QuotientBounds(q: real, d: real, p: real)
    requires q * d == p && 1.0 <= d <= p
    ensures 1.0 <= q <= p
  {
    assert (q - 1.0) * d == p - d;
    SignOfProduct(q - 1.0, d);
    assert q * (d - 1.0) == p - q;
    assert q * (d - 1.0) >= 0.0;
  }

  lemma ProductBounds(b: real, q: real, m: real)
    requires 1.0 <= q <= m && 0.0 <= b <= m
    ensures b <= b * q <= m * m
  {
    assert b * (q - 1.0) >= 0.0;
    assert b * (m - q) >= 0.0 && (m - b) * m >= 0.0;
  }

  /** Rounding does not leave an interval whose ends it keeps. */
  lemma RoundedBetween(rd: real -> real, x: real, low: nat, high: nat)
    requires Rounding(rd) && low as real <= x <= high as real && Keeps(rd, low) && Keeps(rd, high)
    ensures low as real <= rd(x) <= high as real
  {
    assert KeepsOrder(rd, low as real, x) && KeepsOrder(rd, x, high as real);
  }

  /** The quotient is between 1 and 2^31, rounded or not. */
  lemma QuotientInRange(rd: real -> real, d: nat)
    requires Rounding(rd) && 1 <= d <= TWO_31
    ensures 1.0 <= rd(TWO_31 as real / d as real) <= TWO_31 as real
  {
    var q := TWO_31 as real / d as real;
    QuotientBounds(q, d as real, TWO_31 as real);
    assert Keeps(rd, 1) && Keeps(rd, TWO_31);
    RoundedBetween(rd, q, 1, TWO_31);
  }

  lemma FloorBetween(v: real, low: int, high: int)
    requires low as real <= v <= high as real
    ensures low <= v.Floor <= high
  {
  }

  /** The rounded jump goes strictly forward and fits a signed 64-bit integer. */
  lemma RoundedStepIsForward(rd: real -> real, b: nat, d: nat)
    requires Rounding(rd) && b < TWO_31 && 1 <= d <= TWO_31
    ensures b < RoundedStep(rd, b, d) <= TWO_62
  {
    QuotientInRange(rd, d);
    var p := (b + 1) as real * rd(TWO_31 as real / d as real);
    ProductBounds((b + 1) as real, rd(TWO_31 as real / d as real), TWO_31 as real);
    assert Keeps(rd, b + 1);
    RoundedBetween(rd, p, b + 1, TWO_62);
    FloorBetween(rd(p), b + 1, TWO_62);
  }

  /** The step under a rounding. */
  function StepOf(rd: real -> real): Step {
    (b, d) => RoundedStep(rd, b, d)
  }

  /** So every rounding gives a step that the hash can use. */
  lemma RoundedIsForward(rd: real -> real)
    requires Rounding(rd)
    ensures Forward(StepOf(rd))
  {
    forall b: nat, d: nat | b < TWO_31 && 1 <= d <= TWO_31 ensures StepOf(rd)(b, d) > b {
      RoundedStepIsForward(rd, b, d);
    }
  }

  // ---------------------------------------------------------------- the hash

  /** Where the jumps from bucket `j`, reached from `b`, come to rest below `n`. */
  function JumpFrom(step: Step, key: nat, b: nat, j: nat, n: int): nat
    requires Forward(step) && n < TWO_31
    decreases n - j
  {
    if j >= n then b
    else JumpFrom(step, NextKey(key), j, step(j, Draw(NextKey(key))), n)
  }

  /** With more buckets a key stays where it was or lands in a new bucket. */
  lemma {:induction false} JumpFurther(step: Step, key: nat, b: nat, j: nat, n: nat, m: nat)
    requires Forward(step) && n <= m < TWO_31 && b < n
    ensures var was, now := JumpFrom(step, key, b, j, n), JumpFrom(step, key, b, j, m);
            if now < n then now == was else j < m && n <= now < m
    decreases m - j
  {
    if j < m {
      var k := NextKey(key);
      var next := step(j, Draw(k));
      if j < n {
        JumpFurther(step, k, j, next, n, m);
      } else {
        NeverBelow(step, k, j, next, m);
      }
    }
  }

  lemma {:induction false} NeverBelow(step: Step, key: nat, b: nat, j: nat, m: nat)
    requires Forward(step) && b < j && b < m < TWO_31
    ensures b <= JumpFrom(step, key, b, j, m) < m
    decreases m - j
  {
    if j < m {
      NeverBelow(step, NextKey(key), j, step(j, Draw(NextKey(key))), m);
    }
  }

  /** Going from n buckets to m: a key moves exactly if it lands in one of the new ones. */
  lemma Consistent(step: Step, key: nat, n: nat, m: nat)
    requires Forward(step) && 1 <= n <= m < TWO_31
    ensures var was, now := JumpFrom(step, key, 0, 0, n), JumpFrom(step, key, 0, 0, m);
            && was < n && now < m && (now == was <==> now < n)
    ensures m == n + 1 ==> JumpFrom(step, key, 0, 0, m) in {JumpFrom(step, key, 0, 0, n), n}
  {
    JumpFurther(step, key, 0, 0, n, m);
    NeverBelow(step, NextKey(key), 0, step(0, Draw(NextKey(key))), n);
  }

  /** The bucket of a key under a rounding. */
  function Bucket(rd: real -> real, key: nat, n: int): nat
    requires Rounding(rd) && n < TWO_31
  {
    RoundedIsForward(rd);
    JumpFrom(StepOf(rd), key, 0, 0, n)
  }

  method JumpHash(rd: real -> real, key: nat, buckets: int) returns (bucket: nat)
    requires Rounding(rd) && buckets < TWO_31
    ensures bucket == Bucket(rd, key, buckets)
    ensures buckets >= 1 ==> bucket < buckets
  {
    RoundedIsForward(rd);
    ghost var step := StepOf(rd);
    var k, j := key, 0;
    bucket := 0;
    while j < buckets
      invariant JumpFrom(step, k, bucket, j, buckets) == JumpFrom(step, key, 0, 0, buckets)
      invariant j > 0 ==> bucket < buckets
      decreases buckets - j
    {
      bucket := j;
      k := NextKey(k);
      RoundedStepIsForward(rd, bucket, Draw(k));
      j := RoundedStep(rd, bucket, Draw(k));
    }
  }

  /** The same for the buckets themselves. */
  lemma ConsistentBuckets(rd: real -> real, key: nat, n: nat, m: nat)
    requires Rounding(rd) && 1 <= n <= m < TWO_31
    ensures var was, now := Bucket(rd, key, n), Bucket(rd, key, m);
            && was < n && now < m && (now == was <==> now < n)
            && (m == n + 1 ==> now == was || now == n)
  {
    RoundedIsForward(rd);
    Consistent(StepOf(rd), key, n, m);
  }

  // ---------------------------------------------------------------- how keys are spread

  /** Every divisor is drawn by equally many keys: by 2^33 in a row. */
  lemma DrawsAreEven(key: nat, d: nat)
    requires key < 0x1_0000_0000_0000_0000 && d >= 1
    ensures Draw(key) == d <==> (d - 1) * 0x2_0000_0000 <= key < d * 0x2_0000_0000
  {
  }

  /** 16133697096952638549 is the inverse of the multiplier modulo 2^64. */
  const INVERSE := 16133697096952638549

  /** The keys of one round are those of the round before in another order: none is lost. */
  lemma NextKeyIsInjective(k: nat, l: nat)
    requires k < TWO_64 && l < TWO_64 && NextKey(k) == NextKey(l)
    ensures k == l
  {
    KeyFromNext(k);
    KeyFromNext(l);
  }

  lemma KeyFromNext(k: nat)
    requires k < TWO_64
    ensures (NextKey(k) - 1) * INVERSE % TWO_64 == k
  {
    var x := k * 2862933555777941757 + 1;
    var q := x / TWO_64;
    assert MULTIPLIER * INVERSE == 2503948805982125087 * TWO_64 + 1;
    assert (NextKey(k) - 1) * INVERSE == (k * 2503948805982125087 - q * INVERSE) * TWO_64 + k;
  }

  /** Without rounding, exactly the divisors up to (b + 1) * 2^31 / n lead from bucket `b` to `n` or
      beyond, which is the share of (b + 1) / n of all draws. */
  lemma StepReaches(b: nat, d: nat, n: nat)
    requires d >= 1
    ensures RoundedStep(x => x, b, d) >= n <==> d * n <= (b + 1) * 0x8000_0000
  {
    var q := TWO_31 as real / d as real;
    var p := (b + 1) as real * q;
    assert q * d as real == TWO_31 as real;
    assert p * d as real == ((b + 1) * TWO_31) as real;
    assert RoundedStep(x => x, b, d) == p.Floor;
    QuotientReaches(p, d, (b + 1) * TWO_31, n);
  }

  lemma QuotientReaches(p: real, d: nat, m: nat, n: nat)
    requires d >= 1 && p * d as real == m as real
    ensures p.Floor >= n <==> d * n <= m
    ensures p >= 0.0
  {
    SignOfProduct(p, d as real);
    SignOfProduct(p - n as real, d as real);
    assert (p - n as real) * d as real == m as real - (n * d) as real;
  }

  // ---------------------------------------------------------------- some buckets

  ghost predicate Near(rd: real -> real, x: real) {
    x >= 0.0 ==> x * 4503599627370495.0 <= rd(x) * 4503599627370496.0 <= x * 4503599627370497.0
  }

  /** Every rounding error is at most 2^-52 of the number, as for IEEE doubles. */
  ghost predicate Accurate(rd: real -> real) {
    Rounding(rd) && forall x {:trigger Near(rd, x)} :: Near(rd, x)
  }

  /** One round of the loop, with the key and divisor that it draws. */
  lemma Hop(rd: real -> real, key: nat, next: nat, d: nat, b: nat, j: nat, j': nat, n: nat)
    requires Rounding(rd) && j < n < TWO_31 && next == NextKey(key) && d == Draw(next) && RoundedStep(rd, j, d) == j'
    ensures Forward(StepOf(rd))
    ensures JumpFrom(StepOf(rd), key, b, j, n) == JumpFrom(StepOf(rd), next, j, j', n)
  {
    RoundedIsForward(rd);
  }

  /** Key 4 goes to the second of two buckets, and key 42 to bucket 43 of 57. */
  lemma SomeBuckets(rd: real -> real)
    requires Accurate(rd)
    ensures Bucket(rd, 4, 2) == 1 && Bucket(rd, 42, 57) == 43
  {
    RoundedIsForward(rd);
    KeyFour(rd);
    KeyFortyTwo(rd);
    KeyFortyTwoOn(rd);
    KeyFortyTwoFurther(rd);
    KeyFortyTwoEnds(rd);
  }

  lemma KeyFour(rd: real -> real)
    requires Accurate(rd) && Forward(StepOf(rd))
    ensures JumpFrom(StepOf(rd), 4, 0, 0, 2) == 1
  {
    assert Near(rd, 2147483648.0 / 1333157326.0) && Near(rd, 1.0 * rd(2147483648.0 / 1333157326.0));
    Hop(rd, 4, 11451734223111767029, 1333157326, 0, 0, 1, 2);
    assert Near(rd, 2147483648.0 / 354625001.0) && Near(rd, 2.0 * rd(2147483648.0 / 354625001.0));
    Hop(rd, 11451734223111767029, 3046205559933245730, 354625001, 0, 1, 12, 2);
  }

  lemma KeyFortyTwo(rd: real -> real)
    requires Accurate(rd) && Forward(StepOf(rd))
    ensures JumpFrom(StepOf(rd), 42, 0, 0, 57) == JumpFrom(StepOf(rd), 14010661636263409272, 1, 2, 57)
  {
    assert Near(rd, 2147483648.0 / 1113250026.0) && Near(rd, 1.0 * rd(2147483648.0 / 1113250026.0));
    Hop(rd, 42, 9562744900416244099, 1113250026, 0, 0, 1, 57);
    assert Near(rd, 2147483648.0 / 1631055684.0) && Near(rd, 2.0 * rd(2147483648.0 / 1631055684.0));
    Hop(rd, 9562744900416244099, 14010661636263409272, 1631055684, 0, 1, 2, 57);
  }

  lemma KeyFortyTwoOn(rd: real -> real)
    requires Accurate(rd) && Forward(StepOf(rd))
    ensures JumpFrom(StepOf(rd), 14010661636263409272, 1, 2, 57)
         == JumpFrom(StepOf(rd), 12779540726165998390, 22, 33, 57)
  {
    assert Near(rd, 2147483648.0 / 289019740.0) && Near(rd, 3.0 * rd(2147483648.0 / 289019740.0));
    Hop(rd, 14010661636263409272, 2482660656413906073, 289019740, 1, 2, 22, 57);
    assert Near(rd, 2147483648.0 / 1487734347.0) && Near(rd, 23.0 * rd(2147483648.0 / 1487734347.0));
    Hop(rd, 2482660656413906073, 12779540726165998390, 1487734347, 2, 22, 33, 57);
  }

  lemma KeyFortyTwoFurther(rd: real -> real)
    requires Accurate(rd) && Forward(StepOf(rd))
    ensures JumpFrom(StepOf(rd), 12779540726165998390, 22, 33, 57)
         == JumpFrom(StepOf(rd), 17576256497753526756, 40, 43, 57)
  {
    assert Near(rd, 2147483648.0 / 1800937535.0) && Near(rd, 34.0 * rd(2147483648.0 / 1800937535.0));
    Hop(rd, 12779540726165998390, 15469935623126070367, 1800937535, 22, 33, 40, 57);
    assert Near(rd, 2147483648.0 / 2046145557.0) && Near(rd, 41.0 * rd(2147483648.0 / 2046145557.0));
    Hop(rd, 15469935623126070367, 17576256497753526756, 2046145557, 33, 40, 43, 57);
  }

  lemma KeyFortyTwoEnds(rd: real -> real)
    requires Accurate(rd) && Forward(StepOf(rd))
    ensures JumpFrom(StepOf(rd), 17576256497753526756, 40, 43, 57) == 43
  {
    assert Near(rd, 2147483648.0 / 165271449.0) && Near(rd, 44.0 * rd(2147483648.0 / 165271449.0));
    Hop(rd, 17576256497753526756, 1419670933141876309, 165271449, 40, 43, 571, 57);
  }

  // ---------------------------------------------------------------- the strategy

  datatype Proxy = Proxy(name: string, alive: bool)

  const MAX_RETRY := 5

  /** The proxy that the `i`-th try hashes to. */
  function Probe(rd: real -> real, proxies: seq<Proxy>, key: nat, i: nat): (idx: nat)
    requires Rounding(rd) && 0 < |proxies| < TWO_31
    ensures idx < |proxies|
  {
    ConsistentBuckets(rd, (key + i) % TWO_64, |proxies|, |proxies|);
    Bucket(rd, (key + i) % TWO_64, |proxies|)
  }

  lemma ProbeIs(rd: real -> real, proxies: seq<Proxy>, key: nat, i: nat)
    requires Rounding(rd) && 0 < |proxies| < TWO_31
    ensures Probe(rd, proxies, key, i) == Bucket(rd, (key + i) % TWO_64, |proxies|)
  {
  }

  lemma NextProbeKey(hash: nat, i: nat)
    ensures ((hash + i) % TWO_64 + 1) % TWO_64 == (hash + i + 1) % TWO_64
  {
  }

  /** None of the first `n` tries hits a live proxy. */
  ghost predicate MissesBefore(rd: real -> real, proxies: seq<Proxy>, key: nat, n: nat)
    requires Rounding(rd) && 0 < |proxies| < TWO_31
  {
    forall k {:trigger Probe(rd, proxies, key, k)} ::
      0 <= k < n ==> !proxies[Probe(rd, proxies, key, k)].alive
  }

  /** A live proxy whenever there is one: the first of five hashes to hit one, else the first
      in the list; without any, the first proxy. */
  method ConsistentHashing(rd: real -> real, proxies: seq<Proxy>, hash: nat) returns (proxy: Proxy)
    requires Rounding(rd) && 0 < |proxies| < TWO_31 && hash < TWO_64
    ensures proxy in proxies
    ensures proxy.alive <==> exists p :: p in proxies && p.alive
    ensures !proxy.alive ==> proxy == proxies[0]
    ensures forall i {:trigger Probe(rd, proxies, hash, i)} ::
              0 <= i < 5 && proxies[Probe(rd, proxies, hash, i)].alive && MissesBefore(rd, proxies, hash, i)
              ==> proxy == proxies[Probe(rd, proxies, hash, i)]
    ensures proxy.alive && MissesBefore(rd, proxies, hash, 5) ==>
              exists k :: 0 <= k < |proxies| && proxy == proxies[k] && forall j :: 0 <= j < k ==> !proxies[j].alive
  {
    var key := hash;
    for i := 0 to MAX_RETRY
      invariant key == (hash + i) % TWO_64
      invariant MissesBefore(rd, proxies, hash, i)
    {
      var idx := JumpHash(rd, key, |proxies|);
      ProbeIs(rd, proxies, hash, i);
      proxy := proxies[idx];
      if proxy.alive {
        return;
      }
      NextProbeKey(hash, i);
      key := (key + 1) % TWO_64;
    }
    for i := 0 to |proxies|
      invariant forall k :: 0 <= k < i ==> !proxies[k].alive
    {
      if proxies[i].alive {
        return proxies[i];
      }
    }
    return proxies[0];
  }

  /** With one proxy more, a key whose proxy lives keeps it or goes to the new proxy. */
  lemma OneMoreProxy(rd: real -> real, proxies: seq<Proxy>, added: Proxy, key: nat)
    requires Rounding(rd) && 0 < |proxies| < TWO_31 - 1 && key < TWO_64
    ensures var was := proxies[Probe(rd, proxies, key, 0)];
            var now := (proxies + [added])[Probe(rd, proxies + [added], key, 0)];
            now == was || now == added
  {
    ConsistentBuckets(rd, key, |proxies|, |proxies| + 1);
    FirstProbe(rd, proxies, key);
    FirstProbe(rd, proxies + [added], key);
  }

  lemma FirstProbe(rd: real -> real, proxies: seq<Proxy>, key: nat)
    requires Rounding(rd) && 0 < |proxies| < TWO_31 && key < TWO_64
    ensures Probe(rd, proxies, key, 0) == Bucket(rd, key, |proxies|)
  {
    ProbeIs(rd, proxies, key, 0);
    assert (key + 0) % TWO_64 == key;
  }
}
