/** Whole runs of a fake-IP pool: what holds of the live pairs after any sequence of calls. */
module FakeIpRuns {
  import opened Text
  import opened Addresses
  import opened FakeIpSpec
  import opened FakeIpPools

  /** What a pool is made with: the range of its addresses and the size of its store. */
  datatype Range = Range(first: Addr, last: Addr, size: int) {
    predicate Valid() {
      && first.IP? && last.IP? && first.family == last.family && InRange(last)
      && 0 < first.value < last.value
    }
  }

  const SMALLEST := Range(IP(V4, 1), IP(V4, 2), 0)

  type Setup = c: Range | c.Valid() witness SMALLEST

  function Cycle(c: Setup): nat {
    c.last.value - c.first.value
  }

  /** The address of the `k`-th fresh allocation, counted from one. */
  function AddressAt(c: Setup, k: nat): Addr
    requires k > 0
  {
    FreshAddress(c.first, c.last, k - 1)
  }

  /** A call on the pool. `CloneOp` takes over the pairs of another pool, which has its own
      setup and its own run of calls behind it. */
  datatype Op =
    | LookupOp(name: string)
    | LookBackOp(ip: Addr)
    | ExistOp(ip: Addr)
    | CloneOp(other: Setup, run: seq<Op>)

  /** The live pairs, least recently used first, and how many fresh addresses were handed out. */
  datatype State = State(pairs: seq<Pair>, allocations: nat)

  function LookupStep(c: Setup, s: State, host: string): State {
    var i := AtHost(s.pairs, host);
    if i < |s.pairs| then State(Touch(s.pairs, i), s.allocations)
    else State(Assigned(c.size, s.pairs, host, AddressAt(c, s.allocations + 1)), s.allocations + 1)
  }

  function Step(c: Setup, s: State, op: Op): State
    decreases op
  {
    match op
    case LookupOp(name) => LookupStep(c, s, Lower(name))
    case LookBackOp(ip) => s.(pairs := Touch(s.pairs, AtIp(s.pairs, ip)))
    case ExistOp(_) => s
    case CloneOp(other, run) => s.(pairs := Run(other, run).pairs)
  }

  function Run(c: Setup, ops: seq<Op>): State
    decreases ops
  {
    if ops == [] then State([], 0) else Step(c, Run(c, ops[..|ops| - 1]), ops[|ops| - 1])
  }

  /** The address was handed out within the last cycle of fresh allocations. */
  ghost predicate Recent(c: Setup, a: Addr, n: nat) {
    exists k: nat :: 0 < k <= n < k + Cycle(c) && a == AddressAt(c, k)
  }

  ghost predicate AllRecent(c: Setup, s: State) {
    forall p :: p in s.pairs ==> Recent(c, p.ip, s.allocations)
  }

  ghost predicate NoClones(ops: seq<Op>) {
    forall i :: 0 <= i < |ops| ==> !ops[i].CloneOp?
  }

  /** All pools that pairs are taken over from have stores of the same size. */
  ghost predicate SameSizes(size: int, ops: seq<Op>)
    decreases ops
  {
    forall i :: 0 <= i < |ops| && ops[i].CloneOp? ==>
      ops[i].other.size == size && SameSizes(size, ops[i].run)
  }

  /** One cycle later the same address is due. */
  lemma SameAfterCycle(c: Setup, k: nat)
    requires k > 0
    ensures AddressAt(c, k + Cycle(c)) == AddressAt(c, k)
  {
    var m := Cycle(c);
    assert k - 1 == (k - 1) / m * m + (k - 1) % m;
    MulDist((k - 1) / m, 1, m);
    DivUnique(k - 1 + m, m, (k - 1) / m + 1, (k - 1) % m);
  }

  /** A recent address other than the one due next stays recent. */
  lemma StaysRecent(c: Setup, a: Addr, n: nat)
    requires Recent(c, a, n) && a != AddressAt(c, n + 1)
    ensures Recent(c, a, n + 1)
  {
    var k: nat :| 0 < k <= n < k + Cycle(c) && a == AddressAt(c, k);
    SameAfterCycle(c, k);
    assert n + 1 < k + Cycle(c);
  }

  lemma TouchKeepsMembers(ps: seq<Pair>, i: nat)
    ensures |Touch(ps, i)| == |ps| && forall p :: p in Touch(ps, i) <==> p in ps
  {
    if i < |ps| {
      assert ps == ps[..i] + [ps[i]] + ps[i + 1..];
    }
  }

  lemma AssignedMembers(size: int, ps: seq<Pair>, h: string, a: Addr)
    requires Inverse(ps) && AtHost(ps, h) == |ps|
    ensures var r := Assigned(size, ps, h, a);
            && Inverse(r) && (size > 0 && |ps| <= size ==> |r| <= size)
            && forall p :: p in r ==> p == Pair(h, a) || (p in ps && p.ip != a)
  {
    var i := AtIp(ps, a);
    var rest := RemoveAt(ps, i);
    RemovedIsAbsent(ps, a, h);
    InverseKept(ps, i);
    EvictsInLockstep(size, rest, Pair(h, a), 0);
    forall p | p in rest ensures p in ps && p.ip != a {
      NotRemoved(ps, a, p);
    }
    forall p | p in Assigned(size, ps, h, a) ensures p == Pair(h, a) || (p in ps && p.ip != a) {
      assert p in rest + [Pair(h, a)];
    }
  }

  lemma NotRemoved(ps: seq<Pair>, a: Addr, p: Pair)
    requires Inverse(ps) && p in RemoveAt(ps, AtIp(ps, a))
    ensures p in ps && p.ip != a
  {
    var i := AtIp(ps, a);
    var rest := RemoveAt(ps, i);
    var j :| 0 <= j < |rest| && rest[j] == p;
    var k := if i < |ps| && j >= i then j + 1 else j;
    assert ps[k] == p;
    InverseFinds(ps, k);
  }

  // ---------------------------------------------------------------- one to one, within the size

  /** A call on the pool itself keeps the pairs one to one and within the size. */
  lemma OwnStepKeepsPairs(c: Setup, s: State, op: Op)
    requires Inverse(s.pairs) && !op.CloneOp?
    ensures var t := Step(c, s, op);
            Inverse(t.pairs) && (c.size > 0 && |s.pairs| <= c.size ==> |t.pairs| <= c.size)
  {
    if op.LookupOp? {
      var i := AtHost(s.pairs, Lower(op.name));
      TouchKeepsInverse(s.pairs, i);
      TouchKeepsMembers(s.pairs, i);
      if i >= |s.pairs| {
        AssignedMembers(c.size, s.pairs, Lower(op.name), AddressAt(c, s.allocations + 1));
      }
    } else if op.LookBackOp? {
      TouchKeepsInverse(s.pairs, AtIp(s.pairs, op.ip));
      TouchKeepsMembers(s.pairs, AtIp(s.pairs, op.ip));
    }
  }

  /** After any run, with any pools cloned in, hosts and addresses correspond one to one. */
  lemma {:induction false} EveryRunIsOneToOne(c: Setup, ops: seq<Op>)
    ensures Inverse(Run(c, ops).pairs)
    decreases ops
  {
    if ops != [] {
      var init, op := ops[..|ops| - 1], ops[|ops| - 1];
      EveryRunIsOneToOne(c, init);
      if op.CloneOp? {
        EveryRunIsOneToOne(op.other, op.run);
      } else {
        OwnStepKeepsPairs(c, Run(c, init), op);
      }
    }
  }

  /** With stores of one size there are never more live pairs than that. */
  lemma {:induction false} EveryRunFits(c: Setup, ops: seq<Op>)
    requires c.size > 0 && SameSizes(c.size, ops)
    ensures |Run(c, ops).pairs| <= c.size
    decreases ops
  {
    if ops != [] {
      var init, op := ops[..|ops| - 1], ops[|ops| - 1];
      assert forall i :: 0 <= i < |init| ==> init[i] == ops[i];
      EveryRunFits(c, init);
      EveryRunIsOneToOne(c, init);
      if op.CloneOp? {
        EveryRunFits(op.other, op.run);
      } else {
        OwnStepKeepsPairs(c, Run(c, init), op);
      }
    }
  }

  // ---------------------------------------------------------------- the age of addresses

  lemma StepKeepsRecent(c: Setup, s: State, op: Op)
    requires Inverse(s.pairs) && AllRecent(c, s) && !op.CloneOp?
    ensures AllRecent(c, Step(c, s, op))
  {
    if op.LookupOp? {
      var i := AtHost(s.pairs, Lower(op.name));
      if i < |s.pairs| {
        TouchKeepsMembers(s.pairs, i);
      } else {
        FreshKeepsRecent(c, s, Lower(op.name));
      }
    } else if op.LookBackOp? {
      TouchKeepsMembers(s.pairs, AtIp(s.pairs, op.ip));
    }
  }

  lemma FreshKeepsRecent(c: Setup, s: State, h: string)
    requires Inverse(s.pairs) && AllRecent(c, s) && AtHost(s.pairs, h) == |s.pairs|
    ensures AllRecent(c, State(Assigned(c.size, s.pairs, h, AddressAt(c, s.allocations + 1)), s.allocations + 1))
  {
    var n, a := s.allocations, AddressAt(c, s.allocations + 1);
    AssignedMembers(c.size, s.pairs, h, a);
    forall p | p in Assigned(c.size, s.pairs, h, a) ensures Recent(c, p.ip, n + 1) {
      if p == Pair(h, a) {
        assert 0 < n + 1 <= n + 1 < n + 1 + Cycle(c);
      } else {
        StaysRecent(c, p.ip, n);
      }
    }
  }

  /** Without clones every live address is one of the last cycle's fresh allocations. */
  lemma {:induction false} EveryRunIsRecent(c: Setup, ops: seq<Op>)
    requires NoClones(ops)
    ensures AllRecent(c, Run(c, ops))
    decreases |ops|
  {
    if ops != [] {
      var init := ops[..|ops| - 1];
      EveryRunIsRecent(c, init);
      EveryRunIsOneToOne(c, init);
      StepKeepsRecent(c, Run(c, init), ops[|ops| - 1]);
    }
  }

  /** An address is taken from a live host only when a whole cycle has passed since it was
      handed out: the pair dropped for a fresh allocation is a whole cycle old. */
  lemma TakenAfterFullCycle(c: Setup, ops: seq<Op>, p: Pair, n: nat)
    requires NoClones(ops) && p in Run(c, ops).pairs && n == Run(c, ops).allocations
    requires p.ip == AddressAt(c, n + 1)
    ensures n >= Cycle(c) && p.ip == AddressAt(c, n + 1 - Cycle(c))
    ensures forall k :: 0 < k <= n && AddressAt(c, k) == p.ip ==> k <= n + 1 - Cycle(c)
  {
    EveryRunIsRecent(c, ops);
    LivePairIsRecent(c, Run(c, ops), p);
    TakenIsOld(c, p.ip, n);
  }

  lemma LivePairIsRecent(c: Setup, s: State, p: Pair)
    requires AllRecent(c, s) && p in s.pairs
    ensures Recent(c, p.ip, s.allocations)
  {
  }

  lemma TakenIsOld(c: Setup, a: Addr, n: nat)
    requires Recent(c, a, n) && a == AddressAt(c, n + 1)
    ensures n >= Cycle(c) && a == AddressAt(c, n + 1 - Cycle(c))
    ensures forall k :: 0 < k <= n && AddressAt(c, k) == a ==> k <= n + 1 - Cycle(c)
  {
    forall k | 0 < k <= n && AddressAt(c, k) == a ensures k <= n + 1 - Cycle(c) {
      DueAgain(c, k, n);
    }
  }

  lemma DueAgain(c: Setup, k: nat, n: nat)
    requires 0 < k <= n && AddressAt(c, k) == AddressAt(c, n + 1)
    ensures n + 1 - k >= Cycle(c)
  {
    ReuseAfterFullCycle(c.first.value, c.last.value, k - 1, n);
  }

  // ---------------------------------------------------------------- the class

  ghost predicate MadeWith(pool: Pool, c: Setup) {
    pool.first == c.first && pool.last == c.last && pool.store.size == c.size
  }

  /** The calls of a run on a new pool leave exactly the run's pairs and count. */
  method Replay(c: Setup, ops: seq<Op>, now: nat -> int) returns (pool: Pool)
    ensures fresh(pool) && fresh(pool.store) && fresh(pool.store.cacheIP) && fresh(pool.store.cacheHost)
    ensures pool.Valid() && MadeWith(pool, c) && State(pool.store.pairs, pool.allocations) == Run(c, ops)
    decreases ops
  {
    pool := new Pool(Prev(c.first), c.first, c.last, c.size);
    for i := 0 to |ops|
      invariant fresh(pool) && fresh(pool.store) && fresh(pool.store.cacheIP) && fresh(pool.store.cacheHost)
      invariant pool.Valid() && MadeWith(pool, c)
      invariant State(pool.store.pairs, pool.allocations) == Run(c, ops[..i])
    {
      RunNext(c, ops, i);
      Perform(pool, c, ops[i], i, now);
    }
    assert ops[..|ops|] == ops;
  }

  lemma RunNext(c: Setup, ops: seq<Op>, i: nat)
    requires i < |ops|
    ensures Run(c, ops[..i + 1]) == Step(c, Run(c, ops[..i]), ops[i])
  {
    assert ops[..i + 1][..i] == ops[..i];
  }

  /** The stores keep no ages, so any clock readings will do. */
  method Perform(pool: Pool, ghost c: Setup, op: Op, i: nat, now: nat -> int)
    requires pool.Valid() && MadeWith(pool, c)
    modifies pool, pool.store, pool.store.cacheIP, pool.store.cacheHost
    ensures pool.Valid()
    ensures State(pool.store.pairs, pool.allocations) == Step(c, old(State(pool.store.pairs, pool.allocations)), op)
    decreases op
  {
    match op {
      case CloneOp(other, run) =>
        var source := Replay(other, run, now);
        pool.CloneFrom(source);
      case _ =>
        PerformOwn(pool, c, op, now(i));
    }
  }

  method PerformOwn(pool: Pool, ghost c: Setup, op: Op, now: int)
    requires pool.Valid() && MadeWith(pool, c) && !op.CloneOp?
    modifies pool, pool.store, pool.store.cacheIP, pool.store.cacheHost
    ensures pool.Valid()
    ensures State(pool.store.pairs, pool.allocations) == Step(c, old(State(pool.store.pairs, pool.allocations)), op)
  {
    ghost var s := State(pool.store.pairs, pool.allocations);
    if op.LookupOp? {
      var ip := pool.Lookup(op.name, now);
      OutcomeIsStep(c, Lower(op.name), ip, s, State(pool.store.pairs, pool.allocations));
    } else if op.LookBackOp? {
      var _ := pool.LookBack(op.ip, now);
    } else {
      var _ := pool.Exist(op.ip);
    }
  }

  lemma NextAddress(c: Setup, n: nat)
    ensures AddressAt(c, n + 1) == c.first.(value := CursorAfter(c.first.value, c.last.value, n + 1))
  {
  }

  lemma OutcomeIsStep(c: Setup, host: string, ip: Addr, s: State, s': State)
    requires LookupOutcome(c.first, c.last, c.size, host, ip, s.pairs, s.allocations, s'.pairs, s'.allocations)
    ensures s' == LookupStep(c, s, host)
  {
    if AtHost(s.pairs, host) >= |s.pairs| {
      NextAddress(c, s.allocations);
      assert ip == AddressAt(c, s.allocations + 1);
    }
  }
}
