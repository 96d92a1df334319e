/** The fake-IP pool over twin LRU caches, host to address and address to host. */
module FakeIpPools {
  import opened Wrappers
  import opened Text
  import opened LruSpec
  import opened LruCaches
  import opened Addresses
  import opened FakeIpSpec

  class MemoryStore {
    const cacheIP: LruCache<string, Addr>
    const cacheHost: LruCache<Addr, string>
    ghost const size: int
    ghost var pairs: seq<Pair>

    ghost predicate ValidCaches()
      reads this, cacheIP, cacheHost, cacheIP.lru, cacheHost.lru
    {
      && cacheIP.Valid() && cacheHost.Valid()
      && cacheIP.config == StoreConfig(size) && cacheHost.config == StoreConfig(size)
    }

    /** Both caches show the same pairs in the same recency order, and each host and each
        address occurs once. */
    ghost predicate Valid()
      reads this, cacheIP, cacheHost, cacheIP.lru, cacheHost.lru
    {
      && ValidCaches() && Inverse(pairs)
      && cacheIP.contents == IpItems(pairs)
      && cacheHost.contents == HostItems(pairs)
    }

    constructor (size: int)
      ensures Valid() && pairs == [] && this.size == size
      ensures fresh(cacheIP) && fresh(cacheHost) && cacheIP.lru == [] && cacheHost.lru == []
    {
      cacheIP := new LruCache(StoreConfig(size));
      cacheHost := new LruCache(StoreConfig(size));
      this.size := size;
      pairs := [];
    }

    /** Records the pairs that both caches show. */
    ghost method ShowPairs(ps: seq<Pair>)
      requires ValidCaches() && Inverse(ps)
      requires cacheIP.contents == IpItems(ps) && cacheHost.contents == HostItems(ps)
      modifies this`pairs
      ensures Valid() && pairs == ps
    {
      pairs := ps;
    }

    // One cache at a time: `ps` is what the cache shows.

    method HitHost(host: string, now: int, ghost ps: seq<Pair>, ghost i: nat, ghost ps': seq<Pair>)
      returns (r: Option<Addr>)
      requires ValidCaches() && Inverse(ps) && cacheIP.contents == IpItems(ps)
      requires i == AtHost(ps, host) && ps' == Touch(ps, i)
      modifies cacheIP
      ensures ValidCaches() && cacheIP.contents == IpItems(ps')
      ensures r == if i < |ps| then Some(ps[i].ip) else None
    {
      if i < |ps| {
        HitsInLockstep(size, ps, i, now);
      }
      var found := cacheIP.Get(host, now);
      r := if found.Some? then Some(found.value.value) else None;
    }

    method HitIp(ip: Addr, now: int, ghost ps: seq<Pair>, ghost i: nat, ghost ps': seq<Pair>)
      returns (r: Option<string>)
      requires ValidCaches() && Inverse(ps) && cacheHost.contents == HostItems(ps)
      requires i == AtIp(ps, ip) && ps' == Touch(ps, i)
      modifies cacheHost
      ensures ValidCaches() && cacheHost.contents == HostItems(ps')
      ensures r == if i < |ps| then Some(ps[i].host) else None
    {
      if i < |ps| {
        HitsInLockstep(size, ps, i, now);
      }
      var found := cacheHost.Get(ip, now);
      r := if found.Some? then Some(found.value.value) else None;
    }

    method GetByHost(host: string, now: int) returns (r: Option<Addr>)
      requires Valid()
      modifies this, cacheIP, cacheHost
      ensures Valid() && pairs == Touch(old(pairs), AtHost(old(pairs), host))
      ensures r == if AtHost(old(pairs), host) < |old(pairs)| then Some(old(pairs)[AtHost(old(pairs), host)].ip)
                   else None
    {
      ghost var ps, i := pairs, AtHost(pairs, host);
      ghost var ps' := Touch(ps, i);
      TouchKeepsInverse(ps, i);
      r := HitHost(host, now, ps, i, ps');
      if r.Some? {
        InverseFinds(ps, i);
        var other := HitIp(r.value, now, ps, i, ps');
      } else {
        assert ps' == ps;
      }
      ShowPairs(ps');
    }

    method GetByIP(ip: Addr, now: int) returns (r: Option<string>)
      requires Valid()
      modifies this, cacheIP, cacheHost
      ensures Valid() && pairs == Touch(old(pairs), AtIp(old(pairs), ip))
      ensures r == if AtIp(old(pairs), ip) < |old(pairs)| then Some(old(pairs)[AtIp(old(pairs), ip)].host) else None
    {
      ghost var ps, i := pairs, AtIp(pairs, ip);
      ghost var ps' := Touch(ps, i);
      TouchKeepsInverse(ps, i);
      r := HitIp(ip, now, ps, i, ps');
      if r.Some? {
        InverseFinds(ps, i);
        var other := HitHost(r.value, now, ps, i, ps');
      } else {
        assert ps' == ps;
      }
      ShowPairs(ps');
    }

    method DelByIP(ip: Addr, now: int)
      requires Valid()
      modifies this, cacheIP, cacheHost
      ensures Valid() && pairs == RemoveAt(old(pairs), AtIp(old(pairs), ip))
    {
      ghost var i := AtIp(pairs, ip);
      var host := HitIp(ip, now, pairs, i, Touch(pairs, i));
      if host.Some? {
        DeleteHost(host.value, pairs, i);
      }
      DeleteTouchedIp(ip, pairs, i);
      InverseKept(pairs, i);
      ShowPairs(RemoveAt(pairs, i));
    }

    method DeleteHost(host: string, ghost ps: seq<Pair>, ghost i: nat)
      requires ValidCaches() && Inverse(ps) && cacheIP.contents == IpItems(ps)
      requires i < |ps| && ps[i].host == host
      modifies cacheIP
      ensures ValidCaches() && cacheIP.contents == IpItems(RemoveAt(ps, i))
    {
      DeletesInLockstep(size, ps, i, 0);
      cacheIP.Delete(host);
    }

    /** Deletes `ip` from the address side after a hit on it. */
    method DeleteTouchedIp(ip: Addr, ghost ps: seq<Pair>, ghost i: nat)
      requires ValidCaches() && Inverse(ps) && cacheHost.contents == HostItems(Touch(ps, i)) && i == AtIp(ps, ip)
      modifies cacheHost
      ensures ValidCaches() && cacheHost.contents == HostItems(RemoveAt(ps, i))
    {
      if i < |ps| {
        DeletesInLockstep(size, ps, i, 0);
        HitsInLockstep(size, ps, i, 0);
      }
      cacheHost.Delete(ip);
    }

    /** Stores a new pair on the address side only; `PutByHost` completes it. */
    method PutByIP(ip: Addr, host: string, now: int)
      requires Valid() && AtIp(pairs, ip) == |pairs| && AtHost(pairs, host) == |pairs|
      modifies cacheHost
      ensures HalfStored(Pair(host, ip)) && pairs == old(pairs)
    {
      EvictsInLockstep(size, pairs, Pair(host, ip), now);
      cacheHost.IndexIsFind(ip);
      cacheHost.Set(ip, host, now);
    }

    ghost predicate HalfStored(p: Pair)
      reads this, cacheIP, cacheHost, cacheIP.lru, cacheHost.lru
    {
      && ValidCaches() && Inverse(pairs)
      && AtHost(pairs, p.host) == |pairs| && AtIp(pairs, p.ip) == |pairs|
      && cacheIP.contents == IpItems(pairs)
      && cacheHost.contents == HostItems(EvictPair(size, pairs + [p]))
    }

    method PutByHost(host: string, ip: Addr, now: int)
      requires HalfStored(Pair(host, ip))
      modifies this, cacheIP
      ensures Valid() && pairs == EvictPair(size, old(pairs) + [Pair(host, ip)])
    {
      EvictsInLockstep(size, pairs, Pair(host, ip), now);
      SetHost(host, ip, now);
      ShowPairs(EvictPair(size, pairs + [Pair(host, ip)]));
    }

    method SetHost(host: string, ip: Addr, now: int)
      requires ValidCaches() && !Has(cacheIP.contents, host)
      modifies cacheIP
      ensures ValidCaches()
      ensures cacheIP.contents == SetItem(StoreConfig(size), old(cacheIP.contents), Item(host, ip, 0), now)
    {
      cacheIP.IndexIsFind(host);
      cacheIP.Set(host, ip, now);
    }

    method Exist(ip: Addr) returns (r: bool)
      requires Valid()
      ensures r <==> AtIp(pairs, ip) < |pairs|
    {
      r := cacheHost.Exist(ip);
    }

    /** `CloneTo`: the target store shows the same pairs, through shared entries. */
    method CloneTo(target: MemoryStore)
      requires Valid() && target != this && target.cacheIP != cacheIP && target.cacheHost != cacheHost
      requires target.ValidCaches()
      modifies target, target.cacheIP, target.cacheHost
      ensures target.Valid() && target.pairs == pairs && Valid() && pairs == old(pairs)
      ensures target.cacheIP.lru == cacheIP.lru && target.cacheHost.lru == cacheHost.lru
    {
      cacheIP.CloneTo(target.cacheIP);
      cacheHost.CloneTo(target.cacheHost);
      target.pairs := pairs;
    }
  }

  class Pool {
    const gateway: Addr
    const first: Addr
    const last: Addr
    var offset: Addr
    var cycle: bool
    const store: MemoryStore
    ghost var allocations: nat  // fresh addresses handed out so far

    ghost predicate ValidCursor()
      reads this
    {
      && first.IP? && last.IP? && offset.IP? && first.family == last.family == offset.family
      && InRange(last) && first.value < last.value
      && offset.value == CursorAfter(first.value, last.value, allocations)
      && (cycle <==> allocations > last.value - first.value)
    }

    ghost predicate Valid()
      reads this, store, store.cacheIP, store.cacheHost, store.cacheIP.lru, store.cacheHost.lru
    {
      ValidCursor() && store.Valid()
    }

    constructor (gateway: Addr, first: Addr, last: Addr, size: int)
      requires first.IP? && last.IP? && first.family == last.family && InRange(last)
      requires 0 < first.value < last.value
      ensures Valid() && allocations == 0 && store.pairs == [] && store.size == size
      ensures this.gateway == gateway && this.first == first && this.last == last
      ensures fresh(store) && fresh(store.cacheIP) && fresh(store.cacheHost)
    {
      this.gateway, this.first, this.last := gateway, first, last;
      offset, cycle, allocations := Prev(first), false, 0;
      store := new MemoryStore(size);
    }

    /** Hands out the address of `host`, allocating one for a new host. */
    method Lookup(name: string, now: int) returns (ip: Addr)
      requires Valid()
      modifies this, store, store.cacheIP, store.cacheHost
      ensures Valid()
      ensures LookupOutcome(first, last, store.size, Lower(name), ip,
                            old(store.pairs), old(allocations), store.pairs, allocations)
    {
      var host := Lower(name);
      ghost var ps, n := store.pairs, allocations;
      var found := store.GetByHost(host, now);
      if found.Some? {
        ip := found.value;
        HitOutcome(first, last, store.size, host, ip, ps, n);
      } else {
        assert store.pairs == ps;
        ip := Assign(host, now);
        MissOutcome(first, last, store.size, host, ip, ps, n, allocations);
      }
    }

    method Assign(host: string, now: int) returns (ip: Addr)
      requires Valid() && AtHost(store.pairs, host) == |store.pairs|
      modifies this, store, store.cacheIP, store.cacheHost
      ensures Valid() && allocations == old(allocations) + 1
      ensures ip == first.(value := CursorAfter(first.value, last.value, allocations))
      ensures store.pairs == Assigned(store.size, old(store.pairs), host, ip)
    {
      ip := Get(host, now);
      store.PutByHost(host, ip, now);
    }

    /** Moves the cursor and stores the address side of the new pair. */
    method Get(host: string, now: int) returns (ip: Addr)
      requires Valid() && AtHost(store.pairs, host) == |store.pairs|
      modifies this, store, store.cacheIP, store.cacheHost
      ensures ValidCursor() && store.HalfStored(Pair(host, ip))
      ensures ip == first.(value := CursorAfter(first.value, last.value, allocations))
      ensures store.pairs == RemoveAt(old(store.pairs), AtIp(old(store.pairs), ip))
      ensures allocations == old(allocations) + 1
    {
      AdvanceCursor();
      ip := offset;
      FreeAddress(ip, host, now);
      store.PutByIP(ip, host, now);
    }

    method AdvanceCursor()
      requires ValidCursor()
      modifies this
      ensures ValidCursor() && allocations == old(allocations) + 1
      ensures offset == first.(value := CursorAfter(first.value, last.value, allocations))
    {
      CursorStep(first.value, last.value, allocations);
      offset := Next(offset);
      if !AddrLess(offset, last) {
        cycle := true;
        offset := first;
      }
      allocations := allocations + 1;
    }

    /** Drops the pair that still holds the address. */
    method FreeAddress(ip: Addr, ghost host: string, now: int)
      requires store.Valid() && AtHost(store.pairs, host) == |store.pairs|
      modifies store, store.cacheIP, store.cacheHost
      ensures store.Valid() && store.pairs == RemoveAt(old(store.pairs), AtIp(old(store.pairs), ip))
      ensures AtIp(store.pairs, ip) == |store.pairs| && AtHost(store.pairs, host) == |store.pairs|
    {
      RemovedIsAbsent(store.pairs, ip, host);
      var taken := store.Exist(ip);
      if cycle || taken {
        store.DelByIP(ip, now);
      }
    }

    method LookBack(ip: Addr, now: int) returns (host: Option<string>)
      requires Valid()
      modifies store, store.cacheIP, store.cacheHost
      ensures Valid() && store.pairs == Touch(old(store.pairs), AtIp(old(store.pairs), ip))
      ensures var ps := old(store.pairs); var i := AtIp(ps, ip);
              host == if i < |ps| then Some(ps[i].host) else None
    {
      host := store.GetByIP(ip, now);
    }

    method Exist(ip: Addr) returns (r: bool)
      requires Valid()
      ensures r <==> AtIp(store.pairs, ip) < |store.pairs|
    {
      r := store.Exist(ip);
    }

    /** Takes over the pairs of another pool; its cursor stays where it is. */
    method CloneFrom(o: Pool)
      requires Valid() && o.Valid()
      requires o.store != store && o.store.cacheIP != store.cacheIP && o.store.cacheHost != store.cacheHost
      modifies store, store.cacheIP, store.cacheHost
      ensures Valid() && store.pairs == o.store.pairs
      ensures o.Valid() && o.store.pairs == old(o.store.pairs)
    {
      o.store.CloneTo(store);
    }

    /** What a pool hands out looks back to the host it was handed out for. */
    method LookupLooksBack(name: string, now: int, later: int) returns (ip: Addr, host: Option<string>)
      requires Valid()
      modifies this, store, store.cacheIP, store.cacheHost
      ensures Valid() && host == Some(Lower(name))
    {
      ghost var ps, n := store.pairs, allocations;
      ip := Lookup(name, now);
      OutcomeIsMostRecent(first, last, store.size, Lower(name), ip, ps, n, store.pairs, allocations);
      InverseFinds(store.pairs, |store.pairs| - 1);
      host := LookBack(ip, later);
    }
  }

  lemma RemovedIsAbsent(ps: seq<Pair>, ip: Addr, host: string)
    requires Inverse(ps) && AtHost(ps, host) == |ps|
    ensures var r := RemoveAt(ps, AtIp(ps, ip)); AtIp(r, ip) == |r| && AtHost(r, host) == |r|
  {
    var i := AtIp(ps, ip);
    var r := RemoveAt(ps, i);
    InverseKept(ps, i);
    forall j | 0 <= j < |r| ensures r[j].host != host && r[j].ip != ip {
      var k := if j < i then j else j + 1;
      assert r[j] == ps[k] && IpItems(ps)[k].key != host;
      assert i == |ps| ==> HostItems(ps)[k].key != ip;
    }
    AbsentPair(r, Pair(host, ip));
  }

  /** `New`: the gateway is the network address plus one, the first address to hand out the
      network address plus four and the end of the range `UnMasked`; refused exactly when the
      prefix is invalid or that leaves no address. */
  method New(ipnet: Prefix, size: int) returns (pool: Option<Pool>)
    ensures pool.Some? <==> ValidPrefix(ipnet) && UnMasked(ipnet).IP? && Network(ipnet) + 4 < UnMasked(ipnet).value
    ensures pool.Some? ==>
              var p, f := pool.value, ipnet.addr.family;
              p.Valid() && p.store.pairs == [] && p.allocations == 0 && p.store.size == size
              && p.gateway == IP(f, Network(ipnet) + 1) && p.first == IP(f, Network(ipnet) + 4)
              && p.last == UnMasked(ipnet)
  {
    var hostAddr := Masked(ipnet);
    var gateway := Next(hostAddr);
    var first := Next(Next(Next(gateway)));
    var last := UnMasked(ipnet);
    if !ValidPrefix(ipnet) {
      return None;
    }
    UnMaskedInRange(ipnet);
    UnMaskedAtMostLast(ipnet);
    if first.Zero? || !AddrLess(first, last) {
      return None;
    }
    var p := new Pool(gateway, first, last, size);
    pool := Some(p);
  }

  /** The first number of a prefix: the address without its host bits. */
  function Network(ipnet: Prefix): nat
    requires ValidPrefix(ipnet)
  {
    ClearLow(ipnet.addr.value, Pow2(HostBits(ipnet)))
  }

  /** A pool that has handed out nothing gives its first host its first address, and the next
      one the address after it. */
  lemma FirstTwo(first: Addr, last: Addr, size: int, h: string, g: string, a: Addr, b: Addr,
                 ps: seq<Pair>, n: nat, ps': seq<Pair>, n': nat)
    requires first.IP? && last.IP? && first.value + 1 < last.value && h != g
    requires LookupOutcome(first, last, size, h, a, [], 0, ps, n)
    requires LookupOutcome(first, last, size, g, b, ps, n, ps', n')
    ensures a == first && b == first.(value := first.value + 1)
  {
    var m := last.value - first.value;
    DivUnique(0, m, 0, 0);
    DivUnique(1, m, 0, 1);
    assert [] + [Pair(h, a)] == [Pair(h, a)];
  }

  method FirstLookups(pool: Pool, a: string, b: string, now: int) returns (ip: Addr, next: Addr)
    requires pool.Valid() && pool.store.pairs == [] && pool.allocations == 0
    requires pool.first.value + 1 < pool.last.value && Lower(a) != Lower(b)
    modifies pool, pool.store, pool.store.cacheIP, pool.store.cacheHost
    ensures ip == pool.first && next == pool.first.(value := pool.first.value + 1)
  {
    ip := pool.Lookup(a, now);
    ghost var ps, n := pool.store.pairs, pool.allocations;
    next := pool.Lookup(b, now);
    FirstTwo(pool.first, pool.last, pool.store.size, Lower(a), Lower(b), ip, next,
             ps, n, pool.store.pairs, pool.allocations);
  }

  /** The default range 198.18.0.1/16: gateway 198.18.0.1, addresses from 198.18.0.4 up to the one
      before 198.18.255.255. */
  method DefaultRange(size: int) returns (pool: Pool)
    ensures pool.Valid() && pool.gateway == IP(V4, 0xC612_0001)
    ensures pool.first == IP(V4, 0xC612_0004) && pool.last == IP(V4, 0xC612_FFFF)
  {
    var ipnet := Prefix(IP(V4, 0xC612_0001), 16);
    Pow2Of16();
    UnMaskedIsLast(ipnet);
    var made := New(ipnet, size);
    pool := made.value;
  }

  lemma Pow2Of16()
    ensures Pow2(16) == 0x1_0000
  {
    assert Pow2(8) == 0x100;
    Pow2Add(8, 8);
  }

  /** The `n`-th fresh address, counted from zero. */
  function FreshAddress(first: Addr, last: Addr, n: nat): (a: Addr)
    requires first.IP? && last.IP? && first.value < last.value
    ensures a.IP? && a.family == first.family && first.value <= a.value < last.value
  {
    CursorStep(first.value, last.value, n);
    first.(value := CursorAfter(first.value, last.value, n + 1))
  }

  /** Every fresh address of a pool lies in its prefix, from the first address up, and is
      never the network or gateway address nor the pool's last one, which for IPv4 is the
      broadcast address. */
  lemma FreshAddressIsUsable(ipnet: Prefix, n: nat)
    requires ValidPrefix(ipnet) && UnMasked(ipnet).IP? && Network(ipnet) + 4 < UnMasked(ipnet).value
    ensures var f, first, last := ipnet.addr.family, Network(ipnet) + 4, UnMasked(ipnet).value;
            var a := FreshAddress(IP(f, first), UnMasked(ipnet), n);
            first <= a.value < last && Contains(ipnet, a) && a !in {IP(f, first - 4), IP(f, first - 3), UnMasked(ipnet)}
  {
    UnMaskedAtMostLast(ipnet);
    SameBlock(ipnet.addr.value, Pow2(HostBits(ipnet)),
              FreshAddress(IP(ipnet.addr.family, Network(ipnet) + 4), UnMasked(ipnet), n).value);
  }

  lemma SameBlock(x: nat, m: nat, a: nat)
    requires m > 0 && ClearLow(x, m) <= a <= SetLow(x, m)
    ensures a / m == x / m
  {
    assert x == x / m * m + x % m;
    DivUnique(a, m, x / m, a - x / m * m);
  }
}
