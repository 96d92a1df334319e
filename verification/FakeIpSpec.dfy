/** Live fake-IP mappings as one list of pairs, least recently used first, and how each
    of the two LRU caches shows that list. */
module FakeIpSpec {
  import opened Wrappers
  import opened LruSpec
  import opened Addresses

  datatype Pair = Pair(host: string, ip: Addr)

  function IpItems(ps: seq<Pair>): (r: seq<Item<string, Addr>>)
    ensures |r| == |ps| && forall i :: 0 <= i < |ps| ==> r[i] == Item(ps[i].host, ps[i].ip, 0)
  {
    seq(|ps|, i requires 0 <= i < |ps| => Item(ps[i].host, ps[i].ip, 0))
  }

  function HostItems(ps: seq<Pair>): (r: seq<Item<Addr, string>>)
    ensures |r| == |ps| && forall i :: 0 <= i < |ps| ==> r[i] == Item(ps[i].ip, ps[i].host, 0)
  {
    seq(|ps|, i requires 0 <= i < |ps| => Item(ps[i].ip, ps[i].host, 0))
  }

  /** Host to address and address to host are both functions on the live pairs. */
  ghost predicate Inverse(ps: seq<Pair>) {
    forall i, j :: 0 <= i < j < |ps| ==> ps[i].host != ps[j].host && ps[i].ip != ps[j].ip
  }

  function AtHost(ps: seq<Pair>, h: string): nat {
    Find(IpItems(ps), h)
  }

  function AtIp(ps: seq<Pair>, a: Addr): nat {
    Find(HostItems(ps), a)
  }

  function RemoveAt(ps: seq<Pair>, i: nat): seq<Pair> {
    if i < |ps| then ps[..i] + ps[i + 1..] else ps
  }

  /** The pair at `i`, if there is one, becomes the most recently used. */
  function Touch(ps: seq<Pair>, i: nat): seq<Pair> {
    if i < |ps| then RemoveAt(ps, i) + [ps[i]] else ps
  }

  function EvictPair(size: int, ps: seq<Pair>): seq<Pair> {
    if 0 < size < |ps| then ps[1..] else ps
  }

  /** The store after the address `a` was given to the new host `h`. */
  function Assigned(size: int, ps: seq<Pair>, h: string, a: Addr): seq<Pair> {
    EvictPair(size, RemoveAt(ps, AtIp(ps, a)) + [Pair(h, a)])
  }

  function StoreConfig(size: int): Config {
    Config(0, size, false, false)
  }

  // ---------------------------------------------------------------- lockstep

  lemma InverseFinds(ps: seq<Pair>, i: nat)
    requires Inverse(ps) && i < |ps|
    ensures AtHost(ps, ps[i].host) == i && AtIp(ps, ps[i].ip) == i
    ensures Distinct(IpItems(ps)) && Distinct(HostItems(ps))
  {
    FindUnique(IpItems(ps), ps[i].host, i);
    FindUnique(HostItems(ps), ps[i].ip, i);
  }

  lemma RemoveAtItems(ps: seq<Pair>, i: nat)
    ensures IpItems(RemoveAt(ps, i)) == if i < |ps| then IpItems(ps)[..i] + IpItems(ps)[i + 1..] else IpItems(ps)
    ensures HostItems(RemoveAt(ps, i))
         == if i < |ps| then HostItems(ps)[..i] + HostItems(ps)[i + 1..] else HostItems(ps)
  {
    if i < |ps| {
      IpItemsCut(ps, i);
      HostItemsCut(ps, i);
    }
  }

  lemma IpItemsCut(ps: seq<Pair>, i: nat)
    requires i < |ps|
    ensures IpItems(ps[..i] + ps[i + 1..]) == IpItems(ps)[..i] + IpItems(ps)[i + 1..]
  {
    var cut, items := IpItems(ps[..i] + ps[i + 1..]), IpItems(ps)[..i] + IpItems(ps)[i + 1..];
    forall j | 0 <= j < |cut| ensures cut[j] == items[j] {
    }
  }

  lemma HostItemsCut(ps: seq<Pair>, i: nat)
    requires i < |ps|
    ensures HostItems(ps[..i] + ps[i + 1..]) == HostItems(ps)[..i] + HostItems(ps)[i + 1..]
  {
    var cut, items := HostItems(ps[..i] + ps[i + 1..]), HostItems(ps)[..i] + HostItems(ps)[i + 1..];
    forall j | 0 <= j < |cut| ensures cut[j] == items[j] {
    }
  }

  lemma AppendItems(ps: seq<Pair>, p: Pair)
    ensures IpItems(ps + [p]) == IpItems(ps) + [Item(p.host, p.ip, 0)]
    ensures HostItems(ps + [p]) == HostItems(ps) + [Item(p.ip, p.host, 0)]
  {
  }

  lemma InverseKept(ps: seq<Pair>, i: nat)
    requires Inverse(ps)
    ensures Inverse(RemoveAt(ps, i))
    ensures i < |ps| ==> forall j :: 0 <= j < |RemoveAt(ps, i)| ==>
              RemoveAt(ps, i)[j].host != ps[i].host && RemoveAt(ps, i)[j].ip != ps[i].ip
  {
    if i < |ps| {
      forall j | 0 <= j < |RemoveAt(ps, i)| ensures RemoveAt(ps, i)[j] == ps[if j < i then j else j + 1] {
      }
    }
  }

  lemma TouchKeepsInverse(ps: seq<Pair>, i: nat)
    requires Inverse(ps)
    ensures Inverse(Touch(ps, i))
  {
    InverseKept(ps, i);
  }

  lemma AbsentPair(ps: seq<Pair>, p: Pair)
    requires forall j :: 0 <= j < |ps| ==> ps[j].host != p.host && ps[j].ip != p.ip
    ensures AtHost(ps, p.host) == |ps| && AtIp(ps, p.ip) == |ps|
  {
  }

  /** A hit on either cache of a pair moves the pair to the back of both. */
  lemma HitsInLockstep(size: int, ps: seq<Pair>, i: nat, now: int)
    requires Inverse(ps) && i < |ps|
    ensures GetList(StoreConfig(size), IpItems(ps), ps[i].host, now) == IpItems(Touch(ps, i))
    ensures GetList(StoreConfig(size), HostItems(ps), ps[i].ip, now) == HostItems(Touch(ps, i))
    ensures GetResult(StoreConfig(size), IpItems(ps), ps[i].host, now) == Some(Item(ps[i].host, ps[i].ip, 0))
    ensures GetResult(StoreConfig(size), HostItems(ps), ps[i].ip, now) == Some(Item(ps[i].ip, ps[i].host, 0))
  {
    InverseFinds(ps, i);
    RemoveAtItems(ps, i);
    AppendItems(RemoveAt(ps, i), ps[i]);
  }

  /** Deleting a pair from both caches, the address side after a hit. */
  lemma DeletesInLockstep(size: int, ps: seq<Pair>, i: nat, now: int)
    requires Inverse(ps) && i < |ps|
    ensures Remove(IpItems(ps), ps[i].host) == IpItems(RemoveAt(ps, i))
    ensures Remove(GetList(StoreConfig(size), HostItems(ps), ps[i].ip, now), ps[i].ip) == HostItems(RemoveAt(ps, i))
  {
    HitsInLockstep(size, ps, i, now);
    RemoveAtItems(ps, i);
    InverseFinds(ps, i);
    TouchKeepsInverse(ps, i);
    RemoveLast(RemoveAt(ps, i), ps[i]);
  }

  lemma RemoveLast(ps: seq<Pair>, p: Pair)
    requires Inverse(ps + [p])
    ensures Remove(HostItems(ps + [p]), p.ip) == HostItems(ps)
  {
    InverseFinds(ps + [p], |ps|);
    AppendItems(ps, p);
  }

  /** Storing a new pair evicts the same pair from both caches. */
  lemma EvictsInLockstep(size: int, ps: seq<Pair>, p: Pair, now: int)
    requires Inverse(ps) && AtHost(ps, p.host) == |ps| && AtIp(ps, p.ip) == |ps|
    ensures SetItem(StoreConfig(size), IpItems(ps), Item(p.host, p.ip, 0), now) == IpItems(EvictPair(size, ps + [p]))
    ensures SetItem(StoreConfig(size), HostItems(ps), Item(p.ip, p.host, 0), now)
         == HostItems(EvictPair(size, ps + [p]))
    ensures Inverse(EvictPair(size, ps + [p]))
    ensures EvictPair(size, ps + [p]) != [] && EvictPair(size, ps + [p])[|EvictPair(size, ps + [p])| - 1] == p
  {
    AppendItems(ps, p);
    var all := ps + [p];
    forall i | 0 <= i < |ps| ensures ps[i].host != p.host && ps[i].ip != p.ip {
      assert IpItems(ps)[i].key != p.host && HostItems(ps)[i].key != p.ip;
    }
    assert Inverse(all);
    assert IpItems(all)[1..] == IpItems(all[1..]);
    assert HostItems(all)[1..] == HostItems(all[1..]);
  }

  // ---------------------------------------------------------------- the address cursor

  /** The cursor after `n` fresh allocations from `first .. last`. */
  function CursorAfter(first: int, last: int, n: nat): int
    requires first < last
  {
    if n == 0 then first - 1 else first + (n - 1) % (last - first)
  }

  /** One step of the cursor: the next address, wrapping before `last`. */
  lemma CursorStep(first: int, last: int, n: nat)
    requires first < last
    ensures var next := CursorAfter(first, last, n) + 1;
            && first <= CursorAfter(first, last, n + 1) < last
            && CursorAfter(first, last, n + 1) == (if next < last then next else first)
            && (next >= last ==> n >= last - first)
            && (n == last - first ==> next >= last)
  {
    var m := last - first;
    if n > 0 {
      ModStep(n - 1, m);
      if n < m {
        DivUnique(n, m, 0, n);
      } else if n == m {
        DivUnique(n, m, 1, 0);
      }
    }
  }

  lemma ModStep(k: nat, m: int)
    requires m > 0
    ensures (k + 1) % m == if k % m + 1 < m then k % m + 1 else 0
  {
    assert k == k / m * m + k % m;
    if k % m + 1 < m {
      DivUnique(k + 1, m, k / m, k % m + 1);
    } else {
      MulDist(k / m, 1, m);
      DivUnique(k + 1, m, k / m + 1, 0);
    }
  }

  /** The same address is allocated again only after a whole cycle of fresh allocations. */
  lemma ReuseAfterFullCycle(first: int, last: int, n: nat, k: nat)
    requires first < last && n < k && CursorAfter(first, last, n + 1) == CursorAfter(first, last, k + 1)
    ensures k - n >= last - first
  {
    var m := last - first;
    assert n == n / m * m + n % m && k == k / m * m + k % m;
    MulDist(k / m, - (n / m), m);
    if k - n < m {
      NoMultipleBetween(k / m - n / m, m);
    }
  }

  /** What a lookup of `host` returns and leaves behind: the live address of a known host,
      which becomes the most recent one, or the next address of the cursor. */
  ghost predicate LookupOutcome(first: Addr, last: Addr, size: int, host: string, ip: Addr,
                                ps: seq<Pair>, n: nat, ps': seq<Pair>, n': nat)
    requires first.IP? && last.IP? && first.value < last.value
  {
    var i := AtHost(ps, host);
    if i < |ps| then ip == ps[i].ip && ps' == Touch(ps, i) && n' == n
    else
      && n' == n + 1 && ip == first.(value := CursorAfter(first.value, last.value, n'))
      && ps' == Assigned(size, ps, host, ip)
  }

  lemma HitOutcome(first: Addr, last: Addr, size: int, host: string, ip: Addr, ps: seq<Pair>, n: nat)
    requires first.IP? && last.IP? && first.value < last.value
    requires AtHost(ps, host) < |ps| && ip == ps[AtHost(ps, host)].ip
    ensures LookupOutcome(first, last, size, host, ip, ps, n, Touch(ps, AtHost(ps, host)), n)
  {
  }

  lemma MissOutcome(first: Addr, last: Addr, size: int, host: string, ip: Addr, ps: seq<Pair>, n: nat, n': nat)
    requires first.IP? && last.IP? && first.value < last.value
    requires AtHost(ps, host) == |ps| && n' == n + 1 && ip == first.(value := CursorAfter(first.value, last.value, n'))
    ensures LookupOutcome(first, last, size, host, ip, ps, n, Assigned(size, ps, host, ip), n')
  {
  }

  lemma OutcomeIsMostRecent(first: Addr, last: Addr, size: int, host: string, ip: Addr,
                            ps: seq<Pair>, n: nat, ps': seq<Pair>, n': nat)
    requires first.IP? && last.IP? && first.value < last.value
    requires LookupOutcome(first, last, size, host, ip, ps, n, ps', n')
    ensures ps' != [] && ps'[|ps'| - 1] == Pair(host, ip)
  {
    var i := AtHost(ps, host);
    if i < |ps| {
      assert IpItems(ps)[i].key == host;
    }
  }
}
