/** What callers of the LRU cache rely on, in terms of ages and clock readings alone. */
module LruLaws {
  import opened LruSpec
  import opened LruCaches
  import opened LruRuns
  import opened Wrappers

  // ---------------------------------------------------------------- set, then get

  /** What was just written is the last item, and stays there unless it is born expired. */
  lemma WrittenIsLast<K, V>(c: Config, s: seq<Item<K, V>>, it: Item<K, V>, t: int)
    requires Distinct(s) && (c.maxAge > 0 && !c.staleReturn ==> t < it.expires)
    ensures Has(SetItem(c, s, it, t), it.key) && SetItem(c, s, it, t)[Find(SetItem(c, s, it, t), it.key)] == it
  {
    var w := if Has(s, it.key) then MoveToBack(s, it) else Evict(c, s + [it]);
    MoveToBackKeeps(s, it);
    assert w[|w| - 1] == it;
    if c.Ages() {
      DropExpiredMembers(w, t, it);
    }
    SetKeepsBound(c, s, it, t);
    var r := SetItem(c, s, it, t);
    var i :| 0 <= i < |r| && r[i] == it;
    FindUnique(r, it.key, i);
  }

  /** What was set at `t` is found at `now` exactly as long as it is younger than the age, and
      always in a cache without an age or with stale returns. */
  lemma GetAfterSet<K, V>(c: Config, s: seq<Item<K, V>>, k: K, v: V, t: int, now: int)
    requires Distinct(s)
    ensures var r := GetResult(c, Step(c, s, SetOp(k, v, t)), k, now);
            if c.maxAge <= 0 || c.staleReturn || now < t + c.maxAge then r.Some? && r.value.value == v else r == None
  {
    WrittenIsLast(c, s, Item(k, v, Expires(c, t)), t);
  }

  /** With an explicit expiry: exactly until then, in a cache that drops what has expired. */
  lemma GetAfterSetWithExpire<K, V>(c: Config, s: seq<Item<K, V>>, k: K, v: V, expires: int, t: int, now: int)
    requires Distinct(s) && (c.maxAge <= 0 || c.staleReturn || t < expires)
    ensures var r := GetResult(c, Step(c, s, SetWithExpireOp(k, v, expires, t)), k, now);
            if c.maxAge <= 0 || c.staleReturn || now < expires then r.Some? && r.value.value == v else r == None
  {
    WrittenIsLast(c, s, Item(k, v, expires), t);
  }

  /** A hit at `t` starts the age anew if hits refresh, and else leaves the expiry alone. */
  lemma GetAfterGet<K, V>(c: Config, s: seq<Item<K, V>>, k: K, t: int, now: int)
    requires Distinct(s) && GetResult(c, s, k, t).Some? && c.maxAge > 0 && !c.staleReturn
    ensures GetResult(c, Step(c, s, GetOp(k, t)), k, now).Some?
       <==> now < if c.updateAgeOnGet then t + c.maxAge else s[Find(s, k)].expires
  {
    var it := Touched(c, s[Find(s, k)], t);
    GetKeepsBound(c, s, k, t);
    FindUnique(MoveToBack(s, it), k, |MoveToBack(s, it)| - 1);
  }

  lemma GetAfterDelete<K, V>(c: Config, s: seq<Item<K, V>>, k: K, now: int)
    requires Distinct(s)
    ensures GetResult(c, Step(c, s, DeleteOp(k)), k, now) == None
  {
    RemoveKeeps(s, k);
  }

  /** The same on the class: a value set at `t` and asked for at `now`. */
  method SetThenGet<K(==), V(==)>(cache: LruCache<K, V>, key: K, value: V, t: int, now: int) returns (r: Option<V>)
    requires cache.Valid()
    modifies cache, cache.lru
    ensures cache.Valid()
    ensures r == if cache.config.maxAge <= 0 || cache.config.staleReturn || now < t + cache.config.maxAge
                 then Some(value) else None
  {
    cache.AllDistinct();
    GetAfterSet(cache.config, cache.contents, key, value, t, now);
    var _ := Perform(cache, SetOp(key, value, t));
    r := Perform(cache, GetOp(key, now));
  }

  // ---------------------------------------------------------------- what ageing drops

  /** Ageing drops the items before the first one that has not expired, and no others. */
  lemma {:induction false} DropsExpiredFront<K, V>(s: seq<Item<K, V>>, now: int) returns (n: nat)
    ensures n <= |s| && DropExpired(s, now) == s[n..]
    ensures forall i :: 0 <= i < n ==> s[i].expires <= now
    ensures n < |s| ==> now < s[n].expires
  {
    if s != [] && s[0].expires <= now {
      n := DropsExpiredFront(s[1..], now);
      n := n + 1;
    } else {
      n := 0;
    }
  }

  /** After a write the least recently used item of an ageing cache has not expired. */
  lemma FrontIsFresh<K, V>(c: Config, s: seq<Item<K, V>>, op: Op<K, V>)
    requires c.maxAge > 0 && !c.staleReturn && op.Writes()
    ensures var r := Step(c, s, op); r == [] || op.now < r[0].expires
  {
    var it := op.Written(c);
    var n := DropsExpiredFront(if Has(s, it.key) then MoveToBack(s, it) else Evict(c, s + [it]), op.now);
  }

  /** The least recently used item expires first. */
  ghost predicate InOrder<K, V>(s: seq<Item<K, V>>, latest: int) {
    && (forall i, j :: 0 <= i < j < |s| ==> s[i].expires <= s[j].expires)
    && (forall i :: 0 <= i < |s| ==> s[i].expires <= latest)
  }

  /** Every hit and write starts the age anew. */
  ghost predicate AlwaysRefreshes<K, V>(c: Config, ops: seq<Op<K, V>>) {
    forall i :: 0 <= i < |ops| ==> ops[i].SetOp? || (ops[i].GetOp? && c.updateAgeOnGet)
  }

  lemma CutKeepsOrder<K, V>(s: seq<Item<K, V>>, n: nat, latest: int)
    requires InOrder(s, latest) && n < |s|
    ensures InOrder(s[..n] + s[n + 1..], latest)
  {
  }

  lemma RemoveKeepsOrder<K, V>(s: seq<Item<K, V>>, k: K, latest: int)
    requires InOrder(s, latest)
    ensures InOrder(Remove(s, k), latest)
  {
    if Has(s, k) {
      CutKeepsOrder(s, Find(s, k), latest);
    }
  }

  lemma SnocKeepsOrder<K, V>(s: seq<Item<K, V>>, it: Item<K, V>, latest: int)
    requires InOrder(s, latest) && latest <= it.expires
    ensures InOrder(s + [it], it.expires)
  {
  }

  lemma AgeingKeepsOrder<K, V>(c: Config, s: seq<Item<K, V>>, now: int, latest: int)
    requires InOrder(s, latest)
    ensures InOrder(MaybeDeleteOldest(c, s, now), latest)
  {
    var n := DropsExpiredFront(s, now);
    forall i | 0 <= i < |s[n..]| ensures s[n..][i] == s[i + n] {
    }
  }

  lemma StepKeepsOrder<K, V>(c: Config, s: seq<Item<K, V>>, op: Op<K, V>, latest: int)
    requires c.maxAge > 0 && (op.SetOp? || (op.GetOp? && c.updateAgeOnGet))
    requires InOrder(s, latest) && latest <= op.now + c.maxAge
    ensures InOrder(Step(c, s, op), op.now + c.maxAge)
  {
    RemoveKeepsOrder(s, op.key, latest);
    if op.SetOp? {
      var it := op.Written(c);
      SnocKeepsOrder(s, it, latest);
      SnocKeepsOrder(Remove(s, op.key), it, latest);
      AgeingKeepsOrder(c, if Has(s, it.key) then MoveToBack(s, it) else Evict(c, s + [it]), op.now, it.expires);
    } else if Has(s, op.key) {
      SnocKeepsOrder(Remove(s, op.key), Touched(c, s[Find(s, op.key)], op.now), latest);
      AgeingKeepsOrder(c, Remove(s, op.key), op.now, latest);
    }
  }

  lemma {:induction false} RunKeepsOrder<K, V>(c: Config, ops: seq<Op<K, V>>, now: int)
    requires c.maxAge > 0 && AlwaysRefreshes(c, ops) && ClockUpTo(ops, now)
    ensures InOrder(Run(c, [], ops), now + c.maxAge)
    decreases |ops|
  {
    if ops != [] {
      var init, op := ops[..|ops| - 1], ops[|ops| - 1];
      RunKeepsOrder(c, init, op.now);
      StepKeepsOrder(c, Run(c, [], init), op, op.now + c.maxAge);
    }
  }

  /** In an ageing cache without a size in which every hit and write starts the age anew, what is
      left after a write is exactly what has not expired. */
  lemma ExistsExactlyWhileFresh<K, V>(c: Config, ops: seq<Op<K, V>>, k: K, v: V, now: int, key: K)
    requires c.maxAge > 0 && !c.staleReturn && c.maxSize <= 0
    requires AlwaysRefreshes(c, ops + [SetOp(k, v, now)]) && ClockUpTo(ops, now)
    ensures Has(Run(c, [], ops + [SetOp(k, v, now)]), key) <==> FreshAt(c, ops + [SetOp(k, v, now)], key, now)
  {
    var all := ops + [SetOp(k, v, now)];
    assert all[..|ops|] == ops;
    RunKeepsOrder(c, all, now);
    FrontIsFresh(c, Run(c, [], ops), all[|ops|]);
    GetHitsExactlyWhileFresh(c, all, key, now);
    var s := Run(c, [], all);
    if Has(s, key) {
      assert s[0].expires <= s[Find(s, key)].expires;
    }
  }
}
