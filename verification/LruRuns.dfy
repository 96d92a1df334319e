/** Whole runs of an LRU cache: its bound, the age of what it returns, and clones. */
module LruRuns {
  import opened Wrappers
  import opened LruSpec
  import opened LruCaches

  /** One call, with the clock reading it makes. */
  datatype Op<K, V> =
    | SetOp(key: K, value: V, now: int)
    | SetWithExpireOp(key: K, value: V, expires: int, now: int)
    | GetOp(key: K, now: int)
    | DeleteOp(key: K)
  {
    predicate Writes() {
      SetOp? || SetWithExpireOp?
    }

    function Written(c: Config): Item<K, V>
      requires Writes()
    {
      Item(key, value, if SetOp? then Expires(c, now) else expires)
    }
  }

  function Step<K(==), V>(c: Config, s: seq<Item<K, V>>, op: Op<K, V>): seq<Item<K, V>> {
    if op.DeleteOp? then Remove(s, op.key)
    else if op.GetOp? then GetList(c, s, op.key, op.now)
    else SetItem(c, s, op.Written(c), op.now)
  }

  /** The list after the calls, from the list `s`: empty for a new cache, the source's list
      for a clone. */
  function Run<K(==), V>(c: Config, s: seq<Item<K, V>>, ops: seq<Op<K, V>>): seq<Item<K, V>> {
    if ops == [] then s else Step(c, Run(c, s, ops[..|ops| - 1]), ops[|ops| - 1])
  }

  ghost predicate NoDeletes<K, V>(ops: seq<Op<K, V>>) {
    forall i :: 0 <= i < |ops| ==> !ops[i].DeleteOp?
  }

  // ---------------------------------------------------------------- the bound

  predicate Fits(c: Config, size: nat) {
    c.maxSize > 0 ==> size <= c.maxSize
  }

  lemma StepKeepsBound<K, V>(c: Config, s: seq<Item<K, V>>, op: Op<K, V>)
    requires Distinct(s)
    ensures Distinct(Step(c, s, op))
    ensures Fits(c, |s|) ==> Fits(c, |Step(c, s, op)|)
  {
    if op.DeleteOp? {
      RemoveKeeps(s, op.key);
    } else if op.GetOp? {
      GetKeepsBound(c, s, op.key, op.now);
    } else {
      SetKeepsBound(c, s, op.Written(c), op.now);
    }
  }

  /** Whatever the configuration, the calls and the clock: keys stay distinct, and a cache
      that starts within its bound stays within it. */
  lemma {:induction false} RunKeepsBound<K, V>(c: Config, s: seq<Item<K, V>>, ops: seq<Op<K, V>>)
    requires Distinct(s)
    ensures Distinct(Run(c, s, ops))
    ensures Fits(c, |s|) ==> Fits(c, |Run(c, s, ops)|)
    decreases |ops|
  {
    if ops != [] {
      RunKeepsBound(c, s, ops[..|ops| - 1]);
      StepKeepsBound(c, Run(c, s, ops[..|ops| - 1]), ops[|ops| - 1]);
    }
  }

  /** Without ageing and deletions a list above the bound never shrinks: a new key takes the
      place of one other key only. */
  lemma OverfullStep<K, V>(c: Config, s: seq<Item<K, V>>, op: Op<K, V>)
    requires !c.Ages() && !Fits(c, |s|) && Distinct(s) && !op.DeleteOp?
    ensures Distinct(Step(c, s, op)) && |Step(c, s, op)| == |s|
  {
    StepKeepsBound(c, s, op);
    if op.GetOp? {
      if Has(s, op.key) {
        MoveToBackKeeps(s, Touched(c, s[Find(s, op.key)], op.now));
      }
    } else {
      MoveToBackKeeps(s, op.Written(c));
    }
  }

  lemma {:induction false} OverfullRun<K, V>(c: Config, s: seq<Item<K, V>>, ops: seq<Op<K, V>>)
    requires (c.maxAge <= 0 || c.staleReturn) && !Fits(c, |s|) && Distinct(s) && NoDeletes(ops)
    ensures Distinct(Run(c, s, ops)) && |Run(c, s, ops)| == |s|
    decreases |ops|
  {
    if ops != [] {
      OverfullRun(c, s, ops[..|ops| - 1]);
      OverfullStep(c, Run(c, s, ops[..|ops| - 1]), ops[|ops| - 1]);
    }
  }

  /** A clone is within its own bound if and only if its source's list fits it: at once, and,
      without ageing and deletions, after any further calls. */
  lemma CloneBound<K, V>(target: Config, source: seq<Item<K, V>>, ops: seq<Op<K, V>>)
    requires Distinct(source) && (target.maxAge <= 0 || target.staleReturn) && NoDeletes(ops)
    ensures Fits(target, |Run(target, source, ops)|) <==> Fits(target, |source|)
  {
    RunKeepsBound(target, source, ops);
    if !Fits(target, |source|) {
      OverfullRun(target, source, ops);
    }
  }

  /** Two keys in a cache for two, cloned into a cache for one: the clone holds both, and goes
      on holding two after another key is set. */
  method CloneOverfills() returns (clone: LruCache<int, int>)
    ensures clone.Valid() && clone.config.maxSize == 1
    ensures |clone.contents| == 2 && !Fits(clone.config, |clone.contents|)
  {
    var source := new LruCache<int, int>(Config(0, 2, false, false));
    source.Set(1, 10, 0);
    source.Set(2, 20, 0);
    clone := new LruCache<int, int>(Config(0, 1, false, false));
    source.CloneTo(clone);
    OverfullStep(clone.config, clone.contents, SetOp(3, 30, 0));
    clone.Set(3, 30, 0);
  }

  // ---------------------------------------------------------------- age

  /** The expiry that the call gives the item under `k`, if it gives it one. */
  function RefreshedTo<K(==), V>(c: Config, s: seq<Item<K, V>>, op: Op<K, V>, k: K): Option<int> {
    if op.key != k then None
    else if op.Writes() then Some(op.Written(c).expires)
    else if op.GetOp? && c.maxAge > 0 && c.updateAgeOnGet && GetResult(c, s, k, op.now).Some? then
      Some(op.now + c.maxAge)
    else None
  }

  /** The expiry that the last refreshing call gave to `k`. */
  function Deadline<K(==), V>(c: Config, ops: seq<Op<K, V>>, k: K): Option<int> {
    if ops == [] then None
    else
      var init, op := ops[..|ops| - 1], ops[|ops| - 1];
      var d := RefreshedTo(c, Run(c, [], init), op, k);
      if d.Some? then d else Deadline(c, init, k)
  }

  /** The value of the last write of `k`. */
  function LastSet<K(==), V>(ops: seq<Op<K, V>>, k: K): Option<V> {
    if ops == [] then None
    else
      var op := ops[|ops| - 1];
      if op.Writes() && op.key == k then Some(op.value) else LastSet(ops[..|ops| - 1], k)
  }

  lemma RemoveMembers<K, V>(s: seq<Item<K, V>>, k: K, it: Item<K, V>)
    requires Distinct(s)
    ensures it in Remove(s, k) <==> it in s && it.key != k
  {
    var i, r := Find(s, k), Remove(s, k);
    if it in r {
      var j :| 0 <= j < |r| && r[j] == it;
      assert s[if j < i then j else j + 1] == it;
    }
    if it in s && it.key != k {
      var j :| 0 <= j < |s| && s[j] == it;
      assert i < |s| ==> r[if j < i then j else j - 1] == it;
    }
  }

  /** Ageing only ever takes items away. */
  lemma {:induction false} DropExpiredMembers<K, V>(s: seq<Item<K, V>>, now: int, it: Item<K, V>)
    ensures it in DropExpired(s, now) ==> it in s
    ensures it in s && it.expires > now ==> it in DropExpired(s, now)
  {
    if s != [] && s[0].expires <= now {
      DropExpiredMembers(s[1..], now, it);
    }
  }

  /** An item after a call is the one just written, the one just refreshed, or an old one. */
  lemma ItemsAfterStep<K, V>(c: Config, s: seq<Item<K, V>>, op: Op<K, V>, it: Item<K, V>)
    requires Distinct(s) && it in Step(c, s, op)
    ensures match RefreshedTo(c, s, op, it.key)
            case Some(d) => it.expires == d
            case None => it in s
    ensures if op.Writes() && op.key == it.key then it.value == op.value
            else exists x :: x in s && x.key == it.key && x.value == it.value
  {
    RemoveMembers(s, op.key, it);
    if op.GetOp? {
      ItemsAfterGet(c, s, op.key, op.now, it);
    } else if op.Writes() {
      var w := op.Written(c);
      var t := if Has(s, w.key) then MoveToBack(s, w) else Evict(c, s + [w]);
      DropExpiredMembers(t, op.now, it);
    }
  }

  lemma ItemsAfterGet<K, V>(c: Config, s: seq<Item<K, V>>, k: K, now: int, it: Item<K, V>)
    requires Distinct(s) && it in GetList(c, s, k, now)
    ensures it.key != k ==> it in s
    ensures it.key == k ==> Has(s, k) && !Expired(c, s[Find(s, k)], now) && it == Touched(c, s[Find(s, k)], now)
  {
    RemoveMembers(s, k, it);
    DropExpiredMembers(Remove(s, k), now, it);
    if Has(s, k) && it.key == k {
      RemoveKeeps(s, k);
    }
    if !Has(s, k) {
      var i :| 0 <= i < |s| && s[i] == it;
    }
  }

  /** Every item of a run has the value of the last write of its key, and expires when the
      last refresh of its key says. */
  lemma {:induction false} RunHoldsLast<K, V>(c: Config, ops: seq<Op<K, V>>, it: Item<K, V>)
    requires it in Run(c, [], ops)
    ensures LastSet(ops, it.key) == Some(it.value)
    ensures Deadline(c, ops, it.key) == Some(it.expires)
    decreases |ops|
  {
    var init, op := ops[..|ops| - 1], ops[|ops| - 1];
    var s := Run(c, [], init);
    RunKeepsBound(c, [], init);
    ItemsAfterStep(c, s, op, it);
    if !(op.Writes() && op.key == it.key) {
      var x :| x in s && x.key == it.key && x.value == it.value;
      RunHoldsLast(c, init, x);
    }
    if RefreshedTo(c, s, op, it.key).None? {
      RunHoldsLast(c, init, it);
    }
  }

  /** What call `i` of the run does to the expiry of `k`. */
  function RefreshAt<K(==), V>(c: Config, ops: seq<Op<K, V>>, k: K, i: nat): Option<int>
    requires i < |ops|
  {
    RefreshedTo(c, Run(c, [], ops[..i]), ops[i], k)
  }

  /** Call `i` is the last one to refresh `k`. */
  ghost predicate LastRefresh<K, V>(c: Config, ops: seq<Op<K, V>>, k: K, i: int) {
    && 0 <= i < |ops| && RefreshAt(c, ops, k, i).Some?
    && forall j {:trigger RefreshAt(c, ops, k, j)} :: i < j < |ops| ==> RefreshAt(c, ops, k, j).None?
  }

  lemma RefreshInPrefix<K, V>(c: Config, ops: seq<Op<K, V>>, n: nat, k: K, i: nat)
    requires i < n <= |ops|
    ensures RefreshAt(c, ops[..n], k, i) == RefreshAt(c, ops, k, i)
  {
    assert ops[..n][..i] == ops[..i];
  }

  lemma StillLastRefresh<K, V>(c: Config, ops: seq<Op<K, V>>, n: nat, k: K, i: int)
    requires n == |ops| - 1 && LastRefresh(c, ops[..n], k, i) && RefreshAt(c, ops, k, n).None?
    ensures LastRefresh(c, ops, k, i) && RefreshAt(c, ops, k, i) == RefreshAt(c, ops[..n], k, i)
  {
    RefreshInPrefix(c, ops, n, k, i);
    forall j | i < j < |ops| ensures RefreshAt(c, ops, k, j).None? {
      if j < n {
        RefreshInPrefix(c, ops, n, k, j);
      }
    }
  }

  lemma {:induction false} DeadlineIsLastRefresh<K, V>(c: Config, ops: seq<Op<K, V>>, k: K) returns (i: int)
    requires Deadline(c, ops, k).Some?
    ensures LastRefresh(c, ops, k, i) && Deadline(c, ops, k) == RefreshAt(c, ops, k, i)
    decreases |ops|
  {
    var n := |ops| - 1;
    if RefreshAt(c, ops, k, n).Some? {
      i := n;
    } else {
      i := DeadlineIsLastRefresh(c, ops[..n], k);
      StillLastRefresh(c, ops, n, k, i);
    }
  }

  /** An ageing cache without stale returns gives at `now` only what was last refreshed less
      than `maxAge` ago: by `Set`, or by a hit if hits refresh; with an explicit expiry, only
      what has not reached it. The value is that of the last write. */
  lemma GetIsFresh<K, V>(c: Config, ops: seq<Op<K, V>>, k: K, now: int) returns (i: int)
    requires c.maxAge > 0 && !c.staleReturn && GetResult(c, Run(c, [], ops), k, now).Some?
    ensures LastSet(ops, k) == Some(GetResult(c, Run(c, [], ops), k, now).value.value)
    ensures LastRefresh(c, ops, k, i)
    ensures ops[i].key == k && (ops[i].Writes() || (ops[i].GetOp? && c.updateAgeOnGet))
    ensures now < if ops[i].SetWithExpireOp? then ops[i].expires else ops[i].now + c.maxAge
  {
    var s := Run(c, [], ops);
    RunHoldsLast(c, ops, s[Find(s, k)]);
    i := DeadlineIsLastRefresh(c, ops, k);
  }

  // ---------------------------------------------------------------- when a fresh value is found

  /** The clock readings of the calls never go back, and none is after `now`. */
  ghost predicate ClockUpTo<K, V>(ops: seq<Op<K, V>>, now: int) {
    && (forall i :: 0 <= i < |ops| && !ops[i].DeleteOp? ==> ops[i].now <= now)
    && (forall i, j :: 0 <= i < j < |ops| && !ops[i].DeleteOp? && !ops[j].DeleteOp? ==> ops[i].now <= ops[j].now)
  }

  /** In a cache without a size, a call keeps every item that has not expired. */
  lemma StepKeepsFresh<K, V>(c: Config, s: seq<Item<K, V>>, op: Op<K, V>, k: K)
    requires c.Ages() && c.maxSize <= 0 && Distinct(s) && !op.DeleteOp?
    requires RefreshedTo(c, s, op, k).Some? || (Has(s, k) && s[Find(s, k)].expires > op.now)
    requires RefreshedTo(c, s, op, k).Some? ==> RefreshedTo(c, s, op, k).value > op.now
    ensures Has(Step(c, s, op), k)
  {
    var t := Step(c, s, op);
    if op.Writes() {
      WriteKeepsFresh(c, s, op.Written(c), op.now, k);
    } else if op.key == k {
      assert t == MoveToBack(s, Touched(c, s[Find(s, k)], op.now));
      assert t[|t| - 1].key == k;
      HasMember(t, t[|t| - 1]);
    } else {
      var it := s[Find(s, k)];
      RemoveMembers(s, op.key, it);
      DropExpiredMembers(Remove(s, op.key), op.now, it);
      HasMember(t, it);
    }
  }

  lemma WriteKeepsFresh<K, V>(c: Config, s: seq<Item<K, V>>, w: Item<K, V>, now: int, k: K)
    requires c.Ages() && c.maxSize <= 0 && Distinct(s)
    requires w.key == k ==> w.expires > now
    requires w.key != k ==> Has(s, k) && s[Find(s, k)].expires > now
    ensures Has(SetItem(c, s, w, now), k)
  {
    var t := if Has(s, w.key) then MoveToBack(s, w) else s + [w];
    var it := if w.key == k then w else s[Find(s, k)];
    RemoveMembers(s, w.key, it);
    assert it in t;
    DropExpiredMembers(t, now, it);
    HasMember(SetItem(c, s, w, now), it);
  }

  lemma HasMember<K, V>(s: seq<Item<K, V>>, it: Item<K, V>)
    requires it in s
    ensures Has(s, it.key)
  {
    var i :| 0 <= i < |s| && s[i] == it;
  }

  lemma MemberOf<K, V>(s: seq<Item<K, V>>, k: K)
    requires Has(s, k)
    ensures s[Find(s, k)] in s && s[Find(s, k)].key == k
  {
  }

  /** Without a size and deletions, a key whose deadline lies ahead is still there. */
  lemma {:induction false} FreshIsKept<K, V>(c: Config, ops: seq<Op<K, V>>, k: K, now: int)
    requires c.Ages() && c.maxSize <= 0 && NoDeletes(ops) && ClockUpTo(ops, now)
    requires Deadline(c, ops, k).Some? && Deadline(c, ops, k).value > now
    ensures Has(Run(c, [], ops), k)
    decreases |ops|
  {
    var init, op := ops[..|ops| - 1], ops[|ops| - 1];
    var s := Run(c, [], init);
    RunKeepsBound(c, [], init);
    assert op.now <= now;
    if RefreshedTo(c, s, op, k).None? {
      FreshIsKept(c, init, k, op.now);
      MemberOf(s, k);
      RunHoldsLast(c, init, s[Find(s, k)]);
    }
    StepKeepsFresh(c, s, op, k);
  }

  /** When what call `i` refreshed expires. */
  function RefreshExpires<K, V>(c: Config, op: Op<K, V>): int
    requires !op.DeleteOp?
  {
    if op.SetWithExpireOp? then op.expires else op.now + c.maxAge
  }

  /** The last call that refreshed `k` is not too old. */
  ghost predicate FreshAt<K, V>(c: Config, ops: seq<Op<K, V>>, k: K, now: int) {
    exists i :: LastRefresh(c, ops, k, i) && !ops[i].DeleteOp? && now < RefreshExpires(c, ops[i])
  }

  lemma LastRefreshUnique<K, V>(c: Config, ops: seq<Op<K, V>>, k: K, i: int, j: int)
    requires LastRefresh(c, ops, k, i) && LastRefresh(c, ops, k, j)
    ensures i == j
  {
    assert RefreshAt(c, ops, k, i).Some? && RefreshAt(c, ops, k, j).Some?;
  }

  lemma {:induction false} RefreshedHasDeadline<K, V>(c: Config, ops: seq<Op<K, V>>, k: K, i: int)
    requires 0 <= i < |ops| && RefreshAt(c, ops, k, i).Some?
    ensures Deadline(c, ops, k).Some?
    decreases |ops|
  {
    var n := |ops| - 1;
    assert RefreshAt(c, ops, k, n).Some? ==> Deadline(c, ops, k) == RefreshAt(c, ops, k, n);
    if i < n {
      RefreshInPrefix(c, ops, n, k, i);
      RefreshedHasDeadline(c, ops[..n], k, i);
      assert RefreshAt(c, ops, k, n).None? ==> Deadline(c, ops, k) == Deadline(c, ops[..n], k);
    }
  }

  lemma DeadlineAhead<K, V>(c: Config, ops: seq<Op<K, V>>, k: K, now: int)
    requires c.maxAge > 0
    ensures FreshAt(c, ops, k, now) <==> Deadline(c, ops, k).Some? && now < Deadline(c, ops, k).value
  {
    if Deadline(c, ops, k).Some? {
      var i := DeadlineIsLastRefresh(c, ops, k);
      forall j | LastRefresh(c, ops, k, j) ensures j == i {
        LastRefreshUnique(c, ops, k, i, j);
      }
    } else {
      forall i | LastRefresh(c, ops, k, i) ensures false {
        RefreshedHasDeadline(c, ops, k, i);
      }
    }
  }

  /** In an ageing cache without a size, under a clock that never goes back, `Get` finds a key
      exactly as long as the call that last refreshed it is less than `maxAge` ago, or the
      explicit expiry given to it lies ahead. */
  lemma GetHitsExactlyWhileFresh<K, V>(c: Config, ops: seq<Op<K, V>>, k: K, now: int)
    requires c.maxAge > 0 && !c.staleReturn && c.maxSize <= 0 && NoDeletes(ops) && ClockUpTo(ops, now)
    ensures GetResult(c, Run(c, [], ops), k, now).Some? <==> FreshAt(c, ops, k, now)
  {
    var s := Run(c, [], ops);
    DeadlineAhead(c, ops, k, now);
    if Deadline(c, ops, k).Some? && Deadline(c, ops, k).value > now {
      FreshIsKept(c, ops, k, now);
    }
    if Has(s, k) {
      MemberOf(s, k);
      RunHoldsLast(c, ops, s[Find(s, k)]);
    }
  }

  // ---------------------------------------------------------------- the class

  /** One call on a cache whose entries are all its own. */
  method Perform<K(==), V(==)>(cache: LruCache<K, V>, op: Op<K, V>) returns (r: Option<V>)
    requires cache.Valid()
    modifies cache, cache.lru
    ensures cache.Valid() && forall e :: e in cache.lru ==> e in old(cache.lru) || fresh(e)
    ensures cache.contents == Step(cache.config, old(cache.contents), op)
    ensures op.GetOp? ==>
              match GetResult(cache.config, old(cache.contents), op.key, op.now)
              case None => r == None
              case Some(it) => r == Some(it.value)
  {
    r := None;
    match op {
      case SetOp(key, value, now) => cache.Set(key, value, now);
      case SetWithExpireOp(key, value, expires, now) => cache.SetWithExpire(key, value, expires, now);
      case GetOp(key, now) =>
        var e := cache.Get(key, now);
        if e.Some? {
          r := Some(e.value.value);
        }
      case DeleteOp(key) => cache.Delete(key);
    }
  }

  /** A new cache holds after any calls what the run defines. */
  method Replay<K(==), V(==)>(config: Config, ops: seq<Op<K, V>>) returns (cache: LruCache<K, V>)
    ensures cache.Valid() && cache.config == config && cache.contents == Run(config, [], ops)
  {
    cache := new LruCache(config);
    for i := 0 to |ops|
      invariant cache.Valid() && fresh(cache) && forall e :: e in cache.lru ==> fresh(e)
      invariant cache.config == config && cache.contents == Run(config, [], ops[..i])
    {
      assert ops[..i + 1][..i] == ops[..i];
      var _ := Perform(cache, ops[i]);
    }
    assert ops[..|ops|] == ops;
  }
}
