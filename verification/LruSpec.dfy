/** The recency order that the LRU cache refines: items from least to most recently used. */
module LruSpec {
  import opened Wrappers

  datatype Item<K, V> = Item(key: K, value: V, expires: int)

  datatype Config = Config(maxAge: int, maxSize: int, updateAgeOnGet: bool, staleReturn: bool) {
    predicate Ages() {
      !staleReturn && maxAge > 0
    }
  }

  /** Position of the item with key `k`, or the length of the list. */
  function Find<K(==), V>(s: seq<Item<K, V>>, k: K): (i: nat)
    ensures i <= |s|
    ensures i < |s| ==> s[i].key == k
    ensures forall j :: 0 <= j < i ==> s[j].key != k
  {
    if s == [] then 0 else if s[0].key == k then 0 else 1 + Find(s[1..], k)
  }

  predicate Has<K(==), V>(s: seq<Item<K, V>>, k: K) {
    Find(s, k) < |s|
  }

  ghost predicate Distinct<K, V>(s: seq<Item<K, V>>) {
    forall i, j :: 0 <= i < j < |s| ==> s[i].key != s[j].key
  }

  function Remove<K(==), V>(s: seq<Item<K, V>>, k: K): seq<Item<K, V>> {
    var i := Find(s, k);
    if i < |s| then s[..i] + s[i + 1..] else s
  }

  function MoveToBack<K(==), V>(s: seq<Item<K, V>>, it: Item<K, V>): seq<Item<K, V>> {
    Remove(s, it.key) + [it]
  }

  /** Drops the least recently used items as long as they are expired. */
  function DropExpired<K, V>(s: seq<Item<K, V>>, now: int): seq<Item<K, V>> {
    if s != [] && s[0].expires <= now then DropExpired(s[1..], now) else s
  }

  function MaybeDeleteOldest<K, V>(c: Config, s: seq<Item<K, V>>, now: int): seq<Item<K, V>> {
    if c.Ages() then DropExpired(s, now) else s
  }

  function Evict<K, V>(c: Config, s: seq<Item<K, V>>): seq<Item<K, V>> {
    if 0 < c.maxSize < |s| then s[1..] else s
  }

  function SetItem<K(==), V>(c: Config, s: seq<Item<K, V>>, it: Item<K, V>, now: int): seq<Item<K, V>> {
    MaybeDeleteOldest(c, if Has(s, it.key) then MoveToBack(s, it) else Evict(c, s + [it]), now)
  }

  function Expires(c: Config, now: int): int {
    if c.maxAge > 0 then now + c.maxAge else 0
  }

  /** The item a hit leaves behind: its age restarts only on request. */
  function Touched<K, V>(c: Config, it: Item<K, V>, now: int): Item<K, V> {
    if c.maxAge > 0 && c.updateAgeOnGet then it.(expires := now + c.maxAge) else it
  }

  predicate Expired<K, V>(c: Config, it: Item<K, V>, now: int) {
    c.Ages() && it.expires <= now
  }

  function GetList<K(==), V>(c: Config, s: seq<Item<K, V>>, k: K, now: int): seq<Item<K, V>> {
    if !Has(s, k) then s
    else
      var it := s[Find(s, k)];
      if Expired(c, it, now) then MaybeDeleteOldest(c, Remove(s, k), now)
      else MoveToBack(s, Touched(c, it, now))
  }

  function GetResult<K(==), V>(c: Config, s: seq<Item<K, V>>, k: K, now: int): (r: Option<Item<K, V>>)
    ensures r.Some? ==> r.value.key == k && Has(s, k) && r.value.value == s[Find(s, k)].value
    ensures r.Some? && c.Ages() ==> s[Find(s, k)].expires > now
  {
    if !Has(s, k) || Expired(c, s[Find(s, k)], now) then None
    else Some(Touched(c, s[Find(s, k)], now))
  }

  // ---------------------------------------------------------------- invariants

  lemma FindUnique<K, V>(s: seq<Item<K, V>>, k: K, i: nat)
    requires Distinct(s) && i < |s| && s[i].key == k
    ensures Find(s, k) == i
  {
  }

  lemma RemoveKeeps<K, V>(s: seq<Item<K, V>>, k: K)
    requires Distinct(s)
    ensures Distinct(Remove(s, k)) && !Has(Remove(s, k), k)
    ensures |Remove(s, k)| == if Has(s, k) then |s| - 1 else |s|
  {
  }

  lemma MoveToBackKeeps<K, V>(s: seq<Item<K, V>>, it: Item<K, V>)
    requires Distinct(s)
    ensures Distinct(MoveToBack(s, it))
    ensures |MoveToBack(s, it)| == if Has(s, it.key) then |s| else |s| + 1
  {
    RemoveKeeps(s, it.key);
  }

  lemma {:induction false} DropExpiredIsSuffix<K, V>(s: seq<Item<K, V>>, now: int)
    ensures |DropExpired(s, now)| <= |s| && DropExpired(s, now) == s[|s| - |DropExpired(s, now)|..]
  {
    if s != [] && s[0].expires <= now {
      DropExpiredIsSuffix(s[1..], now);
    }
  }

  lemma MaybeDeleteOldestKeeps<K, V>(c: Config, s: seq<Item<K, V>>, now: int)
    requires Distinct(s)
    ensures Distinct(MaybeDeleteOldest(c, s, now)) && |MaybeDeleteOldest(c, s, now)| <= |s|
  {
    DropExpiredIsSuffix(s, now);
  }

  /** Every operation keeps the keys distinct; a bounded cache stays within its size. */
  lemma SetKeepsBound<K, V>(c: Config, s: seq<Item<K, V>>, it: Item<K, V>, now: int)
    requires Distinct(s)
    ensures Distinct(SetItem(c, s, it, now))
    ensures c.maxSize > 0 && |s| <= c.maxSize ==> |SetItem(c, s, it, now)| <= c.maxSize
  {
    var t := if Has(s, it.key) then MoveToBack(s, it) else Evict(c, s + [it]);
    MoveToBackKeeps(s, it);
    assert Distinct(t);
    MaybeDeleteOldestKeeps(c, t, now);
  }

  lemma GetKeepsBound<K, V>(c: Config, s: seq<Item<K, V>>, k: K, now: int)
    requires Distinct(s)
    ensures Distinct(GetList(c, s, k, now)) && |GetList(c, s, k, now)| <= |s|
  {
    if Has(s, k) {
      RemoveKeeps(s, k);
      MaybeDeleteOldestKeeps(c, Remove(s, k), now);
      MoveToBackKeeps(s, Touched(c, s[Find(s, k)], now));
    }
  }
}
