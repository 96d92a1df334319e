/** The LRU cache: a map to list elements and a recency list of shared entries. Clones
    share their entries, so an entry's value may be written through another cache. */
module LruCaches {
  import opened Wrappers
  import opened LruSpec

  class Entry<K, V> {
    const key: K
    var value: V
    var expires: int

    constructor (key: K, value: V, expires: int)
      ensures this.key == key && this.value == value && this.expires == expires
    {
      this.key, this.value, this.expires := key, value, expires;
    }
  }

  /** Map and list hold the same entries, each under its own key. */
  ghost predicate Agree<K, V>(cache: map<K, Entry<K, V>>, lru: seq<Entry<K, V>>) {
    && (forall i :: 0 <= i < |lru| ==> lru[i].key in cache && cache[lru[i].key] == lru[i])
    && (forall k :: k in cache ==> cache[k] in lru && cache[k].key == k)
    && (forall i, j :: 0 <= i < j < |lru| ==> lru[i].key != lru[j].key)
  }

  lemma AgreeWithout<K, V>(cache: map<K, Entry<K, V>>, lru: seq<Entry<K, V>>, i: nat)
    requires Agree(cache, lru) && i < |lru|
    ensures Agree(cache - {lru[i].key}, lru[..i] + lru[i + 1..])
  {
    var cut := lru[..i] + lru[i + 1..];
    forall k | k in cache && k != lru[i].key ensures cache[k] in cut {
      var j :| 0 <= j < |lru| && lru[j] == cache[k];
      assert cut[if j < i then j else j - 1] == cache[k];
    }
  }

  lemma AgreeMoved<K, V>(cache: map<K, Entry<K, V>>, lru: seq<Entry<K, V>>, i: nat)
    requires Agree(cache, lru) && i < |lru|
    ensures Agree(cache, lru[..i] + lru[i + 1..] + [lru[i]])
  {
    var cut := lru[..i] + lru[i + 1..];
    AgreeWithout(cache, lru, i);
    forall k | k in cache ensures cache[k] in cut + [lru[i]] {
      assert k != lru[i].key ==> k in cache - {lru[i].key};
    }
  }

  /** The items are what the listed entries hold now. */
  ghost predicate Shows<K, V>(lru: seq<Entry<K, V>>, items: seq<Item<K, V>>)
    reads lru
  {
    && |items| == |lru|
    && forall i :: 0 <= i < |lru| ==> items[i] == Item(lru[i].key, lru[i].value, lru[i].expires)
  }

  lemma ShowsWithout<K, V>(lru: seq<Entry<K, V>>, items: seq<Item<K, V>>, i: nat, le: Entry<K, V>)
    requires i < |lru| && lru[i] == le && forall j :: 0 <= j < i ==> lru[j] != le
    requires Shows(lru, items) && Distinct(items)
    ensures Without(lru, le) == lru[..i] + lru[i + 1..]
    ensures Shows(Without(lru, le), Remove(items, le.key))
    ensures Shows(Without(lru, le) + [le], MoveToBack(items, Item(le.key, le.value, le.expires)))
  {
    WithoutCuts(lru, i);
    FindUnique(items, le.key, i);
    ShowsCut(lru, items, i);
    assert items[i] == Item(le.key, le.value, le.expires);
  }

  lemma ShowsCut<K, V>(lru: seq<Entry<K, V>>, items: seq<Item<K, V>>, i: nat)
    requires i < |lru| && Shows(lru, items)
    ensures Shows(lru[..i] + lru[i + 1..], items[..i] + items[i + 1..])
    ensures Shows(lru[..i] + lru[i + 1..] + [lru[i]], items[..i] + items[i + 1..] + [items[i]])
  {
  }

  class LruCache<K(==), V> {
    const config: Config
    var cache: map<K, Entry<K, V>>
    var lru: seq<Entry<K, V>>  // front is least recent

    ghost var contents: seq<Item<K, V>>  // the recency-ordered items the cache stands for

    ghost predicate Valid()
      reads this, lru
    {
      Agree(cache, lru) && Shows(lru, contents)
    }

    /** The entry under `k`, if any: the only old entry an update of `k` may write. */
    ghost function EntryOf(k: K): set<object>
      reads this
    {
      if k in cache then {cache[k]} else {}
    }

    constructor (config: Config)
      ensures Valid() && contents == [] && this.config == config && lru == []
    {
      this.config := config;
      cache, lru, contents := map[], [], [];
    }

    ghost function Index(k: K): (i: nat)
      requires Agree(cache, lru) && k in cache
      reads this
      ensures i < |lru| && lru[i] == cache[k] && lru[i].key == k
    {
      var i :| 0 <= i < |lru| && lru[i] == cache[k];
      i
    }

    lemma IndexIsFind(k: K)
      requires Valid()
      ensures k in cache <==> Has(contents, k)
      ensures k in cache ==> Find(contents, k) == Index(k)
      ensures Distinct(contents)
    {
      if k in cache {
        FindUnique(contents, k, Index(k));
      }
      if Has(contents, k) {
        assert lru[Find(contents, k)].key == k;
      }
    }

    lemma AllDistinct()
      requires Valid()
      ensures Distinct(contents)
    {
    }

    lemma CutElement(le: Entry<K, V>)
      requires Valid() && le in lru
      ensures Agree(cache - {le.key}, Without(lru, le))
      ensures Shows(Without(lru, le), Remove(contents, le.key))
    {
      ghost var i := Index(le.key);
      IndexIsFind(le.key);
      ShowsWithout(lru, contents, i, le);
      AgreeWithout(cache, lru, i);
    }

    method DeleteElement(le: Entry<K, V>)
      requires Valid() && le in lru
      modifies this
      ensures Valid() && cache == old(cache) - {le.key}
      ensures contents == Remove(old(contents), le.key)
      ensures forall e :: e in lru ==> e in old(lru)
    {
      CutElement(le);
      lru := Without(lru, le);
      cache := cache - {le.key};
      contents := Remove(contents, le.key);
    }

    method ListMoveToBack(le: Entry<K, V>)
      requires Valid() && le in lru
      modifies this`lru, this`contents
      ensures Valid()
      ensures contents == MoveToBack(old(contents), Item(le.key, le.value, le.expires))
      ensures lru != [] && lru[|lru| - 1] == le
      ensures forall e :: e in lru ==> e in old(lru)
    {
      ghost var i := Index(le.key);
      IndexIsFind(le.key);
      ShowsWithout(lru, contents, i, le);
      AgreeMoved(cache, lru, i);
      lru := Without(lru, le) + [le];
      contents := MoveToBack(contents, Item(le.key, le.value, le.expires));
    }

    method MaybeDeleteOldest(now: int)
      requires Valid()
      modifies this
      ensures Valid() && contents == LruSpec.MaybeDeleteOldest(config, old(contents), now)
      ensures forall e :: e in lru ==> e in old(lru)
    {
      if config.Ages() {
        while lru != [] && lru[0].expires <= now
          invariant Valid()
          invariant DropExpired(contents, now) == DropExpired(old(contents), now)
          invariant forall e :: e in lru ==> e in old(lru)
          decreases |lru|
        {
          IndexIsFind(lru[0].key);
          FindUnique(contents, lru[0].key, 0);
          assert Remove(contents, lru[0].key) == contents[1..];
          DeleteElement(lru[0]);
        }
      }
    }

    /** `Set`: stores under the key, as the most recent entry, for the configured age. */
    method Set(key: K, value: V, now: int)
      requires Valid()
      modifies this, EntryOf(key)
      ensures Valid()
      ensures contents == SetItem(config, old(contents), Item(key, value, Expires(config, now)), now)
      ensures forall e :: e in lru ==> e in old(lru) || fresh(e)
    {
      SetWithExpire(key, value, Expires(config, now), now);
    }

    method SetWithExpire(key: K, value: V, expires: int, now: int)
      requires Valid()
      modifies this, EntryOf(key)
      ensures Valid()
      ensures contents == SetItem(config, old(contents), Item(key, value, expires), now)
      ensures forall e :: e in lru ==> e in old(lru) || fresh(e)
    {
      Store(key, value, expires);
      MaybeDeleteOldest(now);
    }

    /** Overwrites the entry of the key and moves it to the back, or adds a new one there. */
    method Store(key: K, value: V, expires: int)
      requires Valid()
      modifies this, EntryOf(key)
      ensures Valid()
      ensures var it := Item(key, value, expires);
              contents == if Has(old(contents), key) then MoveToBack(old(contents), it)
                          else Evict(config, old(contents) + [it])
      ensures forall e :: e in lru ==> e in old(lru) || fresh(e)
    {
      IndexIsFind(key);
      if key in cache {
        var le := cache[key];
        ListMoveToBack(le);
        WriteBack(le, value, expires);
      } else {
        PushBack(key, value, expires);
      }
    }

    /** Overwrites the entry that was just moved to the back. */
    method WriteBack(le: Entry<K, V>, value: V, expires: int)
      requires Valid() && lru != [] && lru[|lru| - 1] == le
      modifies le, this`contents
      ensures Valid()
      ensures contents == old(contents)[..|lru| - 1] + [Item(le.key, value, expires)]
    {
      assert forall i :: 0 <= i < |lru| - 1 ==> lru[i] != le;
      le.value := value;
      le.expires := expires;
      contents := contents[..|lru| - 1] + [Item(le.key, value, expires)];
    }

    /** Appends a new entry and evicts the front one of a full cache. */
    method PushBack(key: K, value: V, expires: int)
      requires Valid() && key !in cache
      modifies this
      ensures Valid()
      ensures contents == Evict(config, old(contents) + [Item(key, value, expires)])
      ensures forall e :: e in lru ==> e in old(lru) || fresh(e)
    {
      var e := new Entry(key, value, expires);
      Append(e);
      if config.maxSize > 0 && |lru| > config.maxSize {
        FindUnique(contents, lru[0].key, 0);
        assert Remove(contents, lru[0].key) == contents[1..];
        DeleteElement(lru[0]);
      }
    }

    method Append(e: Entry<K, V>)
      requires Valid() && e.key !in cache
      modifies this
      ensures Valid() && contents == old(contents) + [Item(e.key, e.value, e.expires)]
      ensures lru == old(lru) + [e]
    {
      lru := lru + [e];
      cache := cache[e.key := e];
      contents := contents + [Item(e.key, e.value, e.expires)];
    }

    /** `get`: a hit becomes the most recent entry; an expired entry is dropped instead. */
    method Get(key: K, now: int) returns (r: Option<Entry<K, V>>)
      requires Valid()
      modifies this, if config.maxAge > 0 && config.updateAgeOnGet then EntryOf(key) else {}
      ensures Valid()
      ensures contents == GetList(config, old(contents), key, now)
      ensures match GetResult(config, old(contents), key, now)
              case None => r == None
              case Some(it) => r.Some? && r.value in lru && Item(r.value.key, r.value.value, r.value.expires) == it
      ensures r.Some? && config.Ages() ==>
                Has(old(contents), key) && old(contents)[Find(old(contents), key)].expires > now
      ensures forall e :: e in lru ==> e in old(lru)
    {
      IndexIsFind(key);
      if key !in cache {
        return None;
      }
      var le := cache[key];
      assert contents[Find(contents, key)] == Item(le.key, le.value, le.expires);
      if config.Ages() && le.expires <= now {
        DeleteElement(le);
        MaybeDeleteOldest(now);
        return None;
      }
      Refresh(le, now);
      r := Some(le);
    }

    /** A hit: to the back, with a new age if so configured. */
    method Refresh(le: Entry<K, V>, now: int)
      requires Valid() && le in lru
      modifies this`lru, this`contents, if config.maxAge > 0 && config.updateAgeOnGet then {le} else {}
      ensures Valid()
      ensures Item(le.key, le.value, le.expires) == Touched(config, old(Item(le.key, le.value, le.expires)), now)
      ensures contents == MoveToBack(old(contents), Item(le.key, le.value, le.expires))
      ensures forall e :: e in lru ==> e in old(lru)
    {
      ListMoveToBack(le);
      if config.maxAge > 0 && config.updateAgeOnGet {
        WriteBack(le, le.value, now + config.maxAge);
      }
    }

    method Exist(key: K) returns (r: bool)
      requires Valid()
      ensures r <==> Has(contents, key)
    {
      IndexIsFind(key);
      r := key in cache;
    }

    method Delete(key: K)
      requires Valid()
      modifies this
      ensures Valid() && contents == Remove(old(contents), key)
      ensures forall e :: e in lru ==> e in old(lru)
    {
      IndexIsFind(key);
      if key in cache {
        DeleteElement(cache[key]);
      }
    }

    /** `CloneTo`: the target holds the very same entries in the same order. */
    method CloneTo(n: LruCache<K, V>)
      requires Valid() && n != this
      modifies n
      ensures n.Valid() && n.lru == lru && n.cache == cache && n.contents == contents
    {
      n.lru := [];
      n.cache := map[];
      for i := 0 to |lru|
        invariant n.lru == lru[..i]
        invariant Lists(n.cache, lru[..i])
      {
        assert lru[..i + 1] == lru[..i] + [lru[i]];
        ListsSnoc(n.cache, lru[..i], lru[i]);
        n.lru := n.lru + [lru[i]];
        n.cache := n.cache[lru[i].key := lru[i]];
      }
      assert lru[..|lru|] == lru;
      ListsAll(n.cache, cache, lru);
      n.contents := contents;
    }
  }

  /** The map holds exactly the listed entries, the last one of each key. */
  ghost predicate Lists<K, V>(cache: map<K, Entry<K, V>>, lru: seq<Entry<K, V>>) {
    && (forall k :: k in cache ==> cache[k] in lru && cache[k].key == k)
    && (forall e :: e in lru ==> e.key in cache)
  }

  lemma ListsSnoc<K, V>(cache: map<K, Entry<K, V>>, lru: seq<Entry<K, V>>, e: Entry<K, V>)
    requires Lists(cache, lru)
    ensures Lists(cache[e.key := e], lru + [e])
  {
  }

  lemma ListsAll<K, V>(copy: map<K, Entry<K, V>>, cache: map<K, Entry<K, V>>, lru: seq<Entry<K, V>>)
    requires Lists(copy, lru) && Agree(cache, lru)
    ensures copy == cache
  {
    forall k | k in copy ensures k in cache && copy[k] == cache[k] {
      var i :| 0 <= i < |lru| && lru[i] == copy[k];
    }
    forall k | k in cache ensures k in copy {
      assert cache[k] in lru;
    }
  }

  function Without<T(==)>(s: seq<T>, x: T): (r: seq<T>)
    requires x in s
  {
    if s[0] == x then s[1..] else [s[0]] + Without(s[1..], x)
  }

  lemma {:induction false} WithoutCuts<T>(s: seq<T>, i: nat)
    requires i < |s| && forall j :: 0 <= j < i ==> s[j] != s[i]
    ensures Without(s, s[i]) == s[..i] + s[i + 1..]
  {
    if i > 0 {
      WithoutCuts(s[1..], i - 1);
      assert s[1..][..i - 1] == s[1..i] && s[1..][i..] == s[i + 1..];
      assert [s[0]] + s[1..i] == s[..i];
    }
  }
}
