/** Which keys survive in a bounded cache without ageing, over every run without deletions. */
module LruSurvival {
  import opened LruSpec
  import opened LruRuns
  import opened Text

  /** The keys that were set or hit, in order. */
  function Touches<K(==), V>(c: Config, ops: seq<Op<K, V>>): seq<K> {
    if ops == [] then []
    else
      var init, op := ops[..|ops| - 1], ops[|ops| - 1];
      Touches(c, init) + if op.Writes() || Has(Run(c, [], init), op.key) then [op.key] else []
  }

  /** Distinct other keys touched after the last touch of `k`. */
  function TouchedSince<K(==)>(t: seq<K>, k: K): set<K> {
    if t == [] || t[|t| - 1] == k then {}
    else TouchedSince(t[..|t| - 1], k) + {t[|t| - 1]}
  }

  function Keys<K, V>(s: seq<Item<K, V>>): (r: seq<K>)
    ensures |r| == |s| && forall i :: 0 <= i < |s| ==> r[i] == s[i].key
  {
    seq(|s|, i requires 0 <= i < |s| => s[i].key)
  }

  function Drop<K(==)>(s: seq<K>, k: K): seq<K> {
    if s == [] then []
    else
      var rest := Drop(s[..|s| - 1], k);
      if s[|s| - 1] == k then rest else rest + [s[|s| - 1]]
  }

  /** Every touched key once, ordered by its last touch. */
  function Recent<K(==)>(t: seq<K>): seq<K> {
    if t == [] then [] else Drop(Recent(t[..|t| - 1]), t[|t| - 1]) + [t[|t| - 1]]
  }

  /** The last `n` elements. */
  function Keep<K>(s: seq<K>, n: nat): seq<K> {
    if s == [] || n == 0 then [] else Keep(s[..|s| - 1], n - 1) + [s[|s| - 1]]
  }

  lemma NoDupSnoc<K>(s: seq<K>, x: K)
    ensures NoDuplicates(s + [x]) <==> NoDuplicates(s) && x !in s
  {
    var t := s + [x];
    if NoDuplicates(t) {
      forall i | 0 <= i < |s| ensures s[i] != x {
        assert t[i] != t[|s|];
      }
      forall i, j | 0 <= i < j < |s| ensures s[i] != s[j] {
        assert t[i] != t[j];
      }
    }
  }

  lemma {:induction false} DropProps<K>(s: seq<K>, k: K)
    ensures forall x :: x in Drop(s, k) <==> x in s && x != k
    ensures k !in s ==> Drop(s, k) == s
    ensures NoDuplicates(s) ==> NoDuplicates(Drop(s, k))
  {
    if s != [] {
      var init, last := s[..|s| - 1], s[|s| - 1];
      assert s == init + [last];
      DropProps(init, k);
      NoDupSnoc(init, last);
      NoDupSnoc(Drop(init, k), last);
    }
  }

  lemma {:induction false} DropCuts<K>(s: seq<K>, k: K, i: nat)
    requires NoDuplicates(s) && i < |s| && s[i] == k
    ensures Drop(s, k) == s[..i] + s[i + 1..]
  {
    var init := s[..|s| - 1];
    if i == |s| - 1 {
      DropProps(init, k);
    } else {
      DropCuts(init, k, i);
    }
  }

  lemma {:induction false} SinceDrop<K>(s: seq<K>, x: K, k: K)
    requires x != k
    ensures TouchedSince(Drop(s, x), k) == TouchedSince(s, k) - {x}
  {
    if s != [] {
      var init, last := s[..|s| - 1], s[|s| - 1];
      SinceDrop(init, x, k);
      var d := Drop(init, x);
      assert (d + [last])[..|d|] == d;
    }
  }

  lemma {:induction false} RecentMembers<K>(t: seq<K>, k: K)
    ensures NoDuplicates(Recent(t)) && (k in Recent(t) <==> k in t)
  {
    if t != [] {
      var init, x := t[..|t| - 1], t[|t| - 1];
      assert t == init + [x];
      RecentMembers(init, k);
      DropProps(Recent(init), x);
      NoDupSnoc(Drop(Recent(init), x), x);
    }
  }

  /** `Recent` lists exactly the touched keys, and keeps what was touched after each. */
  lemma {:induction false} RecentOrder<K>(t: seq<K>, k: K)
    ensures NoDuplicates(Recent(t)) && (k in Recent(t) <==> k in t)
    ensures TouchedSince(Recent(t), k) == TouchedSince(t, k)
  {
    RecentMembers(t, k);
    if t != [] {
      var init, x := t[..|t| - 1], t[|t| - 1];
      RecentOrder(init, k);
      var d := Drop(Recent(init), x);
      assert (d + [x])[..|d|] == d;
      if x != k {
        SinceDrop(Recent(init), x, k);
      }
    }
  }

  lemma {:induction false} SinceMembers<K>(s: seq<K>, k: K)
    ensures forall x :: x in TouchedSince(s, k) ==> x in s
  {
    if s != [] {
      SinceMembers(s[..|s| - 1], k);
    }
  }

  /** A key is among the last `n` exactly when fewer than `n` keys follow it. */
  lemma {:induction false} KeepCounts<K>(s: seq<K>, n: nat, k: K)
    requires NoDuplicates(s)
    ensures k in Keep(s, n) <==> k in s && |TouchedSince(s, k)| < n
  {
    if s != [] && n > 0 {
      var init, last := s[..|s| - 1], s[|s| - 1];
      assert s == init + [last];
      KeepCounts(init, n - 1, k);
      SinceMembers(init, k);
      assert last !in init;
    }
  }

  lemma {:induction false} KeepProps<K>(s: seq<K>, n: nat)
    ensures forall x :: x in Keep(s, n) ==> x in s
    ensures |Keep(s, n)| == if |s| <= n then |s| else n
    ensures NoDuplicates(s) ==> NoDuplicates(Keep(s, n))
  {
    if s != [] && n > 0 {
      var init, last := s[..|s| - 1], s[|s| - 1];
      assert s == init + [last];
      KeepProps(init, n - 1);
      NoDupSnoc(init, last);
      NoDupSnoc(Keep(init, n - 1), last);
    }
  }

  /** What a full cache of size `n` still holds of `ks` once `k` takes a place at the back. */
  function Others<K(==)>(ks: seq<K>, k: K, n: nat): seq<K> {
    if k in ks then Drop(ks, k) else if |ks| < n || n == 0 then ks else ks[1..]
  }

  /** The effect of a touch on the keys of a cache of size `n`. */
  function TouchKeys<K(==)>(ks: seq<K>, k: K, n: nat): seq<K> {
    Others(ks, k, n) + [k]
  }

  /** Touching `k` commutes with keeping the last `n` keys. */
  lemma {:induction false} TouchKeep<K>(r: seq<K>, k: K, n: nat)
    requires NoDuplicates(r) && n > 0
    ensures Keep(Drop(r, k) + [k], n) == TouchKeys(Keep(r, n), k, n)
  {
    KeepDrop(r, k, n);
    var d := Drop(r, k);
    assert (d + [k])[..|d|] == d;
    KeepProps(r, n);
  }

  lemma {:induction false} KeepDrop<K>(r: seq<K>, k: K, n: nat)
    requires NoDuplicates(r) && n > 0
    ensures Keep(Drop(r, k), n - 1) == Others(Keep(r, n), k, n)
  {
    if r != [] {
      var init, x := r[..|r| - 1], r[|r| - 1];
      assert r == init + [x];
      NoDupSnoc(init, x);
      KeepSnoc(init, x, n);
      if x == k {
        KeepDropLast(init, k, n);
      } else {
        DropSnoc(init, x, k);
        if n > 1 {
          KeepDrop(init, k, n - 1);
          KeepSnoc(Drop(init, k), x, n - 1);
          OthersSnoc(Keep(init, n - 1), x, k, n);
        }
      }
    }
  }

  lemma KeepDropLast<K>(init: seq<K>, k: K, n: nat)
    requires k !in init && n > 0
    ensures Keep(Drop(init + [k], k), n - 1) == Others(Keep(init, n - 1) + [k], k, n)
  {
    var kept := Keep(init, n - 1);
    DropSnoc(init, k, k);
    DropAbsent(init, k);
    KeepProps(init, n - 1);
    DropSnoc(kept, k, k);
    DropAbsent(kept, k);
  }

  lemma DropAbsent<K>(s: seq<K>, k: K)
    requires k !in s
    ensures Drop(s, k) == s
  {
    DropProps(s, k);
  }

  lemma OthersSnoc<K>(ks: seq<K>, x: K, k: K, n: nat)
    requires x != k && n > 1
    ensures Others(ks + [x], k, n) == Others(ks, k, n - 1) + [x]
  {
    DropSnoc(ks, x, k);
  }

  lemma DropSnoc<K>(s: seq<K>, x: K, k: K)
    ensures Drop(s + [x], k) == Drop(s, k) + if x == k then [] else [x]
  {
    assert (s + [x])[..|s|] == s;
  }

  lemma KeepSnoc<K>(s: seq<K>, x: K, n: nat)
    requires n > 0
    ensures Keep(s + [x], n) == Keep(s, n - 1) + [x]
  {
    assert (s + [x])[..|s|] == s;
  }

  lemma KeysOfRemove<K, V>(s: seq<Item<K, V>>, k: K)
    requires Distinct(s)
    ensures Keys(Remove(s, k)) == Drop(Keys(s), k)
    ensures Has(s, k) <==> k in Keys(s)
  {
    var i := Find(s, k);
    if i < |s| {
      assert Keys(s)[i] == k;
      DropCuts(Keys(s), k, i);
    } else {
      DropProps(Keys(s), k);
    }
  }

  /** What a touch does to the keys of the cache. */
  lemma StepKeys<K, V>(c: Config, s: seq<Item<K, V>>, op: Op<K, V>)
    requires !c.Ages() && c.maxSize > 0 && Distinct(s) && |s| <= c.maxSize && !op.DeleteOp?
    ensures Distinct(Step(c, s, op)) && |Step(c, s, op)| <= c.maxSize
    ensures Keys(Step(c, s, op)) ==
              if op.Writes() || Has(s, op.key) then TouchKeys(Keys(s), op.key, c.maxSize) else Keys(s)
  {
    KeysOfRemove(s, op.key);
    if op.GetOp? {
      GetKeepsBound(c, s, op.key, op.now);
      if Has(s, op.key) {
        var it := Touched(c, s[Find(s, op.key)], op.now);
        assert Step(c, s, op) == Remove(s, op.key) + [it];
      }
    } else {
      SetKeepsBound(c, s, op.Written(c), op.now);
      StepSet(c, s, op.Written(c), op.now);
    }
  }

  lemma StepSet<K, V>(c: Config, s: seq<Item<K, V>>, it: Item<K, V>, now: int)
    requires !c.Ages() && c.maxSize > 0 && Distinct(s) && |s| <= c.maxSize
    ensures Keys(SetItem(c, s, it, now)) == TouchKeys(Keys(s), it.key, c.maxSize)
  {
    KeysOfRemove(s, it.key);
    KeysSnoc(Remove(s, it.key), it);
    KeysSnoc(s, it);
    KeysTail(s + [it]);
  }

  lemma KeysSnoc<K, V>(s: seq<Item<K, V>>, it: Item<K, V>)
    ensures Keys(s + [it]) == Keys(s) + [it.key]
  {
  }

  lemma KeysTail<K, V>(s: seq<Item<K, V>>)
    requires s != []
    ensures Keys(s[1..]) == Keys(s)[1..]
  {
  }

  /** Without ageing and deletions, the cache holds the most recently touched keys, in that order. */
  lemma {:induction false} RunIsRecent<K, V>(c: Config, ops: seq<Op<K, V>>)
    requires (c.maxAge <= 0 || c.staleReturn) && c.maxSize > 0 && NoDeletes(ops)
    ensures Distinct(Run(c, [], ops)) && |Run(c, [], ops)| <= c.maxSize
    ensures Keys(Run(c, [], ops)) == Keep(Recent(Touches(c, ops)), c.maxSize)
  {
    if ops != [] {
      var init, op := ops[..|ops| - 1], ops[|ops| - 1];
      RunIsRecent(c, init);
      StepKeys(c, Run(c, [], init), op);
      var t := Touches(c, init);
      RecentOrder(t, op.key);
      assert t + [] == t;
      if op.Writes() || Has(Run(c, [], init), op.key) {
        assert (t + [op.key])[..|t|] == t;
        TouchKeep(Recent(t), op.key, c.maxSize);
      }
    }
  }

  /** A key is in a bounded cache exactly when it was touched and since then fewer than
      `maxSize` distinct other keys were. */
  lemma Survival<K, V>(c: Config, ops: seq<Op<K, V>>, k: K)
    requires (c.maxAge <= 0 || c.staleReturn) && c.maxSize > 0 && NoDeletes(ops)
    ensures var t := Touches(c, ops);
            Has(Run(c, [], ops), k) <==> k in t && |TouchedSince(t, k)| < c.maxSize
  {
    RunIsRecent(c, ops);
    RecentOrder(Touches(c, ops), k);
    KeysOfRemove(Run(c, [], ops), k);
    KeepCounts(Recent(Touches(c, ops)), c.maxSize, k);
  }
}
