/** A walk that goes astray: a `*` alone, a key whose second part is the query's, and a dotted
    key. The search for a dot behind the `*` ends inside the second key. */
module DomainSetStray {
  import opened DomainSets
  import opened DomainSetWalks
  import opened Text

  ghost predicate StrayKeys(keys: seq<string>, alpha: char, beta: char, w: string) {
    && WILDCARD_BYTE < alpha < beta
    && (forall k :: k in keys <==> k in {"*", [alpha, 'a'] + w, [beta, '.', beta]})
  }

  // ---------------------------------------------------------------- the first nodes in level order

  lemma {:induction false} LessOneWay(a: string, b: string)
    requires Less(a, b)
    ensures !Less(b, a)
  {
    if a != "" && a[0] == b[0] {
      LessOneWay(a[1..], b[1..]);
    }
  }

  /** What comes right after node `m` in level order is the next node. */
  lemma NextNode(t: Tree, m: nat, p: string)
    requires IsEncoded(t) && m < |t.paths| && SomeKeyExtends(t.keys, p) && LevelLess(t.paths[m], p)
    requires forall x :: SomeKeyExtends(t.keys, x) ==> !(LevelLess(t.paths[m], x) && LevelLess(x, p))
    ensures m + 1 < |t.paths| && t.paths[m + 1] == p
  {
    var k :| 0 <= k < |t.paths| && t.paths[k] == p;
    NotBelowItself(p);
    if k < m && |p| == |t.paths[m]| {
      LessOneWay(t.paths[m], p);
    }
    assert m < k;
    assert t.paths[m + 1] in t.paths;
  }

  ghost predicate FirstNodes(t: Tree, alpha: char, beta: char)
    requires t.Encoded?
  {
    && |t.paths| >= 6 && t.paths[0] == "" && t.paths[1] == "*" && t.paths[2] == [alpha]
    && t.paths[3] == [beta] && t.paths[4] == [alpha, 'a'] && t.paths[5] == [beta, '.']
  }

  /** The prefixes of up to two bytes. */
  lemma ShortPrefixes(keys: seq<string>, alpha: char, beta: char, w: string)
    requires StrayKeys(keys, alpha, beta, w)
    ensures forall x :: |x| == 1 ==> (SomeKeyExtends(keys, x) <==> x in {"*", [alpha], [beta]})
    ensures forall x :: |x| == 2 ==> (SomeKeyExtends(keys, x) <==> x in {[alpha, 'a'], [beta, '.']})
  {
    var star, long, dotted := "*", [alpha, 'a'] + w, [beta, '.', beta];
    assert star in keys && long in keys && dotted in keys;
    forall x: string | |x| == 1 ensures SomeKeyExtends(keys, x) <==> x in {"*", [alpha], [beta]} {
      assert x == [x[0]];
    }
    forall x: string | |x| == 2 ensures SomeKeyExtends(keys, x) <==> x in {[alpha, 'a'], [beta, '.']} {
      assert x == [x[0], x[1]];
    }
  }

  lemma ByteOrder(a: char, b: char)
    ensures Less([a], [b]) <==> a < b
  {
  }

  lemma TwoByteOrder(a: char, x: char, b: char, y: char)
    ensures Less([a, x], [b, y]) <==> a < b || (a == b && x < y)
  {
    assert [a, x][1..] == [x] && [b, y][1..] == [y];
    ByteOrder(x, y);
  }

  lemma FirstLevel(t: Tree, alpha: char, beta: char, w: string)
    requires IsEncoded(t) && StrayKeys(t.keys, alpha, beta, w)
    ensures |t.paths| >= 4 && t.paths[1] == "*" && t.paths[2] == [alpha] && t.paths[3] == [beta]
  {
    ShortPrefixes(t.keys, alpha, beta, w);
    forall x: string, y: string | |x| == 1 && |y| == 1 ensures LevelLess(x, y) <==> x[0] < y[0] {
      assert x == [x[0]] && y == [y[0]];
      ByteOrder(x[0], y[0]);
    }
    assert forall x: string :: LevelLess("", x) ==> |x| >= 1;
    NextNode(t, 0, "*");
    NextNode(t, 1, [alpha]);
    NextNode(t, 2, [beta]);
  }

  lemma SecondLevel(t: Tree, alpha: char, beta: char, w: string)
    requires IsEncoded(t) && StrayKeys(t.keys, alpha, beta, w)
    requires |t.paths| >= 4 && t.paths[3] == [beta]
    ensures |t.paths| >= 6 && t.paths[4] == [alpha, 'a'] && t.paths[5] == [beta, '.']
  {
    ShortPrefixes(t.keys, alpha, beta, w);
    TwoByteOrder(alpha, 'a', beta, '.');
    TwoByteOrder(beta, '.', alpha, 'a');
    NotBelowItself([alpha, 'a']);
    NotBelowItself([beta, '.']);
    forall x: string | |x| == 1 && SomeKeyExtends(t.keys, x) ensures !LevelLess([beta], x) {
      assert x == [x[0]];
      ByteOrder(beta, x[0]);
    }
    NextNode(t, 3, [alpha, 'a']);
    NextNode(t, 4, [beta, '.']);
  }

  /** Only the second node owns the bit of the fifth edge. */
  lemma FirstBlocks(t: Tree, alpha: char, beta: char)
    requires IsEncoded(t) && FirstNodes(t, alpha, beta) && '*' < alpha < beta
    ensures t.starts[1] == 4 && IsEdge(t.starts, 2, 5)
    ensures t.ss.labels[3] == 'a' && t.ss.labels[4] == '.'
  {
    var n3 := ParentIs(t, 3);
    var n4 := ParentIs(t, 4);
    var n5 := ParentIs(t, 5);
    SamePlace(t.keys, t.paths, n3, 0);
    SamePlace(t.keys, t.paths, n4, 2);
    SamePlace(t.keys, t.paths, n5, 3);
  }

  lemma ParentIs(t: Tree, c: nat) returns (n: nat)
    requires IsEncoded(t) && 1 <= c < |t.paths|
    ensures n < |t.paths| && t.starts[n] <= c < t.starts[n + 1]
    ensures t.paths[c] == t.paths[n] + [t.ss.labels[c - 1]]
    ensures t.paths[n] == t.paths[c][..|t.paths[c]| - 1]
  {
    n := Owner(t.starts, |t.paths|, |t.paths|, c);
    assert ChildrenOf(t.keys, t.paths, t.starts, t.ss.labels, n);
  }

  lemma {:induction false} Owner(starts: seq<nat>, count: nat, upto: nat, c: nat) returns (n: nat)
    requires GoodStarts(starts, count) && upto <= count && 1 <= c < starts[upto]
    ensures n < upto && starts[n] <= c < starts[n + 1]
  {
    if c < starts[upto - 1] {
      n := Owner(starts, count, upto - 1, c);
    } else {
      n := upto - 1;
    }
  }

  // ---------------------------------------------------------------- the walk

  /** From the `*` node the search for a dot leads into the second key. */
  lemma JumpsIntoKey(t: Tree, alpha: char, beta: char, w: string)
    requires IsEncoded(t) && JumpsOnBits(t) && StrayKeys(t.keys, alpha, beta, w)
    ensures t.jump("*") == To([alpha, 'a'])
  {
    FirstLevel(t, alpha, beta, w);
    SecondLevel(t, alpha, beta, w);
    FirstBlocks(t, alpha, beta);
    ListedOnce(t, 1);
    assert BlockStart(t.starts, 1) == 4;
    assert FirstDot(t.ss, 1, 4) == 5;
    var c := Behind(t.ss, t.keys, t.paths, t.starts, 2, 5);
    BlockReads(t.ss, t.keys, t.paths, t.starts, 2, 5);
  }

  /** Where the rest of the query is the rest of a key, the walk ends in a yes. */
  lemma {:induction false} FollowsKey(t: Tree, k: string, m: nat, q: string, i: nat)
    requires k in t.keys && m <= |k| && i <= |q| && k[m..] == q[i..] && WILDCARD_BYTE !in q
    ensures Find(t, k[..m], q, i) == Yes
    decreases |q| - i
  {
    if i == |q| {
      assert |k[m..]| == 0 && k[..m] == k;
    } else {
      assert k[m] == k[m..][0] == q[i..][0] == q[i];
      assert k[m + 1..] == k[m..][1..] == q[i..][1..] == q[i + 1..];
      assert k[..m] + [q[i]] == k[..m + 1] && k[..m + 1] <= k;
      FollowsKey(t, k, m + 1, q, i + 1);
    }
  }

  /** No key starts like the query, so the walk comes back to the `*` at once. */
  lemma BackAtRoot(t: Tree, alpha: char, beta: char, w: string, q: string)
    requires StrayKeys(t.keys, alpha, beta, w) && '+' < alpha
    requires q != "" && q[0] !in {alpha, beta, WILDCARD_BYTE}
    ensures Forward(t, "", q, 0) == Back && StarPassed(t.keys, "", q[0])
  {
    ShortPrefixes(t.keys, alpha, beta, w);
    assert "" + [q[0]] == [q[0]] && "" + ['+'] == "+" && "" + ['*'] == "*";
  }

  lemma NextDotAfter(u: string, w: string)
    requires '.' !in u
    ensures NextDot(u + "." + w, 0) == |u| && (u + "." + w)[|u| + 1..] == w
  {
    var q := u + "." + w;
    assert q[|u|] == '.' && forall k :: 0 <= k < |u| ==> q[k] == u[k];
  }

  /** The set says yes to `u.w`, whatever `u` is, as long as it starts like none of the keys. */
  lemma StrayWalk(t: Tree, alpha: char, beta: char, u: string, w: string)
    requires IsEncoded(t) && JumpsOnBits(t) && StrayKeys(t.keys, alpha, beta, w) && '+' < alpha
    requires u != "" && '.' !in u && u[0] !in {alpha, beta} && WILDCARD_BYTE !in u + "." + w
    ensures Find(t, "", u + "." + w, 0) == Yes
  {
    var q, key := u + "." + w, [alpha, 'a'] + w;
    assert q[0] == u[0] && q[0] in q;
    BackAtRoot(t, alpha, beta, w, q);
    JumpsIntoKey(t, alpha, beta, w);
    NextDotAfter(u, w);
    assert key[2..] == w && key[..2] == [alpha, 'a'];
    FollowsKey(t, key, 2, q, |u| + 1);
    assert "" + [WILDCARD_BYTE] == "*";
  }
}
