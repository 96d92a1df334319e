/** Trees of nodes listed by their path from the root, without looking into the nodes:
    `nodes` maps each path to its node, `kids` to the children that node holds. */
module PathTrees {

  ghost predicate Shape<L(!new), N>(nodes: map<seq<L>, N>, kids: map<seq<L>, map<L, N>>) {
    && nodes.Keys == kids.Keys && [] in nodes
    && (forall p, r :: p in nodes && r in nodes && p != r ==> nodes[p] != nodes[r])
    && (forall p {:trigger ParentListed(nodes, p)} :: p in nodes ==> ParentListed(nodes, p))
    && (forall p, k {:trigger ChildListed(nodes, kids, p, k)} :: p in nodes ==> ChildListed(nodes, kids, p, k))
  }

  ghost predicate ParentListed<L(!new), N>(nodes: map<seq<L>, N>, p: seq<L>) {
    p != [] ==> p[..|p| - 1] in nodes
  }

  /** Child `k` of node `p` exists exactly when its path is listed, and is the node listed. */
  ghost predicate ChildListed<L(!new), N>(nodes: map<seq<L>, N>, kids: map<seq<L>, map<L, N>>, p: seq<L>, k: L)
    requires p in kids
  {
    && (k in kids[p] <==> p + [k] in nodes)
    && (k in kids[p] ==> kids[p][k] == nodes[p + [k]])
  }

  /** Hanging a new leaf below `p` keeps the tree well formed. */
  lemma AddLeaf<L(!new), N>(nodes: map<seq<L>, N>, kids: map<seq<L>, map<L, N>>, p: seq<L>, part: L,
                      leaf: N)
    requires Shape(nodes, kids) && p in nodes && p + [part] !in nodes && leaf !in nodes.Values
    ensures Shape(nodes[p + [part] := leaf], kids[p := kids[p][part := leaf]][p + [part] := map[]])
  {
    var q := p + [part];
    var nodes', kids' := nodes[q := leaf], kids[p := kids[p][part := leaf]][q := map[]];
    forall x | x in nodes' ensures ParentListed(nodes', x) {
      assert x in nodes ==> ParentListed(nodes, x);
    }
    forall x, k | x in nodes' ensures ChildListed(nodes', kids', x, k) {
      assert (x + [k])[..|x|] == x && (x + [k])[|x|] == k && q[..|p|] == p;
      if x == q {
        assert x + [k] in nodes ==> ParentListed(nodes, x + [k]);
      } else {
        assert ChildListed(nodes, kids, x, k);
      }
    }
  }

  /** Dropping a child of `p` drops everything below it and keeps the tree well formed. */
  lemma DropChild<L(!new), N>(nodes: map<seq<L>, N>, kids: map<seq<L>, map<L, N>>, p: seq<L>, part: L)
    requires Shape(nodes, kids) && p in nodes
    ensures var nodes' := map x | x in nodes && !(p + [part] <= x) :: nodes[x];
            var kids' := map x | x in nodes' :: if x == p then kids[x] - {part} else kids[x];
            Shape(nodes', kids')
  {
    var q := p + [part];
    var nodes' := map x | x in nodes && !(q <= x) :: nodes[x];
    var kids' := map x | x in nodes' :: if x == p then kids[x] - {part} else kids[x];
    forall x | x in nodes' ensures ParentListed(nodes', x) {
      assert ParentListed(nodes, x);
    }
    forall x, k | x in nodes' ensures ChildListed(nodes', kids', x, k) {
      assert ChildListed(nodes, kids, x, k);
      assert (x + [k])[..|x|] == x && (x + [k])[|x|] == k;
      assert q <= x + [k] <==> x == p && k == part by {
        if q <= x + [k] {
          assert |q| == |x| + 1;
        }
      }
    }
  }

  /** Below a path that is not listed nothing is. */
  lemma NoneBelow<L(!new), N>(nodes: map<seq<L>, N>, kids: map<seq<L>, map<L, N>>, p: seq<L>, i: nat, k: nat)
    requires Shape(nodes, kids) && i <= k <= |p| && p[..i] !in nodes
    ensures p[..k] !in nodes
  {
    if i < k {
      NoneBelow(nodes, kids, p, i, k - 1);
      assert p[..k][..|p[..k]| - 1] == p[..k - 1];
      assert p[..k] in nodes ==> ParentListed(nodes, p[..k]);
    }
  }
}
