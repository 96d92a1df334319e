/** The CIDR trie: one tree of marked nodes per address family. */
module IpCidrTries {
  import opened Bytes
  import opened CidrSpec
  import opened Wrappers
  import opened PathTrees

  const IPV4_GROUP_MAX_VALUE := 0xFF
  const IPV6_GROUP_MAX_VALUE := 0xFFFF

  type Path = seq<nat>

  class IpCidrNode {
    var mark: bool
    var child: map<nat, IpCidrNode>
    const maxValue: nat

    constructor (mark: bool, maxValue: nat)
      ensures this.mark == mark && child == map[] && this.maxValue == maxValue
    {
      this.mark, child, this.maxValue := mark, map[], maxValue;
    }

    method AddChild(value: nat) returns (ok: bool)
      modifies this`child
      ensures ok <==> value <= maxValue
      ensures !ok ==> child == old(child)
      ensures ok ==> value in child && child == old(child)[value := child[value]] && fresh(child[value])
      ensures ok ==> !child[value].mark && child[value].child == map[] && child[value].maxValue == maxValue
    {
      if value > maxValue {
        return false;
      }
      var node := new IpCidrNode(false, maxValue);
      child := child[value := node];
      return true;
    }

    predicate HasChild(value: nat)
      reads this
    {
      GetChild(value) != null
    }

    function GetChild(value: nat): IpCidrNode?
      reads this
    {
      if value <= maxValue && value in child then child[value] else null
    }
  }

  // ---------------------------------------------------------------- the abstract view

  ghost function KidsOf(nodes: map<Path, IpCidrNode>): map<Path, map<nat, IpCidrNode>>
    reads nodes.Values
  {
    map p | p in nodes :: nodes[p].child
  }

  ghost function MarkedOf(nodes: map<Path, IpCidrNode>): set<Path>
    reads nodes.Values
  {
    set p | p in nodes && nodes[p].mark
  }

  /** Every added prefix has a marked node on its path, and every marked node was added. */
  ghost predicate MarksFit(marked: set<Path>, added: set<Path>) {
    && [] !in marked && marked <= added
    && forall p {:trigger HasMarkedPrefix(marked, p)} :: p in added ==> HasMarkedPrefix(marked, p)
  }

  ghost predicate HasMarkedPrefix(marked: set<Path>, p: Path) {
    exists k {:trigger MarkedAt(marked, p, k)} :: MarkedAt(marked, p, k)
  }

  ghost predicate MarkedAt(marked: set<Path>, p: Path, k: int) {
    0 < k <= |p| && p[..k] in marked
  }

  /** Some added prefix leads to the values. */
  ghost predicate Hits(added: set<Path>, values: seq<nat>) {
    exists p :: p in added && p <= values
  }

  lemma MarkedPrefixIsHit(marked: set<Path>, added: set<Path>, values: seq<nat>)
    requires MarksFit(marked, added)
    ensures Hits(added, values) <==> HasMarkedPrefix(marked, values)
  {
    if Hits(added, values) {
      var p :| p in added && p <= values;
      assert HasMarkedPrefix(marked, p);
      var k :| MarkedAt(marked, p, k);
      assert values[..k] == p[..k];
      assert MarkedAt(marked, values, k);
    }
    if HasMarkedPrefix(marked, values) {
      var k :| MarkedAt(marked, values, k);
      assert values[..k] <= values;
    }
  }

  /** Marking `p` accounts for it. */
  lemma MarkFits(marked: set<Path>, added: set<Path>, p: Path)
    requires MarksFit(marked, added) && p != []
    ensures MarksFit(marked + {p}, added + {p})
  {
    forall a | a in added + {p} ensures HasMarkedPrefix(marked + {p}, a) {
      if a == p {
        assert p[..|p|] == p;
        assert MarkedAt(marked + {p}, p, |p|);
      } else {
        assert HasMarkedPrefix(marked, a);
        var k :| MarkedAt(marked, a, k);
        assert MarkedAt(marked + {p}, a, k);
      }
    }
  }

  /** A prefix below a marked path is accounted for. */
  lemma MarkedAbove(marked: set<Path>, added: set<Path>, p: Path, q: Path)
    requires MarksFit(marked, added) && p in marked && p <= q
    ensures MarksFit(marked, added + {q})
  {
    assert q[..|p|] == p;
    assert MarkedAt(marked, q, |p|);
  }

  /** Whatever lies below a marked path may lose its marks. */
  lemma DropKeepsMarks(marked: set<Path>, added: set<Path>, p: Path, kept: set<Path>)
    requires MarksFit(marked, added) && p in marked && p in kept && kept <= marked
    requires forall x :: x in marked && x !in kept ==> p <= x
    ensures MarksFit(kept, added)
  {
    forall a | a in added ensures HasMarkedPrefix(kept, a) {
      assert HasMarkedPrefix(marked, a);
      var k :| MarkedAt(marked, a, k);
      if a[..k] in kept {
        assert MarkedAt(kept, a, k);
      } else {
        assert p <= a[..k];
        assert a[..|p|] == p;
        assert MarkedAt(kept, a, |p|);
      }
    }
  }

  // ---------------------------------------------------------------- one address family

  /** The tree of one family, below its root node. */
  class GroupTrie {
    const root: IpCidrNode
    const maxValue: nat
    ghost var nodes: map<Path, IpCidrNode>
    ghost var added: set<Path>

    ghost predicate Tree()
      reads this, nodes.Values
    {
      && Shape(nodes, KidsOf(nodes)) && nodes[[]] == root
      && (forall p :: p in nodes ==> nodes[p].maxValue == maxValue)
    }

    ghost predicate Valid()
      reads this, nodes.Values
    {
      Tree() && MarksFit(MarkedOf(nodes), added)
    }

    constructor (maxValue: nat)
      ensures Valid() && added == {} && this.maxValue == maxValue && fresh(nodes.Values)
    {
      root := new IpCidrNode(false, maxValue);
      this.maxValue := maxValue;
      new;
      nodes, added := map[[] := root], {};
    }

    /** Adds the first `count` values as a prefix; stops early at a node already marked. */
    method Add(values: seq<nat>, count: nat)
      requires Valid() && 1 <= count <= |values|
      requires forall j :: 0 <= j < |values| ==> values[j] <= maxValue
      modifies this, nodes.Values
      ensures Valid() && fresh(nodes.Values - old(nodes.Values))
      ensures added == old(added) + {values[..count]}
    {
      var node := Step(root, [], values[0]);
      assert [] + [values[0]] == values[..1];
      for i := 1 to count
        invariant Valid() && fresh(nodes.Values - old(nodes.Values)) && added == old(added)
        invariant values[..i] in nodes && nodes[values[..i]] == node
      {
        if node.mark {
          AddBelowMark(values[..i], values[..count]);
          return;
        }
        assert values[..i] + [values[i]] == values[..i + 1];
        node := Step(node, values[..i], values[i]);
      }
      MarkAndClean(node, values[..count]);
    }

    method MarkAndClean(node: IpCidrNode, ghost p: Path)
      requires Valid() && p in nodes && nodes[p] == node && p != []
      modifies this, nodes.Values
      ensures Valid() && nodes.Values <= old(nodes.Values)
      ensures added == old(added) + {p}
    {
      Mark(node, p);
      CleanChild(node, p);
    }

    /** A prefix below a marked one changes nothing. */
    ghost method AddBelowMark(p: Path, q: Path)
      requires Valid() && p in nodes && nodes[p].mark && p <= q
      modifies this`added
      ensures Valid() && added == old(added) + {q}
    {
      ghost var marked := MarkedOf(nodes);
      MarkedAbove(marked, added, p, q);
      added := added + {q};
    }

    /** One level down, adding the node if it is missing. */
    method Step(node: IpCidrNode, ghost p: Path, value: nat) returns (next: IpCidrNode)
      requires Valid() && p in nodes && nodes[p] == node && value <= maxValue
      modifies this`nodes, node
      ensures Valid() && fresh(nodes.Values - old(nodes.Values))
      ensures p + [value] in nodes && nodes[p + [value]] == next
    {
      assert ChildListed(nodes, KidsOf(nodes), p, value);
      if node.HasChild(value) {
        next := node.GetChild(value);
      } else {
        next := NewChild(node, p, value);
      }
    }

    method NewChild(node: IpCidrNode, ghost p: Path, value: nat) returns (next: IpCidrNode)
      requires Valid() && p in nodes && nodes[p] == node && value <= maxValue && p + [value] !in nodes
      modifies this`nodes, node
      ensures Valid() && fresh(nodes.Values - old(nodes.Values))
      ensures p + [value] in nodes && nodes[p + [value]] == next
    {
      ghost var kids, marked := KidsOf(nodes), MarkedOf(nodes);
      var ok := node.AddChild(value);
      next := node.GetChild(value);
      ListLeaf(kids, p, value, next);
      assert MarkedOf(nodes) == marked;
    }

    ghost method ListLeaf(kids: map<Path, map<nat, IpCidrNode>>, p: Path, value: nat, leaf: IpCidrNode)
      requires Shape(nodes, kids) && p in nodes && p + [value] !in nodes && nodes[[]] == root
      requires leaf !in nodes.Values && !leaf.mark && leaf.child == map[]
      requires nodes[p].child == kids[p][value := leaf]
      requires forall x :: x in nodes && x != p ==> nodes[x].child == kids[x]
      modifies this`nodes
      ensures nodes == old(nodes)[p + [value] := leaf]
      ensures Shape(nodes, KidsOf(nodes)) && nodes[[]] == root
    {
      AddLeaf(nodes, kids, p, value, leaf);
      nodes := nodes[p + [value] := leaf];
      var grown: map<nat, IpCidrNode> := kids[p][value := leaf];
      assert KidsOf(nodes) == kids[p := grown][p + [value] := map[]];
    }

    method Mark(node: IpCidrNode, ghost p: Path)
      requires Valid() && p in nodes && nodes[p] == node && p != []
      modifies this`added, node`mark
      ensures Valid() && node.mark && added == old(added) + {p}
    {
      ghost var kids, marked := KidsOf(nodes), MarkedOf(nodes);
      node.mark := true;
      added := added + {p};
      assert KidsOf(nodes) == kids;
      assert MarkedOf(nodes) == marked + {p};
      MarkFits(marked, old(added), p);
    }

    /** Deletes children 0, 1, … while the index is below the number of children left. */
    method CleanChild(node: IpCidrNode, ghost p: Path)
      requires Valid() && p in nodes && nodes[p] == node && node.mark
      modifies this`nodes, node`child
      ensures Valid() && nodes.Values <= old(nodes.Values) && p in nodes && nodes[p] == node
    {
      var i := 0;
      while i < |node.child|
        invariant Valid() && p in nodes && nodes[p] == node && node.mark
        invariant nodes.Values <= old(nodes.Values)
        decreases |node.child| - i
      {
        DeleteChild(node, p, i);
        i := i + 1;
      }
    }

    method DeleteChild(node: IpCidrNode, ghost p: Path, value: nat)
      requires Valid() && p in nodes && nodes[p] == node && node.mark
      modifies this`nodes, node`child
      ensures Valid() && nodes.Values <= old(nodes.Values) && p in nodes && nodes[p] == node
      ensures node.child == old(node.child) - {value} && |node.child| <= |old(node.child)|
    {
      ghost var kids, marked := KidsOf(nodes), MarkedOf(nodes);
      node.child := node.child - {value};
      FewerKeys(old(node.child), value);
      Unlist(kids, p, value);
      DropKeepsMarks(marked, added, p, MarkedOf(nodes));
    }

    ghost method Unlist(kids: map<Path, map<nat, IpCidrNode>>, p: Path, value: nat)
      requires Shape(nodes, kids) && p in nodes && nodes[[]] == root
      requires nodes[p].child == kids[p] - {value}
      requires forall x :: x in nodes && x != p ==> nodes[x].child == kids[x]
      modifies this`nodes
      ensures nodes == map x | x in old(nodes) && !(p + [value] <= x) :: old(nodes)[x]
      ensures Shape(nodes, KidsOf(nodes)) && nodes[[]] == root
    {
      DropChild(nodes, kids, p, value);
      nodes := map x | x in nodes && !(p + [value] <= x) :: nodes[x];
      assert KidsOf(nodes) == map x | x in nodes :: if x == p then kids[x] - {value} else kids[x];
    }

    /** The first marked node on the way down, if any. */
    method Search(values: seq<nat>) returns (r: IpCidrNode?)
      requires Valid() && values != []
      requires forall j :: 0 <= j < |values| ==> values[j] <= maxValue
      ensures r != null <==> Hits(added, values)
    {
      ghost var marked := MarkedOf(nodes);
      MarkedPrefixIsHit(marked, added, values);
      assert ChildListed(nodes, KidsOf(nodes), [], values[0]);
      assert [] + [values[0]] == values[..1];
      var node := root.GetChild(values[0]);
      if node == null {
        NothingBelow(values, 1);
        return null;
      }
      if node.mark {
        assert MarkedAt(marked, values, 1);
        return node;
      }
      for i := 1 to |values|
        invariant values[..i] in nodes && nodes[values[..i]] == node
        invariant forall k {:trigger MarkedAt(marked, values, k)} :: k <= i ==> !MarkedAt(marked, values, k)
      {
        assert ChildListed(nodes, KidsOf(nodes), values[..i], values[i]);
        assert values[..i] + [values[i]] == values[..i + 1];
        if !node.HasChild(values[i]) {
          NothingBelow(values, i + 1);
          return null;
        }
        node := node.GetChild(values[i]);
        if node.mark {
          assert MarkedAt(marked, values, i + 1);
          return node;
        }
      }
      return null;
    }

    lemma NothingBelow(values: seq<nat>, i: nat)
      requires Tree() && i <= |values| && values[..i] !in nodes
      ensures forall k {:trigger MarkedAt(MarkedOf(nodes), values, k)} ::
                i <= k ==> !MarkedAt(MarkedOf(nodes), values, k)
    {
      forall k | i <= k <= |values| ensures values[..k] !in nodes {
        NoneBelow(nodes, KidsOf(nodes), values, i, k);
      }
    }
  }

  lemma FewerKeys<V>(m: map<nat, V>, k: nat)
    ensures |m - {k}| <= |m|
  {
    assert (m - {k}).Keys == m.Keys - {k};
    assert |m.Keys - {k}| <= |m.Keys|;
  }

  // ---------------------------------------------------------------- both families

  /** The prefixes that a network's split addresses add. */
  ghost function MarkedPaths(n: Net, isIpv4: bool, count: nat): set<Path>
    requires ValidNet(n, isIpv4)
  {
    set i | 0 <= i < count :: MarkedPath(n, isIpv4, i)
  }

  /** One of the networks covers the address. */
  ghost predicate CoveredByAny(nets: set<Net>, isIpv4: bool, x: seq<byte>)
    requires |x| == FamilyBytes(isIpv4)
  {
    exists n :: n in nets && ValidNet(n, isIpv4) && Covered(n, isIpv4, x)
  }

  /** The added prefixes accept exactly what the networks cover. */
  ghost predicate PrefixesFit(added: set<Path>, nets: set<Net>, isIpv4: bool) {
    forall x: seq<byte> {:trigger CoveredByAny(nets, isIpv4, x)} :: |x| == FamilyBytes(isIpv4) ==>
      (Hits(added, Groups(x, isIpv4)) <==> CoveredByAny(nets, isIpv4, x))
  }

  lemma AddedNetFits(added: set<Path>, nets: set<Net>, isIpv4: bool, n: Net)
    requires ValidNet(n, isIpv4) && PrefixesFit(added, nets, isIpv4)
    ensures PrefixesFit(added + MarkedPaths(n, isIpv4, SubCount(n, isIpv4)), nets + {n}, isIpv4)
  {
    var paths := MarkedPaths(n, isIpv4, SubCount(n, isIpv4));
    forall x: seq<byte> | |x| == FamilyBytes(isIpv4)
      ensures Hits(added + paths, Groups(x, isIpv4)) <==> CoveredByAny(nets + {n}, isIpv4, x)
    {
      var g := Groups(x, isIpv4);
      CoveredByMark(n, isIpv4, x);
      assert Hits(paths, g) <==> Covered(n, isIpv4, x) by {
        if Covered(n, isIpv4, x) {
          var i :| 0 <= i < SubCount(n, isIpv4) && MarkedPath(n, isIpv4, i) <= g;
          assert MarkedPath(n, isIpv4, i) in paths;
        }
      }
      assert Hits(added + paths, g) <==> Hits(added, g) || Hits(paths, g);
      assert CoveredByAny(nets + {n}, isIpv4, x) <==> CoveredByAny(nets, isIpv4, x) || Covered(n, isIpv4, x);
    }
  }

  lemma NothingFits(isIpv4: bool)
    ensures PrefixesFit({}, {}, isIpv4)
  {
  }

  /** What walking one split address adds. */
  lemma NextMarkedPath(n: Net, isIpv4: bool, i: nat)
    requires ValidNet(n, isIpv4)
    ensures NewMaskSize(n, isIpv4) / 8 <= |SubIp(n, isIpv4, i)| == FamilyBytes(isIpv4)
    ensures NewMaskSize(n, isIpv4) / 8 % GroupBytes(isIpv4) == 0
    ensures WalkedPath(SubIp(n, isIpv4, i), isIpv4, NewMaskSize(n, isIpv4) / 8) == MarkedPath(n, isIpv4, i)
    ensures MarkedPaths(n, isIpv4, i + 1) == MarkedPaths(n, isIpv4, i) + {MarkedPath(n, isIpv4, i)}
  {
    CoveredBytesFit(n, isIpv4);
    assert NewMaskSize(n, isIpv4) / 8 / GroupBytes(isIpv4) == NewMaskSize(n, isIpv4) / (8 * GroupBytes(isIpv4));
  }

  /** The groups of the first `groupSize` bytes, and one group at least. */
  function WalkedPath(ip: seq<byte>, isIpv4: bool, groupSize: nat): (p: Path)
    requires |ip| == FamilyBytes(isIpv4) && groupSize <= |ip|
    ensures p != []
  {
    Groups(ip, isIpv4)[..if groupSize < GroupBytes(isIpv4) then 1 else groupSize / GroupBytes(isIpv4)]
  }

  function MaxValue(isIpv4: bool): nat {
    if isIpv4 then IPV4_GROUP_MAX_VALUE else IPV6_GROUP_MAX_VALUE
  }

  /** The addresses of a split network, one for each value of the host bits in its last byte. */
  method SubIpCidr(n: Net, isIpv4: bool) returns (subs: seq<seq<byte>>, newMaskSize: nat)
    requires ValidNet(n, isIpv4)
    ensures |subs| == SubCount(n, isIpv4)
    ensures forall i :: 0 <= i < |subs| ==> subs[i] == SubIp(n, isIpv4, i)
    ensures newMaskSize == NewMaskSize(n, isIpv4)
  {
    var groupSize := if isIpv4 then 8 else 16;
    if n.maskSize % groupSize == 0 {
      return [n.ip], n.maskSize;
    }
    var lastByteMaskSize := n.maskSize % 8;
    var lastByteMaskIndex := n.maskSize / 8;
    subs := [];
    for i := 0 to Shifted(lastByteMaskSize) + 1
      invariant |subs| == i
      invariant forall k :: 0 <= k < i ==> subs[k] == SubIp(n, isIpv4, k)
    {
      subs := subs + [n.ip[lastByteMaskIndex := (n.ip[lastByteMaskIndex] + i) % 256]];
    }
    newMaskSize := (lastByteMaskIndex + 1) * 8;
    if !isIpv4 {
      newMaskSize := (lastByteMaskIndex / 2 + 1) * 16;
    }
  }

  method GroupValues(ip: seq<byte>, isIpv4: bool) returns (values: seq<nat>)
    requires |ip| == FamilyBytes(isIpv4)
    ensures values == Groups(ip, isIpv4)
    ensures forall j :: 0 <= j < |values| ==>
              values[j] <= MaxValue(isIpv4)
  {
    values := [];
    var i := 0;
    while i < |ip|
      invariant i <= |ip| && i == |values| * GroupBytes(isIpv4)
      invariant values == Groups(ip, isIpv4)[..|values|]
    {
      values := values + [if isIpv4 then ip[i] else U16(ip[i], ip[i + 1])];
      i := i + GroupBytes(isIpv4);
    }
  }

  /** One family's tree with the networks added to it. */
  class FamilyTrie {
    const isIpv4: bool
    const trie: GroupTrie
    ghost var nets: set<Net>

    /** Everything the tree consists of. */
    ghost function Repr(): set<object>
      reads trie
    {
      {this, trie} + trie.nodes.Values
    }

    ghost predicate Valid()
      reads trie, Repr()
    {
      && trie.maxValue == MaxValue(isIpv4) && trie.Valid()
      && PrefixesFit(trie.added, nets, isIpv4)
    }

    constructor (isIpv4: bool)
      ensures Valid() && nets == {} && this.isIpv4 == isIpv4
      ensures fresh(Repr())
    {
      this.isIpv4 := isIpv4;
      trie := new GroupTrie(MaxValue(isIpv4));
      nets := {};
      NothingFits(isIpv4);
    }

    method AddNet(n: Net)
      requires Valid() && ValidNet(n, isIpv4)
      modifies Repr()
      ensures Valid() && nets == old(nets) + {n}
      ensures fresh(Repr() - old(Repr()))
    {
      AddedNetFits(trie.added, nets, isIpv4, n);
      var subs, newMaskSize := SubIpCidr(n, isIpv4);
      AddSubs(n, subs, newMaskSize);
      nets := nets + {n};
    }

    method AddSubs(ghost n: Net, subs: seq<seq<byte>>, newMaskSize: nat)
      requires trie.Valid() && trie.maxValue == MaxValue(isIpv4) && ValidNet(n, isIpv4)
      requires newMaskSize == NewMaskSize(n, isIpv4)
      requires forall i :: 0 <= i < |subs| ==> subs[i] == SubIp(n, isIpv4, i)
      modifies trie, trie.nodes.Values
      ensures trie.Valid() && fresh(trie.nodes.Values - old(trie.nodes.Values))
      ensures trie.added == old(trie.added) + MarkedPaths(n, isIpv4, |subs|)
    {
      for i := 0 to |subs|
        invariant trie.Valid() && fresh(trie.nodes.Values - old(trie.nodes.Values))
        invariant trie.added == old(trie.added) + MarkedPaths(n, isIpv4, i)
      {
        NextMarkedPath(n, isIpv4, i);
        AddIp(subs[i], newMaskSize / 8);
      }
    }

    /** Walks the address in steps of one group up to `groupSize` bytes, one group at least. */
    method AddIp(ip: seq<byte>, groupSize: nat)
      requires trie.Valid() && trie.maxValue == MaxValue(isIpv4)
      requires |ip| == FamilyBytes(isIpv4) && groupSize <= |ip|
      modifies trie, trie.nodes.Values
      ensures trie.Valid() && fresh(trie.nodes.Values - old(trie.nodes.Values))
      ensures trie.added == old(trie.added) + {WalkedPath(ip, isIpv4, groupSize)}
    {
      var values := GroupValues(ip, isIpv4);
      trie.Add(values, |WalkedPath(ip, isIpv4, groupSize)|);
    }

    method Contains(ip: seq<byte>) returns (r: bool)
      requires Valid() && |ip| == FamilyBytes(isIpv4)
      ensures r <==> CoveredByAny(nets, isIpv4, ip)
    {
      var values := GroupValues(ip, isIpv4);
      var node := trie.Search(values);
      return node != null;
    }
  }

  /** A new family's tree, apart from the objects that exist. */
  method NewFamilyTrie(isIpv4: bool, ghost others: set<object>) returns (t: FamilyTrie)
    ensures t.Valid() && t.nets == {} && t.isIpv4 == isIpv4
    ensures fresh(t.Repr()) && others !! t.Repr()
  {
    t := new FamilyTrie(isIpv4);
  }

  class IpCidrTrie {
    const ipv4Trie: FamilyTrie
    const ipv6Trie: FamilyTrie

    function Family(isIpv4: bool): FamilyTrie {
      if isIpv4 then ipv4Trie else ipv6Trie
    }

    ghost function Nets(isIpv4: bool): set<Net>
      reads Family(isIpv4)
    {
      Family(isIpv4).nets
    }

    ghost predicate Valid()
      reads ipv4Trie.trie, ipv6Trie.trie, ipv4Trie.Repr(), ipv6Trie.Repr()
    {
      && ipv4Trie.isIpv4 && !ipv6Trie.isIpv4 && ipv4Trie.Repr() !! ipv6Trie.Repr()
      && forall b: bool {:trigger Family(b)} :: Family(b).Valid()
    }

    constructor ()
      ensures Valid() && Nets(true) == {} && Nets(false) == {}
      ensures ipv4Trie.trie.maxValue == 0xFF && ipv6Trie.trie.maxValue == 0xFFFF
    {
      var v4 := new FamilyTrie(true);
      ghost var repr := v4.Repr();
      var v6 := NewFamilyTrie(false, repr);
      assert v4.Valid() && v4.Repr() == repr;
      ipv4Trie, ipv6Trie := v4, v6;
    }

    /** Adds a network in either notation of its address. */
    method AddIpCidr(n: Net)
      requires Valid()
      requires |n.ip| == 4 || (|n.ip| == 16 && IsMapped(n.ip)) ==> n.maskSize <= 32
      requires |n.ip| == 4 || (|n.ip| == 16 && n.maskSize <= 128)
      modifies ipv4Trie.Repr(), ipv6Trie.Repr()
      ensures Valid()
      ensures |n.ip| == 4 ==> Nets(true) == old(Nets(true)) + {n} && Nets(false) == old(Nets(false))
      ensures |n.ip| == 16 && IsMapped(n.ip) ==>
                Nets(true) == old(Nets(true)) + {Net(n.ip[12..], n.maskSize)} && Nets(false) == old(Nets(false))
      ensures |n.ip| == 16 && !IsMapped(n.ip) ==>
                Nets(false) == old(Nets(false)) + {n} && Nets(true) == old(Nets(true))
    {
      ConvertedIp(n.ip);
      var (ip, isIpv4) := CheckAndConvertIp(n.ip).value;
      Family(isIpv4).AddNet(Net(ip, n.maskSize));
      assert Family(!isIpv4).Valid();
    }

    /** Whether some added network of the address's family covers it. */
    method IsContain(ip: seq<byte>) returns (r: bool)
      requires Valid()
      ensures |ip| == 4 ==> (r <==> CoveredByAny(Nets(true), true, ip))
      ensures |ip| == 16 && IsMapped(ip) ==> (r <==> CoveredByAny(Nets(true), true, ip[12..]))
      ensures |ip| == 16 && !IsMapped(ip) ==> (r <==> CoveredByAny(Nets(false), false, ip))
      ensures |ip| != 4 && |ip| != 16 ==> !r
    {
      ConvertedIp(ip);
      var converted := CheckAndConvertIp(ip);
      if converted.None? {
        return false;
      }
      var (x, isIpv4) := converted.value;
      r := Family(isIpv4).Contains(x);
    }
  }

  /** The sixteen-byte form of an IPv4 address. */
  predicate IsMapped(ip: seq<byte>)
    requires |ip| == 16
  {
    (forall i :: 0 <= i < 10 ==> ip[i] == 0) && ip[10] == 255 && ip[11] == 255
  }

  lemma ConvertedIp(ip: seq<byte>)
    ensures |ip| == 4 ==> CheckAndConvertIp(ip) == Some((ip, true))
    ensures |ip| == 16 ==> CheckAndConvertIp(ip) == if IsMapped(ip) then Some((ip[12..], true)) else Some((ip, false))
    ensures |ip| != 4 && |ip| != 16 ==> CheckAndConvertIp(ip) == None
  {
    if |ip| == 16 {
      var mapped: seq<byte> := [0, 0, 0, 0, 0, 0, 0, 0, 0, 0, 255, 255];
      if IsMapped(ip) {
        assert ip[..12] == mapped;
      } else if ip[..12] == mapped {
        assert forall i :: 0 <= i < 12 ==> ip[i] == mapped[i];
      }
    }
  }

  function Mapped(x: seq<byte>): seq<byte>
    requires |x| == 4
  {
    [0, 0, 0, 0, 0, 0, 0, 0, 0, 0, 255, 255] + x
  }

  method AddMapped(t: IpCidrTrie, n: Net)
    requires t.Valid() && |n.ip| == 4 && n.maskSize <= 32
    modifies t.ipv4Trie.Repr(), t.ipv6Trie.Repr()
    ensures t.Valid() && n in t.Nets(true)
  {
    assert Mapped(n.ip)[12..] == n.ip;
    t.AddIpCidr(Net(Mapped(n.ip), n.maskSize));
  }

  method AskEither(t: IpCidrTrie, x: seq<byte>) returns (r: bool, mapped: bool)
    requires t.Valid() && |x| == 4
    ensures r == mapped && (r <==> CoveredByAny(t.Nets(true), true, x))
  {
    assert Mapped(x)[12..] == x;
    r := t.IsContain(x);
    mapped := t.IsContain(Mapped(x));
  }

  /** An IPv4 address and its sixteen-byte form get the same answer: whether the address lies in
      some added range, and not in the part left out of it. */
  method IsContainEither(t: IpCidrTrie, x: seq<byte>) returns (r: bool, mapped: bool)
    requires t.Valid() && |x| == 4 && forall n :: n in t.Nets(true) ==> ValidNet(n, true) && Masked(n)
    ensures r == mapped
    ensures r <==> exists n :: n in t.Nets(true) && |n.ip| == |x| && InNet(n, x) && !LeftOut(n, true, x)
  {
    UnionOfRanges(t.Nets(true), true, x);
    r, mapped := AskEither(t, x);
  }

  /** An IPv4 network added in the sixteen-byte form covers all of its range, in both forms. */
  method AddMappedThenAsk(t: IpCidrTrie, n: Net, x: seq<byte>) returns (r: bool, mapped: bool)
    requires t.Valid() && |n.ip| == 4 && 1 <= n.maskSize <= 32 && Masked(n) && |x| == 4 && InNet(n, x)
    modifies t.ipv4Trie.Repr(), t.ipv6Trie.Repr()
    ensures r && mapped
  {
    AddMapped(t, n);
    RangeIsCovered(t.Nets(true), n, x);
    r, mapped := AskEither(t, x);
  }

  lemma RangeIsCovered(nets: set<Net>, n: Net, x: seq<byte>)
    requires n in nets && |n.ip| == 4 && 1 <= n.maskSize <= 32 && Masked(n) && |x| == 4 && InNet(n, x)
    ensures CoveredByAny(nets, true, x)
  {
    NothingLeftOut(n, true);
  }

  // ---------------------------------------------------------------- a union of ranges

  /** Masked networks accept exactly the union of their ranges without what is left out: no
      address outside every range, and every address of a range whose length is exact. */
  lemma UnionOfRanges(nets: set<Net>, isIpv4: bool, x: seq<byte>)
    requires |x| == FamilyBytes(isIpv4)
    requires forall n :: n in nets ==> ValidNet(n, isIpv4) && Masked(n)
    ensures CoveredByAny(nets, isIpv4, x)
       <==> exists n :: n in nets && |n.ip| == |x| && InNet(n, x) && !LeftOut(n, isIpv4, x)
    ensures forall n :: n in nets && ExactLength(n.maskSize, isIpv4) && InNet(n, x) ==>
              CoveredByAny(nets, isIpv4, x)
  {
    forall n | n in nets
      ensures Covered(n, isIpv4, x) <==> InNet(n, x) && !LeftOut(n, isIpv4, x)
      ensures ExactLength(n.maskSize, isIpv4) && InNet(n, x) ==> Covered(n, isIpv4, x)
    {
      CoveredIsRange(n, isIpv4, x);
      NothingLeftOut(n, isIpv4);
    }
  }
}
