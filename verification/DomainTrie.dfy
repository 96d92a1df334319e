/** The label trie: nodes that keep one child inline or many in a map. The ghost map
    `nodes` names every node by its path and is the abstract view of the heap tree. */
module DomainTries {
  import opened Text
  import opened Wrappers
  import opened DomainPatterns
  import opened PathTrees

  class Node<T(0)> {
    var childMap: Option<map<string, Node<T>>>
    var childNode: Node?<T>
    var childStr: string
    var inited: bool
    var data: T

    constructor ()
      ensures Valid() && Kids() == map[] && !inited
    {
      childMap, childNode, childStr, inited := None, null, "", false;
    }

    /** The inline slot is used only while there is no map. */
    ghost predicate Valid()
      reads this
    {
      childMap.Some? ==> childNode == null
    }

    static function Single(s: string, child: Node<T>): map<string, Node<T>> {
      map[s := child]
    }

    /** The abstract child map, whichever representation holds it. */
    function Kids(): map<string, Node<T>>
      reads this
    {
      if childMap.Some? then childMap.value
      else if childNode != null then
        Single(childStr, childNode)
      else map[]
    }

    function GetChildren(): map<string, Node<T>>
      reads this
    {
      Kids()
    }

    function GetChild(s: string): (r: Node?<T>)
      reads this
      ensures r == if s in Kids() then Kids()[s] else null
    {
      if childMap.None? then
        if childNode != null && childStr == s then childNode else null
      else if s in childMap.value then childMap.value[s]
      else null
    }

    method AddChild(s: string, child: Node<T>)
      requires Valid()
      modifies this
      ensures Valid() && Kids() == old(Kids())[s := child]
      ensures inited == old(inited) && data == old(data)
    {
      if childMap.None? {
        if childNode == null {
          childStr := s;
          childNode := child;
          return;
        }
        childMap := Some(Single(childStr, childNode));
        childStr := "";
        childNode := null;
      }
      childMap := Some(childMap.value[s := child]);
    }

    method GetOrNewChild(s: string) returns (node: Node<T>)
      requires Valid()
      modifies this
      ensures Valid() && inited == old(inited) && data == old(data)
      ensures s in old(Kids()) ==> node == old(Kids())[s] && unchanged(this)
      ensures s !in old(Kids()) ==>
                fresh(node) && node.Valid() && node.Kids() == map[] && !node.inited
                && Kids() == old(Kids())[s := node]
    {
      var child := GetChild(s);
      if child == null {
        child := new Node();
        AddChild(s, child);
      }
      node := child;
    }

    method SetData(d: T)
      modifies this`inited, this`data
      ensures inited && data == d
    {
      data := d;
      inited := true;
    }

    predicate IsEmpty()
      reads this
    {
      !inited
    }

    /** Rewrites the child representation of this node and of all nodes below it. */
    method Optimize(ghost nodes: map<Path, Node<T>>, ghost p: Path)
      requires Tree(nodes) && p in nodes && nodes[p] == this
      modifies Subtree(nodes, p)
      ensures Tree(nodes) && SameTree(nodes)
      decreases PathsBelow(nodes, p), if childMap.Some? then 1 else 0
    {
      if childNode != null {
        assert childMap.None? && childStr in Kids();
        ChildIsBelow(nodes, p, childStr);
        childNode.Optimize(nodes, p + [childStr]);
      }
      if childMap.None? {
        return;
      }
      var m := childMap.value;
      if |m| == 0 {
        DropEmptyMap(nodes);
        return;
      }
      if |m| == 1 {
        InlineOnlyChild(nodes);
        Optimize(nodes, p);
        return;
      }
      var children := OptimizeChildren(nodes, p, m);
      StoreChildren(nodes, children);
    }

    method DropEmptyMap(ghost nodes: map<Path, Node<T>>)
      requires Tree(nodes) && this in nodes.Values && childMap == Some(map[])
      modifies this
      ensures Tree(nodes) && SameTree(nodes)
    {
      ghost var kids := KidsOf(nodes);
      childMap := None;
      assert KidsOf(nodes) == kids;
    }

    method InlineOnlyChild(ghost nodes: map<Path, Node<T>>)
      requires Tree(nodes) && this in nodes.Values && childMap.Some? && |childMap.value| == 1
      modifies this
      ensures Tree(nodes) && SameTree(nodes) && childMap.None?
    {
      ghost var kids, stored := KidsOf(nodes), DataOf(nodes);
      var key :| key in childMap.value;
      OnlyKey(childMap.value, key);
      SetInline(key, childMap.value[key]);
      assert KidsOf(nodes) == kids;
      assert DataOf(nodes) == stored;
    }

    method SetInline(key: string, child: Node<T>)
      modifies this
      ensures Valid() && Kids() == map[key := child] && childMap.None?
      ensures inited == old(inited) && data == old(data)
    {
      childStr := key;
      childNode := child;
      childMap := None;
    }

    method StoreChildren(ghost nodes: map<Path, Node<T>>, children: map<string, Node<T>>)
      requires Tree(nodes) && this in nodes.Values && childMap == Some(children)
      modifies this
      ensures Tree(nodes) && SameTree(nodes)
    {
      ghost var kids := KidsOf(nodes);
      childMap := Some(children);
      assert KidsOf(nodes) == kids;
    }

    /** Visits the children in any order and copies the map. */
    method OptimizeChildren(ghost nodes: map<Path, Node<T>>, ghost p: Path, m: map<string, Node<T>>)
      returns (children: map<string, Node<T>>)
      requires Tree(nodes) && p in nodes && nodes[p] == this && childMap == Some(m)
      modifies Subtree(nodes, p) - {this}
      ensures Tree(nodes) && SameTree(nodes)
      ensures children == m && childMap == Some(m)
      decreases PathsBelow(nodes, p), 0
    {
      children := map[];
      var todo := m.Keys;
      while todo != {}
        invariant todo <= m.Keys && children.Keys == m.Keys - todo
        invariant forall k :: k in children ==> children[k] == m[k]
        invariant Tree(nodes) && SameTree(nodes)
        decreases todo
      {
        var key :| key in todo;
        var child := m[key];
        children := children[key := child];
        assert key in Kids();
        ChildIsBelow(nodes, p, key);
        child.Optimize(nodes, p + [key]);
        todo := todo - {key};
      }
    }
  }

  twostate predicate SameTree<T(0)>(nodes: map<Path, Node<T>>)
    reads nodes.Values
  {
    KidsOf(nodes) == old(KidsOf(nodes)) && DataOf(nodes) == old(DataOf(nodes))
  }

  lemma OnlyKey<V>(m: map<string, V>, key: string)
    requires |m| == 1 && key in m
    ensures m == map[key := m[key]]
  {
    assert |m.Keys| == 1;
    assert |m.Keys - {key}| == 0;
    assert m.Keys == {key};
  }

  /** `nodes` lists every node of a well-formed tree under its path from the root. */
  ghost predicate Tree<T(0)>(nodes: map<Path, Node<T>>)
    reads nodes.Values
  {
    (forall p :: p in nodes ==> nodes[p].Valid()) && Shape(nodes, KidsOf(nodes))
  }

  ghost function KidsOf<T(0)>(nodes: map<Path, Node<T>>): map<Path, map<string, Node<T>>>
    reads nodes.Values
  {
    map p | p in nodes :: nodes[p].Kids()
  }

  ghost function DataOf<T(0)>(nodes: map<Path, Node<T>>): map<Path, T>
    reads nodes.Values
  {
    map p | p in nodes && nodes[p].inited :: nodes[p].data
  }

  ghost function PathsBelow<T(0)>(nodes: map<Path, Node<T>>, p: Path): set<Path> {
    set x | x in nodes && p <= x
  }

  ghost function Subtree<T(0)>(nodes: map<Path, Node<T>>, p: Path): set<Node<T>> {
    set x | x in nodes && p <= x :: nodes[x]
  }

  lemma ChildIsBelow<T(0)>(nodes: map<Path, Node<T>>, p: Path, k: string)
    requires Tree(nodes) && p in nodes && k in nodes[p].Kids()
    ensures p + [k] in nodes && nodes[p + [k]] == nodes[p].Kids()[k]
    ensures PathsBelow(nodes, p + [k]) < PathsBelow(nodes, p)
    ensures Subtree(nodes, p + [k]) <= Subtree(nodes, p) && nodes[p] !in Subtree(nodes, p + [k])
  {
    assert ChildListed(nodes, KidsOf(nodes), p, k);
    assert p in PathsBelow(nodes, p) && p !in PathsBelow(nodes, p + [k]);
  }

  /** The stored patterns after `Insert` of the split pattern `parts`. */
  function InsertInto<T>(stored: map<Path, T>, parts: seq<string>, data: T): map<Path, T>
    requires parts != []
  {
    if parts[0] == COMPLEX_WILDCARD then
      stored[ReverseLabels(parts[1..]) := data][ReverseLabels([DOT_WILDCARD] + parts[1..]) := data]
    else stored[ReverseLabels(parts) := data]
  }

  /** The labels a query searches for, right to left. */
  function QueryPath(domain: string): Option<Path> {
    match ValidAndSplitDomain(domain)
    case None => None
    case Some(parts) => if parts[0] == "" then None else Some(ReverseLabels(parts))
  }

  lemma QueryHasNoDotLabel(domain: string)
    requires QueryPath(domain).Some?
    ensures DOT_WILDCARD !in QueryPath(domain).value
  {
    var parts := ValidAndSplitDomain(domain).value;
    forall l | l in QueryPath(domain).value ensures l != DOT_WILDCARD {
      assert l in parts[1..] || l == parts[0];
    }
  }

  lemma NextLabel(parts: seq<string>, i: nat)
    requires i < |parts|
    ensures ReverseLabels(parts)[..|parts| - i] == ReverseLabels(parts)[..|parts| - i - 1] + [parts[i]]
  {
  }

  /** What `Foreach` reports for a stored path. */
  function Display(p: Path): string {
    var domain := Join(ReverseLabels(p));
    if |p| > 1 && domain != "" && domain[0] == '.' then COMPLEX_WILDCARD + domain else domain
  }

  class DomainTrie<T(0)> {
    const root: Node<T>
    ghost var nodes: map<Path, Node<T>>

    ghost predicate Valid()
      reads this, nodes.Values
    {
      Tree(nodes) && nodes[[]] == root
    }

    /** The patterns that hold data, by path. */
    ghost function Stored(): map<Path, T>
      reads this, nodes.Values
    {
      DataOf(nodes)
    }

    constructor ()
      ensures Valid() && Stored() == map[] && fresh(nodes.Values)
    {
      root := new Node();
      new;
      nodes := map[[] := root];
    }

    method Insert(domain: string, data: T) returns (ok: bool)
      requires Valid()
      modifies this, nodes.Values
      ensures Valid() && fresh(nodes.Values - old(nodes.Values))
      ensures ok <==> ValidAndSplitDomain(domain).Some?
      ensures Stored() == if ok then InsertInto(old(Stored()), ValidAndSplitDomain(domain).value, data)
                          else old(Stored())
    {
      match ValidAndSplitDomain(domain) {
        case None => return false;
        case Some(parts) =>
          if parts[0] == COMPLEX_WILDCARD {
            InsertParts(parts[1..], data);
            InsertParts([DOT_WILDCARD] + parts[1..], data);
          } else {
            InsertParts(parts, data);
          }
          return true;
      }
    }

    method InsertParts(parts: seq<string>, data: T)
      requires Valid()
      modifies this, nodes.Values
      ensures Valid() && fresh(nodes.Values - old(nodes.Values))
      ensures Stored() == old(Stored())[ReverseLabels(parts) := data]
    {
      var node := root;
      ghost var p: Path := [];
      for i := |parts| downto 0
        invariant Valid() && fresh(nodes.Values - old(nodes.Values))
        invariant p == ReverseLabels(parts)[..|parts| - i] && p in nodes && nodes[p] == node
        invariant Stored() == old(Stored())
      {
        node := Step(node, p, parts[i]);
        NextLabel(parts, i);
        p := p + [parts[i]];
      }
      assert p == ReverseLabels(parts);
      StoreData(node, p, data);
    }

    method StoreData(node: Node<T>, ghost p: Path, data: T)
      requires Valid() && p in nodes && nodes[p] == node
      modifies node
      ensures Valid() && Stored() == old(Stored())[p := data]
    {
      ghost var kids, stored := KidsOf(nodes), Stored();
      node.SetData(data);
      assert forall x :: x in nodes && x != p ==> nodes[x] != node;
      assert KidsOf(nodes) == kids;
      assert Stored() == stored[p := data];
    }

    /** One level down, adding the node if it is missing. */
    method Step(node: Node<T>, ghost p: Path, part: string) returns (next: Node<T>)
      requires Valid() && p in nodes && nodes[p] == node
      modifies this`nodes, node
      ensures Valid() && fresh(nodes.Values - old(nodes.Values))
      ensures p + [part] in nodes && nodes[p + [part]] == next
      ensures Stored() == old(Stored())
    {
      ghost var kids, stored := KidsOf(nodes), Stored();
      assert ChildListed(nodes, kids, p, part);
      if node.GetChild(part) != null {
        next := node.GetOrNewChild(part);
      } else {
        next := AddChildNode(node, p, part);
      }
    }

    method AddChildNode(node: Node<T>, ghost p: Path, part: string) returns (next: Node<T>)
      requires Valid() && p in nodes && nodes[p] == node && p + [part] !in nodes && part !in node.Kids()
      modifies this`nodes, node
      ensures Valid() && fresh(nodes.Values - old(nodes.Values))
      ensures p + [part] in nodes && nodes[p + [part]] == next
      ensures Stored() == old(Stored())
    {
      ghost var kids := KidsOf(nodes);
      next := NewChild(node, p, part);
      ListLeaf(next, p + [part]);
      AddLeaf(old(nodes), kids, p, part, next);
    }

    /** Adds a node that is not yet listed. */
    method NewChild(node: Node<T>, ghost p: Path, part: string) returns (next: Node<T>)
      requires Valid() && p in nodes && nodes[p] == node && part !in node.Kids()
      modifies node
      ensures fresh(next) && next.Valid() && next.Kids() == map[] && !next.inited
      ensures KidsOf(nodes) == old(KidsOf(nodes))[p := old(KidsOf(nodes))[p][part := next]]
      ensures Stored() == old(Stored()) && forall x :: x in nodes ==> nodes[x].Valid()
    {
      ghost var kids, stored := KidsOf(nodes), Stored();
      next := node.GetOrNewChild(part);
      assert KidsOf(nodes) == kids[p := kids[p][part := next]];
      assert Stored() == stored;
    }

    ghost method ListLeaf(leaf: Node<T>, q: Path)
      requires q !in nodes && !leaf.inited && leaf.Kids() == map[] && leaf.Valid()
      requires forall x :: x in nodes ==> nodes[x].Valid()
      modifies this`nodes
      ensures nodes == old(nodes)[q := leaf] && KidsOf(nodes) == old(KidsOf(nodes))[q := map[]]
      ensures Stored() == old(Stored()) && forall x :: x in nodes ==> nodes[x].Valid()
    {
      ghost var kids, stored := KidsOf(nodes), Stored();
      nodes := nodes[q := leaf];
      assert KidsOf(nodes) == kids[q := map[]];
      assert Stored() == stored;
    }

    method Optimize()
      requires Valid()
      modifies nodes.Values
      ensures Valid() && Stored() == old(Stored())
    {
      root.Optimize(nodes, []);
    }

    /** Finds the node of the best stored match; null exactly when nothing stored matches. */
    method Search(domain: string) returns (r: Node?<T>)
      requires Valid()
      ensures QueryPath(domain).None? ==> r == null
      ensures QueryPath(domain).Some? ==>
                var q := QueryPath(domain).value;
                var best := Best(Stored().Keys, [], q);
                && IsBestMatch(Stored().Keys, best, q) && (r == null <==> best.None?)
                && (best.Some? ==> best.value in Stored() && r == nodes[best.value] && r.data == Stored()[best.value])
    {
      match ValidAndSplitDomain(domain) {
        case None => return null;
        case Some(parts) =>
          if parts[0] == "" {
            return null;
          }
          var n := SearchFrom(root, parts, []);
          QueryHasNoDotLabel(domain);
          BestIsBestMatch(Stored().Keys, QueryPath(domain).value);
          if n == null || n.IsEmpty() {
            return null;
          }
          return n;
      }
    }

    method SearchFrom(node: Node<T>, parts: seq<string>, ghost p: Path) returns (r: Node?<T>)
      requires Valid() && p in nodes && nodes[p] == node
      ensures match Best(Stored().Keys, p, ReverseLabels(parts))
              case None => r == null || !r.inited
              case Some(b) => b in nodes && r == nodes[b] && r.inited
      decreases |parts|, 0
    {
      if |parts| == 0 {
        return node;
      }
      ghost var q := ReverseLabels(parts);
      var l, rest := parts[|parts| - 1], parts[..|parts| - 1];
      assert q[0] == l && q[1..] == ReverseLabels(rest);
      r := SearchThrough(node, l, rest, p);
      if r != null && !r.IsEmpty() {
        return;
      }
      r := SearchThrough(node, WILDCARD, rest, p);
      if r != null && !r.IsEmpty() {
        return;
      }
      r := NamedChild(node, p, DOT_WILDCARD, []);
    }

    /** The search below child `k`; null without that child. */
    method SearchThrough(node: Node<T>, k: string, rest: seq<string>, ghost p: Path) returns (r: Node?<T>)
      requires Valid() && p in nodes && nodes[p] == node
      ensures match Best(Stored().Keys, p + [k], ReverseLabels(rest))
              case None => r == null || !r.inited
              case Some(b) => b in nodes && r == nodes[b] && r.inited
      decreases |rest|, 1
    {
      r := NamedChild(node, p, k, ReverseLabels(rest));
      if r != null {
        r := SearchFrom(r, rest, p + [k]);
      }
    }

    /** Reports every stored pattern but the root's own data, in any order of the maps. */
    method Foreach() returns (out: seq<(string, T)>)
      requires Valid()
      ensures Reported(out, Stored(), StoredBelow(Stored(), []))
    {
      out := [];
      NothingReported(Stored(), []);
      ghost var done := {};
      var kids := root.GetChildren();
      var todo := kids.Keys;
      while todo != {}
        invariant todo <= kids.Keys && done == kids.Keys - todo
        invariant Reported(out, Stored(), StoredThrough(Stored(), [], done))
        decreases todo
      {
        var key :| key in todo;
        ChildIsBelow(nodes, [], key);
        assert [] + [key] == [key];
        var more := ReportTop(key, kids[key]);
        ReportedMore(out, more, Stored(), [], done, key);
        out := out + more;
        todo, done := todo - {key}, done + {key};
      }
      assert done == kids.Keys;
      StoredThroughAll(nodes, KidsOf(nodes), Stored(), []);
    }

    /** Reports the stored patterns strictly below `node`, whose path is `p`. */
    method Recursion(items: seq<string>, node: Node<T>, ghost p: Path) returns (out: seq<(string, T)>)
      requires Valid() && p in nodes && nodes[p] == node && p != [] && items == ReverseLabels(p)
      ensures Reported(out, Stored(), StoredBelow(Stored(), p))
      decreases PathsBelow(nodes, p), 0
    {
      out := [];
      NothingReported(Stored(), p);
      ghost var done := {};
      var kids := node.GetChildren();
      var todo := kids.Keys;
      while todo != {}
        invariant todo <= kids.Keys && done == kids.Keys - todo
        invariant Reported(out, Stored(), StoredThrough(Stored(), p, done))
        decreases todo
      {
        var key :| key in todo;
        ChildIsBelow(nodes, p, key);
        var more := ReportChild(items, key, kids[key], p);
        ReportedMore(out, more, Stored(), p, done, key);
        out := out + more;
        todo, done := todo - {key}, done + {key};
      }
      assert done == kids.Keys;
      StoredThroughAll(nodes, KidsOf(nodes), Stored(), p);
    }

    /** Child `key` of the root: first what is below it, then its own pattern. */
    method ReportTop(key: string, node: Node<T>) returns (out: seq<(string, T)>)
      requires Valid() && [key] in nodes && nodes[[key]] == node
      ensures Reported(out, Stored(), StoredFrom(Stored(), [key]))
    {
      assert ReverseLabels([key]) == [key];
      out := Recursion([key], node, [key]);
      ReportedWithOwn(out, Stored(), [key]);
      if node.inited {
        out := out + [(Join([key]), node.data)];
      }
    }

    /** Child `key` of an inner node: first its own pattern, then what is below it. */
    method ReportChild(items: seq<string>, key: string, child: Node<T>, ghost p: Path) returns (out: seq<(string, T)>)
      requires Valid() && p != [] && items == ReverseLabels(p)
      requires p + [key] in nodes && nodes[p + [key]] == child
      ensures Reported(out, Stored(), StoredFrom(Stored(), p + [key]))
      decreases PathsBelow(nodes, p + [key]), 1
    {
      var newItems := [key] + items;
      ghost var q := p + [key];
      assert newItems == ReverseLabels(q);
      out := Recursion(newItems, child, q);
      ReportedWithOwn(out, Stored(), q);
      if child.inited {
        var domain := Join(newItems);
        if domain[0] == '.' {
          domain := COMPLEX_WILDCARD + domain;
        }
        out := [(domain, child.data)] + out;
      }
    }

    /** The child `k` of `node`, if any; without it nothing is stored below `p + [k]`. */
    method NamedChild(node: Node<T>, ghost p: Path, k: string, ghost q: Path) returns (c: Node?<T>)
      requires Valid() && p in nodes && nodes[p] == node
      ensures c != null ==> p + [k] in nodes && nodes[p + [k]] == c
      ensures c == null ==> p + [k] !in nodes && Best(Stored().Keys, p + [k], q) == None
    {
      assert ChildListed(nodes, KidsOf(nodes), p, k);
      c := node.GetChild(k);
      if c == null {
        NothingBelow(nodes, KidsOf(nodes), Stored().Keys, p + [k], q);
      }
    }
  }

  lemma {:induction false} NothingBelow<T(0)>(nodes: map<Path, Node<T>>, kids: map<Path, map<string, Node<T>>>,
                                              stored: set<Path>, p: Path, q: Path)
    requires Shape(nodes, kids) && stored <= nodes.Keys && p !in nodes
    ensures Best(stored, p, q) == None
    decreases |q|
  {
    if q != [] {
      forall k: string ensures p + [k] !in nodes {
        assert p + [k] in nodes ==> ParentListed(nodes, p + [k]);
        assert (p + [k])[..|p|] == p;
      }
      NothingBelow(nodes, kids, stored, p + [q[0]], q[1..]);
      NothingBelow(nodes, kids, stored, p + [WILDCARD], q[1..]);
    }
  }

  ghost function StoredBelow<T>(stored: map<Path, T>, p: Path): set<Path> {
    set x | x in stored && p < x
  }

  ghost function StoredFrom<T>(stored: map<Path, T>, p: Path): set<Path> {
    set x | x in stored && p <= x
  }

  ghost function StoredThrough<T>(stored: map<Path, T>, p: Path, done: set<string>): set<Path> {
    set x | x in stored && p < x && x[|p|] in done
  }

  /** `out` reports each stored path of `which` once, in the order `order`. */
  ghost predicate Reports<T(0)>(out: seq<(string, T)>, order: seq<Path>, stored: map<Path, T>, which: set<Path>) {
    && |out| == |order| && NoDuplicates(order)
    && (forall x :: x in order <==> x in which)
    && (forall i :: 0 <= i < |out| ==> order[i] in stored && out[i] == (Display(order[i]), stored[order[i]]))
  }

  /** `out` reports each stored path of `which` once, in some order. */
  ghost predicate Reported<T(0)>(out: seq<(string, T)>, stored: map<Path, T>, which: set<Path>) {
    exists order :: Reports(out, order, stored, which)
  }

  lemma NothingReported<T(0)>(stored: map<Path, T>, p: Path)
    ensures Reported([], stored, StoredThrough(stored, p, {}))
  {
    assert Reports([], [], stored, StoredThrough(stored, p, {}));
  }

  lemma OneReported<T(0)>(stored: map<Path, T>, q: Path)
    requires q in stored
    ensures Reported([(Display(q), stored[q])], stored, {q})
  {
    assert Reports([(Display(q), stored[q])], [q], stored, {q});
  }

  lemma ReportsConcat<T(0)>(out: seq<(string, T)>, order: seq<Path>, more: seq<(string, T)>, moreOrder: seq<Path>,
                            stored: map<Path, T>, which: set<Path>, others: set<Path>)
    requires Reports(out, order, stored, which) && Reports(more, moreOrder, stored, others) && which !! others
    ensures Reports(out + more, order + moreOrder, stored, which + others)
  {
    var all := order + moreOrder;
    forall i, j | 0 <= i < j < |all| ensures all[i] != all[j] {
      if i < |order| <= j {
        assert order[i] in order && moreOrder[j - |order|] in moreOrder;
      }
    }
  }

  lemma ReportedConcat<T(0)>(out: seq<(string, T)>, more: seq<(string, T)>, stored: map<Path, T>,
                             which: set<Path>, others: set<Path>)
    requires Reported(out, stored, which) && Reported(more, stored, others) && which !! others
    ensures Reported(out + more, stored, which + others)
  {
    var order :| Reports(out, order, stored, which);
    var moreOrder :| Reports(more, moreOrder, stored, others);
    ReportsConcat(out, order, more, moreOrder, stored, which, others);
  }

  lemma ReportedMore<T(0)>(out: seq<(string, T)>, more: seq<(string, T)>, stored: map<Path, T>, p: Path,
                           done: set<string>, key: string)
    requires Reported(out, stored, StoredThrough(stored, p, done)) && key !in done
    requires Reported(more, stored, StoredFrom(stored, p + [key]))
    ensures Reported(out + more, stored, StoredThrough(stored, p, done + {key}))
  {
    var a, b := StoredThrough(stored, p, done), StoredFrom(stored, p + [key]);
    var c := StoredThrough(stored, p, done + {key});
    forall x | x in stored ensures x in b <==> p < x && x[|p|] == key {
      assert p + [key] <= x <==> p < x && x[|p|] == key;
    }
    assert a + b == c;
    ReportedConcat(out, more, stored, a, b);
  }

  /** What is below a path and its own pattern, before or after it. */
  lemma ReportedWithOwn<T(0)>(below: seq<(string, T)>, stored: map<Path, T>, q: Path)
    requires Reported(below, stored, StoredBelow(stored, q))
    ensures q !in stored ==> Reported(below, stored, StoredFrom(stored, q))
    ensures q in stored ==> Reported(below + [(Display(q), stored[q])], stored, StoredFrom(stored, q))
    ensures q in stored ==> Reported([(Display(q), stored[q])] + below, stored, StoredFrom(stored, q))
  {
    forall x | x in stored && q <= x ensures q < x || x == q {
    }
    if q in stored {
      OneReported(stored, q);
      ReportedConcat(below, [(Display(q), stored[q])], stored, StoredBelow(stored, q), {q});
      ReportedConcat([(Display(q), stored[q])], below, stored, {q}, StoredBelow(stored, q));
      assert StoredBelow(stored, q) + {q} == StoredFrom(stored, q) == {q} + StoredBelow(stored, q);
    } else {
      assert StoredBelow(stored, q) == StoredFrom(stored, q);
    }
  }

  lemma StoredThroughAll<T(0)>(nodes: map<Path, Node<T>>, kids: map<Path, map<string, Node<T>>>,
                               stored: map<Path, T>, p: Path)
    requires Shape(nodes, kids) && stored.Keys <= nodes.Keys && p in nodes
    ensures StoredThrough(stored, p, kids[p].Keys) == StoredBelow(stored, p)
  {
    forall x | x in stored && p < x ensures x[|p|] in kids[p] {
      StoredBelowChild(nodes, kids, stored.Keys, p, x);
    }
  }

  /** Everything stored strictly below `p` lies below one of its children. */
  lemma {:induction false} StoredBelowChild<T(0)>(nodes: map<Path, Node<T>>, kids: map<Path, map<string, Node<T>>>,
                                                  stored: set<Path>, p: Path, x: Path)
    requires Shape(nodes, kids) && p in nodes && x in nodes && p < x
    ensures x[|p|] in kids[p]
    decreases |x|
  {
    if |x| == |p| + 1 {
      assert x == p + [x[|p|]];
      assert ChildListed(nodes, kids, p, x[|p|]);
    } else {
      assert ParentListed(nodes, x);
      StoredBelowChild(nodes, kids, stored, p, x[..|x| - 1]);
    }
  }

  // ---------------------------------------------------------------- runs

  datatype Op<T> = InsertOp(domain: string, data: T) | OptimizeOp

  /** Inserting `parts` writes the path `p`. */
  predicate Writes(parts: seq<string>, p: Path)
    requires parts != []
  {
    if parts[0] == COMPLEX_WILDCARD then
      p == ReverseLabels(parts[1..]) || p == ReverseLabels([DOT_WILDCARD] + parts[1..])
    else p == ReverseLabels(parts)
  }

  predicate OpWrites<T>(op: Op<T>, p: Path) {
    op.InsertOp? && ValidAndSplitDomain(op.domain).Some? && Writes(ValidAndSplitDomain(op.domain).value, p)
  }

  /** What one operation makes of the stored patterns. */
  function Apply<T>(stored: map<Path, T>, op: Op<T>): map<Path, T> {
    if op.InsertOp? && ValidAndSplitDomain(op.domain).Some?
    then InsertInto(stored, ValidAndSplitDomain(op.domain).value, op.data)
    else stored
  }

  /** What a trie holds after a run of operations. */
  function Run<T>(ops: seq<Op<T>>): map<Path, T> {
    if ops == [] then map[] else Apply(Run(ops[..|ops| - 1]), ops[|ops| - 1])
  }

  /** Operation `i` is the last one of the run to write the path. */
  ghost predicate LastWrite<T>(ops: seq<Op<T>>, p: Path, i: int) {
    0 <= i < |ops| && OpWrites(ops[i], p) && forall j :: i < j < |ops| ==> !OpWrites(ops[j], p)
  }

  /** A path holds data exactly when some operation of the run wrote it. */
  lemma {:induction false} RunHolds<T>(ops: seq<Op<T>>, p: Path)
    ensures p in Run(ops) <==> exists i :: 0 <= i < |ops| && OpWrites(ops[i], p)
  {
    if ops != [] {
      var init := ops[..|ops| - 1];
      RunHolds(init, p);
      OneMoreOp(ops, p);
      assert forall i :: 0 <= i < |init| ==> init[i] == ops[i];
      if p in Run(init) {
        var i :| 0 <= i < |init| && OpWrites(init[i], p);
        assert OpWrites(ops[i], p);
      }
    }
  }

  /** It then holds what the last such operation stored. */
  lemma {:induction false} RunHoldsLast<T>(ops: seq<Op<T>>, p: Path, i: int)
    requires LastWrite(ops, p, i)
    ensures p in Run(ops) && Run(ops)[p] == ops[i].data
  {
    var init := ops[..|ops| - 1];
    OneMoreOp(ops, p);
    if i < |init| {
      assert forall j :: i < j < |init| ==> init[j] == ops[j];
      RunHoldsLast(init, p, i);
    }
  }

  /** One operation changes exactly the paths that it writes. */
  lemma OneMoreOp<T>(ops: seq<Op<T>>, p: Path)
    requires ops != []
    ensures var op, before := ops[|ops| - 1], Run(ops[..|ops| - 1]);
            if OpWrites(op, p) then p in Run(ops) && Run(ops)[p] == op.data
            else (p in Run(ops) <==> p in before) && (p in before ==> Run(ops)[p] == before[p])
  {
  }

  method Perform<T(0)>(t: DomainTrie<T>, op: Op<T>)
    requires t.Valid()
    modifies t, t.nodes.Values
    ensures t.Valid() && fresh(t.nodes.Values - old(t.nodes.Values))
    ensures t.Stored() == Apply(old(t.Stored()), op)
  {
    match op {
      case InsertOp(domain, data) =>
        var _ := t.Insert(domain, data);
      case OptimizeOp =>
        t.Optimize();
    }
  }

  /** Any interleaving of `Insert` and `Optimize` on a new trie stores what the run says. */
  method Replay<T(0)>(ops: seq<Op<T>>) returns (t: DomainTrie<T>)
    ensures t.Valid() && t.Stored() == Run(ops)
  {
    t := new DomainTrie();
    for i := 0 to |ops|
      invariant t.Valid() && fresh(t) && fresh(t.nodes.Values) && t.Stored() == Run(ops[..i])
    {
      assert ops[..i + 1][..i] == ops[..i];
      Perform(t, ops[i]);
    }
    assert ops[..|ops|] == ops;
  }

  ghost predicate Written<T>(ops: seq<Op<T>>, p: Path) {
    exists i :: 0 <= i < |ops| && OpWrites(ops[i], p)
  }

  lemma LastWriteOf<T>(ops: seq<Op<T>>, p: Path) returns (i: int)
    requires Written(ops, p)
    ensures LastWrite(ops, p, i)
  {
    var k :| 0 <= k < |ops| && OpWrites(ops[k], p);
    i := |ops| - 1;
    while !OpWrites(ops[i], p)
      invariant k <= i < |ops| && forall j :: i < j < |ops| ==> !OpWrites(ops[j], p)
      decreases i
    {
      i := i - 1;
    }
  }

  /** Call `i` stored the data of the best of all written patterns that match: none of the
      others outranks the pattern, and no later call wrote it. */
  ghost predicate Selects<T>(ops: seq<Op<T>>, q: Path, p: Path, i: int) {
    && LastWrite(ops, p, i) && Matches(p, q)
    && forall x :: Written(ops, x) && Matches(x, q) && x != p ==> Outranks(p, x, q)
  }

  lemma BestIsSelected<T>(ops: seq<Op<T>>, q: Path, best: Option<Path>)
    requires IsBestMatch(Run(ops).Keys, best, q)
    ensures best.None? ==> forall p :: Written(ops, p) ==> !Matches(p, q)
    ensures best.Some? ==> best.value in Run(ops)
    ensures best.Some? ==> exists i :: Selects(ops, q, best.value, i) && Run(ops)[best.value] == ops[i].data
  {
    forall p ensures Written(ops, p) <==> p in Run(ops) {
      RunHolds(ops, p);
    }
    if best.Some? {
      var i := LastWriteOf(ops, best.value);
      RunHoldsLast(ops, best.value, i);
      assert Selects(ops, q, best.value, i);
    }
  }

  /** The whole of the trie: after any interleaving of `Insert` and `Optimize`, `Search` gives
      the data last stored for the highest-priority matching pattern, and nothing exactly when
      the query is invalid or no pattern written matches it. */
  method ReplayAndSearch<T(0)>(ops: seq<Op<T>>, domain: string) returns (r: Option<T>)
    ensures QueryPath(domain).None? ==> r == None
    ensures QueryPath(domain).Some? ==>
              var q := QueryPath(domain).value;
              && (r.None? <==> forall p :: Written(ops, p) ==> !Matches(p, q))
              && (r.Some? ==> exists p, i :: Selects(ops, q, p, i) && r.value == ops[i].data)
  {
    var t := Replay(ops);
    var n := t.Search(domain);
    if QueryPath(domain).Some? {
      ghost var q := QueryPath(domain).value;
      BestIsSelected(ops, q, Best(Run(ops).Keys, [], q));
    }
    r := if n == null then None else Some(n.data);
  }
}
