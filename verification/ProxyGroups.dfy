/** Sorting proxy groups by their references, and naming the groups of a loop. */
module ProxyGroups {
  import opened Wrappers
  import opened Text
  import opened Graphs

  datatype GroupOption = GroupOption(name: string, proxies: seq<string>)

  /** One entry of the configuration; `decoded` is what the decoder makes of it. */
  datatype Mapping = Mapping(raw: string, decoded: Option<GroupOption>)

  datatype SortResult = Sorted | DecodeError(index: nat) | Duplicate(name: string) | Loop(names: seq<string>)

  // ---------------------------------------------------------------- specification

  ghost predicate Decodable(g: seq<Mapping>) {
    forall i :: 0 <= i < |g| ==> g[i].decoded.Some?
  }

  function Name(m: Mapping): string
    requires m.decoded.Some?
  {
    m.decoded.value.name
  }

  function Proxies(m: Mapping): seq<string>
    requires m.decoded.Some?
  {
    m.decoded.value.proxies
  }

  ghost predicate UniqueNames(g: seq<Mapping>)
    requires Decodable(g)
  {
    forall i, j :: 0 <= i < j < |g| ==> Name(g[i]) != Name(g[j])
  }

  /** The reference graph: an edge from each group to each name it lists. */
  ghost function References(g: seq<Mapping>): Edges
    requires Decodable(g)
  {
    set m, p | m in g && p in Proxies(m) :: (Name(m), p)
  }

  ghost function Names(g: seq<Mapping>): set<string>
    requires Decodable(g)
  {
    set m | m in g :: Name(m)
  }

  ghost function Nodes(g: seq<Mapping>): set<string>
    requires Decodable(g)
  {
    Names(g) + set m, p | m in g && p in Proxies(m) :: p
  }

  /** Every referenced group stands before each group that references it. */
  ghost predicate DependenciesFirst(g: seq<Mapping>)
    requires Decodable(g)
  {
    forall i, j :: 0 <= i < |g| && 0 <= j < |g| && Name(g[j]) in Proxies(g[i]) ==> j < i
  }

  /** How often groups outside `done` reference `n`. */
  ghost function Incoming(g: seq<Mapping>, done: set<string>, n: string): nat
    requires Decodable(g)
  {
    if g == [] then 0
    else
      var m := g[|g| - 1];
      Incoming(g[..|g| - 1], done, n) + if Name(m) in done then 0 else multiset(Proxies(m))[n]
  }

  // ---------------------------------------------------------------- the graph

  datatype GraphNode = GraphNode(indegree: int, data: Option<Mapping>, outdegree: int, option: Option<GroupOption>,
                                 from: seq<string>)

  type Graph = map<string, GraphNode>

  const NEW_NODE := GraphNode(0, None, 0, None, [])

  function NodeOrNew(graph: Graph, n: string): GraphNode {
    if n in graph then graph[n] else NEW_NODE
  }

  /** The node for `n` carries the group of that name, if there is one. */
  ghost predicate Describes(node: GraphNode, g: seq<Mapping>, n: string)
    requires Decodable(g)
  {
    match node.data
    case None => node.option == None && n !in Names(g)
    case Some(m) => m in g && Name(m) == n && node.option == m.decoded
  }

  ghost predicate GraphOf(graph: Graph, g: seq<Mapping>, done: set<string>)
    requires Decodable(g)
  {
    && graph.Keys == Nodes(g) - done
    && forall n :: n in graph ==> NodeOk(graph[n], g, done, n)
  }

  ghost predicate NodeOk(node: GraphNode, g: seq<Mapping>, done: set<string>, n: string)
    requires Decodable(g)
  {
    node.indegree == Incoming(g, done, n) && Describes(node, g, n) && node.outdegree == 0 && node.from == []
  }

  function Members(s: seq<string>): set<string> {
    set x | x in s
  }

  lemma MembersSnoc(s: seq<string>, x: string)
    ensures Members(s + [x]) == Members(s) + {x}
  {
  }

  ghost predicate EdgesAdded(graph0: Graph, graph: Graph, proxies: seq<string>) {
    && graph.Keys == graph0.Keys + Members(proxies)
    && forall n :: n in graph ==>
         graph[n] == NodeOrNew(graph0, n).(indegree := NodeOrNew(graph0, n).indegree + multiset(proxies)[n])
  }

  lemma EdgeAdded(graph0: Graph, graph: Graph, proxies: seq<string>, p: string)
    requires EdgesAdded(graph0, graph, proxies)
    ensures EdgesAdded(graph0, graph[p := NodeOrNew(graph, p).(indegree := NodeOrNew(graph, p).indegree + 1)],
                       proxies + [p])
  {
    var graph' := graph[p := NodeOrNew(graph, p).(indegree := NodeOrNew(graph, p).indegree + 1)];
    MembersSnoc(proxies, p);
    assert graph'.Keys == graph0.Keys + Members(proxies + [p]);
    if p !in graph {
      assert p !in graph0 && p !in proxies;
      assert multiset(proxies)[p] == 0;
    }
  }

  method AddEdge(graph0: Graph, proxy: string) returns (graph: Graph)
    ensures graph == graph0[proxy := NodeOrNew(graph0, proxy).(indegree := NodeOrNew(graph0, proxy).indegree + 1)]
  {
    if proxy in graph0 {
      graph := graph0[proxy := graph0[proxy].(indegree := graph0[proxy].indegree + 1)];
    } else {
      graph := graph0[proxy := GraphNode(1, None, 0, None, [])];
    }
  }

  /** Adds one edge to each listed name, creating plain proxy nodes as needed. */
  method AddProxies(graph0: Graph, proxies: seq<string>) returns (graph: Graph)
    ensures EdgesAdded(graph0, graph, proxies)
  {
    graph := graph0;
    for j := 0 to |proxies|
      invariant EdgesAdded(graph0, graph, proxies[..j])
    {
      var proxy := proxies[j];
      assert proxies[..j + 1] == proxies[..j] + [proxy];
      EdgeAdded(graph0, graph, proxies[..j], proxy);
      graph := AddEdge(graph, proxy);
    }
    assert proxies[..|proxies|] == proxies;
  }

  method AddGroup(graph0: Graph, mapping: Mapping, option: GroupOption) returns (graph: Graph)
    ensures graph == graph0[option.name :=
              NodeOrNew(graph0, option.name).(data := Some(mapping), option := Some(option))]
  {
    if option.name in graph0 {
      graph := graph0[option.name := graph0[option.name].(data := Some(mapping), option := Some(option))];
    } else {
      graph := graph0[option.name := GraphNode(0, Some(mapping), 0, Some(option), [])];
    }
  }

  /** Entry `i` cannot be decoded, and all entries before it are fine. */
  ghost predicate FirstUndecodable(g: seq<Mapping>, i: nat) {
    i < |g| && g[i].decoded.None? && Decodable(g[..i]) && UniqueNames(g[..i])
  }

  /** Entry `j` is the first to repeat a name, and all entries before it are fine. */
  ghost predicate FirstRepeat(g: seq<Mapping>, j: int, n: string) {
    && 0 <= j < |g| && Decodable(g[..j]) && UniqueNames(g[..j])
    && g[j].decoded.Some? && Name(g[j]) == n && n in Names(g[..j])
  }

  /** Step 1.1: the dependency graph, or the first entry that cannot be decoded or repeats a name. */
  method BuildGraph(g: seq<Mapping>) returns (r: SortResult, graph: Graph)
    ensures match r
            case DecodeError(i) => FirstUndecodable(g, i)
            case Duplicate(n) => exists j :: FirstRepeat(g, j, n)
            case Sorted => Decodable(g) && UniqueNames(g) && GraphOf(graph, g, {})
            case Loop(_) => false
  {
    graph := map[];
    for i := 0 to |g|
      invariant Decodable(g[..i]) && UniqueNames(g[..i]) && GraphOf(graph, g[..i], {})
    {
      var mapping := g[i];
      if mapping.decoded.None? {
        return DecodeError(i), graph;
      }
      var option := mapping.decoded.value;
      if option.name in graph {
        if graph[option.name].data.Some? {
          assert Describes(graph[option.name], g[..i], option.name);
          assert FirstRepeat(g, i, option.name);
          return Duplicate(option.name), graph;
        }
      }
      ghost var before := graph;
      graph := AddGroup(graph, mapping, option);
      ghost var named := graph;
      graph := AddProxies(graph, option.proxies);
      NextGroupAdded(g, i, before, named, graph);
    }
    assert g[..|g|] == g;
    r := Sorted;
  }

  lemma NextGroupAdded(g: seq<Mapping>, i: nat, before: Graph, named: Graph, after: Graph)
    requires i < |g| && Decodable(g[..i]) && UniqueNames(g[..i]) && GraphOf(before, g[..i], {}) && g[i].decoded.Some?
    requires Name(g[i]) in before ==> before[Name(g[i])].data.None?
    requires named == before[Name(g[i]) :=
               NodeOrNew(before, Name(g[i])).(data := Some(g[i]), option := g[i].decoded)]
    requires EdgesAdded(named, after, Proxies(g[i]))
    ensures Decodable(g[..i + 1]) && UniqueNames(g[..i + 1]) && GraphOf(after, g[..i + 1], {})
  {
    PrefixSnoc(g, i);
    NameIsNew(g[..i], g[i], before);
    GroupAdded(g[..i], g[i], before, named, after);
  }

  lemma PrefixSnoc<T>(s: seq<T>, i: nat)
    requires i < |s|
    ensures s[..i + 1] == s[..i] + [s[i]]
  {
  }

  lemma {:induction false} NoIncoming(g: seq<Mapping>, done: set<string>, n: string)
    requires Decodable(g)
    ensures Incoming(g, done, n) == 0 <==> forall m :: m in g && Name(m) !in done ==> n !in Proxies(m)
  {
    if g != [] {
      NoIncoming(g[..|g| - 1], done, n);
      assert g == g[..|g| - 1] + [g[|g| - 1]];
    }
  }

  lemma GroupKeys(g: seq<Mapping>, m: Mapping, before: Graph, after: Graph)
    requires Decodable(g) && m.decoded.Some? && before.Keys == Nodes(g)
    requires after.Keys == before.Keys + {Name(m)} + Members(Proxies(m))
    ensures Decodable(g + [m]) && after.Keys == Nodes(g + [m]) && Names(g + [m]) == Names(g) + {Name(m)}
  {
    NodesSnoc(g, m);
  }

  lemma GroupAdded(g: seq<Mapping>, m: Mapping, before: Graph, named: Graph, after: Graph)
    requires Decodable(g) && GraphOf(before, g, {}) && m.decoded.Some?
    requires Name(m) in before ==> before[Name(m)].data.None?
    requires named == before[Name(m) := NodeOrNew(before, Name(m)).(data := Some(m), option := m.decoded)]
    requires EdgesAdded(named, after, Proxies(m))
    ensures Decodable(g + [m]) && GraphOf(after, g + [m], {})
  {
    GroupKeys(g, m, before, after);
    forall n | n in after ensures NodeOk(after[n], g + [m], {}, n) {
      NodeFits(g, m, before, after, n);
    }
  }

  lemma NodeFits(g: seq<Mapping>, m: Mapping, before: Graph, after: Graph, n: string)
    requires Decodable(g) && Decodable(g + [m]) && GraphOf(before, g, {}) && m.decoded.Some?
    requires Names(g + [m]) == Names(g) + {Name(m)}
    requires Name(m) in before ==> before[Name(m)].data.None?
    requires var named := before[Name(m) := NodeOrNew(before, Name(m)).(data := Some(m), option := m.decoded)];
             n in after && after[n] ==
               NodeOrNew(named, n).(indegree := NodeOrNew(named, n).indegree + multiset(Proxies(m))[n])
    ensures NodeOk(after[n], g + [m], {}, n)
  {
    if n !in before {
      NotANode(g, n);
    } else {
      assert Describes(before[n], g, n);
    }
    NodeAdded(g, m, n);
  }

  lemma NameIsNew(g: seq<Mapping>, m: Mapping, before: Graph)
    requires Decodable(g) && UniqueNames(g) && GraphOf(before, g, {}) && m.decoded.Some?
    requires Name(m) in before ==> before[Name(m)].data.None?
    ensures Name(m) !in Names(g) && Decodable(g + [m]) && UniqueNames(g + [m])
  {
    assert Name(m) in before ==> Describes(before[Name(m)], g, Name(m));
    assert Name(m) !in Names(g);
    forall i | 0 <= i < |g| ensures Name(g[i]) != Name(m) {
      assert g[i] in g && Name(g[i]) in Names(g);
    }
  }

  lemma NodesSnoc(g: seq<Mapping>, m: Mapping)
    requires Decodable(g) && m.decoded.Some?
    ensures Decodable(g + [m])
    ensures Names(g + [m]) == Names(g) + {Name(m)}
    ensures Nodes(g + [m]) == Nodes(g) + {Name(m)} + Members(Proxies(m))
  {
    assert forall x :: x in g + [m] <==> x in g || x == m;
  }

  lemma NotANode(g: seq<Mapping>, n: string)
    requires Decodable(g) && n !in Nodes(g)
    ensures Incoming(g, {}, n) == 0 && n !in Names(g)
  {
    NoIncoming(g, {}, n);
  }

  lemma NodeAdded(g: seq<Mapping>, m: Mapping, n: string)
    requires Decodable(g) && m.decoded.Some?
    ensures Decodable(g + [m])
    ensures Incoming(g + [m], {}, n) == Incoming(g, {}, n) + multiset(Proxies(m))[n]
  {
    assert (g + [m])[..|g|] == g;
  }

  // ---------------------------------------------------------------- topological sort

  /** The state of the sort: `done` left the graph, in an order that respects the edges,
      and `placed` are the groups among them, in the same order. */
  ghost predicate SortState(g: seq<Mapping>, graph: Graph, done: seq<string>, placed: seq<Mapping>)
    requires Decodable(g)
  {
    && GraphOf(graph, g, Members(done))
    && TopoOrder(References(g), done)
    && PlacedOk(g, done, placed)
  }

  ghost predicate PlacedOk(g: seq<Mapping>, done: seq<string>, placed: seq<Mapping>)
    requires Decodable(g)
  {
    && NoDuplicates(placed)
    && (forall m :: m in placed <==> m in g && Name(m) in done)
    && (forall k, a :: 0 <= k < |placed| && placed[k] in g && a in g && Name(placed[k]) in Proxies(a) ==>
          a in placed[..k])
  }

  ghost predicate QueueOk(graph: Graph, queue: seq<string>) {
    NoDuplicates(queue) && forall n :: n in queue <==> n in graph && graph[n].indegree == 0
  }

  lemma {:induction false} IncomingAfter(g: seq<Mapping>, done: set<string>, m: Mapping, n: string)
    requires Decodable(g) && UniqueNames(g) && m in g && Name(m) !in done
    ensures Incoming(g, done + {Name(m)}, n) == Incoming(g, done, n) - multiset(Proxies(m))[n]
  {
    var init, last := g[..|g| - 1], g[|g| - 1];
    assert g == init + [last];
    if last == m {
      IncomingSame(init, done, Name(m), n);
    } else {
      assert m in init;
      var i :| 0 <= i < |init| && init[i] == m;
      assert Name(g[i]) != Name(g[|g| - 1]);
      IncomingAfter(init, done, m, n);
    }
  }

  lemma {:induction false} IncomingSame(g: seq<Mapping>, done: set<string>, x: string, n: string)
    requires Decodable(g) && forall i :: 0 <= i < |g| ==> Name(g[i]) != x
    ensures Incoming(g, done + {x}, n) == Incoming(g, done, n)
  {
    if g != [] {
      IncomingSame(g[..|g| - 1], done, x, n);
    }
  }

  /** What a group still in the graph references is still in the graph, with enough edges. */
  lemma ProxiesRemain(g: seq<Mapping>, graph: Graph, done: seq<string>, m: Mapping, p: string)
    requires Decodable(g) && UniqueNames(g) && GraphOf(graph, g, Members(done)) && TopoOrder(References(g), done)
    requires m in g && Name(m) in graph && p in Proxies(m)
    ensures p in graph && graph[p].indegree >= multiset(Proxies(m))[p] > 0
  {
    assert (Name(m), p) in References(g) && p in Nodes(g);
    if p in done {
      PredecessorIsEarlier(References(g), done, Name(m), p);
    }
    IncomingAfter(g, Members(done), m, p);
  }

  method Relax(graph0: Graph, queue0: seq<string>, proxies: seq<string>) returns (graph: Graph, queue: seq<string>)
    requires QueueOk(graph0, queue0)
    requires forall p :: p in proxies ==> p in graph0 && graph0[p].indegree >= multiset(proxies)[p]
    ensures Lowered(graph0, graph, proxies) && QueueOk(graph, queue) && queue0 <= queue
  {
    graph, queue := graph0, queue0;
    for j := 0 to |proxies|
      invariant Lowered(graph0, graph, proxies[..j]) && QueueOk(graph, queue) && queue0 <= queue
    {
      var proxy := proxies[j];
      assert proxies[..j + 1] == proxies[..j] + [proxy];
      assert proxies == proxies[..j + 1] + proxies[j + 1..];
      assert graph0[proxy].indegree >= multiset(proxies)[proxy] >= multiset(proxies[..j])[proxy] + 1;
      LowerOne(graph0, graph, queue, proxies[..j], proxy);
      graph := graph[proxy := graph[proxy].(indegree := graph[proxy].indegree - 1)];
      if graph[proxy].indegree == 0 {
        queue := queue + [proxy];
      }
    }
    assert proxies[..|proxies|] == proxies;
  }

  ghost predicate Lowered(graph0: Graph, graph: Graph, proxies: seq<string>) {
    && graph.Keys == graph0.Keys
    && forall n :: n in graph ==> graph[n] == graph0[n].(indegree := graph0[n].indegree - multiset(proxies)[n])
  }

  lemma LowerOne(graph0: Graph, graph: Graph, queue: seq<string>, proxies: seq<string>, p: string)
    requires Lowered(graph0, graph, proxies) && QueueOk(graph, queue) && p in graph && graph[p].indegree > 0
    ensures var graph' := graph[p := graph[p].(indegree := graph[p].indegree - 1)];
            && Lowered(graph0, graph', proxies + [p])
            && QueueOk(graph', if graph'[p].indegree == 0 then queue + [p] else queue)
  {
  }

  /** Taking a node without incoming edges out of the graph. */
  lemma SortStep(g: seq<Mapping>, graph: Graph, done: seq<string>, placed: seq<Mapping>, name: string, lowered: Graph)
    requires Decodable(g) && UniqueNames(g) && SortState(g, graph, done, placed)
    requires name in graph && graph[name].indegree == 0
    requires Lowered(graph, lowered, if graph[name].option.Some? then graph[name].option.value.proxies else [])
    ensures SortState(g, lowered - {name}, done + [name],
                      if graph[name].data.Some? then placed + [graph[name].data.value] else placed)
  {
    assert NodeOk(graph[name], g, Members(done), name);
    NoIncoming(g, Members(done), name);
    TopoSnoc(g, done, name);
    PlacedSnoc(g, done, placed, name, graph[name]);
    MembersSnoc(done, name);
    GraphLowered(g, graph, Members(done), name, lowered);
  }

  lemma GraphLowered(g: seq<Mapping>, graph: Graph, done: set<string>, name: string, lowered: Graph)
    requires Decodable(g) && UniqueNames(g) && GraphOf(graph, g, done) && name in graph
    requires Lowered(graph, lowered, if graph[name].option.Some? then graph[name].option.value.proxies else [])
    ensures GraphOf(lowered - {name}, g, done + {name})
  {
    assert NodeOk(graph[name], g, done, name);
    forall n | n in lowered - {name} ensures NodeOk(lowered[n], g, done + {name}, n) {
      assert NodeOk(graph[n], g, done, n);
      LoweredFits(g, done, graph[name], name, n);
    }
  }

  lemma LoweredFits(g: seq<Mapping>, done: set<string>, node: GraphNode, name: string, n: string)
    requires Decodable(g) && UniqueNames(g) && Describes(node, g, name) && name !in done
    ensures Incoming(g, done + {name}, n) == Incoming(g, done, n)
            - if node.option.Some? then multiset(node.option.value.proxies)[n] else 0
  {
    if node.data.Some? {
      IncomingAfter(g, done, node.data.value, n);
    } else {
      assert forall i :: 0 <= i < |g| ==> g[i] in g;
      IncomingSame(g, done, name, n);
    }
  }

  lemma TopoSnoc(g: seq<Mapping>, done: seq<string>, name: string)
    requires Decodable(g) && TopoOrder(References(g), done)
    requires forall m :: m in g && Name(m) !in Members(done) ==> name !in Proxies(m)
    ensures TopoOrder(References(g), done + [name])
  {
    var order := done + [name];
    forall i, p | 0 <= i < |order| && (p, order[i]) in References(g) ensures p in order[..i] {
      assert i < |done| ==> order[..i] == done[..i];
      assert order[..|done|] == done;
    }
  }

  lemma PlacedSnoc(g: seq<Mapping>, done: seq<string>, placed: seq<Mapping>, name: string, node: GraphNode)
    requires Decodable(g) && UniqueNames(g) && PlacedOk(g, done, placed) && Describes(node, g, name) && name !in done
    requires forall m :: m in g && Name(m) !in Members(done) ==> name !in Proxies(m)
    ensures PlacedOk(g, done + [name], if node.data.Some? then placed + [node.data.value] else placed)
  {
    if node.data.Some? {
      var m := node.data.value;
      var placed' := placed + [m];
      forall x | x in g && Name(x) == name ensures x == m {
        SameNameSame(g, x, m);
      }
      forall k, a | 0 <= k < |placed'| && a in g && Name(placed'[k]) in Proxies(a) ensures a in placed'[..k] {
        assert k < |placed| ==> placed'[..k] == placed[..k];
        assert placed'[..|placed|] == placed;
      }
    } else {
      assert forall x :: x in g ==> Name(x) in Names(g);
    }
  }

  lemma SameNameSame(g: seq<Mapping>, x: Mapping, y: Mapping)
    requires Decodable(g) && UniqueNames(g) && x in g && y in g && Name(x) == Name(y)
    ensures x == y
  {
    var i :| 0 <= i < |g| && g[i] == x;
    var j :| 0 <= j < |g| && g[j] == y;
  }

  /** All nodes without incoming edges, in any order. */
  method InitialQueue(graph: Graph) returns (queue: seq<string>)
    ensures QueueOk(graph, queue)
  {
    queue := [];
    var todo := graph.Keys;
    while todo != {}
      invariant todo <= graph.Keys && NoDuplicates(queue)
      invariant forall n :: n in queue <==> n in graph.Keys - todo && graph[n].indegree == 0
      decreases todo
    {
      var name :| name in todo;
      if graph[name].indegree == 0 {
        queue := queue + [name];
      }
      todo := todo - {name};
    }
  }

  /** The tail of the array holds the placed groups, the first placed one last. */
  ghost predicate TailIs(a: seq<Mapping>, placed: seq<Mapping>) {
    |placed| <= |a| && forall k :: 0 <= k < |placed| ==> a[|a| - 1 - k] == placed[k]
  }

  /** Step 1.2: repeatedly takes out a node without incoming edges. */
  method TopoSort(groups: array<Mapping>, ghost g: seq<Mapping>, graph0: Graph)
    returns (graph: Graph, ghost done: seq<string>, ghost placed: seq<Mapping>)
    requires Decodable(g) && UniqueNames(g) && GraphOf(graph0, g, {}) && |g| == groups.Length
    modifies groups
    ensures SortState(g, graph, done, placed) && TailIs(groups[..], placed)
    ensures forall n :: n in graph ==> graph[n].indegree != 0
  {
    graph, done, placed := graph0, [], [];
    assert Members(done) == {};
    var index := 0;
    var queue := InitialQueue(graph);
    while |queue| > 0
      invariant SortState(g, graph, done, placed) && QueueOk(graph, queue)
      invariant index == |placed| && TailIs(groups[..], placed)
      decreases |graph|
    {
      var name := queue[0];
      assert name in queue;
      index := PlaceNode(groups, g, graph[name], name, index, done, placed);
      graph, queue, done, placed := TakeOut(g, graph, queue, name, done, placed);
    }
  }

  /** Lowers the nodes that `name`, the head of the queue, references, and removes it. */
  method TakeOut(ghost g: seq<Mapping>, graph0: Graph, queue0: seq<string>, name: string,
                 ghost done0: seq<string>, ghost placed0: seq<Mapping>)
    returns (graph: Graph, queue: seq<string>, ghost done: seq<string>, ghost placed: seq<Mapping>)
    requires Decodable(g) && UniqueNames(g) && SortState(g, graph0, done0, placed0)
    requires QueueOk(graph0, queue0) && queue0 != [] && queue0[0] == name && name in graph0
    ensures SortState(g, graph, done, placed) && QueueOk(graph, queue) && graph.Keys == graph0.Keys - {name}
    ensures placed == if graph0[name].data.Some? then placed0 + [graph0[name].data.value] else placed0
  {
    var node := graph0[name];
    assert name in queue0 && Describes(node, g, name);
    graph, queue := graph0, queue0;
    if node.option.Some? && |node.option.value.proxies| > 0 {
      forall p | p in node.option.value.proxies
        ensures p in graph && graph[p].indegree >= multiset(node.option.value.proxies)[p]
      {
        ProxiesRemain(g, graph, done0, node.data.value, p);
      }
      graph, queue := Relax(graph, queue, node.option.value.proxies);
    }
    SortStep(g, graph0, done0, placed0, name, graph);
    PopQueue(graph, queue, name);
    done := done0 + [name];
    placed := if node.data.Some? then placed0 + [node.data.value] else placed0;
    graph := graph - {name};
    queue := queue[1..];
  }

  /** Writes a group in front of those already placed; plain proxies are not placed. */
  method PlaceNode(groups: array<Mapping>, ghost g: seq<Mapping>, node: GraphNode, name: string, index: nat,
                   ghost done: seq<string>, ghost placed: seq<Mapping>)
    returns (index': nat)
    requires Decodable(g) && PlacedOk(g, done, placed) && Describes(node, g, name) && name !in done
    requires |g| == groups.Length && TailIs(groups[..], placed) && index == |placed|
    modifies groups
    ensures var placed' := if node.data.Some? then placed + [node.data.value] else placed;
            TailIs(groups[..], placed') && index' == |placed'|
  {
    PlacedFits(g, done, placed, name, node);
    index' := index;
    if node.option.Some? {
      index' := index' + 1;
      Place(groups, index', node.data.value, placed);
    }
  }

  method Place(groups: array<Mapping>, index: nat, m: Mapping, ghost placed: seq<Mapping>)
    requires TailIs(groups[..], placed) && index == |placed| + 1 <= groups.Length
    modifies groups
    ensures TailIs(groups[..], placed + [m])
  {
    groups[groups.Length - index] := m;
  }

  lemma PopQueue(graph: Graph, queue: seq<string>, name: string)
    requires QueueOk(graph, queue) && queue != [] && queue[0] == name
    ensures QueueOk(graph - {name}, queue[1..])
  {
    var rest := queue[1..];
    forall n ensures n in rest <==> n in queue && n != name {
      if n in queue && n != name {
        var i :| 0 <= i < |queue| && queue[i] == n;
        assert rest[i - 1] == n;
      }
    }
  }

  /** There is room for one more group. */
  lemma PlacedFits(g: seq<Mapping>, done: seq<string>, placed: seq<Mapping>, name: string, node: GraphNode)
    requires Decodable(g) && PlacedOk(g, done, placed) && Describes(node, g, name) && name !in done
    ensures node.data.Some? ==> |placed| + 1 <= |g|
  {
    if node.data.Some? {
      var m := node.data.value;
      DistinctMembers(placed + [m], g);
    }
  }

  lemma {:induction false} DistinctMembers(s: seq<Mapping>, g: seq<Mapping>)
    requires NoDuplicates(s) && forall m :: m in s ==> m in g
    ensures |s| <= |g|
  {
    if s != [] {
      var last := s[|s| - 1];
      assert last in s;
      var i :| 0 <= i < |g| && g[i] == last;
      var rest := g[..i] + g[i + 1..];
      forall m | m in s[..|s| - 1] ensures m in rest {
        var j :| 0 <= j < |s| - 1 && s[j] == m;
        assert m in s;
        var k :| 0 <= k < |g| && g[k] == m;
        assert rest[if k < i then k else k - 1] == m;
      }
      DistinctMembers(s[..|s| - 1], rest);
    }
  }
}
