/** Locating the loops that stop the sort, and the whole of `proxyGroupsDagSort`. */
module ProxyGroupLoops {
  import opened Text
  import opened Graphs
  import opened ProxyGroups

  function Listed(graph: Graph, n: string): seq<string> {
    if n in graph && graph[n].option.Some? then graph[n].option.value.proxies else []
  }

  /** The graph with `outdegree` and `from` filled in for the nodes `visited` and, for `cur`,
      the first references `part`. */
  ghost predicate Linked(base: Graph, graph: Graph, visited: set<string>, cur: string, part: seq<string>) {
    && graph.Keys == base.Keys
    && forall n {:trigger NodeLinked(base, graph[n], n, visited, cur, part)} ::
         n in graph ==> NodeLinked(base, graph[n], n, visited, cur, part)
  }

  ghost predicate NodeLinked(base: Graph, node: GraphNode, n: string, visited: set<string>, cur: string,
                             part: seq<string>)
    requires n in base
  {
    && node.option == base[n].option
    && node.outdegree == (if n in visited then |Listed(base, n)| else if n == cur then |part| else 0)
    && forall f :: multiset(node.from)[f] ==
         if f in visited then multiset(Listed(base, f))[n] else if f == cur then multiset(part)[n] else 0
  }

  /** One reference of `cur` to `p` is linked. */
  lemma LinkOne(base: Graph, graph: Graph, visited: set<string>, cur: string, part: seq<string>, p: string)
    requires Linked(base, graph, visited, cur, part) && cur in graph && p in graph && cur !in visited
    ensures var graph1 := graph[cur := graph[cur].(outdegree := graph[cur].outdegree + 1)];
            Linked(base, graph1[p := graph1[p].(from := graph1[p].from + [cur])], visited, cur, part + [p])
  {
    var graph1 := graph[cur := graph[cur].(outdegree := graph[cur].outdegree + 1)];
    var graph2 := graph1[p := graph1[p].(from := graph1[p].from + [cur])];
    forall n | n in graph2 ensures NodeLinked(base, graph2[n], n, visited, cur, part + [p]) {
      assert NodeLinked(base, graph[n], n, visited, cur, part);
      NodeLinkOne(base, graph[n], graph2[n], n, visited, cur, part, p);
    }
  }

  lemma NodeLinkOne(base: Graph, node: GraphNode, node': GraphNode, n: string, visited: set<string>, cur: string,
                    part: seq<string>, p: string)
    requires n in base && cur !in visited && NodeLinked(base, node, n, visited, cur, part)
    requires node'.option == node.option
    requires node'.outdegree == node.outdegree + if n == cur then 1 else 0
    requires node'.from == if n == p then node.from + [cur] else node.from
    ensures NodeLinked(base, node', n, visited, cur, part + [p])
  {
    assert multiset(part + [p])[n] == multiset(part)[n] + if n == p then 1 else 0;
    forall f ensures multiset(node'.from)[f] == multiset(node.from)[f] + if n == p && f == cur then 1 else 0 {
    }
  }

  /** A node all of whose references are linked counts as visited. */
  lemma LinkedVisited(base: Graph, graph: Graph, visited: set<string>, cur: string, next: string)
    requires Linked(base, graph, visited, cur, Listed(base, cur)) && cur !in visited
    ensures Linked(base, graph, visited + {cur}, next, [])
  {
    forall n | n in graph ensures NodeLinked(base, graph[n], n, visited + {cur}, next, []) {
      assert NodeLinked(base, graph[n], n, visited, cur, Listed(base, cur));
    }
  }

  /** With nothing linked yet for the current node, it does not matter which node that is. */
  lemma LinkedNext(base: Graph, graph: Graph, visited: set<string>, cur: string, next: string)
    requires Linked(base, graph, visited, cur, [])
    ensures Linked(base, graph, visited, next, [])
  {
    forall n | n in graph ensures NodeLinked(base, graph[n], n, visited, next, []) {
      assert NodeLinked(base, graph[n], n, visited, cur, []);
    }
  }

  /** Step 2.1: fills `outdegree` and `from`, over the nodes in any order. */
  method Rebuild(base: Graph) returns (graph: Graph)
    requires forall n :: n in base ==> base[n].outdegree == 0 && base[n].from == []
    requires forall n, p :: n in base && p in Listed(base, n) ==> p in base
    ensures Linked(base, graph, base.Keys, "", [])
  {
    graph := base;
    var todo := base.Keys;
    while todo != {}
      invariant todo <= base.Keys
      invariant Linked(base, graph, base.Keys - todo, "", [])
      decreases todo
    {
      var name :| name in todo;
      ghost var visited := base.Keys - todo;
      LinkedNext(base, graph, visited, "", name);
      graph := LinkNode(base, graph, name, visited);
      LinkedVisited(base, graph, visited, name, "");
      todo := todo - {name};
      assert base.Keys - todo == visited + {name};
    }
    assert base.Keys - todo == base.Keys;
  }

  method LinkNode(ghost base: Graph, graph0: Graph, name: string, ghost visited: set<string>) returns (graph: Graph)
    requires Linked(base, graph0, visited, name, []) && name in base && name !in visited
    requires forall p :: p in Listed(base, name) ==> p in base
    ensures Linked(base, graph, visited, name, Listed(base, name))
  {
    graph := graph0;
    assert NodeLinked(base, graph[name], name, visited, name, []);
    if graph[name].option.None? || |graph[name].option.value.proxies| == 0 {
      assert Listed(base, name) == [];
      return;
    }
    var proxies := graph[name].option.value.proxies;
    for j := 0 to |proxies|
      invariant Linked(base, graph, visited, name, proxies[..j])
    {
      assert proxies[..j + 1] == proxies[..j] + [proxies[j]];
      graph := LinkChild(base, graph, visited, name, proxies[..j], proxies[j]);
    }
    assert proxies[..|proxies|] == proxies;
  }

  method LinkChild(ghost base: Graph, graph0: Graph, ghost visited: set<string>, name: string, ghost part: seq<string>,
                   proxy: string)
    returns (graph: Graph)
    requires Linked(base, graph0, visited, name, part) && name in graph0 && proxy in graph0 && name !in visited
    ensures Linked(base, graph, visited, name, part + [proxy])
  {
    LinkOne(base, graph0, visited, name, part, proxy);
    graph := graph0[name := graph0[name].(outdegree := graph0[name].outdegree + 1)];
    var child := graph[proxy];
    graph := graph[proxy := child.(from := child.from + [name])];
  }

  // ---------------------------------------------------------------- trimming

  /** How many entries of `ps` are not in `gone`. */
  ghost function OutCount(ps: seq<string>, gone: set<string>): nat {
    if ps == [] then 0
    else OutCount(ps[..|ps| - 1], gone) + if ps[|ps| - 1] in gone then 0 else 1
  }

  lemma {:induction false} OutCountAfter(ps: seq<string>, gone: set<string>, x: string)
    requires x !in gone
    ensures OutCount(ps, gone + {x}) == OutCount(ps, gone) - multiset(ps)[x]
  {
    if ps != [] {
      OutCountAfter(ps[..|ps| - 1], gone, x);
      assert ps == ps[..|ps| - 1] + [ps[|ps| - 1]];
    }
  }

  lemma {:induction false} OutCountZero(ps: seq<string>, gone: set<string>)
    ensures OutCount(ps, gone) == 0 <==> forall p :: p in ps ==> p in gone
  {
    if ps != [] {
      OutCountZero(ps[..|ps| - 1], gone);
      assert ps == ps[..|ps| - 1] + [ps[|ps| - 1]];
    }
  }

  lemma {:induction false} OutCountAll(ps: seq<string>)
    ensures OutCount(ps, {}) == |ps|
  {
    if ps != [] {
      OutCountAll(ps[..|ps| - 1]);
    }
  }

  /** What never changes while trimming: `base` is closed under references, and `from` lists
      each referencing node once per reference. */
  ghost predicate Closed(base: Graph) {
    && (forall n, p :: n in base && p in Listed(base, n) ==> p in base)
    && (forall n, f {:trigger FromCounts(base, n, f)} :: n in base ==> FromCounts(base, n, f))
  }

  ghost predicate FromCounts(base: Graph, n: string, f: string)
    requires n in base
  {
    multiset(base[n].from)[f] == if f in base then multiset(Listed(base, f))[n] else 0
  }

  /** The nodes `gone` were removed, each after everything it references. */
  ghost predicate TrimState(base: Graph, graph: Graph, gone: seq<string>) {
    && Closed(base) && graph.Keys == base.Keys - Members(gone) && (forall x :: x in gone ==> x in base)
    && (forall n :: n in graph ==> graph[n] == base[n].(outdegree := OutCount(Listed(base, n), Members(gone))))
    && (forall i, p :: 0 <= i < |gone| && p in Listed(base, gone[i]) ==> p in gone[..i])
  }

  ghost predicate OutQueueOk(graph: Graph, queue: seq<string>) {
    NoDuplicates(queue) && forall n :: n in queue <==> n in graph && graph[n].outdegree == 0
  }

  ghost predicate OutLowered(graph0: Graph, graph: Graph, from: seq<string>) {
    && graph.Keys == graph0.Keys
    && forall n :: n in graph ==> graph[n] == graph0[n].(outdegree := graph0[n].outdegree - multiset(from)[n])
  }

  lemma OutLowerOne(graph0: Graph, graph: Graph, queue: seq<string>, from: seq<string>, f: string)
    requires OutLowered(graph0, graph, from) && OutQueueOk(graph, queue) && f in graph && graph[f].outdegree > 0
    ensures var graph' := graph[f := graph[f].(outdegree := graph[f].outdegree - 1)];
            && OutLowered(graph0, graph', from + [f])
            && OutQueueOk(graph', if graph'[f].outdegree == 0 then queue + [f] else queue)
  {
  }

  method RelaxFrom(graph0: Graph, queue0: seq<string>, from: seq<string>) returns (graph: Graph, queue: seq<string>)
    requires OutQueueOk(graph0, queue0)
    requires forall f :: f in from ==> f in graph0 && graph0[f].outdegree >= multiset(from)[f]
    ensures OutLowered(graph0, graph, from) && OutQueueOk(graph, queue) && queue0 <= queue
  {
    graph, queue := graph0, queue0;
    for j := 0 to |from|
      invariant OutLowered(graph0, graph, from[..j]) && OutQueueOk(graph, queue) && queue0 <= queue
    {
      var f := from[j];
      assert from[..j + 1] == from[..j] + [f];
      assert from == from[..j + 1] + from[j + 1..];
      assert graph0[f].outdegree >= multiset(from)[f] >= multiset(from[..j])[f] + 1;
      OutLowerOne(graph0, graph, queue, from[..j], f);
      graph := graph[f := graph[f].(outdegree := graph[f].outdegree - 1)];
      if graph[f].outdegree == 0 {
        queue := queue + [f];
      }
    }
    assert from[..|from|] == from;
  }

  /** Whatever still references a node of the graph is itself still in the graph. */
  lemma FromRemains(base: Graph, graph: Graph, gone: seq<string>, name: string, f: string)
    requires TrimState(base, graph, gone) && name in graph && f in base[name].from
    ensures f in graph && graph[f].outdegree >= multiset(base[name].from)[f]
  {
    assert FromCounts(base, name, f) && multiset(base[name].from)[f] > 0;
    assert f in base && name in Listed(base, f);
    assert f !in gone;
    OutCountAfter(Listed(base, f), Members(gone), name);
  }

  lemma TrimStep(base: Graph, graph: Graph, gone: seq<string>, name: string, lowered: Graph)
    requires TrimState(base, graph, gone) && name in graph && graph[name].outdegree == 0
    requires OutLowered(graph, lowered, base[name].from)
    ensures TrimState(base, lowered - {name}, gone + [name])
  {
    var gone' := gone + [name];
    MembersSnoc(gone, name);
    OutCountZero(Listed(base, name), Members(gone));
    forall n | n in lowered && n != name
      ensures lowered[n] == base[n].(outdegree := OutCount(Listed(base, n), Members(gone')))
    {
      assert FromCounts(base, name, n);
      OutCountAfter(Listed(base, n), Members(gone), name);
    }
    forall i, p | 0 <= i < |gone'| && p in Listed(base, gone'[i]) ensures p in gone'[..i] {
      assert i < |gone| ==> gone'[..i] == gone[..i];
      assert gone'[..|gone|] == gone;
    }
  }

  lemma PopOutQueue(graph: Graph, queue: seq<string>, name: string)
    requires OutQueueOk(graph, queue) && queue != [] && queue[0] == name
    ensures OutQueueOk(graph - {name}, queue[1..])
  {
    var rest := queue[1..];
    forall n ensures n in rest <==> n in queue && n != name {
      if n in queue && n != name {
        var i :| 0 <= i < |queue| && queue[i] == n;
        assert rest[i - 1] == n;
      }
    }
  }

  method InitialOutQueue(graph: Graph) returns (queue: seq<string>)
    ensures OutQueueOk(graph, queue)
  {
    queue := [];
    var todo := graph.Keys;
    while todo != {}
      invariant todo <= graph.Keys && NoDuplicates(queue)
      invariant forall n :: n in queue <==> n in graph.Keys - todo && graph[n].outdegree == 0
      decreases todo
    {
      var name :| name in todo;
      if graph[name].outdegree == 0 {
        queue := queue + [name];
      }
      todo := todo - {name};
    }
  }

  /** Step 2.2: repeatedly removes a node that references nothing left. */
  method Trim(base: Graph) returns (graph: Graph, ghost gone: seq<string>)
    requires TrimState(base, base, [])
    ensures TrimState(base, graph, gone)
    ensures forall n :: n in graph ==> graph[n].outdegree != 0
  {
    graph, gone := base, [];
    var queue := InitialOutQueue(graph);
    while |queue| > 0
      invariant TrimState(base, graph, gone) && OutQueueOk(graph, queue)
      decreases |graph|
    {
      var name := queue[0];
      assert name in queue;
      graph, queue, gone := TrimOne(base, graph, queue, name, gone);
    }
  }

  method TrimOne(ghost base: Graph, graph0: Graph, queue0: seq<string>, name: string, ghost gone0: seq<string>)
    returns (graph: Graph, queue: seq<string>, ghost gone: seq<string>)
    requires TrimState(base, graph0, gone0) && name in graph0
    requires OutQueueOk(graph0, queue0) && queue0 != [] && queue0[0] == name
    ensures TrimState(base, graph, gone) && OutQueueOk(graph, queue) && graph.Keys == graph0.Keys - {name}
  {
    var node := graph0[name];
    assert name in queue0;
    forall f | f in node.from ensures f in graph0 && graph0[f].outdegree >= multiset(node.from)[f] {
      FromRemains(base, graph0, gone0, name, f);
    }
    graph, queue := RelaxFrom(graph0, queue0, node.from);
    TrimStep(base, graph0, gone0, name, graph);
    PopOutQueue(graph, queue, name);
    graph, queue, gone := graph - {name}, queue[1..], gone0 + [name];
  }

  // ---------------------------------------------------------------- outcomes

  lemma EdgeEndsAreNodes(g: seq<Mapping>, a: string, b: string)
    requires Decodable(g) && (a, b) in References(g)
    ensures a in Nodes(g) && b in Nodes(g)
  {
  }

  lemma CycleIsInNodes(g: seq<Mapping>, c: string)
    requires Decodable(g) && OnCycle(References(g), c)
    ensures c in Nodes(g)
  {
    var w :| |w| > 1 && WalkBetween(References(g), w, c, c);
    assert (w[0], w[0 + 1]) in References(g);
    EdgeEndsAreNodes(g, w[0], w[1]);
  }

  lemma FromCycleIsNode(g: seq<Mapping>, x: string)
    requires Decodable(g) && FromCycle(References(g), x)
    ensures x in Nodes(g)
  {
    var c :| OnCycle(References(g), c) && Reaches(References(g), c, x);
    var w :| WalkBetween(References(g), w, c, x);
    if |w| == 1 {
      CycleIsInNodes(g, c);
    } else {
      assert (w[|w| - 2], w[|w| - 2 + 1]) in References(g);
      EdgeEndsAreNodes(g, w[|w| - 2], x);
    }
  }

  lemma CycleNodeIsBoth(e: Edges, c: string)
    requires OnCycle(e, c)
    ensures FromCycle(e, c) && ToCycle(e, c)
  {
    assert WalkBetween(e, [c], c, c);
    assert Reaches(e, c, c);
  }

  /** What the sort leaves in the graph is what comes from a cycle. */
  lemma LeftoverComesFromCycle(g: seq<Mapping>, graph: Graph, done: seq<string>, x: string)
    requires Decodable(g) && GraphOf(graph, g, Members(done)) && TopoOrder(References(g), done)
    requires forall n :: n in graph ==> graph[n].indegree != 0
    ensures x in graph <==> FromCycle(References(g), x)
  {
    if x in graph {
      forall n | n in graph.Keys ensures HasPredecessor(References(g), graph.Keys, n) {
        NoIncoming(g, Members(done), n);
        var m :| m in g && Name(m) !in Members(done) && n in Proxies(m);
        assert (Name(m), n) in References(g) && Name(m) in graph.Keys;
      }
      StuckMemberComesFromCycle(References(g), graph.Keys, x);
    }
    if FromCycle(References(g), x) {
      FromCycleIsNode(g, x);
      if x in done {
        OrderedIsCycleFree(References(g), done, x);
      }
    }
  }

  lemma {:induction false} NoDupMultiplicity<T>(s: seq<T>, x: T)
    requires NoDuplicates(s)
    ensures multiset(s)[x] == if x in s then 1 else 0
  {
    if s != [] {
      assert s == [s[0]] + s[1..];
      NoDupMultiplicity(s[1..], x);
    }
  }

  lemma SameElementsPermute<T>(a: seq<T>, b: seq<T>)
    requires NoDuplicates(a) && NoDuplicates(b) && forall x :: x in a <==> x in b
    ensures multiset(a) == multiset(b)
  {
    forall x ensures multiset(a)[x] == multiset(b)[x] {
      NoDupMultiplicity(a, x);
      NoDupMultiplicity(b, x);
    }
  }

  /** With nothing left in the graph, the array holds the groups, dependencies first. */
  lemma AllPlaced(g: seq<Mapping>, done: seq<string>, placed: seq<Mapping>, a: seq<Mapping>)
    requires Decodable(g) && UniqueNames(g) && PlacedOk(g, done, placed) && TailIs(a, placed) && |a| == |g|
    requires forall n :: n in Names(g) ==> n in done
    ensures multiset(a) == multiset(g) && Decodable(a) && DependenciesFirst(a)
  {
    assert NoDuplicates(g);
    assert forall m :: m in g ==> Name(m) in Names(g);
    SameElementsPermute(placed, g);
    assert |placed| == |multiset(placed)| == |multiset(g)| == |g|;
    forall i | 0 <= i < |a| ensures a[i] == placed[|a| - 1 - i] {
      assert a[|a| - 1 - (|a| - 1 - i)] == placed[|a| - 1 - i];
    }
    ReversedIsPermutation(a, placed);
    forall i | 0 <= i < |a| ensures a[i].decoded.Some? {
      assert a[i] in placed;
    }
    forall i, j | 0 <= i < |a| && 0 <= j < |a| && Name(a[j]) in Proxies(a[i]) ensures j < i {
      LaterIsEarlier(g, done, placed, |a| - 1 - i, |a| - 1 - j);
    }
  }

  /** Of two placed groups the one that references the other was placed first. */
  lemma LaterIsEarlier(g: seq<Mapping>, done: seq<string>, placed: seq<Mapping>, i: nat, j: nat)
    requires Decodable(g) && PlacedOk(g, done, placed) && i < |placed| && j < |placed|
    requires placed[i] in g && placed[j] in g && Name(placed[j]) in Proxies(placed[i])
    ensures i < j
  {
    assert placed[i] in placed[..j];
    var k :| 0 <= k < j && placed[k] == placed[i];
  }

  lemma ReversedIsPermutation(a: seq<Mapping>, placed: seq<Mapping>)
    requires |a| == |placed| && NoDuplicates(placed)
    requires forall i :: 0 <= i < |a| ==> a[i] == placed[|a| - 1 - i]
    ensures multiset(a) == multiset(placed) && forall m :: m in a <==> m in placed
  {
    forall m | m in placed ensures m in a {
      var k :| 0 <= k < |placed| && placed[k] == m;
      assert a[|a| - 1 - k] == m;
    }
    SameElementsPermute(a, placed);
  }

  /** In the graph a node lists what its group references. */
  ghost predicate ListsReferences(g: seq<Mapping>, graph: Graph)
    requires Decodable(g)
  {
    forall n, p :: n in graph ==> (p in Listed(graph, n) <==> (n, p) in References(g))
  }

  lemma GraphListsReferences(g: seq<Mapping>, graph: Graph, done: seq<string>)
    requires Decodable(g) && UniqueNames(g) && GraphOf(graph, g, Members(done)) && TopoOrder(References(g), done)
    ensures ListsReferences(g, graph)
    ensures forall n, p :: n in graph && p in Listed(graph, n) ==> p in graph
  {
    forall n, p | n in graph ensures p in Listed(graph, n) <==> (n, p) in References(g) {
      assert Describes(graph[n], g, n);
      if (n, p) in References(g) {
        var m :| m in g && p in Proxies(m) && n == Name(m);
        assert n in Names(g);
        SameNameSame(g, m, graph[n].data.value);
      }
    }
    forall n, p | n in graph && p in Listed(graph, n) ensures p in graph {
      assert Describes(graph[n], g, n);
      ProxiesRemain(g, graph, done, graph[n].data.value, p);
    }
  }

  /** The rebuilt graph is a valid start for trimming. */
  lemma RebuiltIsClosed(base: Graph, graph: Graph)
    requires Linked(base, graph, base.Keys, "", [])
    requires forall n, p :: n in base && p in Listed(base, n) ==> p in base
    ensures TrimState(graph, graph, []) && forall n :: Listed(graph, n) == Listed(base, n)
  {
    RebuiltKeepsLists(base, graph);
    forall n, f | n in graph ensures FromCounts(graph, n, f) {
      assert NodeLinked(base, graph[n], n, base.Keys, "", []);
    }
    assert Members([]) == {};
    forall n | n in graph ensures graph[n].outdegree == OutCount(Listed(graph, n), {}) {
      assert NodeLinked(base, graph[n], n, base.Keys, "", []);
      OutCountAll(Listed(graph, n));
    }
  }

  lemma RebuiltKeepsLists(base: Graph, graph: Graph)
    requires Linked(base, graph, base.Keys, "", [])
    ensures forall n :: Listed(graph, n) == Listed(base, n)
  {
    forall n ensures Listed(graph, n) == Listed(base, n) {
      if n in graph {
        assert NodeLinked(base, graph[n], n, base.Keys, "", []);
      }
    }
  }

  /** What trimming leaves is what also reaches a cycle. */
  lemma TrimmedReachesCycle(g: seq<Mapping>, base: Graph, graph: Graph, gone: seq<string>, x: string)
    requires Decodable(g) && ListsReferences(g, base) && TrimState(base, graph, gone) && x in base
    requires forall n :: n in graph ==> graph[n].outdegree != 0
    ensures x in graph <==> ToCycle(References(g), x)
  {
    ToCycleIsFlippedFromCycle(References(g), x);
    if x in graph {
      LeftIsStuck(g, base, graph, gone);
      StuckMemberComesFromCycle(Flip(References(g)), graph.Keys, x);
    } else {
      GoneIsOrdered(g, base, graph, gone);
      OrderedIsCycleFree(Flip(References(g)), gone, x);
    }
  }

  lemma FlippedEdge(e: Edges, a: string, b: string)
    ensures (a, b) in Flip(e) <==> (b, a) in e
  {
    if (b, a) in e {
      assert ((b, a).1, (b, a).0) in Flip(e);
    }
  }

  lemma LeftIsStuck(g: seq<Mapping>, base: Graph, graph: Graph, gone: seq<string>)
    requires Decodable(g) && ListsReferences(g, base) && TrimState(base, graph, gone)
    requires forall n :: n in graph ==> graph[n].outdegree != 0
    ensures Stuck(Flip(References(g)), graph.Keys)
  {
    forall n | n in graph.Keys ensures HasPredecessor(Flip(References(g)), graph.Keys, n) {
      OutCountZero(Listed(base, n), Members(gone));
      var p :| p in Listed(base, n) && p !in Members(gone);
      FlippedEdge(References(g), p, n);
      assert p in graph.Keys;
    }
  }

  lemma GoneIsOrdered(g: seq<Mapping>, base: Graph, graph: Graph, gone: seq<string>)
    requires Decodable(g) && ListsReferences(g, base) && TrimState(base, graph, gone)
    ensures TopoOrder(Flip(References(g)), gone)
  {
    forall i, p | 0 <= i < |gone| && (p, gone[i]) in Flip(References(g)) ensures p in gone[..i] {
      FlippedEdge(References(g), p, gone[i]);
      assert gone[i] in gone && p in Listed(base, gone[i]);
    }
  }

  /** Step 2.3: the names left, in any order. */
  method ReportNames(graph: Graph) returns (names: seq<string>)
    ensures NoDuplicates(names) && forall n :: n in names <==> n in graph
  {
    names := [];
    var todo := graph.Keys;
    while todo != {}
      invariant todo <= graph.Keys && NoDuplicates(names)
      invariant forall n :: n in names <==> n in graph.Keys - todo
      decreases todo
    {
      var name :| name in todo;
      assert name !in names;
      names := names + [name];
      todo := todo - {name};
    }
  }

  method LocateLoop(ghost g: seq<Mapping>, base: Graph, ghost done: seq<string>) returns (names: seq<string>)
    requires Decodable(g) && UniqueNames(g) && GraphOf(base, g, Members(done)) && TopoOrder(References(g), done)
    requires base != map[] && forall n :: n in base ==> base[n].indegree != 0
    ensures LoopReport(g, names)
  {
    GraphListsReferences(g, base, done);
    var graph := Rebuild(base);
    RebuiltIsClosed(base, graph);
    ghost var linked := graph;
    ghost var gone;
    graph, gone := Trim(graph);
    names := ReportNames(graph);
    forall x ensures x in names <==> FromCycle(References(g), x) && ToCycle(References(g), x) {
      LeftoverComesFromCycle(g, base, done, x);
      if x in base {
        TrimmedReachesCycle(g, linked, graph, gone, x);
      }
    }
    SomethingReported(g, base, done, names);
  }

  /** The names reported for a loop: exactly the nodes that come from a cycle and reach one. */
  ghost predicate LoopReport(g: seq<Mapping>, names: seq<string>)
    requires Decodable(g)
  {
    && names != [] && NoDuplicates(names)
    && forall x :: x in names <==> FromCycle(References(g), x) && ToCycle(References(g), x)
  }

  lemma SomethingReported(g: seq<Mapping>, base: Graph, done: seq<string>, names: seq<string>)
    requires Decodable(g) && GraphOf(base, g, Members(done)) && TopoOrder(References(g), done)
    requires base != map[] && forall n :: n in base ==> base[n].indegree != 0
    requires forall x :: x in names <==> FromCycle(References(g), x) && ToCycle(References(g), x)
    ensures names != []
  {
    var x :| x in base.Keys;
    LeftoverComesFromCycle(g, base, done, x);
    var c :| OnCycle(References(g), c) && Reaches(References(g), c, x);
    CycleNodeIsBoth(References(g), c);
    assert c in names;
  }

  /** Sorts the groups in place, or says why that is not possible. */
  method ProxyGroupsDagSort(groups: array<Mapping>) returns (r: SortResult)
    modifies groups
    ensures match r
            case DecodeError(i) => groups[..] == old(groups[..]) && FirstUndecodable(groups[..], i)
            case Duplicate(n) => groups[..] == old(groups[..]) && exists j :: FirstRepeat(groups[..], j, n)
            case Sorted =>
              && Decodable(old(groups[..])) && UniqueNames(old(groups[..])) && Acyclic(References(old(groups[..])))
              && multiset(groups[..]) == multiset(old(groups[..]))
              && Decodable(groups[..]) && DependenciesFirst(groups[..])
            case Loop(names) =>
              && Decodable(old(groups[..])) && UniqueNames(old(groups[..])) && !Acyclic(References(old(groups[..])))
              && LoopReport(old(groups[..]), names)
  {
    ghost var g := groups[..];
    var graph: Graph;
    r, graph := BuildGraph(groups[..]);
    if r != Sorted {
      return;
    }
    ghost var done, placed;
    graph, done, placed := TopoSort(groups, g, graph);
    if |graph| == 0 {
      assert graph.Keys == {};
      NothingLeft(g, graph, done, placed, groups[..]);
      return Sorted;
    }
    var names := LocateLoop(g, graph, done);
    ReportMeansCycle(g, names);
    r := Loop(names);
  }

  lemma NothingLeft(g: seq<Mapping>, graph: Graph, done: seq<string>, placed: seq<Mapping>, a: seq<Mapping>)
    requires Decodable(g) && UniqueNames(g) && SortState(g, graph, done, placed) && graph.Keys == {}
    requires TailIs(a, placed) && |a| == |g|
    ensures Acyclic(References(g)) && multiset(a) == multiset(g) && Decodable(a) && DependenciesFirst(a)
  {
    forall c ensures !OnCycle(References(g), c) {
      if OnCycle(References(g), c) {
        CycleIsInNodes(g, c);
        CycleNodeIsBoth(References(g), c);
        assert c in Nodes(g) - Members(done) || c in done;
        OrderedIsCycleFree(References(g), done, c);
      }
    }
    assert forall n :: n in Names(g) ==> n in Nodes(g);
    assert Nodes(g) - Members(done) == {};
    forall n | n in Names(g) ensures n in done {
      assert n !in Nodes(g) - Members(done);
    }
    AllPlaced(g, done, placed, a);
  }

  lemma ReportMeansCycle(g: seq<Mapping>, names: seq<string>)
    requires Decodable(g) && LoopReport(g, names)
    ensures !Acyclic(References(g))
  {
    assert names[0] in names && FromCycle(References(g), names[0]);
  }
}
