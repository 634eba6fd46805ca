/** `runDFS`: builds an undirected adjacency record with a list for every
    node, then explores it recursively from the first node, marking a node
    visited on entry and descending only into unvisited neighbours. The
    model keeps the order in which nodes are entered and drops the drawing,
    logging and delays. */
module DepthFirst {
  import opened Common
  import opened Graph

  /** A link as the search reads it: each endpoint resolves to an id, or to
      `None` when it is a node object whose `id` is `null` or `undefined`.
      An endpoint that is itself `null` or `undefined` makes the source throw
      before this point and is not represented. */
  datatype MaybeLink = MaybeLink(source: Option<int>, target: Option<int>)

  /** The links with both endpoints present, in order. */
  function Present(links: seq<MaybeLink>): seq<Link>
  {
    if links == [] then []
    else
      var l := links[|links| - 1];
      Present(links[..|links| - 1])
        + (if l.source.Some? && l.target.Some? then [Link(l.source.value, l.target.value)] else [])
  }

  /** An empty list for every node id. */
  function EmptyLists(ids: seq<int>): Adjacency
  {
    if ids == [] then map[] else EmptyLists(ids[..|ids| - 1])[ids[|ids| - 1] := []]
  }

  /** The adjacency record `runDFS` builds. */
  function NodeGraph(ids: seq<int>, links: seq<MaybeLink>): Adjacency
  {
    AddLinks(EmptyLists(ids), Present(links))
  }

  /** What `graph[id].push` needs: every present endpoint is a node id
      (otherwise the push throws). */
  predicate EndpointsAreNodes(ids: seq<int>, links: seq<MaybeLink>)
  {
    forall i :: 0 <= i < |links| ==>
      (links[i].source.Some? && links[i].target.Some? ==>
         links[i].source.value in ids && links[i].target.value in ids)
  }

  /** Every neighbour listed has a list of its own. */
  predicate Closed(graph: Adjacency)
  {
    forall v, w :: v in graph && w in graph[v] ==> w in graph
  }

  lemma {:induction false} EmptyListsSpec(ids: seq<int>)
    ensures EmptyLists(ids).Keys == SetOf(ids)
    ensures forall v :: v in EmptyLists(ids) ==> EmptyLists(ids)[v] == []
  {
    if ids != [] {
      var init := ids[..|ids| - 1];
      EmptyListsSpec(init);
      assert SetOf(ids) == SetOf(init) + {ids[|ids| - 1]} by {
        assert ids == init + [ids[|ids| - 1]];
      }
    }
  }

  lemma {:induction false} PresentEndpoints(ids: seq<int>, links: seq<MaybeLink>)
    requires EndpointsAreNodes(ids, links)
    ensures Endpoints(Present(links)) <= SetOf(ids)
  {
    if links != [] {
      var init := links[..|links| - 1];
      assert EndpointsAreNodes(ids, init) by {
        forall i | 0 <= i < |init| ensures
          (init[i].source.Some? && init[i].target.Some? ==>
             init[i].source.value in ids && init[i].target.value in ids)
        {
          assert init[i] == links[i];
        }
      }
      PresentEndpoints(ids, init);
      var extra := (var l := links[|links| - 1];
        if l.source.Some? && l.target.Some? then [Link(l.source.value, l.target.value)] else []);
      AddLinksKeys(map[], Present(init) + extra);
      EndpointsAppend(Present(init), extra);
    }
  }

  lemma {:induction false} EndpointsAppend(a: seq<Link>, b: seq<Link>)
    ensures Endpoints(a + b) == Endpoints(a) + Endpoints(b)
  {
    if b != [] {
      assert (a + b)[..|a + b| - 1] == a + b[..|b| - 1];
      EndpointsAppend(a, b[..|b| - 1]);
    } else {
      assert a + b == a;
    }
  }

  /** Every node id has a list and nothing else does; the list of `v` holds
      the other ends of the present links at `v`, in link order; the lists
      are symmetric; and every neighbour is a node. */
  lemma NodeGraphSpec(ids: seq<int>, links: seq<MaybeLink>, v: int, w: int)
    requires EndpointsAreNodes(ids, links)
    ensures NodeGraph(ids, links).Keys == SetOf(ids)
    ensures Neighbours(NodeGraph(ids, links), v) == LinkedTo(Present(links), v)
    ensures w in Neighbours(NodeGraph(ids, links), v) <==> v in Neighbours(NodeGraph(ids, links), w)
    ensures Closed(NodeGraph(ids, links))
  {
    NodeGraphKeys(ids, links);
    EmptyListsSpec(ids);
    AddLinksSpec(EmptyLists(ids), Present(links), v);
    AddLinksSymmetric(EmptyLists(ids), Present(links), v, w);
    NodeGraphClosed(ids, links);
  }

  lemma NodeGraphKeys(ids: seq<int>, links: seq<MaybeLink>)
    requires EndpointsAreNodes(ids, links)
    ensures NodeGraph(ids, links).Keys == SetOf(ids)
  {
    EmptyListsSpec(ids);
    PresentEndpoints(ids, links);
    AddLinksKeys(EmptyLists(ids), Present(links));
  }

  lemma NodeGraphClosed(ids: seq<int>, links: seq<MaybeLink>)
    requires EndpointsAreNodes(ids, links)
    ensures Closed(NodeGraph(ids, links))
  {
    var g := NodeGraph(ids, links);
    var present := Present(links);
    NodeGraphKeys(ids, links);
    EmptyListsSpec(ids);
    PresentEndpoints(ids, links);
    forall u, x | u in g && x in g[u] ensures x in g {
      AddLinksSpec(EmptyLists(ids), present, u);
      LinkedToJoins(present, u, x);
      var i :| 0 <= i < |present| && Joins(present[i], u, x);
      EndpointOf(present, i);
    }
  }

  lemma {:induction false} EndpointOf(links: seq<Link>, i: nat)
    requires i < |links|
    ensures links[i].source in Endpoints(links) && links[i].target in Endpoints(links)
  {
    if i < |links| - 1 {
      EndpointOf(links[..|links| - 1], i);
    }
  }

  /** The first adjacency loop: an empty list per node. */
  method InitLists(nodes: seq<int>) returns (graph: Adjacency)
    ensures graph == EmptyLists(nodes)
  {
    graph := map[];
    for i := 0 to |nodes|
      invariant graph == EmptyLists(nodes[..i])
    {
      assert nodes[..i + 1][..i] == nodes[..i];
      graph := graph[nodes[i] := []];
    }
    assert nodes[..|nodes|] == nodes;
  }

  /** The second adjacency loop: skip a link with an endpoint id missing,
      otherwise push each end onto the other's list. */
  method PushLinks(nodes: seq<int>, links: seq<MaybeLink>, graph0: Adjacency) returns (graph: Adjacency)
    requires EndpointsAreNodes(nodes, links) && graph0.Keys == SetOf(nodes)
    ensures graph == AddLinks(graph0, Present(links))
  {
    graph := graph0;
    for i := 0 to |links|
      invariant graph == AddLinks(graph0, Present(links[..i]))
      invariant graph.Keys == SetOf(nodes)
    {
      PresentSnoc(links, i);
      var link := links[i];
      if link.source.Some? && link.target.Some? {
        var sourceId, targetId := link.source.value, link.target.value;
        assert sourceId in SetOf(nodes) && targetId in SetOf(nodes);
        ghost var before := graph;
        graph := graph[sourceId := graph[sourceId] + [targetId]];
        graph := graph[targetId := graph[targetId] + [sourceId]];
        assert graph == AddLink(before, Link(sourceId, targetId));
        AddLinksSnoc(graph0, Present(links[..i]), Link(sourceId, targetId));
      } else {
        assert Present(links[..i + 1]) == Present(links[..i]) + [];
        assert Present(links[..i]) + [] == Present(links[..i]);
      }
    }
    assert links[..|links|] == links;
  }

  lemma PresentSnoc(links: seq<MaybeLink>, i: nat)
    requires i < |links|
    ensures Present(links[..i + 1]) == Present(links[..i])
      + (if links[i].source.Some? && links[i].target.Some?
         then [Link(links[i].source.value, links[i].target.value)] else [])
  {
    assert links[..i + 1][..i] == links[..i];
  }

  /** Both adjacency loops of `runDFS`. */
  method BuildGraph(nodes: seq<int>, links: seq<MaybeLink>) returns (graph: Adjacency)
    requires EndpointsAreNodes(nodes, links)
    ensures graph == NodeGraph(nodes, links)
  {
    graph := InitLists(nodes);
    EmptyListsSpec(nodes);
    graph := PushLinks(nodes, links, graph);
  }

  /** What a call `dfs(node)` that starts with the visited set `visited`
      leaves behind: it enters `node` first, enters no node twice and no
      node visited before, adds exactly the nodes it enters to the visited
      set, leaves every entered node with all its neighbours visited, and
      enters only nodes reachable from `node`. */
  ghost predicate Explored(graph: Adjacency, node: int, visited: set<int>, visited': set<int>, order: seq<int>)
  {
    && |order| >= 1 && order[0] == node
    && NoDup(order) && SetOf(order) !! visited
    && visited' == visited + SetOf(order)
    && (forall v, w :: v in order && w in Neighbours(graph, v) ==> w in visited')
    && (forall v :: v in order ==> Reachable(graph, node, v))
  }

  /** The first entry of `ns` outside `seen`, if any. */
  function FirstUnvisited(ns: seq<int>, seen: set<int>): Option<int>
  {
    if ns == [] then None
    else if ns[0] !in seen then Some(ns[0])
    else FirstUnvisited(ns[1..], seen)
  }

  /** Scanning one more entry changes the first unvisited one only when
      there was none yet. */
  lemma {:induction false} FirstUnvisitedSnoc(ns: seq<int>, x: int, seen: set<int>)
    ensures FirstUnvisited(ns + [x], seen) ==
      if FirstUnvisited(ns, seen).Some? then FirstUnvisited(ns, seen)
      else if x !in seen then Some(x) else None
  {
    if ns != [] {
      assert (ns + [x])[1..] == ns[1..] + [x];
      FirstUnvisitedSnoc(ns[1..], x, seen);
    }
  }

  /** The recursive `dfs`: mark `node`, then descend into each neighbour
      that is still unvisited, in list order. */
  method Dfs(graph: Adjacency, node: int, visited: set<int>) returns (visited': set<int>, order: seq<int>)
    requires Closed(graph) && node in graph && node !in visited && visited <= graph.Keys
    ensures visited' <= graph.Keys
    ensures Explored(graph, node, visited, visited', order)
    ensures |order| > 1 <==> FirstUnvisited(graph[node], visited + {node}).Some?
    ensures |order| > 1 ==> order[1] == FirstUnvisited(graph[node], visited + {node}).value
    decreases graph.Keys - visited
  {
    visited' := visited + {node};
    order := [node];
    ReachableSelf(graph, node);
    var neighbours := graph[node];
    for i := 0 to |neighbours|
      invariant visited' == visited + SetOf(order) && visited' <= graph.Keys
      invariant |order| >= 1 && order[0] == node && NoDup(order) && SetOf(order) !! visited
      invariant forall v, w :: v in order && v != node && w in Neighbours(graph, v) ==> w in visited'
      invariant forall k :: 0 <= k < i ==> neighbours[k] in visited'
      invariant forall v :: v in order ==> Reachable(graph, node, v)
      invariant |order| > 1 <==> FirstUnvisited(neighbours[..i], visited + {node}).Some?
      invariant |order| > 1 ==> order[1] == FirstUnvisited(neighbours[..i], visited + {node}).value
    {
      var neighbor := neighbours[i];
      assert neighbours[..i + 1] == neighbours[..i] + [neighbor];
      FirstUnvisitedSnoc(neighbours[..i], neighbor, visited + {node});
      if neighbor !in visited' {
        var after, sub := Dfs(graph, neighbor, visited');
        forall v | v in sub ensures Reachable(graph, node, v) {
          ReachableThroughNeighbour(graph, node, neighbor, v);
        }
        NoDupAppend(order, sub);
        order := order + sub;
        visited' := after;
      }
    }
    assert neighbours[..|neighbours|] == neighbours;
  }

  /** `runDFS` on node ids and links: nothing is visited without a start
      node; otherwise the nodes are entered from the first node, each once,
      and they are exactly the nodes reachable from it. */
  method RunDfs(nodes: seq<int>, links: seq<MaybeLink>) returns (order: seq<int>)
    requires EndpointsAreNodes(nodes, links)
    ensures nodes == [] ==> order == []
    ensures nodes != [] ==> order != [] && order[0] == nodes[0] && NoDup(order)
    ensures nodes != [] ==> forall v :: v in order <==> Reachable(NodeGraph(nodes, links), nodes[0], v)
  {
    var graph := BuildGraph(nodes, links);
    if |nodes| == 0 {
      return [];
    }
    NodeGraphSpec(nodes, links, nodes[0], nodes[0]);
    var visited;
    visited, order := Dfs(graph, nodes[0], {});
    EnteredAllReachable(graph, nodes[0], visited, order);
  }

  /** A search from an empty visited set enters every reachable node. */
  lemma EnteredAllReachable(graph: Adjacency, start: int, visited': set<int>, order: seq<int>)
    requires Explored(graph, start, {}, visited', order)
    ensures forall v :: v in order <==> Reachable(graph, start, v)
  {
    forall v | Reachable(graph, start, v) ensures v in order {
      ReachableInBall(graph, start, v);
      var k: nat :| v in Ball(graph, start, k);
      ClosedHoldsBalls(graph, start, SetOf(order), k);
    }
  }
}
