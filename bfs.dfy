/** `runBFS`: builds an undirected adjacency record from the links, then
    visits the graph level by level from the first node, marking a node
    visited when it is queued. The model keeps the sequence of levels the
    visualiser highlights and drops the drawing, logging and delays. */
module BreadthFirst {
  import opened Common
  import opened Graph

  /** The adjacency record `runBFS` builds: a list for every endpoint, in
      link order, both directions. */
  function LinkGraph(links: seq<Link>): Adjacency
  {
    AddLinks(map[], links)
  }

  /** The graph holds an entry for exactly the endpoints of the links, the
      neighbours of `v` are the other ends of the links at `v` in link
      order, and the lists are symmetric. */
  lemma LinkGraphSpec(links: seq<Link>, v: int, w: int)
    ensures LinkGraph(links).Keys == Endpoints(links)
    ensures Neighbours(LinkGraph(links), v) == LinkedTo(links, v)
    ensures w in Neighbours(LinkGraph(links), v) <==> v in Neighbours(LinkGraph(links), w)
  {
    AddLinksKeys(map[], links);
    AddLinksSpec(map[], links, v);
    AddLinksSymmetric(map[], links, v, w);
  }

  /** Once both lists exist, the two pushes add the link. */
  lemma PushBoth(before: Adjacency, adj: Adjacency, s: int, t: int)
    requires adj.Keys == before.Keys + {s, t}
    requires forall v :: v in adj ==> adj[v] == Neighbours(before, v)
    ensures var a := adj[s := adj[s] + [t]];
      a[t := a[t] + [s]] == AddLink(before, Link(s, t))
  {
    var a := adj[s := adj[s] + [t]];
    var b := before[s := Neighbours(before, s) + [t]];
    assert a[t] == Neighbours(b, t);
    assert forall v :: v in b ==> v in a && a[v] == b[v];
    assert a[t := a[t] + [s]] == b[t := Neighbours(b, t) + [s]];
  }

  /** The adjacency loop: for each link, create missing lists, then push
      each end onto the other's list. */
  method BuildAdjacency(links: seq<Link>) returns (adj: Adjacency)
    ensures adj == LinkGraph(links)
  {
    adj := map[];
    for i := 0 to |links|
      invariant adj == AddLinks(map[], links[..i])
    {
      ghost var before := adj;
      var sourceId := links[i].source;
      var targetId := links[i].target;
      if sourceId !in adj { adj := adj[sourceId := []]; }
      if targetId !in adj { adj := adj[targetId := []]; }
      PushBoth(before, adj, sourceId, targetId);
      adj := adj[sourceId := adj[sourceId] + [targetId]];
      adj := adj[targetId := adj[targetId] + [sourceId]];
      AddLinksSnoc(map[], links[..i], links[i]);
      assert links[..i + 1] == links[..i] + [links[i]];
    }
    assert links[..|links|] == links;
  }

  /** The entries of `xs` that are not in `seen`, each once, in the order of
      their first occurrence: what the queue gains when `xs` is scanned with
      a visited set that starts as `seen`. */
  function Fresh(xs: seq<int>, seen: set<int>): seq<int>
  {
    if xs == [] then []
    else
      var f := Fresh(xs[..|xs| - 1], seen);
      var x := xs[|xs| - 1];
      if x in seen || x in f then f else f + [x]
  }

  /** What is queued has no repetitions and holds exactly the scanned
      entries that were not yet visited. */
  lemma {:induction false} FreshSpec(xs: seq<int>, seen: set<int>)
    ensures NoDup(Fresh(xs, seen))
    ensures SetOf(Fresh(xs, seen)) == SetOf(xs) - seen
  {
    if xs != [] {
      var init := xs[..|xs| - 1];
      var x := xs[|xs| - 1];
      var f := Fresh(init, seen);
      FreshSpec(init, seen);
      assert SetOf(xs) == SetOf(init) + {x} by {
        assert xs == init + [x];
      }
      if !(x in seen || x in f) {
        assert SetOf(f + [x]) == SetOf(f) + {x};
      }
    }
  }

  /** Scanning one more entry queues it exactly when it is neither in
      `seen` nor already queued. */
  lemma FreshSnoc(xs: seq<int>, x: int, seen: set<int>)
    ensures Fresh(xs + [x], seen) == if x in seen || x in Fresh(xs, seen) then Fresh(xs, seen) else Fresh(xs, seen) + [x]
  {
    assert (xs + [x])[..|xs|] == xs;
  }

  /** The neighbour lists of the nodes of `level`, one after the other. */
  function Expand(adj: Adjacency, level: seq<int>): seq<int>
  {
    if level == [] then []
    else Expand(adj, level[..|level| - 1]) + Neighbours(adj, level[|level| - 1])
  }

  /** Expanding a level lists exactly the nodes one step from it. */
  lemma {:induction false} ExpandIsStep(adj: Adjacency, level: seq<int>)
    ensures SetOf(Expand(adj, level)) == Step(adj, SetOf(level))
  {
    if level != [] {
      var init := level[..|level| - 1];
      var last := level[|level| - 1];
      ExpandIsStep(adj, init);
      assert SetOf(level) == SetOf(init) + {last} by {
        assert level == init + [last];
      }
      SetOfAppend(Expand(adj, init), Neighbours(adj, last));
      StepUnion(adj, SetOf(init), {last});
      assert Step(adj, {last}) == SetOf(Neighbours(adj, last)) by {
        forall w | w in Neighbours(adj, last) ensures w in Step(adj, {last}) {
          assert last in {last};
        }
      }
    }
  }

  /** The levels one after the other. */
  function Flatten(levels: seq<seq<int>>): seq<int>
  {
    if levels == [] then [] else Flatten(levels[..|levels| - 1]) + levels[|levels| - 1]
  }

  /** Every node that can occur in a traversal from `start`: the start and
      every listed neighbour. */
  function Universe(adj: Adjacency, start: int): set<int>
  {
    {start} + set v, w | v in adj && w in adj[v] :: w
  }

  lemma {:induction false} BallInUniverse(adj: Adjacency, start: int, k: nat)
    ensures Ball(adj, start, k) <= Universe(adj, start)
  {
    if k > 0 {
      BallInUniverse(adj, start, k - 1);
    }
  }

  /** The queue loop on one batch: `queue.shift()` `levelSize` times. */
  method TakeLevel(queue: seq<int>) returns (currentLevel: seq<int>, rest: seq<int>)
    ensures currentLevel == queue && rest == []
  {
    var levelSize := |queue|;
    currentLevel, rest := [], queue;
    for i := 0 to levelSize
      invariant currentLevel + rest == queue && |currentLevel| == i
    {
      currentLevel, rest := currentLevel + [rest[0]], rest[1..];
    }
  }

  /** The inner neighbour loop: every neighbour not yet visited is marked
      and queued. Scanning `ns` after the prefix `p` extends what scanning
      `p` gave. */
  method Absorb(ns: seq<int>, visited: set<int>, queue: seq<int>,
                ghost p: seq<int>, ghost seen: set<int>, ghost q0: seq<int>)
    returns (visited': set<int>, queue': seq<int>)
    requires visited == seen + SetOf(Fresh(p, seen)) && queue == q0 + Fresh(p, seen)
    ensures visited' == seen + SetOf(Fresh(p + ns, seen))
    ensures queue' == q0 + Fresh(p + ns, seen)
  {
    visited', queue' := visited, queue;
    assert p + ns[..0] == p;
    for j := 0 to |ns|
      invariant visited' == seen + SetOf(Fresh(p + ns[..j], seen))
      invariant queue' == q0 + Fresh(p + ns[..j], seen)
    {
      var neighbor := ns[j];
      assert p + ns[..j + 1] == (p + ns[..j]) + [neighbor];
      AbsorbOne(p + ns[..j], neighbor, seen, q0, visited', queue');
      if neighbor !in visited' {
        visited' := visited' + {neighbor};
        queue' := queue' + [neighbor];
      }
    }
    assert ns[..|ns|] == ns;
  }

  /** One neighbour of the inner loop: marked and queued exactly when the
      scan so far has not met it. */
  lemma AbsorbOne(pre: seq<int>, x: int, seen: set<int>, q0: seq<int>, visited: set<int>, queue: seq<int>)
    requires visited == seen + SetOf(Fresh(pre, seen)) && queue == q0 + Fresh(pre, seen)
    ensures x !in visited ==> visited + {x} == seen + SetOf(Fresh(pre + [x], seen))
    ensures x !in visited ==> queue + [x] == q0 + Fresh(pre + [x], seen)
    ensures x in visited ==> visited == seen + SetOf(Fresh(pre + [x], seen))
    ensures x in visited ==> queue == q0 + Fresh(pre + [x], seen)
  {
    var f := Fresh(pre, seen);
    FreshSnoc(pre, x, seen);
    SetOfAppend(f, [x]);
    assert x in visited <==> x in seen || x in f;
  }

  /** Enqueue the unvisited neighbours of a level, parent by parent and each
      parent's list in order. */
  method EnqueueNeighbours(adj: Adjacency, level: seq<int>, visited: set<int>, queue: seq<int>)
    returns (visited': set<int>, queue': seq<int>)
    ensures visited' == visited + SetOf(Fresh(Expand(adj, level), visited))
    ensures queue' == queue + Fresh(Expand(adj, level), visited)
  {
    visited', queue' := visited, queue;
    for i := 0 to |level|
      invariant visited' == visited + SetOf(Fresh(Expand(adj, level[..i]), visited))
      invariant queue' == queue + Fresh(Expand(adj, level[..i]), visited)
    {
      assert Expand(adj, level[..i + 1]) == Expand(adj, level[..i]) + Neighbours(adj, level[i]) by {
        assert level[..i + 1][..i] == level[..i];
      }
      visited', queue' := Absorb(Neighbours(adj, level[i]), visited', queue',
                                 Expand(adj, level[..i]), visited, queue);
    }
    assert level[..|level|] == level;
  }

  /** Level `k` holds the nodes at distance exactly `k`, and never nothing. */
  predicate LevelsAreSpheres(adj: Adjacency, start: int, levels: seq<seq<int>>)
  {
    forall k :: 0 <= k < |levels| ==> levels[k] != [] && SetOf(levels[k]) == Sphere(adj, start, k)
  }

  /** Each level after the first is what scanning the previous one queued:
      neighbours in parent order, then list order, skipping visited ones. */
  predicate LevelsExpand(adj: Adjacency, start: int, levels: seq<seq<int>>)
  {
    forall k :: 0 <= k < |levels| - 1 ==>
      levels[k + 1] == Fresh(Expand(adj, levels[k]), Ball(adj, start, k))
  }

  /** The state at the head of the `while (queue.length > 0)` loop after
      `|levels|` batches. */
  predicate Progress(adj: Adjacency, start: int, levels: seq<seq<int>>, visited: set<int>, queue: seq<int>)
  {
    && visited == Ball(adj, start, |levels|)
    && SetOf(queue) == Sphere(adj, start, |levels|) && NoDup(queue)
    && SetOf(Flatten(levels)) == Inside(adj, start, |levels|) && NoDup(Flatten(levels))
    && LevelsAreSpheres(adj, start, levels)
    && LevelsExpand(adj, start, levels)
    && (levels == [] ==> queue == [start])
    && (levels != [] ==>
          levels[0] == [start]
          && queue == Fresh(Expand(adj, levels[|levels| - 1]), Ball(adj, start, |levels| - 1)))
  }

  lemma StepUnion(adj: Adjacency, a: set<int>, b: set<int>)
    ensures Step(adj, a + b) == Step(adj, a) + Step(adj, b)
  {
  }

  /** The ball of radius `k` is what lies inside it plus its sphere, and
      one step from the inside stays in the ball. */
  lemma BallSplits(adj: Adjacency, start: int, k: nat)
    ensures Inside(adj, start, k) <= Ball(adj, start, k)
    ensures Ball(adj, start, k) == Inside(adj, start, k) + Sphere(adj, start, k)
    ensures Step(adj, Inside(adj, start, k)) <= Ball(adj, start, k)
  {
    if k > 0 {
      BallGrows(adj, start, k - 1, k);
    }
  }

  /** The ball one step larger adds exactly the unvisited neighbours of the
      outermost sphere. */
  lemma BallStep(adj: Adjacency, start: int, k: nat)
    ensures Ball(adj, start, k + 1) == Ball(adj, start, k) + (Step(adj, Sphere(adj, start, k)) - Ball(adj, start, k))
  {
    BallSplits(adj, start, k);
    StepUnion(adj, Inside(adj, start, k), Sphere(adj, start, k));
  }

  /** When the sphere of radius `k` is empty, the ball inside it is closed
      under taking neighbours. */
  lemma EmptySphereCloses(adj: Adjacency, start: int, k: nat)
    requires k > 0 && Sphere(adj, start, k) == {}
    ensures Step(adj, Ball(adj, start, k - 1)) <= Ball(adj, start, k - 1)
  {
    BallSplits(adj, start, k);
  }

  /** The first `k + 1` batches together hold the ball of radius `k`. */
  lemma FlattenStep(adj: Adjacency, start: int, levels: seq<seq<int>>, queue: seq<int>)
    requires SetOf(Flatten(levels)) == Inside(adj, start, |levels|)
    requires SetOf(queue) == Sphere(adj, start, |levels|)
    ensures Flatten(levels + [queue]) == Flatten(levels) + queue
    ensures SetOf(Flatten(levels + [queue])) == Inside(adj, start, |levels| + 1)
  {
    assert (levels + [queue])[..|levels|] == levels;
    SetOfAppend(Flatten(levels), queue);
    BallSplits(adj, start, |levels|);
  }

  lemma SpheresSnoc(adj: Adjacency, start: int, levels: seq<seq<int>>, q: seq<int>)
    requires LevelsAreSpheres(adj, start, levels)
    requires q != [] && SetOf(q) == Sphere(adj, start, |levels|)
    ensures LevelsAreSpheres(adj, start, levels + [q])
  {
    var levels' := levels + [q];
    forall k | 0 <= k < |levels'|
      ensures levels'[k] != [] && SetOf(levels'[k]) == Sphere(adj, start, k)
    {
      if k < |levels| {
        assert levels'[k] == levels[k];
      }
    }
  }

  lemma ExpandSnoc(adj: Adjacency, start: int, levels: seq<seq<int>>, q: seq<int>)
    requires LevelsExpand(adj, start, levels)
    requires levels != [] ==> q == Fresh(Expand(adj, levels[|levels| - 1]), Ball(adj, start, |levels| - 1))
    ensures LevelsExpand(adj, start, levels + [q])
  {
    var levels' := levels + [q];
    forall k | 0 <= k < |levels'| - 1
      ensures levels'[k + 1] == Fresh(Expand(adj, levels'[k]), Ball(adj, start, k))
    {
      assert levels'[k] == levels[k];
      if k + 1 < |levels| {
        assert levels'[k + 1] == levels[k + 1];
      }
    }
  }

  /** One batch of the loop keeps `Progress`. */
  lemma ProgressStep(adj: Adjacency, start: int, levels: seq<seq<int>>, visited: set<int>, queue: seq<int>)
    requires Progress(adj, start, levels, visited, queue) && queue != []
    ensures Progress(adj, start, levels + [queue],
                     visited + SetOf(Fresh(Expand(adj, queue), visited)),
                     Fresh(Expand(adj, queue), visited))
  {
    var L := |levels|;
    var next := Fresh(Expand(adj, queue), visited);
    var levels' := levels + [queue];
    ExpandIsStep(adj, queue);
    FreshSpec(Expand(adj, queue), visited);
    BallStep(adj, start, L);
    assert SetOf(next) == Step(adj, Sphere(adj, start, L)) - Ball(adj, start, L);
    FlattenStep(adj, start, levels, queue);
    NoDupAppend(Flatten(levels), queue);
    SpheresSnoc(adj, start, levels, queue);
    ExpandSnoc(adj, start, levels, queue);
  }

  /** Everything `runBFS` promises about the batches it highlights: the
      first is the start alone, batch `k` holds exactly the nodes at
      distance `k`, no node appears twice, the batches together hold exactly
      the nodes reachable from the start, and each batch is queued from the
      one before in parent order and then adjacency-list order. */
  ghost predicate BreadthFirstLevels(adj: Adjacency, start: int, levels: seq<seq<int>>)
  {
    && levels != [] && levels[0] == [start]
    && LevelsAreSpheres(adj, start, levels)
    && Sphere(adj, start, |levels|) == {}
    && NoDup(Flatten(levels))
    && (forall v :: v in Flatten(levels) <==> Reachable(adj, start, v))
    && LevelsExpand(adj, start, levels)
  }

  /** At the end of the loop the batches are the whole reachable part. */
  lemma FinishedLevels(adj: Adjacency, start: int, levels: seq<seq<int>>, visited: set<int>)
    requires Progress(adj, start, levels, visited, [])
    ensures BreadthFirstLevels(adj, start, levels)
  {
    var L := |levels|;
    EmptySphereCloses(adj, start, L);
    forall v ensures v in Flatten(levels) <==> Reachable(adj, start, v) {
      ReachableInBall(adj, start, v);
      if exists k: nat :: v in Ball(adj, start, k) {
        var k: nat :| v in Ball(adj, start, k);
        StableBallHoldsAll(adj, start, L - 1, k);
      }
    }
  }

  /** One pass of the `while` loop: take the queued batch, then queue the
      unvisited neighbours of its nodes. */
  method Batch(adj: Adjacency, visited: set<int>, queue: seq<int>)
    returns (currentLevel: seq<int>, visited': set<int>, queue': seq<int>)
    ensures currentLevel == queue
    ensures visited' == visited + SetOf(Fresh(Expand(adj, queue), visited))
    ensures queue' == Fresh(Expand(adj, queue), visited)
  {
    var rest;
    currentLevel, rest := TakeLevel(queue);
    visited', queue' := EnqueueNeighbours(adj, currentLevel, visited, rest);
  }

  lemma LeftShrinks(u: set<int>, visited: set<int>, visited': set<int>, x: int)
    requires visited <= visited' <= u && x in visited' - visited
    ensures u - visited' < u - visited
  {
    assert x in u - visited;
  }

  /** What is left to visit shrinks with every batch that queues something. */
  lemma BatchShrinks(adj: Adjacency, start: int, levels: seq<seq<int>>, visited: set<int>, queue: seq<int>)
    requires Progress(adj, start, levels, visited, queue)
    ensures var next := Fresh(Expand(adj, queue), visited);
      && visited + SetOf(next) <= Universe(adj, start)
      && (next != [] ==> Universe(adj, start) - (visited + SetOf(next)) < Universe(adj, start) - visited)
      && (next == [] ==> visited + SetOf(next) == visited)
  {
    var next := Fresh(Expand(adj, queue), visited);
    var u := Universe(adj, start);
    BallInUniverse(adj, start, |levels|);
    BallInUniverse(adj, start, |levels| + 1);
    FreshSpec(Expand(adj, queue), visited);
    ExpandIsStep(adj, queue);
    assert SetOf(next) <= Step(adj, Ball(adj, start, |levels|));
    if next != [] {
      assert next[0] in SetOf(next);
      LeftShrinks(u, visited, visited + SetOf(next), next[0]);
    }
  }

  /** The level-by-level loop from `start`. */
  method Levels(adj: Adjacency, start: int) returns (levels: seq<seq<int>>)
    ensures BreadthFirstLevels(adj, start, levels)
  {
    var visited := {start};
    var queue := [start];
    levels := [];
    while queue != []
      invariant Progress(adj, start, levels, visited, queue)
      invariant visited <= Universe(adj, start)
      decreases Universe(adj, start) - visited, |queue|
    {
      var currentLevel, visited', queue' := Batch(adj, visited, queue);
      ProgressStep(adj, start, levels, visited, queue);
      BatchShrinks(adj, start, levels, visited, queue);
      levels, visited, queue := levels + [currentLevel], visited', queue';
    }
    FinishedLevels(adj, start, levels, visited);
  }

  /** `runBFS` on node ids and links: no start node means no traversal;
      otherwise the batches of a breadth-first traversal from the first
      node over the link graph. */
  method RunBfs(nodes: seq<int>, links: seq<Link>) returns (levels: Option<seq<seq<int>>>)
    ensures nodes == [] <==> levels.None?
    ensures levels.Some? ==> BreadthFirstLevels(LinkGraph(links), nodes[0], levels.value)
  {
    var adjacency := BuildAdjacency(links);
    if |nodes| == 0 {
      return None;
    }
    var order := Levels(adjacency, nodes[0]);
    levels := Some(order);
  }

  /** Past an empty sphere the balls stop growing. */
  lemma NothingBeyond(adj: Adjacency, start: int, L: nat, k: nat)
    requires 0 < L <= k && Step(adj, Ball(adj, start, L - 1)) <= Ball(adj, start, L - 1)
    ensures Ball(adj, start, k) <= Ball(adj, start, k - 1)
  {
    StableBallHoldsAll(adj, start, L - 1, k);
    BallGrows(adj, start, L - 1, k - 1);
    var inner := Ball(adj, start, L - 1);
    assert Ball(adj, start, k) <= inner <= Ball(adj, start, k - 1);
  }

  /** No node is dequeued twice, and every node is dequeued at the level of
      its distance: a node reachable in `k` steps but no fewer is in batch
      `k`. */
  lemma LevelOfDistance(adj: Adjacency, start: int, levels: seq<seq<int>>, v: int, k: nat)
    requires levels != [] && LevelsAreSpheres(adj, start, levels)
    requires Sphere(adj, start, |levels|) == {}
    requires v in Ball(adj, start, k) && (k == 0 || v !in Ball(adj, start, k - 1))
    ensures k < |levels| && v in levels[k]
  {
    var L := |levels|;
    if k >= L {
      EmptySphereCloses(adj, start, L);
      NothingBeyond(adj, start, L, k);
      assert false;
    } else {
      assert v in Sphere(adj, start, k);
      assert v in SetOf(levels[k]);
    }
  }
}
