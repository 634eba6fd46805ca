/** The undirected graph both traversal visualisers work on: links between
    numeric node ids, the adjacency lists built from them, and reachability,
    both as walks and as balls of growing radius around a start node. */
module Graph {

  /** A link between two node ids (d3 may have replaced an endpoint by its
      node object; either way the id is what the traversals use). */
  datatype Link = Link(source: int, target: int)

  /** Node id to the ids of its neighbours, in the order they were pushed. */
  type Adjacency = map<int, seq<int>>

  /** The neighbour list of `v`, with a missing entry read as `[]`. */
  function Neighbours(adj: Adjacency, v: int): seq<int>
  {
    if v in adj then adj[v] else []
  }

  /** Pushes `t` onto the list of `s` and then `s` onto the list of `t`,
      creating either list when missing. */
  function AddLink(adj: Adjacency, l: Link): (r: Adjacency)
    ensures r.Keys == adj.Keys + {l.source, l.target}
  {
    var a := adj[l.source := Neighbours(adj, l.source) + [l.target]];
    a[l.target := Neighbours(a, l.target) + [l.source]]
  }

  /** `adj` with every link of `links` added, in order. */
  function AddLinks(adj: Adjacency, links: seq<Link>): (r: Adjacency)
    ensures adj.Keys <= r.Keys
  {
    if links == [] then adj
    else AddLink(AddLinks(adj, links[..|links| - 1]), links[|links| - 1])
  }

  lemma AddLinksSnoc(adj: Adjacency, links: seq<Link>, l: Link)
    ensures AddLinks(adj, links + [l]) == AddLink(AddLinks(adj, links), l)
  {
    assert (links + [l])[..|links|] == links;
  }

  /** What one link contributes to the neighbour list of `v`. */
  function Contribution(l: Link, v: int): seq<int>
  {
    (if l.source == v then [l.target] else []) + (if l.target == v then [l.source] else [])
  }

  /** Reference definition: the neighbours of `v` are the other ends of the
      links at `v`, in link order. */
  function LinkedTo(links: seq<Link>, v: int): seq<int>
  {
    if links == [] then []
    else LinkedTo(links[..|links| - 1], v) + Contribution(links[|links| - 1], v)
  }

  /** Every endpoint of `links`. */
  function Endpoints(links: seq<Link>): set<int>
  {
    if links == [] then {}
    else
      var last := links[|links| - 1];
      Endpoints(links[..|links| - 1]) + {last.source, last.target}
  }

  /** `v` and `w` are the two ends of a link, in either direction. */
  predicate Joins(l: Link, v: int, w: int)
  {
    (l.source == v && l.target == w) || (l.target == v && l.source == w)
  }

  lemma AddLinkNeighbours(adj: Adjacency, l: Link, v: int)
    ensures Neighbours(AddLink(adj, l), v) == Neighbours(adj, v) + Contribution(l, v)
  {
  }

  /** Adding links appends, to each list, exactly the other ends of the
      links at that node, in link order. */
  lemma {:induction false} AddLinksSpec(adj: Adjacency, links: seq<Link>, v: int)
    ensures Neighbours(AddLinks(adj, links), v) == Neighbours(adj, v) + LinkedTo(links, v)
  {
    if links != [] {
      var init := links[..|links| - 1];
      AddLinksSpec(adj, init, v);
      AddLinkNeighbours(AddLinks(adj, init), links[|links| - 1], v);
    }
  }

  /** Adding links creates an entry for every endpoint and no other. */
  lemma {:induction false} AddLinksKeys(adj: Adjacency, links: seq<Link>)
    ensures AddLinks(adj, links).Keys == adj.Keys + Endpoints(links)
  {
    if links != [] {
      AddLinksKeys(adj, links[..|links| - 1]);
    }
  }

  /** `w` is listed as a neighbour of `v` exactly when some link joins them. */
  lemma {:induction false} LinkedToJoins(links: seq<Link>, v: int, w: int)
    ensures w in LinkedTo(links, v) <==> exists i :: 0 <= i < |links| && Joins(links[i], v, w)
  {
    if links != [] {
      var init := links[..|links| - 1];
      LinkedToJoins(init, v, w);
      if exists i :: 0 <= i < |links| && Joins(links[i], v, w) {
        var i :| 0 <= i < |links| && Joins(links[i], v, w);
        if i < |init| {
          assert Joins(init[i], v, w);
        }
      }
      if exists i :: 0 <= i < |init| && Joins(init[i], v, w) {
        var i :| 0 <= i < |init| && Joins(init[i], v, w);
        assert Joins(links[i], v, w);
      }
    }
  }

  /** Links are undirected: adding them to a graph without edges gives
      symmetric neighbour lists. */
  lemma AddLinksSymmetric(adj: Adjacency, links: seq<Link>, v: int, w: int)
    requires forall u :: u in adj ==> adj[u] == []
    ensures w in Neighbours(AddLinks(adj, links), v) <==> v in Neighbours(AddLinks(adj, links), w)
  {
    AddLinksSpec(adj, links, v);
    AddLinksSpec(adj, links, w);
    LinkedToJoins(links, v, w);
    LinkedToJoins(links, w, v);
    if exists i :: 0 <= i < |links| && Joins(links[i], v, w) {
      var i :| 0 <= i < |links| && Joins(links[i], v, w);
      assert Joins(links[i], w, v);
    }
    if exists i :: 0 <= i < |links| && Joins(links[i], w, v) {
      var i :| 0 <= i < |links| && Joins(links[i], w, v);
      assert Joins(links[i], v, w);
    }
  }

  // ---------------------------------------------------------------------
  // Reachability

  /** The nodes one step away from some node of `s`. */
  function Step(adj: Adjacency, s: set<int>): set<int>
  {
    set v, w | v in s && w in Neighbours(adj, v) :: w
  }

  /** The nodes within `k` steps of `start`. */
  function Ball(adj: Adjacency, start: int, k: nat): set<int>
  {
    if k == 0 then {start}
    else Ball(adj, start, k - 1) + Step(adj, Ball(adj, start, k - 1))
  }

  /** The nodes within fewer than `k` steps of `start`. */
  function Inside(adj: Adjacency, start: int, k: nat): set<int>
  {
    if k == 0 then {} else Ball(adj, start, k - 1)
  }

  /** The nodes at distance exactly `k` from `start`. */
  function Sphere(adj: Adjacency, start: int, k: nat): set<int>
  {
    Ball(adj, start, k) - Inside(adj, start, k)
  }

  /** `p` is a walk: each node after the first is a neighbour of the one
      before it. */
  ghost predicate IsWalk(adj: Adjacency, p: seq<int>)
  {
    |p| >= 1 && forall i :: 0 <= i < |p| - 1 ==> p[i + 1] in Neighbours(adj, p[i])
  }

  /** A walk from `s` to `v` of at most `k` steps. */
  ghost predicate WalkWithin(adj: Adjacency, p: seq<int>, s: int, v: int, k: nat)
  {
    IsWalk(adj, p) && p[0] == s && p[|p| - 1] == v && |p| <= k + 1
  }

  /** `v` can be reached from `s` by following links. */
  ghost predicate Reachable(adj: Adjacency, s: int, v: int)
  {
    exists p :: IsWalk(adj, p) && p[0] == s && p[|p| - 1] == v
  }

  lemma BallGrows(adj: Adjacency, start: int, i: nat, j: nat)
    requires i <= j
    ensures Ball(adj, start, i) <= Ball(adj, start, j)
  {
    if i < j {
      BallGrows(adj, start, i, j - 1);
    }
  }

  /** Every node of the ball of radius `k` ends a walk of at most `k`
      steps from `start`. */
  lemma {:induction false} BallHasWalks(adj: Adjacency, start: int, k: nat, v: int)
    requires v in Ball(adj, start, k)
    ensures exists p :: WalkWithin(adj, p, start, v, k)
  {
    if k == 0 {
      assert WalkWithin(adj, [start], start, v, 0);
    } else if v in Ball(adj, start, k - 1) {
      BallHasWalks(adj, start, k - 1, v);
      var p :| WalkWithin(adj, p, start, v, k - 1);
      assert WalkWithin(adj, p, start, v, k);
    } else {
      var u :| u in Ball(adj, start, k - 1) && v in Neighbours(adj, u);
      BallHasWalks(adj, start, k - 1, u);
      var p :| WalkWithin(adj, p, start, u, k - 1);
      var q := p + [v];
      assert IsWalk(adj, q) by {
        forall i | 0 <= i < |q| - 1 ensures q[i + 1] in Neighbours(adj, q[i]) {
          if i < |p| - 1 { assert q[i] == p[i] && q[i + 1] == p[i + 1]; }
        }
      }
      assert WalkWithin(adj, q, start, v, k);
    }
  }

  /** The end of a walk of at most `k` steps from `start` is in the ball of
      radius `k`. */
  lemma {:induction false} WalkInBall(adj: Adjacency, p: seq<int>, start: int, v: int, k: nat)
    requires WalkWithin(adj, p, start, v, k)
    ensures v in Ball(adj, start, k)
  {
    if |p| == 1 {
      BallGrows(adj, start, 0, k);
    } else {
      var q := p[..|p| - 1];
      var u := q[|q| - 1];
      assert IsWalk(adj, q) by {
        forall i | 0 <= i < |q| - 1 ensures q[i + 1] in Neighbours(adj, q[i]) {
          assert q[i] == p[i] && q[i + 1] == p[i + 1];
        }
      }
      WalkInBall(adj, q, start, u, k - 1);
      assert v in Neighbours(adj, u) by { assert p[|p| - 2] == u; }
      assert v in Step(adj, Ball(adj, start, k - 1));
    }
  }

  /** Reachable nodes are exactly those in some ball. */
  lemma ReachableInBall(adj: Adjacency, start: int, v: int)
    ensures Reachable(adj, start, v) <==> exists k: nat :: v in Ball(adj, start, k)
  {
    if Reachable(adj, start, v) {
      var p :| IsWalk(adj, p) && p[0] == start && p[|p| - 1] == v;
      WalkInBall(adj, p, start, v, |p| - 1);
    }
    if exists k: nat :: v in Ball(adj, start, k) {
      var k: nat :| v in Ball(adj, start, k);
      BallHasWalks(adj, start, k, v);
    }
  }

  /** Once a ball stops growing it holds every reachable node. */
  lemma {:induction false} StableBallHoldsAll(adj: Adjacency, start: int, k: nat, j: nat)
    requires Step(adj, Ball(adj, start, k)) <= Ball(adj, start, k)
    ensures Ball(adj, start, j) <= Ball(adj, start, k)
  {
    if j > k {
      StableBallHoldsAll(adj, start, k, j - 1);
      forall w | w in Step(adj, Ball(adj, start, j - 1)) ensures w in Ball(adj, start, k) {
        var v :| v in Ball(adj, start, j - 1) && w in Neighbours(adj, v);
        assert w in Step(adj, Ball(adj, start, k));
      }
    } else {
      BallGrows(adj, start, j, k);
    }
  }

  /** A set holding `start` and closed under taking neighbours holds every
      node reachable from `start`. */
  lemma {:induction false} ClosedHoldsBalls(adj: Adjacency, start: int, s: set<int>, k: nat)
    requires start in s
    requires forall v, w :: v in s && w in Neighbours(adj, v) ==> w in s
    ensures Ball(adj, start, k) <= s
  {
    if k > 0 {
      ClosedHoldsBalls(adj, start, s, k - 1);
    }
  }

  /** Every node reached from a neighbour of `v` is reached from `v`. */
  lemma ReachableThroughNeighbour(adj: Adjacency, v: int, w: int, u: int)
    requires w in Neighbours(adj, v) && Reachable(adj, w, u)
    ensures Reachable(adj, v, u)
  {
    var p :| IsWalk(adj, p) && p[0] == w && p[|p| - 1] == u;
    var q := [v] + p;
    assert IsWalk(adj, q) by {
      forall i | 0 <= i < |q| - 1 ensures q[i + 1] in Neighbours(adj, q[i]) {
        if i > 0 { assert q[i] == p[i - 1] && q[i + 1] == p[i]; }
      }
    }
  }

  /** Every node reaches itself. */
  lemma ReachableSelf(adj: Adjacency, v: int)
    ensures Reachable(adj, v, v)
  {
    assert IsWalk(adj, [v]);
  }
}
