/** The connected-component computations of src/components/SpatialCanvas.jsx
    and src/App.jsx: the adjacency map and work-list of the cluster hulls, and
    the link-scanning work-list used by cluster search, focus and
    "create workspace from search". Links are undirected for all of them. */
module CanvasGraph {
  import opened Graph

  // ---------------------------------------------------------------------
  // Connectivity
  // ---------------------------------------------------------------------

  /** Link `l` joins `a` and `b`, in either direction. */
  predicate Joins(l: Link, a: Id, b: Id) {
    (l.source == a && l.target == b) || (l.source == b && l.target == a)
  }

  /** Some link joins `a` and `b`. */
  predicate Joined(links: seq<Link>, a: Id, b: Id) {
    exists l :: l in links && Joins(l, a, b)
  }

  /** Every id that is an end of some link. */
  function Endpoints(links: seq<Link>): (r: set<Id>)
    ensures forall l :: l in links ==> l.source in r && l.target in r
  {
    (set l | l in links :: l.source) + (set l | l in links :: l.target)
  }

  /** A walk along links. */
  ghost predicate Path(links: seq<Link>, p: seq<Id>) {
    |p| >= 1 && forall i :: 0 <= i < |p| - 1 ==> Joined(links, p[i], p[i + 1])
  }

  /** `x` can be reached from one of `seeds` along links. */
  ghost predicate ReachableFrom(links: seq<Link>, seeds: set<Id>, x: Id) {
    exists p {:trigger Path(links, p)} :: Path(links, p) && p[0] in seeds && Last(p) == x
  }

  /** No link leads out of `s`. */
  ghost predicate Closed(links: seq<Link>, s: set<Id>) {
    forall x, y :: x in s && Joined(links, x, y) ==> y in s
  }

  /** The seeds and everything connected to them. */
  ghost function Component(links: seq<Link>, seeds: set<Id>): set<Id> {
    set x | x in Endpoints(links) + seeds && ReachableFrom(links, seeds, x)
  }

  lemma {:induction false} PathStaysInside(links: seq<Link>, s: set<Id>, p: seq<Id>)
    requires Closed(links, s) && Path(links, p) && p[0] in s
    ensures Last(p) in s
    decreases |p|
  {
    if |p| > 1 {
      var q := Init(p);
      assert Path(links, q);
      PathStaysInside(links, s, q);
      assert Joined(links, p[|p| - 2], p[|p| - 1]);
    }
  }

  /** A set that holds the seeds, lets no link out, and holds only ids
      reachable from the seeds is the component of the seeds. */
  lemma ClosedReachableIsComponent(links: seq<Link>, seeds: set<Id>, s: set<Id>)
    requires seeds <= s && Closed(links, s)
    requires forall x :: x in s ==> ReachableFrom(links, seeds, x)
    ensures s == Component(links, seeds)
  {
    forall x | x in s ensures x in Component(links, seeds) {
      var p :| Path(links, p) && p[0] in seeds && Last(p) == x;
      if |p| > 1 {
        assert Joined(links, p[|p| - 2], p[|p| - 1]);
      }
    }
    forall x | x in Component(links, seeds) ensures x in s {
      var p :| Path(links, p) && p[0] in seeds && Last(p) == x;
      PathStaysInside(links, s, p);
    }
  }

  /** The component holds its seeds, lets no link out, and only holds
      reachable ids. */
  lemma ComponentIsClosed(links: seq<Link>, seeds: set<Id>)
    ensures seeds <= Component(links, seeds)
    ensures Closed(links, Component(links, seeds))
  {
    var c := Component(links, seeds);
    forall x | x in seeds ensures x in c {
      assert Path(links, [x]);
    }
    forall x, y | x in c && Joined(links, x, y) ensures y in c {
      var p :| Path(links, p) && p[0] in seeds && Last(p) == x;
      var q := p + [y];
      assert Init(q) == p;
      assert Path(links, q);
      var l :| l in links && Joins(l, x, y);
    }
  }

  // ---------------------------------------------------------------------
  // The adjacency map of updateClusterHulls
  // ---------------------------------------------------------------------

  type Adjacency = map<Id, seq<Id>>

  /** `adjacency.get(id) || []`. */
  function Neighbors(adj: Adjacency, x: Id): seq<Id> {
    if x in adj then adj[x] else []
  }

  function Push(adj: Adjacency, k: Id, v: Id): Adjacency {
    adj[k := Neighbors(adj, k) + [v]]
  }

  /** Each link adds its target to its source's list and its source to its
      target's list. */
  function AdjacencyOf(links: seq<Link>): Adjacency
    decreases |links|
  {
    if links == [] then map[]
    else
      var l := Last(links);
      Push(Push(AdjacencyOf(Init(links)), l.source, l.target), l.target, l.source)
  }

  /** The forEach loop that fills the adjacency map. */
  method BuildAdjacency(links: seq<Link>) returns (adj: Adjacency)
    ensures adj == AdjacencyOf(links)
  {
    adj := map[];
    for i := 0 to |links|
      invariant adj == AdjacencyOf(links[..i])
    {
      assert Init(links[..i + 1]) == links[..i] && Last(links[..i + 1]) == links[i];
      ghost var before := adj;
      var sId, tId := links[i].source, links[i].target;
      if sId !in adj { adj := adj[sId := []]; }
      if tId !in adj { adj := adj[tId := []]; }
      adj := adj[sId := adj[sId] + [tId]];
      adj := adj[tId := adj[tId] + [sId]];
      assert adj == Push(Push(before, sId, tId), tId, sId);
    }
    assert links[..|links|] == links;
  }

  /** The adjacency lists hold exactly the ids joined by a link. */
  lemma {:induction false} AdjacencyIsJoined(links: seq<Link>, x: Id, y: Id)
    ensures y in Neighbors(AdjacencyOf(links), x) <==> Joined(links, x, y)
    decreases |links|
  {
    if links != [] {
      AdjacencyIsJoined(Init(links), x, y);
      var l := Last(links);
      assert links == Init(links) + [l];
      var a := AdjacencyOf(Init(links));
      PushNeighbors(a, l.source, l.target, x, y);
      PushNeighbors(Push(a, l.source, l.target), l.target, l.source, x, y);
      if Joined(links, x, y) && !Joined(Init(links), x, y) {
        var k :| k in links && Joins(k, x, y);
        assert k == l;
      }
      if Joins(l, x, y) {
        assert l in links;
      }
    }
  }

  lemma PushNeighbors(adj: Adjacency, k: Id, v: Id, x: Id, y: Id)
    ensures y in Neighbors(Push(adj, k, v), x) <==> y in Neighbors(adj, x) || (x == k && y == v)
  {
  }

  /** The adjacency is symmetric: each link is entered both ways. */
  lemma AdjacencySymmetric(links: seq<Link>, x: Id, y: Id)
    ensures y in Neighbors(AdjacencyOf(links), x) <==> x in Neighbors(AdjacencyOf(links), y)
  {
    AdjacencyIsJoined(links, x, y);
    AdjacencyIsJoined(links, y, x);
  }

  /** Every id in the adjacency map, as a key or in a list. */
  function AdjNodes(adj: Adjacency): set<Id> {
    adj.Keys + (set x, y | x in adj && y in adj[x] :: y)
  }

  ghost predicate AdjPath(adj: Adjacency, p: seq<Id>) {
    |p| >= 1 && forall i :: 0 <= i < |p| - 1 ==> p[i + 1] in Neighbors(adj, p[i])
  }

  /** Every id of `cluster` has a recorded walk from `start` in `paths`. */
  ghost predicate WalksFrom(adj: Adjacency, start: Id, cluster: set<Id>, paths: map<Id, seq<Id>>) {
    forall x :: x in cluster ==> x in paths && AdjPath(adj, paths[x]) && paths[x][0] == start && Last(paths[x]) == x
  }

  /** Every id of `cluster` outside `pending` has all its neighbours in `cluster`. */
  ghost predicate ClosedOutside(adj: Adjacency, cluster: set<Id>, pending: set<Id>) {
    forall x, y :: x in cluster && x !in pending && y in Neighbors(adj, x) ==> y in cluster
  }

  /** A walk to a member, one step further, is a walk to its neighbour. */
  lemma ExtendWalk(adj: Adjacency, start: Id, cluster: set<Id>, paths: map<Id, seq<Id>>, curr: Id, n: Id)
    requires WalksFrom(adj, start, cluster, paths) && curr in cluster && n in Neighbors(adj, curr)
    ensures WalksFrom(adj, start, cluster + {n}, paths[n := paths[curr] + [n]])
  {
    var p := paths[curr] + [n];
    assert Init(p) == paths[curr];
    assert AdjPath(adj, p);
  }

  lemma NeighborInNodes(adj: Adjacency, x: Id, y: Id)
    requires y in Neighbors(adj, x)
    ensures y in AdjNodes(adj)
  {
    assert x in adj && y in adj[x];
  }

  /** The work-list state of updateClusterHulls: the cluster stays among the
      known ids, the queue holds cluster members once each, every member has
      a walk from the start, and `enqueued` records each member once. */
  ghost predicate WorkList(adj: Adjacency, start: Id, universe: set<Id>, cluster: set<Id>, queue: seq<Id>,
                           enqueued: seq<Id>, paths: map<Id, seq<Id>>) {
    && cluster <= universe && start in cluster
    && NoDup(queue) && (forall x :: x in queue ==> x in cluster)
    && WalksFrom(adj, start, cluster, paths)
    && NoDup(enqueued) && (forall x :: x in enqueued <==> x in cluster)
  }

  /** The inner forEach of updateClusterHulls: every neighbour of the popped
      id that is not in the cluster yet joins it and is queued. */
  method VisitNeighbors(adj: Adjacency, currId: Id, cluster0: set<Id>, queue0: seq<Id>,
                        ghost start: Id, ghost universe: set<Id>, ghost enqueued0: seq<Id>, ghost paths0: map<Id, seq<Id>>)
    returns (cluster: set<Id>, queue: seq<Id>, ghost enqueued: seq<Id>, ghost paths: map<Id, seq<Id>>)
    requires AdjNodes(adj) <= universe
    requires WorkList(adj, start, universe, cluster0, queue0, enqueued0, paths0)
    requires currId in cluster0 && currId !in queue0
    requires ClosedOutside(adj, cluster0, (set x | x in queue0) + {currId})
    ensures WorkList(adj, start, universe, cluster, queue, enqueued, paths)
    ensures ClosedOutside(adj, cluster, set x | x in queue)
    ensures cluster0 <= cluster && (cluster == cluster0 ==> queue == queue0)
  {
    cluster, queue, enqueued, paths := cluster0, queue0, enqueued0, paths0;
    var neighbors := Neighbors(adj, currId);
    for j := 0 to |neighbors|
      invariant WorkList(adj, start, universe, cluster, queue, enqueued, paths)
      invariant currId in cluster && currId !in queue
      invariant ClosedOutside(adj, cluster, (set x | x in queue) + {currId})
      invariant forall k :: 0 <= k < j ==> neighbors[k] in cluster
      invariant cluster0 <= cluster && (cluster == cluster0 ==> queue == queue0)
    {
      var neighborId := neighbors[j];
      if neighborId !in cluster {
        NeighborInNodes(adj, currId, neighborId);
        ExtendWalk(adj, start, cluster, paths, currId, neighborId);
        paths := paths[neighborId := paths[currId] + [neighborId]];
        cluster := cluster + {neighborId};
        queue := queue + [neighborId];
        enqueued := enqueued + [neighborId];
      }
    }
  }

  /** The work-list of updateClusterHulls: starting from one workspace, pop an
      id and add each neighbour not yet in the cluster. It returns a set that
      holds the start, is closed under the adjacency and holds only ids
      reachable from the start; `enqueued` lists the ids in the order they
      were queued, each once. */
  method ClusterOf(adj: Adjacency, start: Id) returns (cluster: set<Id>, ghost enqueued: seq<Id>)
    ensures start in cluster
    ensures forall x, y :: x in cluster && y in Neighbors(adj, x) ==> y in cluster
    ensures forall x :: x in cluster ==> exists p :: AdjPath(adj, p) && p[0] == start && Last(p) == x
    ensures NoDup(enqueued) && forall x :: x in enqueued <==> x in cluster
  {
    cluster := {start};
    var queue := [start];
    enqueued := [start];
    ghost var paths: map<Id, seq<Id>> := map[start := [start]];
    ghost var universe := AdjNodes(adj) + {start};
    assert AdjPath(adj, [start]);
    while queue != []
      invariant WorkList(adj, start, universe, cluster, queue, enqueued, paths)
      invariant ClosedOutside(adj, cluster, set x | x in queue)
      decreases universe - cluster, |queue|
    {
      ghost var whole := queue;
      var currId := queue[|queue| - 1];
      queue := queue[..|queue| - 1];
      assert currId !in queue;
      assert queue + [currId] == whole;
      assert (set x | x in queue) + {currId} == set x | x in whole;
      cluster, queue, enqueued, paths :=
        VisitNeighbors(adj, currId, cluster, queue, start, universe, enqueued, paths);
    }
    forall x | x in cluster ensures exists p :: AdjPath(adj, p) && p[0] == start && Last(p) == x {
      assert AdjPath(adj, paths[x]);
    }
  }

  /** Over the adjacency of `links`, walks are walks along links. */
  lemma AdjPathIsPath(links: seq<Link>, p: seq<Id>)
    ensures AdjPath(AdjacencyOf(links), p) <==> Path(links, p)
  {
    forall i | 0 <= i < |p| - 1 ensures p[i + 1] in Neighbors(AdjacencyOf(links), p[i]) <==> Joined(links, p[i], p[i + 1]) {
      AdjacencyIsJoined(links, p[i], p[i + 1]);
    }
  }

  /** The cluster of a workspace is its connected component. */
  method ClusterOfLinks(links: seq<Link>, adj: Adjacency, start: Id) returns (cluster: set<Id>)
    requires adj == AdjacencyOf(links)
    ensures cluster == Component(links, {start})
  {
    ghost var enqueued;
    cluster, enqueued := ClusterOf(adj, start);
    forall x, y | x in cluster && Joined(links, x, y) ensures y in cluster {
      AdjacencyIsJoined(links, x, y);
    }
    forall x | x in cluster ensures ReachableFrom(links, {start}, x) {
      var p :| AdjPath(adj, p) && p[0] == start && Last(p) == x;
      AdjPathIsPath(links, p);
    }
    ClosedReachableIsComponent(links, {start}, cluster);
  }

  /** `cluster` is the workspace id `w` paired with its component. */
  ghost predicate HullOf(links: seq<Link>, w: Id, cluster: (Id, set<Id>)) {
    cluster.0 == w && cluster.1 == Component(links, {w})
  }

  /** `updateClusterHulls` without the geometry: one cluster per expanded
      workspace, in node order, each the component of that workspace. */
  method ClusterHulls(nodes: seq<Node>, links: seq<Link>) returns (clusters: seq<(Id, set<Id>)>)
    ensures |clusters| == |OpenWorkspaces(nodes)|
    ensures forall i :: 0 <= i < |clusters| ==> HullOf(links, OpenWorkspaces(nodes)[i].id, clusters[i])
  {
    var adjacency := BuildAdjacency(links);
    var workspaceNodes := OpenWorkspaces(nodes);
    clusters := [];
    for i := 0 to |workspaceNodes|
      invariant |clusters| == i
      invariant forall k :: 0 <= k < i ==> HullOf(links, workspaceNodes[k].id, clusters[k])
    {
      var c := ClusterOfLinks(links, adjacency, workspaceNodes[i].id);
      clusters := clusters + [(workspaceNodes[i].id, c)];
    }
  }

  /** The workspaces that are not collapsed, in node order. */
  function OpenWorkspaces(nodes: seq<Node>): (r: seq<Node>)
    ensures forall n :: n in r <==> n in nodes && n.isWorkspace && !n.collapsed
  {
    Filter(nodes, (n: Node) => n.isWorkspace && !n.collapsed)
  }

  // ---------------------------------------------------------------------
  // The link-scanning work-list of search, focus and workspace-from-search
  // ---------------------------------------------------------------------

  /** The neighbour one link offers from `curr`, if it is not matched yet:
      its target when `curr` is its source, else its source when `curr` is
      its target. */
  function NeighborVia(l: Link, curr: Id, matched: set<Id>): (r: Option<Id>)
    ensures r.Some? ==> r.value !in matched && Joins(l, curr, r.value)
    ensures r.None? ==> forall y :: Joins(l, curr, y) ==> y in matched
  {
    if l.source == curr && l.target !in matched then Some(l.target)
    else if l.target == curr && l.source !in matched then Some(l.source)
    else None
  }

  /** The same step as the source writes it: `if (neighborId)` also rejects
      a neighbour whose id is 0. */
  function NeighborViaAsWritten(l: Link, curr: Id, matched: set<Id>): (r: Option<Id>)
    ensures r == if NeighborVia(l, curr, matched) == Some(0) then None else NeighborVia(l, curr, matched)
    ensures r.Some? ==> r.value != 0
  {
    var n := if l.source == curr && l.target !in matched then l.target
             else if l.target == curr && l.source !in matched then l.source
             else 0;
    if n != 0 then Some(n) else None
  }

  /** From a node linked to a node with id 0, the step as written never
      offers 0, so the component it computes can miss it. */
  lemma ZeroNeighborIsSkipped()
    ensures var l := Link(5, 0, Cluster, None);
      NeighborViaAsWritten(l, 5, {5}) == None
      && NeighborVia(l, 5, {5}) == Some(0)
      && Joins(l, 5, 0) && 0 !in {5}
  {
  }

  /** The state of the link-scanning work-list: the matched ids stay among
      the seeds and link ends, the queue holds matched ids, and every matched
      id is reachable from a seed. */
  ghost predicate Scan(links: seq<Link>, seedSet: set<Id>, matched: set<Id>, queue: seq<Id>) {
    && seedSet <= matched <= Endpoints(links) + seedSet
    && (forall x :: x in queue ==> x in matched)
    && (forall x :: x in matched ==> ReachableFrom(links, seedSet, x))
  }

  /** Every matched id outside `pending` has all the ids it is joined to matched. */
  ghost predicate LinkClosedOutside(links: seq<Link>, matched: set<Id>, pending: set<Id>) {
    forall x, y :: x in matched && x !in pending && Joined(links, x, y) ==> y in matched
  }

  /** One link further from a reachable id is still reachable. */
  lemma ReachStep(links: seq<Link>, seedSet: set<Id>, x: Id, l: Link, y: Id)
    requires ReachableFrom(links, seedSet, x) && l in links && Joins(l, x, y)
    ensures ReachableFrom(links, seedSet, y)
  {
    var p :| Path(links, p) && p[0] in seedSet && Last(p) == x;
    var q := p + [y];
    assert Init(q) == p;
    assert Joined(links, x, y);
    assert Path(links, q);
  }

  /** The `hydratedLinks.forEach` of one popped id: each link that offers an
      unmatched neighbour adds it to the matched set and the queue. */
  method ScanLinks(links: seq<Link>, currentId: Id, matched0: set<Id>, queue0: seq<Id>, ghost seedSet: set<Id>)
    returns (matched: set<Id>, queue: seq<Id>)
    requires Scan(links, seedSet, matched0, queue0) && currentId in matched0
    requires LinkClosedOutside(links, matched0, (set x | x in queue0) + {currentId})
    ensures Scan(links, seedSet, matched, queue)
    ensures LinkClosedOutside(links, matched, set x | x in queue)
    ensures matched0 <= matched && (matched == matched0 ==> queue == queue0)
  {
    matched, queue := matched0, queue0;
    for i := 0 to |links|
      invariant Scan(links, seedSet, matched, queue) && currentId in matched
      invariant forall k, y :: 0 <= k < i && Joins(links[k], currentId, y) ==> y in matched
      invariant matched0 <= matched && (matched == matched0 ==> queue == queue0)
      invariant (forall x :: x in queue0 ==> x in queue) && forall x :: x in matched && x !in matched0 ==> x in queue
    {
      var neighborId := NeighborVia(links[i], currentId, matched);
      if neighborId.Some? {
        var n := neighborId.value;
        ReachStep(links, seedSet, currentId, links[i], n);
        matched := matched + {n};
        queue := queue + [n];
      }
    }
    forall y | Joined(links, currentId, y) ensures y in matched {
      var l :| l in links && Joins(l, currentId, y);
      var k :| 0 <= k < |links| && links[k] == l;
    }
    ScannedIsClosed(links, currentId, matched0, queue0, matched, queue);
  }

  /** After the scan of `currentId`, only queued ids may still have unmatched
      neighbours. */
  lemma ScannedIsClosed(links: seq<Link>, currentId: Id, matched0: set<Id>, queue0: seq<Id>, matched: set<Id>, queue: seq<Id>)
    requires LinkClosedOutside(links, matched0, (set x | x in queue0) + {currentId})
    requires matched0 <= matched && forall x :: x in matched && x !in matched0 ==> x in queue
    requires forall x :: x in queue0 ==> x in queue
    requires forall y :: Joined(links, currentId, y) ==> y in matched
    ensures LinkClosedOutside(links, matched, set x | x in queue)
  {
  }

  /** The while loop of cluster search, focus and workspace-from-search:
      `matched` starts as the seeds, and each popped id adds, link by link,
      every unmatched node joined to it. The result is the component of the
      seeds. */
  method Spread(links: seq<Link>, seeds: seq<Id>) returns (matched: set<Id>)
    ensures matched == Component(links, set x | x in seeds)
  {
    ghost var seedSet := set x | x in seeds;
    matched := set x | x in seeds;
    var queue := seeds;
    ghost var universe := Endpoints(links) + seedSet;
    forall x | x in seedSet ensures ReachableFrom(links, seedSet, x) {
      assert Path(links, [x]);
    }
    while queue != []
      invariant Scan(links, seedSet, matched, queue)
      invariant LinkClosedOutside(links, matched, set x | x in queue)
      decreases universe - matched, |queue|
    {
      ghost var whole := queue;
      var currentId := queue[|queue| - 1];
      queue := queue[..|queue| - 1];
      assert queue + [currentId] == whole;
      assert (set x | x in queue) + {currentId} == set x | x in whole;
      matched, queue := ScanLinks(links, currentId, matched, queue, seedSet);
    }
    ClosedReachableIsComponent(links, seedSet, matched);
  }
}
