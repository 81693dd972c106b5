/** What src/components/SpatialCanvas.jsx shows: the nodes and links left
    visible under collapsed workspaces, the links it can draw, the lasso
    selection, and the fading and highlighting of search and focus. */
module CanvasView {
  import opened Graph
  import opened Text
  import opened CanvasGraph

  // ---------------------------------------------------------------------
  // Visibility under collapsed workspaces
  // ---------------------------------------------------------------------

  /** The ids of the collapsed workspaces. */
  function CollapsedWorkspaceIds(nodes: seq<Node>): (r: set<Id>)
    ensures forall n :: n in nodes && n.isWorkspace && n.collapsed ==> n.id in r
    ensures forall x :: x in r ==> exists n :: n in nodes && n.isWorkspace && n.collapsed && n.id == x
  {
    set n | n in nodes && n.isWorkspace && n.collapsed :: n.id
  }

  /** Link `l` hides `x`: it is a cluster link whose other end is a collapsed
      workspace. */
  predicate HidesVia(l: Link, collapsed: set<Id>, x: Id) {
    l.kind == Cluster && ((l.source in collapsed && l.target == x) || (l.target in collapsed && l.source == x))
  }

  /** The ids hidden by collapsed workspaces. */
  function HiddenSet(collapsed: set<Id>, links: seq<Link>): (r: set<Id>)
    ensures forall x :: x in r <==> exists l :: l in links && HidesVia(l, collapsed, x)
  {
    var hideTargets := set l | l in links && l.kind == Cluster && l.source in collapsed :: l.target;
    var hideSources := set l | l in links && l.kind == Cluster && l.target in collapsed :: l.source;
    assert forall l, x :: l in links && HidesVia(l, collapsed, x) ==> x in hideTargets + hideSources;
    hideTargets + hideSources
  }

  /** The forEach that fills `hiddenNodeIds`. */
  method HiddenIds(collapsed: set<Id>, links: seq<Link>) returns (hidden: set<Id>)
    ensures hidden == HiddenSet(collapsed, links)
  {
    hidden := {};
    for i := 0 to |links|
      invariant hidden == HiddenSet(collapsed, links[..i])
    {
      var link := links[i];
      assert links[..i + 1] == links[..i] + [link];
      if link.kind == Cluster {
        if link.source in collapsed { hidden := hidden + {link.target}; }
        if link.target in collapsed { hidden := hidden + {link.source}; }
      }
      assert forall x :: x in hidden <==> (exists l :: l in links[..i] && HidesVia(l, collapsed, x)) || HidesVia(link, collapsed, x);
    }
    assert links[..|links|] == links;
  }

  /** `visibleNodes`: the nodes not hidden, in order. */
  function VisibleNodes(nodes: seq<Node>, hidden: set<Id>): (r: seq<Node>)
    ensures IsSubsequence(r, nodes)
    ensures forall n :: n in r <==> n in nodes && n.id !in hidden
  {
    var keep := (n: Node) => n.id !in hidden;
    FilterIsSubsequence(nodes, keep);
    Filter(nodes, keep)
  }

  /** `visibleLinks`: the links with neither end hidden, in order. */
  function VisibleLinks(links: seq<Link>, hidden: set<Id>): (r: seq<Link>)
    ensures IsSubsequence(r, links)
    ensures forall l :: l in r <==> l in links && !TouchesAny(l, hidden)
  {
    var keep := (l: Link) => !TouchesAny(l, hidden);
    FilterIsSubsequence(links, keep);
    Filter(links, keep)
  }

  /** Every node of a collapsed workspace's cluster link disappears, together
      with the link itself; the workspace stays unless another collapsed
      workspace hides it. */
  lemma CollapseHidesCluster(nodes: seq<Node>, links: seq<Link>, l: Link)
    requires l in links && l.kind == Cluster && l.source in CollapsedWorkspaceIds(nodes)
    ensures var hidden := HiddenSet(CollapsedWorkspaceIds(nodes), links);
      && (forall n :: n in VisibleNodes(nodes, hidden) ==> n.id != l.target)
      && l !in VisibleLinks(links, hidden)
  {
    assert HidesVia(l, CollapsedWorkspaceIds(nodes), l.target);
    assert l.target in HiddenSet(CollapsedWorkspaceIds(nodes), links);
  }

  /** Nothing is hidden while no workspace is collapsed. */
  lemma NothingCollapsedShowsAll(nodes: seq<Node>, links: seq<Link>)
    requires forall n :: n in nodes ==> !(n.isWorkspace && n.collapsed)
    ensures VisibleNodes(nodes, HiddenSet(CollapsedWorkspaceIds(nodes), links)) == nodes
    ensures VisibleLinks(links, HiddenSet(CollapsedWorkspaceIds(nodes), links)) == links
  {
    var hidden := HiddenSet(CollapsedWorkspaceIds(nodes), links);
    assert CollapsedWorkspaceIds(nodes) == {};
    assert hidden == {};
    FilterKeepsAll(nodes, (n: Node) => n.id !in hidden);
    FilterKeepsAll(links, (l: Link) => !TouchesAny(l, hidden));
  }

  // ---------------------------------------------------------------------
  // Link hydration
  // ---------------------------------------------------------------------

  /** `hydratedLinks`: the visible links whose two ends are both drawn nodes. */
  function Hydrate(links: seq<Link>, nodes: seq<Node>): (r: seq<Link>)
    ensures IsSubsequence(r, links)
    ensures forall l :: l in r <==> l in links && l.source in NodeIds(nodes) && l.target in NodeIds(nodes)
  {
    var ids := NodeIds(nodes);
    var keep := (l: Link) => l.source in ids && l.target in ids;
    FilterIsSubsequence(links, keep);
    Filter(links, keep)
  }

  /** A drawn link never touches a hidden node: both its ends are visible. */
  lemma DrawnLinksJoinVisibleNodes(nodes: seq<Node>, links: seq<Link>, l: Link)
    requires var hidden := HiddenSet(CollapsedWorkspaceIds(nodes), links);
      l in Hydrate(VisibleLinks(links, hidden), VisibleNodes(nodes, hidden))
    ensures var hidden := HiddenSet(CollapsedWorkspaceIds(nodes), links);
      && l in links && l.source !in hidden && l.target !in hidden
      && (exists n :: n in nodes && n.id == l.source) && (exists n :: n in nodes && n.id == l.target)
  {
    var hidden := HiddenSet(CollapsedWorkspaceIds(nodes), links);
    var visible := VisibleNodes(nodes, hidden);
    assert l.source in NodeIds(visible) && l.target in NodeIds(visible);
    var a :| a in visible && a.id == l.source;
    var b :| b in visible && b.id == l.target;
  }

  // ---------------------------------------------------------------------
  // Lasso selection
  // ---------------------------------------------------------------------

  /** The rectangle dragged out with shift held, in canvas coordinates. */
  datatype Rect = Rect(startX: real, startY: real, currentX: real, currentY: real)

  function Min(a: real, b: real): real { if a <= b then a else b }
  function Max(a: real, b: real): real { if a <= b then b else a }

  /** The drag-end test: the node's position lies between the corners. */
  predicate InRect(p: Pos, r: Rect) {
    var x1, x2 := Min(r.startX, r.currentX), Max(r.startX, r.currentX);
    var y1, y2 := Min(r.startY, r.currentY), Max(r.startY, r.currentY);
    p.EffX() >= x1 && p.EffX() <= x2 && p.EffY() >= y1 && p.EffY() <= y2
  }

  /** A position lies between two values, taken in either order. */
  predicate Between(v: real, a: real, b: real) {
    (a <= v <= b) || (b <= v <= a)
  }

  /** The position lies between the two corners on both axes. */
  predicate InBox(p: Pos, r: Rect) {
    Between(p.EffX(), r.startX, r.currentX) && Between(p.EffY(), r.startY, r.currentY)
  }

  /** The lasso selection: the ids of the nodes whose pinned-or-simulated
      position lies between the two corners on both axes. */
  function LassoSelect(nodes: seq<Node>, r: Rect): (sel: set<Id>)
    ensures forall n :: n in nodes && InBox(n.pos, r) ==> n.id in sel
    ensures forall x :: x in sel ==> exists n :: n in nodes && n.id == x && InBox(n.pos, r)
  {
    set n | n in nodes && InRect(n.pos, r) :: n.id
  }

  /** The selection does not depend on the direction of the drag. */
  lemma LassoDirectionFree(nodes: seq<Node>, a: real, b: real, c: real, d: real)
    ensures LassoSelect(nodes, Rect(a, b, c, d)) == LassoSelect(nodes, Rect(c, d, a, b))
    ensures LassoSelect(nodes, Rect(a, b, c, d)) == LassoSelect(nodes, Rect(a, d, c, b))
  {
  }

  // ---------------------------------------------------------------------
  // Search and focus
  // ---------------------------------------------------------------------

  datatype SearchMode = KeywordSearch | ClusterSearch

  /** `searchQuery.toLowerCase().trim()`. */
  function NormalizeQuery(raw: string): (r: string)
    ensures exists i, j :: CutAt(Lower(raw), r, i, j)
    ensures r != [] ==> !IsSpace(r[0]) && !IsSpace(r[|r| - 1])
    ensures forall k :: 0 <= k < |r| ==> !('A' <= r[k] <= 'Z')
  {
    var r := Trim(Lower(raw));
    TrimmedLowerHasNoCapital(raw, r);
    r
  }

  /** A slice of a lower-cased string has no capital letter. */
  lemma TrimmedLowerHasNoCapital(raw: string, r: string)
    requires exists i, j :: CutAt(Lower(raw), r, i, j)
    ensures forall k :: 0 <= k < |r| ==> !('A' <= r[k] <= 'Z')
  {
    var low := Lower(raw);
    var i, j :| CutAt(low, r, i, j);
    LowerIdempotent(raw);
    assert forall k :: 0 <= k < |r| ==> r[k] == low[i + k];
  }

  /** The keyword test: the lower-cased title, or the lower-cased domain of a
      node that has a non-empty one, contains the query. */
  predicate KeywordMatch(n: Node, q: string) {
    Contains(Lower(n.title), q) || (n.domain.Some? && n.domain.value != "" && Contains(Lower(n.domain.value), q))
  }

  /** The ids of the matching nodes, in node order. */
  function KeywordIds(nodes: seq<Node>, q: string): (r: seq<Id>)
    ensures forall x :: x in r <==> exists n :: n in nodes && n.id == x && KeywordMatch(n, q)
    decreases |nodes|
  {
    if nodes == [] then []
    else
      var rest := KeywordIds(Init(nodes), q);
      assert nodes == Init(nodes) + [Last(nodes)];
      if KeywordMatch(Last(nodes), q) then rest + [Last(nodes).id] else rest
  }

  /** How the canvas shades its nodes, links and hulls. */
  datatype Highlight =
    | Plain                      // no query, no focus: nothing faded
    | Matches(ids: set<Id>)      // a search: matched nodes highlighted, the rest faded
    | Focused(ids: set<Id>)      // a focus: nodes outside the focus faded

  predicate NodeFaded(h: Highlight, id: Id) {
    match h
    case Plain => false
    case Matches(ids) => id !in ids
    case Focused(ids) => id !in ids
  }

  predicate NodeHighlighted(h: Highlight, id: Id) {
    h.Matches? && id in h.ids
  }

  predicate LinkFaded(h: Highlight, l: Link) {
    !h.Plain? && (l.source !in h.ids || l.target !in h.ids)
  }

  /** Every hull fades during a search; during a focus, those of workspaces
      outside it. */
  predicate HullFaded(h: Highlight, workspace: Id) {
    match h
    case Plain => false
    case Matches(_) => true
    case Focused(ids) => workspace !in ids
  }

  /** The search-and-focus block of the render effect, over the drawn nodes
      and links. Keyword mode matches the nodes whose title or domain contains
      the query; cluster mode adds everything connected to them; with no query
      a focused node fades everything outside its component; otherwise nothing
      is faded. A focus id of 0 counts as no focus, as in the source. */
  method SearchHighlight(nodes: seq<Node>, links: seq<Link>, rawQuery: string, mode: SearchMode, focus: Option<Id>)
    returns (h: Highlight)
    ensures var q := NormalizeQuery(rawQuery);
      && (q != [] && mode == KeywordSearch ==> h == Matches(set x | x in KeywordIds(nodes, q)))
      && (q != [] && mode == ClusterSearch ==> h == Matches(Component(links, set x | x in KeywordIds(nodes, q))))
      && (q == [] && focus.Some? && focus.value != 0 ==> h == Focused(Component(links, {focus.value})))
      && (q == [] && !(focus.Some? && focus.value != 0) ==> h == Plain)
      && (q == [] && !(focus.Some? && focus.value != 0) ==>
            && (forall id :: !NodeFaded(h, id) && !NodeHighlighted(h, id))
            && (forall l :: !LinkFaded(h, l))
            && (forall w :: !HullFaded(h, w)))
  {
    var query := NormalizeQuery(rawQuery);
    if |query| > 0 {
      var seeds := KeywordIds(nodes, query);
      if mode == KeywordSearch {
        h := Matches(set x | x in seeds);
      } else {
        var matched := Spread(links, seeds);
        h := Matches(matched);
      }
    } else if focus.Some? && focus.value != 0 {
      var focused := Spread(links, [focus.value]);
      assert (set x | x in [focus.value]) == {focus.value};
      h := Focused(focused);
    } else {
      h := Plain;
    }
  }
}
