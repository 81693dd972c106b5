/** The edits a click on a node makes in src/components/SpatialCanvas.jsx:
    deleting it in delete mode, and drawing a link in link mode. */
module CanvasEdit {
  import opened Graph
  import opened AppState
  import opened CanvasGraph

  /** `nodes[i]` is the first node with id `id`. */
  predicate FirstWithId(nodes: seq<Node>, id: Id, i: int) {
    0 <= i < |nodes| && nodes[i].id == id && forall j :: 0 <= j < i ==> nodes[j].id != id
  }

  /** `Array.prototype.find` on the node list: the first node with that id. */
  function FindNode(nodes: seq<Node>, id: Id): (r: Option<Node>)
    ensures r.Some? ==> r.value in nodes && r.value.id == id
    ensures r.Some? ==> exists i :: FirstWithId(nodes, id, i) && nodes[i] == r.value
    ensures r.None? ==> forall n :: n in nodes ==> n.id != id
    decreases |nodes|
  {
    if nodes == [] then None
    else if nodes[0].id == id then Some(nodes[0])
    else
      var r := FindNode(nodes[1..], id);
      if r.Some? then
        var i :| FirstWithId(nodes[1..], id, i) && nodes[1..][i] == r.value;
        assert FirstWithId(nodes, id, i + 1) && nodes[i + 1] == r.value;
        r
      else r
  }

  /** `allNodes.find(n => n.id === id)?.isWorkspace`: the first node with the
      id is a workspace; an absent node is not one. */
  function IsWorkspaceId(nodes: seq<Node>, id: Id): (r: bool)
    ensures r <==> exists i :: FirstWithId(nodes, id, i) && nodes[i].isWorkspace
  {
    var n := FindNode(nodes, id);
    assert forall i, j :: FirstWithId(nodes, id, i) && FirstWithId(nodes, id, j) ==> i == j;
    assert forall i :: FirstWithId(nodes, id, i) ==> nodes[i] in nodes;
    n.Some? && n.value.isWorkspace
  }

  // ---------------------------------------------------------------------
  // Delete mode
  // ---------------------------------------------------------------------

  /** The links that do not touch `id`, in order. */
  function DropIncident(links: seq<Link>, id: Id): (r: seq<Link>)
    ensures IsSubsequence(r, links)
    ensures forall l :: l in r <==> l in links && !Touches(l, id)
  {
    var keep := (l: Link) => !Touches(l, id);
    FilterIsSubsequence(links, keep);
    Filter(links, keep)
  }

  /** A click on node `d` in delete mode: save history, remove the note if
      `d` is a workspace, otherwise remove the tab (inside the extension the
      browser closes it instead, and the tab-removed listener updates the
      state later), drop every link touching `d`, and leave delete mode. */
  function DeleteClickedNode(e: Editor, d: Node, inExtension: bool): (r: Editor)
    ensures r.past == e.past + [Snap(e)] && r.future == []
    ensures forall l :: l in r.links <==> l in e.links && !Touches(l, d.id)
    ensures d.isWorkspace ==> r.tabs == e.tabs && (forall n :: n in r.notes <==> n in e.notes && n.id != d.id)
    ensures !d.isWorkspace ==> r.notes == e.notes
    ensures !d.isWorkspace && inExtension ==> r.tabs == e.tabs
    ensures !d.isWorkspace && !inExtension ==> forall t :: t in r.tabs <==> t in e.tabs && t.id != d.id
    ensures IsSubsequence(r.tabs, e.tabs) && IsSubsequence(r.notes, e.notes)
    ensures !r.deleting && r.selected == e.selected && r.searchQuery == e.searchQuery && r.focus == e.focus
  {
    var s := SaveHistory(e);
    var keepNote := (n: Note) => n.id != d.id;
    var keepTab := (t: Tab) => t.id != d.id;
    FilterIsSubsequence(e.notes, keepNote);
    FilterIsSubsequence(e.tabs, keepTab);
    IsSubsequenceRefl(e.notes);
    IsSubsequenceRefl(e.tabs);
    var notes := if d.isWorkspace then Filter(e.notes, keepNote) else e.notes;
    var tabs := if d.isWorkspace || inExtension then e.tabs else Filter(e.tabs, keepTab);
    s.(tabs := tabs, notes := notes, links := DropIncident(e.links, d.id), deleting := false)
  }

  /** Every link kept by a delete is an old link, in the old order. */
  lemma DeleteKeepsOtherLinks(e: Editor, d: Node, inExtension: bool)
    ensures IsSubsequence(DeleteClickedNode(e, d, inExtension).links, e.links)
    ensures forall l :: l in e.links && !Touches(l, d.id) ==> l in DeleteClickedNode(e, d, inExtension).links
  {
  }

  // ---------------------------------------------------------------------
  // Link mode
  // ---------------------------------------------------------------------

  /** The canvas's link mode: whether it is on and the chosen source node. */
  datatype Linking = Linking(active: bool, source: Option<Id>)

  /** The type a new link gets: cluster from a workspace, history otherwise. */
  function NewLinkKind(nodes: seq<Node>, source: Id): (k: LinkKind)
    ensures k == Cluster <==> IsWorkspaceId(nodes, source)
    ensures k != Domain
  {
    if IsWorkspaceId(nodes, source) then Cluster else History
  }

  /** A click on node `target` in link mode. The first click picks the
      source. A later click adds a link from the source unless it is the same
      node or the two are already joined in either direction; only an added
      link saves history. Link mode stays on, with the same source, when the
      source is a workspace, and ends otherwise. */
  function LinkClick(e: Editor, nodes: seq<Node>, mode: Linking, target: Id): (r: (Editor, Linking))
    requires mode.active
    ensures mode.source.None? ==> r.0 == e && r.1 == Linking(true, Some(target))
    ensures mode.source.Some? ==>
      var s := mode.source.value;
      && (s == target || Joined(e.links, s, target) ==> r.0 == e)
      && (s != target && !Joined(e.links, s, target) ==>
            r.0 == SaveHistory(e).(links := e.links + [Link(s, target, NewLinkKind(nodes, s), None)]))
      && (r.1 == if IsWorkspaceId(nodes, s) then mode else Linking(false, None))
  {
    match mode.source
    case None => (e, Linking(true, Some(target)))
    case Some(s) =>
      var e' :=
        if s != target && !Joined(e.links, s, target) then
          var added := Link(s, target, NewLinkKind(nodes, s), None);
          SaveHistory(e).(links := e.links + [added])
        else e;
      (e', if IsWorkspaceId(nodes, s) then mode else Linking(false, None))
  }

  /** After a link click with a chosen source and a different target, the two
      nodes are joined, and by exactly one link more when they were not. */
  lemma LinkClickJoins(e: Editor, nodes: seq<Node>, s: Id, target: Id)
    requires s != target
    ensures var r := LinkClick(e, nodes, Linking(true, Some(s)), target).0;
      && Joined(r.links, s, target)
      && (Joined(e.links, s, target) ==> r.links == e.links)
      && (!Joined(e.links, s, target) ==> |r.links| == |e.links| + 1 && r.links[..|e.links|] == e.links)
  {
    var r := LinkClick(e, nodes, Linking(true, Some(s)), target).0;
    if !Joined(e.links, s, target) {
      var added := Link(s, target, NewLinkKind(nodes, s), None);
      assert r.links == e.links + [added];
      assert added in r.links && Joins(added, s, target);
    }
  }

  /** Clicking the same pair again, in either order, adds nothing: links are
      never duplicated. */
  lemma LinkClickDeduplicates(e: Editor, nodes: seq<Node>, s: Id, target: Id)
    requires s != target
    ensures var once := LinkClick(e, nodes, Linking(true, Some(s)), target).0;
      && LinkClick(once, nodes, Linking(true, Some(s)), target).0 == once
      && LinkClick(once, nodes, Linking(true, Some(target)), s).0 == once
  {
    LinkClickJoins(e, nodes, s, target);
    var once := LinkClick(e, nodes, Linking(true, Some(s)), target).0;
    var l :| l in once.links && Joins(l, s, target);
    assert Joins(l, target, s);
  }
}
