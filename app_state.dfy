/** The editor state held by the App component of src/App.jsx, and its
    undo/redo history: two stacks of full snapshots. */
module AppState {
  import opened Graph

  /** What the history stores: tabs without thumbnails, notes, and links. */
  datatype Snapshot = Snapshot(tabs: seq<Tab>, notes: seq<Note>, links: seq<Link>)

  /** The part of the App state the core operations read and write. */
  datatype Editor = Editor(
    tabs: seq<Tab>,
    notes: seq<Note>,
    links: seq<Link>,
    past: seq<Snapshot>,
    future: seq<Snapshot>,
    selected: set<Id>,
    deleting: bool,
    searchQuery: string,
    focus: Option<Id>)

  /** The parts of the state that history does not record are the same. */
  predicate SameUi(a: Editor, b: Editor) {
    a.selected == b.selected && a.deleting == b.deleting && a.searchQuery == b.searchQuery && a.focus == b.focus
  }

  /** `sanitizeTabsForStorage`: every tab, in order, without its thumbnail. */
  function Sanitize(tabs: seq<Tab>): (r: seq<Tab>)
    ensures |r| == |tabs|
    ensures forall i :: 0 <= i < |tabs| ==> r[i] == tabs[i].(thumbnail := None)
  {
    seq(|tabs|, i requires 0 <= i < |tabs| => tabs[i].(thumbnail := None))
  }

  predicate Sanitized(tabs: seq<Tab>) {
    forall i :: 0 <= i < |tabs| ==> tabs[i].thumbnail == None
  }

  /** Sanitizing keeps every field but the thumbnail, drops every thumbnail,
      and changes nothing the second time. */
  lemma SanitizeFacts(tabs: seq<Tab>)
    ensures Sanitized(Sanitize(tabs))
    ensures Sanitize(Sanitize(tabs)) == Sanitize(tabs)
    ensures Sanitized(tabs) ==> Sanitize(tabs) == tabs
    ensures forall i :: 0 <= i < |tabs| ==>
      var t, s := tabs[i], Sanitize(tabs)[i];
      s.id == t.id && s.title == t.title && s.url == t.url && s.domain == t.domain
      && s.favicon == t.favicon && s.lastAccessed == t.lastAccessed && s.pos == t.pos
  {
  }

  /** The snapshot `saveHistory`, `handleUndo` and `handleRedo` take. */
  function Snap(e: Editor): Snapshot {
    Snapshot(Sanitize(e.tabs), e.notes, e.links)
  }

  /** Every stored snapshot is free of thumbnails. */
  predicate HistoryClean(e: Editor) {
    forall s :: s in e.past + e.future ==> Sanitized(s.tabs)
  }

  /** `saveHistory`: push the current snapshot, clear the redo stack. */
  function SaveHistory(e: Editor): (r: Editor)
    ensures r.past == e.past + [Snap(e)] && r.future == []
    ensures r.tabs == e.tabs && r.notes == e.notes && r.links == e.links
    ensures SameUi(r, e)
  {
    e.(past := e.past + [Snap(e)], future := [])
  }

  /** `handleUndo`: nothing without a past; otherwise the last snapshot
      becomes the state and the current one goes on top of the redo stack. */
  function Undo(e: Editor): (r: Editor)
    ensures e.past == [] ==> r == e
    ensures e.past != [] ==>
      var prev := e.past[|e.past| - 1];
      && r.tabs == prev.tabs && r.notes == prev.notes && r.links == prev.links
      && r.past == e.past[..|e.past| - 1]
      && r.future == [Snap(e)] + e.future
      && SameUi(r, e)
    ensures |r.past| + |r.future| == |e.past| + |e.future|
  {
    if e.past == [] then e
    else
      var prev := e.past[|e.past| - 1];
      e.(tabs := prev.tabs, notes := prev.notes, links := prev.links,
         past := e.past[..|e.past| - 1], future := [Snap(e)] + e.future)
  }

  /** `handleRedo`: nothing without a future; otherwise the first redo
      snapshot becomes the state and the current one is pushed on the past. */
  function Redo(e: Editor): (r: Editor)
    ensures e.future == [] ==> r == e
    ensures e.future != [] ==>
      var next := e.future[0];
      && r.tabs == next.tabs && r.notes == next.notes && r.links == next.links
      && r.past == e.past + [Snap(e)]
      && r.future == e.future[1..]
      && SameUi(r, e)
    ensures |r.past| + |r.future| == |e.past| + |e.future|
  {
    if e.future == [] then e
    else
      var next := e.future[0];
      e.(tabs := next.tabs, notes := next.notes, links := next.links,
         past := e.past + [Snap(e)], future := e.future[1..])
  }

  /** Saving, undoing and redoing keep every stored snapshot thumbnail-free. */
  lemma HistoryStaysClean(e: Editor)
    requires HistoryClean(e)
    ensures HistoryClean(SaveHistory(e))
    ensures HistoryClean(Undo(e))
    ensures HistoryClean(Redo(e))
  {
    SanitizeFacts(e.tabs);
    if e.past != [] {
      assert forall s :: s in Undo(e).past ==> s in e.past;
    }
    if e.future != [] {
      assert forall s :: s in Redo(e).future ==> s in e.future;
    }
  }

  /** Undo then redo gives back the state and both stacks, except that the
      tabs lose their thumbnails. */
  lemma UndoThenRedo(e: Editor)
    requires HistoryClean(e) && e.past != []
    ensures Redo(Undo(e)) == e.(tabs := Sanitize(e.tabs))
  {
    var prev := e.past[|e.past| - 1];
    assert prev in e.past + e.future;
    SanitizeFacts(prev.tabs);
    assert e.past[..|e.past| - 1] + [prev] == e.past;
  }

  /** Redo then undo gives back the state and both stacks, except that the
      tabs lose their thumbnails. */
  lemma RedoThenUndo(e: Editor)
    requires HistoryClean(e) && e.future != []
    ensures Undo(Redo(e)) == e.(tabs := Sanitize(e.tabs))
  {
    var next := e.future[0];
    assert next in e.past + e.future;
    SanitizeFacts(next.tabs);
    assert [next] + e.future[1..] == e.future;
  }

  /** Undoing right after an edit that saved history brings back the state
      before the edit (tabs without thumbnails) and the history before it,
      whatever the edit changed. */
  lemma UndoRevertsEdit(e: Editor, edited: Editor)
    requires edited.past == e.past + [Snap(e)]
    ensures var r := Undo(edited);
      && r.tabs == Sanitize(e.tabs) && r.notes == e.notes && r.links == e.links
      && r.past == e.past && r.future == [Snap(edited)] + edited.future
  {
  }
}
