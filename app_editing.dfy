/** The graph edits of the App component in src/App.jsx: deleting the
    selection, the tab-removed listener, closing a workspace's tabs,
    auto-grouping by domain, and a workspace made from a search. */
module AppEditing {
  import opened Graph
  import opened Text
  import opened AppState
  import opened Utils
  import opened CanvasGraph
  import opened CanvasView

  /** `nodes.map(n => n.id)`. */
  function NodeIdSeq(nodes: seq<Node>): (r: seq<Id>)
    ensures |r| == |nodes| && forall i :: 0 <= i < |nodes| ==> r[i] == nodes[i].id
  {
    seq(|nodes|, i requires 0 <= i < |nodes| => nodes[i].id)
  }

  /** One cluster link from `noteId` to each id, in order. */
  function ClusterLinksTo(noteId: Id, ids: seq<Id>): (r: seq<Link>)
    ensures |r| == |ids|
    ensures forall i :: 0 <= i < |ids| ==> r[i] == Link(noteId, ids[i], Cluster, None)
  {
    seq(|ids|, i requires 0 <= i < |ids| => Link(noteId, ids[i], Cluster, None))
  }

  // ---------------------------------------------------------------------
  // Deleting
  // ---------------------------------------------------------------------

  /** `handleDeleteSelected`: history is saved first in every case. With a
      selection, every selected tab and note goes, with every link touching
      one, and the selection is cleared (inside the extension the browser is
      also told to close the tabs). With none, delete mode is toggled and the
      focus cleared instead. */
  function DeleteSelected(e: Editor): (r: Editor)
    ensures r.past == e.past + [Snap(e)] && r.future == []
    ensures e.selected != {} ==>
      && (forall t :: t in r.tabs <==> t in e.tabs && t.id !in e.selected)
      && (forall n :: n in r.notes <==> n in e.notes && n.id !in e.selected)
      && (forall l :: l in r.links <==> l in e.links && !TouchesAny(l, e.selected))
      && IsSubsequence(r.tabs, e.tabs) && IsSubsequence(r.notes, e.notes) && IsSubsequence(r.links, e.links)
      && r.selected == {} && r.deleting == e.deleting && r.focus == e.focus
    ensures e.selected == {} ==>
      && r.tabs == e.tabs && r.notes == e.notes && r.links == e.links
      && r.deleting == !e.deleting && r.focus == None && r.selected == e.selected
    ensures r.searchQuery == e.searchQuery
  {
    var s := SaveHistory(e);
    if e.selected != {} then
      var keepTab := (t: Tab) => t.id !in e.selected;
      var keepNote := (n: Note) => n.id !in e.selected;
      var keepLink := (l: Link) => !TouchesAny(l, e.selected);
      FilterIsSubsequence(e.tabs, keepTab);
      FilterIsSubsequence(e.notes, keepNote);
      FilterIsSubsequence(e.links, keepLink);
      s.(tabs := Filter(e.tabs, keepTab),
         notes := Filter(e.notes, keepNote),
         links := Filter(e.links, keepLink),
         selected := {})
    else
      s.(deleting := !e.deleting, focus := None)
  }

  /** After deleting a non-empty selection no selected id is left anywhere:
      not as a tab, not as a note, not as the end of a link. */
  lemma DeleteSelectedLeavesNoTrace(e: Editor, x: Id)
    requires x in e.selected
    ensures var r := DeleteSelected(e);
      && (forall t :: t in r.tabs ==> t.id != x)
      && (forall n :: n in r.notes ==> n.id != x)
      && (forall l :: l in r.links ==> !Touches(l, x))
  {
  }

  /** The body of the tab-removed listener: the tab, a note with the same id,
      and every link touching it go; history is not saved. */
  function RemoveTab(e: Editor, tabId: Id): (r: Editor)
    ensures forall t :: t in r.tabs <==> t in e.tabs && t.id != tabId
    ensures forall n :: n in r.notes <==> n in e.notes && n.id != tabId
    ensures forall l :: l in r.links <==> l in e.links && !Touches(l, tabId)
    ensures IsSubsequence(r.tabs, e.tabs) && IsSubsequence(r.notes, e.notes) && IsSubsequence(r.links, e.links)
    ensures r.past == e.past && r.future == e.future && SameUi(r, e)
  {
    var keepTab := (t: Tab) => t.id != tabId;
    var keepNote := (n: Note) => n.id != tabId;
    var keep := (l: Link) => !Touches(l, tabId);
    FilterIsSubsequence(e.tabs, keepTab);
    FilterIsSubsequence(e.notes, keepNote);
    FilterIsSubsequence(e.links, keep);
    e.(tabs := Filter(e.tabs, keepTab),
       notes := Filter(e.notes, keepNote),
       links := Filter(e.links, keep))
  }

  /** The end of `l` that is not `w`. */
  function OtherEnd(l: Link, w: Id): Id {
    if l.source == w then l.target else l.source
  }

  /** The ids tied to workspace `w` by a cluster link, in link order. */
  function LinkedTabIds(links: seq<Link>, w: Id): (r: seq<Id>)
    ensures forall x :: x in r <==> exists l :: l in links && l.kind == Cluster && Touches(l, w) && OtherEnd(l, w) == x
    decreases |links|
  {
    if links == [] then []
    else
      var rest := LinkedTabIds(Init(links), w);
      var l := Last(links);
      assert links == Init(links) + [l];
      if l.kind == Cluster && Touches(l, w) then rest + [OtherEnd(l, w)] else rest
  }

  /** `cmActionCloseWorkspaceTabs`: save history, remove the workspace note,
      remove its linked tabs (inside the extension the browser closes them
      instead), and drop every link touching the workspace or a linked tab. */
  function CloseWorkspaceTabs(e: Editor, w: Id, inExtension: bool): (r: Editor)
    ensures r.past == e.past + [Snap(e)] && r.future == [] && SameUi(r, e)
    ensures forall n :: n in r.notes <==> n in e.notes && n.id != w
    ensures inExtension ==> r.tabs == e.tabs
    ensures !inExtension ==> forall t :: t in r.tabs <==> t in e.tabs && t.id !in LinkedTabIds(e.links, w)
    ensures forall l :: l in r.links <==>
      l in e.links && !Touches(l, w) && l.source !in LinkedTabIds(e.links, w) && l.target !in LinkedTabIds(e.links, w)
    ensures IsSubsequence(r.tabs, e.tabs) && IsSubsequence(r.notes, e.notes) && IsSubsequence(r.links, e.links)
  {
    var linked := LinkedTabIds(e.links, w);
    var s := SaveHistory(e);
    var keepTab := (t: Tab) => t.id !in linked;
    var keepNote := (n: Note) => n.id != w;
    var keepLink := (l: Link) => !(l.source in linked || l.target in linked) && !Touches(l, w);
    FilterIsSubsequence(e.tabs, keepTab);
    FilterIsSubsequence(e.notes, keepNote);
    FilterIsSubsequence(e.links, keepLink);
    IsSubsequenceRefl(e.tabs);
    s.(tabs := if inExtension then e.tabs else Filter(e.tabs, keepTab),
       notes := Filter(e.notes, keepNote),
       links := Filter(e.links, keepLink))
  }

  /** Closing a workspace's tabs leaves no cluster link of the workspace and
      nothing linked to a tab that was in it. */
  lemma CloseWorkspaceTabsLeavesNoTrace(e: Editor, w: Id, inExtension: bool, l: Link)
    requires l in e.links && l.kind == Cluster && Touches(l, w)
    ensures var r := CloseWorkspaceTabs(e, w, inExtension);
      && l !in r.links
      && (forall k :: k in r.links ==> !Touches(k, OtherEnd(l, w)))
      && (!inExtension ==> forall t :: t in r.tabs ==> t.id != OtherEnd(l, w))
  {
    assert OtherEnd(l, w) in LinkedTabIds(e.links, w);
  }

  // ---------------------------------------------------------------------
  // Auto-grouping
  // ---------------------------------------------------------------------

  /** A tab is grouped when a cluster link ends at it. */
  predicate Grouped(links: seq<Link>, t: Tab) {
    exists l :: l in links && l.target == t.id && l.kind == Cluster
  }

  /** The tabs no cluster link ends at, in order. */
  function Ungrouped(tabs: seq<Tab>, links: seq<Link>): (r: seq<Tab>)
    ensures IsSubsequence(r, tabs)
    ensures forall t :: t in r <==> t in tabs && !Grouped(links, t)
  {
    var keep := (t: Tab) => !Grouped(links, t);
    FilterIsSubsequence(tabs, keep);
    Filter(tabs, keep)
  }

  /** The domains, among `ds`, with more than one ungrouped tab, in order. */
  function BigDomains(ungrouped: seq<Tab>, ds: seq<string>): (r: seq<string>)
    ensures forall d :: d in r <==> d in ds && |Group(ungrouped, d)| > 1
    decreases |ds|
  {
    if ds == [] then []
    else
      assert ds == Init(ds) + [Last(ds)];
      BigDomains(ungrouped, Init(ds)) + if |Group(ungrouped, Last(ds))| > 1 then [Last(ds)] else []
  }

  /** The workspace made for the `k`-th grouped domain. The simulation
      supplies x and y later; the model puts the pinned position there. */
  function GroupNote(k: nat, d: string, noteCount: nat, now: int, cx: real, cy: real): Note {
    var fx := cx + (k as real) * 60.0;
    var fy := cy + (k as real) * 60.0;
    Note(now + k, d, None, WorkspaceColors[(noteCount + k) % |WorkspaceColors|], false, Pos(Some(fx), Some(fy), fx, fy))
  }

  /** The new workspaces, one per grouped domain (see `GroupNotesAt`). */
  function GroupNotes(big: seq<string>, noteCount: nat, now: int, cx: real, cy: real): (r: seq<Note>)
    ensures |r| == |big|
    decreases |big|
  {
    if big == [] then []
    else GroupNotes(Init(big), noteCount, now, cx, cy) + [GroupNote(|big| - 1, Last(big), noteCount, now, cx, cy)]
  }

  /** The `k`-th new workspace is the one made for the `k`-th grouped domain. */
  lemma {:induction false} GroupNotesAt(big: seq<string>, noteCount: nat, now: int, cx: real, cy: real, k: int)
    requires 0 <= k < |big|
    ensures GroupNotes(big, noteCount, now, cx, cy)[k] == GroupNote(k, big[k], noteCount, now, cx, cy)
    decreases |big|
  {
    if k < |big| - 1 {
      GroupNotesAt(Init(big), noteCount, now, cx, cy, k);
    }
  }

  /** The cluster links of the grouped domains, domain by domain: each joins
      one of the new workspaces to a tab. */
  function GroupLinks(ungrouped: seq<Tab>, big: seq<string>, now: int): (r: seq<Link>)
    ensures forall l :: l in r ==> l.kind == Cluster && l.labelText == None && now <= l.source < now + |big|
    decreases |big|
  {
    if big == [] then []
    else GroupLinks(ungrouped, Init(big), now) + ClusterLinksTo(now + |big| - 1, Group(ungrouped, Last(big)))
  }

  /** `handleAutoGroup`. History is saved first. The ungrouped tabs are
      grouped by domain in order of first appearance; each domain with more
      than one of them gets a new workspace, numbered by `offset` from the
      clock value `now`, named after the domain, with a colour cycling on from
      the number of notes and a pinned position stepping 60 from the
      viewport centre, plus one cluster link to each of its tabs. */
  method AutoGroup(e: Editor, now: int, cx: real, cy: real) returns (r: Editor)
    ensures r.past == e.past + [Snap(e)] && r.future == [] && r.tabs == e.tabs && SameUi(r, e)
    ensures var ungrouped := Ungrouped(e.tabs, e.links);
      var big := BigDomains(ungrouped, DomainOrder(ungrouped));
      && r.notes == e.notes + GroupNotes(big, |e.notes|, now, cx, cy)
      && r.links == e.links + GroupLinks(ungrouped, big, now)
  {
    var s := SaveHistory(e);
    var ungroupedTabs := Ungrouped(e.tabs, e.links);
    var newNotes, newLinks := GroupAll(ungroupedTabs, |e.notes|, now, cx, cy);
    if |newNotes| > 0 {
      r := s.(notes := e.notes + newNotes, links := e.links + newLinks);
    } else {
      assert e.notes + newNotes == e.notes && e.links + newLinks == e.links;
      r := s;
    }
  }

  /** The loop of `handleAutoGroup` over the domains of the ungrouped tabs,
      in order of first appearance. */
  method GroupAll(ungrouped: seq<Tab>, noteCount: nat, now: int, cx: real, cy: real)
    returns (newNotes: seq<Note>, newLinks: seq<Link>)
    ensures var big := BigDomains(ungrouped, DomainOrder(ungrouped));
      && newNotes == GroupNotes(big, noteCount, now, cx, cy)
      && newLinks == GroupLinks(ungrouped, big, now)
      && (|newNotes| == 0 ==> newLinks == [])
  {
    if |ungrouped| == 0 {
      return [], [];
    }
    var order, domains := GroupByDomain(ungrouped);
    newNotes, newLinks := [], [];
    var offset := 0;
    ghost var big: seq<string> := [];
    for i := 0 to |order|
      invariant big == BigDomains(ungrouped, order[..i])
      invariant offset == |big|
      invariant newNotes == GroupNotes(big, noteCount, now, cx, cy)
      invariant newLinks == GroupLinks(ungrouped, big, now)
    {
      assert order[i] in order;
      BigStepAt(ungrouped, order, i);
      newNotes, newLinks, offset, big :=
        GroupDomain(ungrouped, big, order[i], domains[order[i]], noteCount, now, cx, cy, newNotes, newLinks, offset);
    }
    assert order[..|order|] == order;
  }

  /** One turn of the loop over the domains: a domain with more than one
      ungrouped tab gets a workspace note and a cluster link to each tab. */
  method GroupDomain(ungrouped: seq<Tab>, ghost big: seq<string>, d: string, groupTabs: seq<Id>,
                     noteCount: nat, now: int, cx: real, cy: real,
                     notes0: seq<Note>, links0: seq<Link>, offset0: nat)
    returns (notes: seq<Note>, links: seq<Link>, offset: nat, ghost big': seq<string>)
    requires groupTabs == Group(ungrouped, d)
    requires offset0 == |big|
    requires notes0 == GroupNotes(big, noteCount, now, cx, cy)
    requires links0 == GroupLinks(ungrouped, big, now)
    ensures big' == big + if |groupTabs| > 1 then [d] else []
    ensures offset == |big'|
    ensures notes == GroupNotes(big', noteCount, now, cx, cy)
    ensures links == GroupLinks(ungrouped, big', now)
  {
    if |groupTabs| > 1 {
      big' := big + [d];
      notes, links := AddGroup(ungrouped, big, d, groupTabs, noteCount, now, cx, cy, notes0, links0, offset0);
      offset := offset0 + 1;
    } else {
      big' := big;
      assert big + [] == big;
      notes, links, offset := notes0, links0, offset0;
    }
  }

  /** One grouped domain: its workspace note and its cluster links. */
  method AddGroup(ungrouped: seq<Tab>, ghost big: seq<string>, d: string, groupTabs: seq<Id>,
                  noteCount: nat, now: int, cx: real, cy: real, notes0: seq<Note>, links0: seq<Link>, k: nat)
    returns (notes: seq<Note>, links: seq<Link>)
    requires groupTabs == Group(ungrouped, d) && k == |big|
    requires notes0 == GroupNotes(big, noteCount, now, cx, cy)
    requires links0 == GroupLinks(ungrouped, big, now)
    ensures notes == GroupNotes(big + [d], noteCount, now, cx, cy)
    ensures links == GroupLinks(ungrouped, big + [d], now)
  {
    notes := AddGroupNote(big, d, noteCount, now, cx, cy, notes0, k);
    links := AddGroupLinks(ungrouped, big, d, groupTabs, now, links0, k);
  }

  /** The `groupTabs.forEach` of one grouped domain. */
  method AddGroupLinks(ungrouped: seq<Tab>, ghost big: seq<string>, d: string, groupTabs: seq<Id>,
                       now: int, links0: seq<Link>, k: nat)
    returns (links: seq<Link>)
    requires groupTabs == Group(ungrouped, d) && k == |big|
    requires links0 == GroupLinks(ungrouped, big, now)
    ensures links == GroupLinks(ungrouped, big + [d], now)
  {
    links := AppendClusterLinks(links0, now + k, groupTabs);
    LinksStep(ungrouped, big, d, now, k, groupTabs, links0, links);
  }

  /** The `newNotes.push(newNote)` of one grouped domain. */
  method AddGroupNote(ghost big: seq<string>, d: string, noteCount: nat, now: int, cx: real, cy: real,
                      notes0: seq<Note>, k: nat)
    returns (notes: seq<Note>)
    requires k == |big| && notes0 == GroupNotes(big, noteCount, now, cx, cy)
    ensures notes == GroupNotes(big + [d], noteCount, now, cx, cy)
  {
    notes := notes0 + [GroupNote(k, d, noteCount, now, cx, cy)];
    NotesStep(big, d, noteCount, now, cx, cy, k, notes0, notes);
  }

  /** The `groupTabs.forEach` that pushes one cluster link per tab. */
  method AppendClusterLinks(links: seq<Link>, noteId: Id, ids: seq<Id>) returns (r: seq<Link>)
    ensures r == links + ClusterLinksTo(noteId, ids)
  {
    r := links;
    for j := 0 to |ids|
      invariant r == links + ClusterLinksTo(noteId, ids[..j])
    {
      r := r + [Link(noteId, ids[j], Cluster, None)];
    }
    assert ids[..|ids|] == ids;
  }

  /** One more domain extends the grouped domains at the end, or not at all. */
  lemma BigStep(ungrouped: seq<Tab>, ds: seq<string>, d: string)
    ensures BigDomains(ungrouped, ds + [d])
      == BigDomains(ungrouped, ds) + if |Group(ungrouped, d)| > 1 then [d] else []
  {
    assert Init(ds + [d]) == ds && Last(ds + [d]) == d;
  }

  lemma BigStepAt(ungrouped: seq<Tab>, order: seq<string>, i: nat)
    requires i < |order|
    ensures BigDomains(ungrouped, order[..i + 1])
      == BigDomains(ungrouped, order[..i]) + if |Group(ungrouped, order[i])| > 1 then [order[i]] else []
  {
    assert order[..i + 1] == order[..i] + [order[i]];
    BigStep(ungrouped, order[..i], order[i]);
  }

  lemma NotesStep(big: seq<string>, d: string, noteCount: nat, now: int, cx: real, cy: real,
                  k: nat, notes0: seq<Note>, notes: seq<Note>)
    requires k == |big| && notes0 == GroupNotes(big, noteCount, now, cx, cy)
    requires notes == notes0 + [GroupNote(k, d, noteCount, now, cx, cy)]
    ensures notes == GroupNotes(big + [d], noteCount, now, cx, cy)
  {
    assert Init(big + [d]) == big && Last(big + [d]) == d;
  }

  lemma LinksStep(ungrouped: seq<Tab>, big: seq<string>, d: string, now: int,
                  k: nat, groupTabs: seq<Id>, links0: seq<Link>, links: seq<Link>)
    requires k == |big| && groupTabs == Group(ungrouped, d)
    requires links0 == GroupLinks(ungrouped, big, now)
    requires links == links0 + ClusterLinksTo(now + k, groupTabs)
    ensures links == GroupLinks(ungrouped, big + [d], now)
  {
    assert Init(big + [d]) == big && Last(big + [d]) == d;
  }

  /** A domain appears at most once among the grouped domains. */
  lemma {:induction false} BigDomainsNoDup(ungrouped: seq<Tab>, ds: seq<string>)
    requires NoDup(ds)
    ensures NoDup(BigDomains(ungrouped, ds))
    decreases |ds|
  {
    if ds != [] {
      assert ds == Init(ds) + [Last(ds)];
      assert NoDup(Init(ds));
      BigDomainsNoDup(ungrouped, Init(ds));
      assert Last(ds) !in Init(ds);
    }
  }

  /** The new workspaces: one per domain with more than one ungrouped tab,
      each domain once, each named after its domain. */
  lemma AutoGroupWorkspaces(e: Editor, now: int, cx: real, cy: real)
    ensures var ungrouped := Ungrouped(e.tabs, e.links);
      var big := BigDomains(ungrouped, DomainOrder(ungrouped));
      var notes := GroupNotes(big, |e.notes|, now, cx, cy);
      && NoDup(big)
      && (forall d :: d in big <==> |Group(ungrouped, d)| > 1)
      && (forall k :: 0 <= k < |notes| ==> notes[k].title == big[k] && notes[k].id == now + k && !notes[k].collapsed)
  {
    var ungrouped := Ungrouped(e.tabs, e.links);
    DomainOrderFacts(ungrouped);
    var big := BigDomains(ungrouped, DomainOrder(ungrouped));
    BigDomainsNoDup(ungrouped, DomainOrder(ungrouped));
    forall k | 0 <= k < |big|
      ensures GroupNotes(big, |e.notes|, now, cx, cy)[k] == GroupNote(k, big[k], |e.notes|, now, cx, cy)
    {
      GroupNotesAt(big, |e.notes|, now, cx, cy, k);
    }
  }

  /** Link `l` is the cluster link from the `k`-th new workspace to an
      ungrouped tab of that workspace's domain. */
  predicate GroupLinkFor(ungrouped: seq<Tab>, big: seq<string>, now: int, l: Link, k: int) {
    && 0 <= k < |big|
    && l == Link(now + k, l.target, Cluster, None)
    && l.target in Group(ungrouped, big[k])
  }

  /** Every new link is a cluster link from a new workspace to a tab of its
      domain, and every such pair gets one. */
  lemma {:induction false} AutoGroupLinks(ungrouped: seq<Tab>, big: seq<string>, now: int, l: Link)
    ensures l in GroupLinks(ungrouped, big, now) <==> exists k :: GroupLinkFor(ungrouped, big, now, l, k)
    decreases |big|
  {
    if big != [] {
      var init := Init(big);
      var last := ClusterLinksTo(now + |big| - 1, Group(ungrouped, Last(big)));
      assert GroupLinks(ungrouped, big, now) == GroupLinks(ungrouped, init, now) + last;
      AutoGroupLinks(ungrouped, init, now, l);
      LastGroupLinks(ungrouped, big, now, l);
      EarlierGroupLinks(ungrouped, big, now, l);
    }
  }

  /** The links of the last grouped domain are those for its index. */
  lemma LastGroupLinks(ungrouped: seq<Tab>, big: seq<string>, now: int, l: Link)
    requires big != []
    ensures l in ClusterLinksTo(now + |big| - 1, Group(ungrouped, Last(big)))
      <==> GroupLinkFor(ungrouped, big, now, l, |big| - 1)
  {
    var g := Group(ungrouped, Last(big));
    var last := ClusterLinksTo(now + |big| - 1, g);
    if l in last {
      var i :| 0 <= i < |last| && last[i] == l;
    }
    if GroupLinkFor(ungrouped, big, now, l, |big| - 1) {
      var i :| 0 <= i < |g| && g[i] == l.target;
      assert last[i] == l;
    }
  }

  /** The earlier domains keep their indices. */
  lemma EarlierGroupLinks(ungrouped: seq<Tab>, big: seq<string>, now: int, l: Link)
    requires big != []
    ensures (exists k :: GroupLinkFor(ungrouped, Init(big), now, l, k))
      <==> exists k :: k < |big| - 1 && GroupLinkFor(ungrouped, big, now, l, k)
  {
    var init := Init(big);
    forall k | 0 <= k < |init| ensures GroupLinkFor(ungrouped, init, now, l, k) <==> GroupLinkFor(ungrouped, big, now, l, k) {
      assert init[k] == big[k];
    }
  }

  /** Tab `i` has id `x` and domain `d`. */
  predicate TabOfDomain(tabs: seq<Tab>, i: int, x: Id, d: string) {
    0 <= i < |tabs| && tabs[i].id == x && tabs[i].domain == d
  }

  /** The target of every new link is an ungrouped tab of the workspace's
      domain. */
  lemma AutoGroupLinkTargets(ungrouped: seq<Tab>, big: seq<string>, now: int, l: Link)
    requires l in GroupLinks(ungrouped, big, now)
    ensures exists k, i :: GroupLinkFor(ungrouped, big, now, l, k) && TabOfDomain(ungrouped, i, l.target, big[k])
  {
    AutoGroupLinks(ungrouped, big, now, l);
    var k :| GroupLinkFor(ungrouped, big, now, l, k);
    GroupMembers(ungrouped, big[k]);
    var i :| 0 <= i < |ungrouped| && ungrouped[i].id == l.target && ungrouped[i].domain == big[k];
    assert TabOfDomain(ungrouped, i, l.target, big[k]);
  }

  // ---------------------------------------------------------------------
  // A workspace from the search box
  // ---------------------------------------------------------------------

  /** The tab test of `handleCreateWorkspaceFromSearch`: title or domain. */
  predicate TabMatches(t: Tab, q: string) {
    Contains(Lower(t.title), q) || Contains(Lower(t.domain), q)
  }

  /** The note test on `note.title || note.text`, for a note that has a name. */
  predicate NoteMatches(n: Note, q: string) {
    NoteName(n).Some? && Contains(Lower(NoteName(n).value), q)
  }

  /** Some tab or note with id `x` matches the query. */
  predicate MatchedId(tabs: seq<Tab>, notes: seq<Note>, q: string, x: Id) {
    (exists t :: t in tabs && t.id == x && TabMatches(t, q)) || (exists n :: n in notes && n.id == x && NoteMatches(n, q))
  }

  /** The ids of `[...matchedTabs, ...matchedNotes]`: the matching tabs, then
      the matching notes, each in its own order. */
  function MatchedIds(tabs: seq<Tab>, notes: seq<Note>, q: string): (r: seq<Id>)
    ensures forall x :: x in r <==> MatchedId(tabs, notes, q, x)
  {
    var mt := Filter(tabs, (t: Tab) => TabMatches(t, q));
    var mn := Filter(notes, (n: Note) => NoteMatches(n, q));
    forall x ensures x in NodeIdSeq(AllNodes(mt, mn)) <==> MatchedId(tabs, notes, q, x) {
      AllNodeIdsMembers(mt, mn, x);
    }
    NodeIdSeq(AllNodes(mt, mn))
  }

  /** An id of `[...tabs, ...notes]` is the id of one of the tabs or notes. */
  lemma AllNodeIdsMembers(tabs: seq<Tab>, notes: seq<Note>, x: Id)
    ensures x in NodeIdSeq(AllNodes(tabs, notes)) <==>
      (exists t :: t in tabs && t.id == x) || (exists n :: n in notes && n.id == x)
  {
    var r := NodeIdSeq(AllNodes(tabs, notes));
    if x in r {
      var i :| 0 <= i < |r| && r[i] == x;
      if i < |tabs| {
        assert tabs[i] in tabs;
      } else {
        assert notes[i - |tabs|] in notes;
      }
    }
    if t :| t in tabs && t.id == x {
      var i :| 0 <= i < |tabs| && tabs[i] == t;
      assert r[i] == x;
    }
    if n :| n in notes && n.id == x {
      var i :| 0 <= i < |notes| && notes[i] == n;
      assert r[|tabs| + i] == x;
    }
  }

  /** The ids of the nodes in `ids`, in node order. */
  function IdsAmong(nodes: seq<Node>, ids: set<Id>): (r: seq<Id>)
    ensures forall x :: x in r <==> x in ids && x in NodeIds(nodes)
    decreases |nodes|
  {
    if nodes == [] then []
    else
      var rest := IdsAmong(Init(nodes), ids);
      assert nodes == Init(nodes) + [Last(nodes)];
      if Last(nodes).id in ids then rest + [Last(nodes).id] else rest
  }

  /** The workspace note `handleCreateWorkspaceFromSearch` adds. */
  function SearchNote(e: Editor, now: int, cx: real, cy: real): (r: Note)
    ensures r.id == now && r.title == "Workspace: " + e.searchQuery && NoteName(r) == Some(r.title)
    ensures r.color in WorkspaceColors && !r.collapsed && r.pos.fx == Some(cx) && r.pos.fy == Some(cy)
  {
    Note(now, "Workspace: " + e.searchQuery, None, WorkspaceColors[|e.notes| % |WorkspaceColors|], false, Pos(Some(cx), Some(cy), cx, cy))
  }

  /** `handleCreateWorkspaceFromSearch`. History is saved first. With an
      empty query, or nothing matched, nothing else changes. Otherwise a new
      workspace is added with one cluster link to each member, in order; the
      members are the matching tabs and notes in keyword mode, and in cluster
      mode every tab or note connected to one of them through links whose
      ends both exist. The search box is cleared and the new workspace
      focused. A note with an empty title and no text makes the note test
      throw (`thrown`) once the query is non-empty: history has been saved
      and nothing else happens. */
  method CreateWorkspaceFromSearch(e: Editor, mode: SearchMode, now: int, cx: real, cy: real)
    returns (r: Editor, members: seq<Id>, thrown: bool)
    ensures var q := NormalizeQuery(e.searchQuery);
      var all := AllNodes(e.tabs, e.notes);
      var ok := q != [] && AllNamed(e.notes);
      && (q == [] ==> r == SaveHistory(e) && members == [])
      && (thrown <==> q != [] && !AllNamed(e.notes))
      && (thrown ==> r == SaveHistory(e) && members == [])
      && (ok && mode == KeywordSearch ==> members == MatchedIds(e.tabs, e.notes, q))
      && (ok && mode == KeywordSearch ==> forall x :: x in members <==> MatchedId(e.tabs, e.notes, q, x))
      && (ok && mode == ClusterSearch ==>
            members == IdsAmong(all, Component(Hydrate(e.links, all), set y | y in MatchedIds(e.tabs, e.notes, q))))
      && (ok && mode == ClusterSearch ==> forall x :: x in members <==>
            x in NodeIds(all) && x in Component(Hydrate(e.links, all), set y | y in MatchedIds(e.tabs, e.notes, q)))
      && (members == [] ==> r == SaveHistory(e))
      && (members != [] ==> r == SaveHistory(e).(notes := e.notes + [SearchNote(e, now, cx, cy)],
                                                links := e.links + ClusterLinksTo(now, members),
                                                searchQuery := "", focus := Some(now)))
  {
    var s := SaveHistory(e);
    var query := NormalizeQuery(e.searchQuery);
    if |query| == 0 {
      return s, [], false;
    }
    if !AllNamed(e.notes) {
      return s, [], true;
    }
    var allGraphData := AllNodes(e.tabs, e.notes);
    members := MatchedIds(e.tabs, e.notes, query);
    if mode == ClusterSearch {
      var hydratedLinks := Hydrate(e.links, allGraphData);
      var matchedNodeIds := Spread(hydratedLinks, members);
      members := IdsAmong(allGraphData, matchedNodeIds);
    }
    if |members| == 0 {
      return s, members, false;
    }
    var newNote := SearchNote(e, now, cx, cy);
    r := s.(notes := e.notes + [newNote], links := e.links + ClusterLinksTo(newNote.id, members),
            searchQuery := "", focus := Some(newNote.id));
    thrown := false;
  }

  /** A matching tab or note is a node of the graph. */
  lemma MatchedIsNode(e: Editor, q: string, x: Id)
    requires MatchedId(e.tabs, e.notes, q, x)
    ensures x in NodeIds(AllNodes(e.tabs, e.notes))
  {
    if t :| t in e.tabs && t.id == x && TabMatches(t, q) {
      TabIsNode(e.tabs, e.notes, t);
    } else {
      var n :| n in e.notes && n.id == x && NoteMatches(n, q);
      NoteIsNode(e.tabs, e.notes, n);
    }
  }

  lemma TabIsNode(tabs: seq<Tab>, notes: seq<Note>, t: Tab)
    requires t in tabs
    ensures t.id in NodeIds(AllNodes(tabs, notes))
  {
    var all := AllNodes(tabs, notes);
    var i :| 0 <= i < |tabs| && tabs[i] == t;
    assert all[i] in all;
  }

  lemma NoteIsNode(tabs: seq<Tab>, notes: seq<Note>, n: Note)
    requires n in notes
    ensures n.id in NodeIds(AllNodes(tabs, notes))
  {
    var all := AllNodes(tabs, notes);
    var i :| 0 <= i < |notes| && notes[i] == n;
    assert all[|tabs| + i] in all;
  }

  /** A hydrated link leads only to existing nodes. */
  lemma HydratedEndsExist(links: seq<Link>, nodes: seq<Node>, x: Id, y: Id)
    requires Joined(Hydrate(links, nodes), x, y)
    ensures x in NodeIds(nodes) && y in NodeIds(nodes)
  {
    var l :| l in Hydrate(links, nodes) && Joins(l, x, y);
  }

  /** In cluster mode the members include every keyword match and are closed
      under the links both of whose ends exist. */
  lemma ClusterMembersWidenMatches(e: Editor, q: string)
    ensures var all := AllNodes(e.tabs, e.notes);
      var seeds := set y | y in MatchedIds(e.tabs, e.notes, q);
      var members := NodeIds(all) * Component(Hydrate(e.links, all), seeds);
      && (forall x :: MatchedId(e.tabs, e.notes, q, x) ==> x in members)
      && (forall x, y :: x in members && Joined(Hydrate(e.links, all), x, y) ==> y in members)
  {
    var all := AllNodes(e.tabs, e.notes);
    var seeds := set y | y in MatchedIds(e.tabs, e.notes, q);
    var hydrated := Hydrate(e.links, all);
    ComponentIsClosed(hydrated, seeds);
    forall x | MatchedId(e.tabs, e.notes, q, x) ensures x in NodeIds(all) {
      MatchedIsNode(e, q, x);
    }
    forall x, y | Joined(hydrated, x, y) ensures y in NodeIds(all) {
      HydratedEndsExist(e.links, all, x, y);
    }
  }
}
