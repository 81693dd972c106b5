/** The initial load of src/App.jsx inside the extension: the saved tabs are
    reconciled with the tabs the browser has open, and the saved links are
    rebuilt on top of them (or generated by domain when none were saved). */
module AppLoad {
  import opened Graph
  import opened Utils

  /** A tab as the browser reports it. `favIconUrl` may be missing or empty. */
  datatype OpenTab = OpenTab(id: Id, title: string, url: string, favIconUrl: Option<string>)

  /** A link as it is stored: endpoint ids, and a type that may be missing. */
  datatype SavedLink = SavedLink(source: Id, target: Id, kind: Option<LinkKind>, labelText: Option<string>)

  /** The favicon service used when the browser gives none. */
  function DefaultFavicon(domain: string): string {
    "https://www.google.com/s2/favicons?domain=" + domain + "&sz=64"
  }

  /** `tab.favIconUrl || default`: an empty icon URL counts as none. */
  function Favicon(t: OpenTab, domain: string): string {
    if t.favIconUrl.Some? && t.favIconUrl.value != "" then t.favIconUrl.value else DefaultFavicon(domain)
  }

  /** The record made for an open tab that was not saved: no pin, no
      thumbnail, accessed `now`, its domain taken from its URL. The position
      the simulation assigns later is left at the origin. */
  function NewTab(t: OpenTab, domainOf: string -> string, now: int): (r: Tab)
    ensures r.id == t.id && r.title == t.title && r.url == t.url && r.domain == domainOf(t.url)
    ensures r.thumbnail.None? && r.lastAccessed == now && r.pos.fx.None? && r.pos.fy.None?
    ensures t.favIconUrl.Some? && t.favIconUrl.value != "" ==> r.favicon == t.favIconUrl.value
    ensures t.favIconUrl.None? || t.favIconUrl.value == "" ==> r.favicon == DefaultFavicon(r.domain)
  {
    var d := domainOf(t.url);
    Tab(t.id, t.title, t.url, d, Favicon(t, d), None, now, Pos(None, None, 0.0, 0.0))
  }

  function NewTabs(open: seq<OpenTab>, domainOf: string -> string, now: int): (r: seq<Tab>)
    ensures |r| == |open|
    ensures forall i :: 0 <= i < |open| ==> r[i] == NewTab(open[i], domainOf, now)
  {
    seq(|open|, i requires 0 <= i < |open| => NewTab(open[i], domainOf, now))
  }

  function OpenIds(open: seq<OpenTab>): (r: set<Id>)
    ensures forall x :: x in r <==> exists t :: t in open && t.id == x
  {
    set t | t in open :: t.id
  }

  /** `fetchedTabs.find(ft => ft.id === id)`. */
  function FindOpen(open: seq<OpenTab>, id: Id): (r: Option<OpenTab>)
    ensures r.Some? ==> r.value in open && r.value.id == id
    ensures r.None? <==> id !in OpenIds(open)
    decreases |open|
  {
    if open == [] then None
    else if open[0].id == id then Some(open[0])
    else FindOpen(open[1..], id)
  }

  /** A saved tab takes the URL of the open tab with its id. */
  function Refresh(st: Tab, open: seq<OpenTab>): (r: Tab)
    ensures r == st.(url := r.url)
    ensures st.id in OpenIds(open) ==> exists live :: live in open && live.id == st.id && r.url == live.url
    ensures st.id !in OpenIds(open) ==> r == st
  {
    match FindOpen(open, st.id)
    case Some(live) => st.(url := live.url)
    case None => st
  }

  /** `syncedTabs.map(...)`: every kept tab with its URL refreshed. */
  function Synced(kept: seq<Tab>, open: seq<OpenTab>): (r: seq<Tab>)
    ensures |r| == |kept|
    ensures forall i :: 0 <= i < |kept| ==> r[i] == Refresh(kept[i], open)
  {
    seq(|kept|, i requires 0 <= i < |kept| => Refresh(kept[i], open))
  }

  /** The saved tabs that are still open, in saved order. */
  function StillOpen(saved: seq<Tab>, open: seq<OpenTab>): (r: seq<Tab>)
    ensures forall t :: t in r <==> t in saved && t.id in OpenIds(open)
  {
    var ids := OpenIds(open);
    Filter(saved, (t: Tab) => t.id in ids)
  }

  /** The open tabs whose id is not among `kept`, in browser order. */
  function NotKept(open: seq<OpenTab>, kept: seq<Tab>): (r: seq<OpenTab>)
    ensures forall t :: t in r <==> t in open && t.id !in TabIds(kept)
  {
    var ids := TabIds(kept);
    Filter(open, (t: OpenTab) => t.id !in ids)
  }

  /** The tab list after loading. Without saved tabs it is the open tabs,
      made into records. With saved tabs it is the saved tabs still open,
      URL refreshed, followed by the open tabs not among them. */
  function Reconcile(open: seq<OpenTab>, saved: Option<seq<Tab>>, domainOf: string -> string, now: int): (r: seq<Tab>)
    ensures TabIds(r) == OpenIds(open)
    ensures saved.None? ==> |r| == |open|
  {
    match saved
    case None =>
      NewTabsIds(open, domainOf, now);
      NewTabs(open, domainOf, now)
    case Some(s) =>
      var kept := StillOpen(s, open);
      var added := NotKept(open, kept);
      KeptAndAddedIds(open, kept, added, domainOf, now);
      Synced(kept, open) + NewTabs(added, domainOf, now)
  }

  lemma TabIdsAppend(a: seq<Tab>, b: seq<Tab>)
    ensures TabIds(a + b) == TabIds(a) + TabIds(b)
  {
    forall x | x in TabIds(a + b) ensures x in TabIds(a) + TabIds(b) {
      var t :| t in a + b && t.id == x;
    }
  }

  lemma NewTabsIds(open: seq<OpenTab>, domainOf: string -> string, now: int)
    ensures TabIds(NewTabs(open, domainOf, now)) == OpenIds(open)
  {
    var r := NewTabs(open, domainOf, now);
    forall x | x in OpenIds(open) ensures x in TabIds(r) {
      var t :| t in open && t.id == x;
      var i :| 0 <= i < |open| && open[i] == t;
      assert r[i] in r;
    }
    forall x | x in TabIds(r) ensures x in OpenIds(open) {
      var t :| t in r && t.id == x;
      var i :| 0 <= i < |r| && r[i] == t;
      assert open[i] in open;
    }
  }

  lemma SyncedIds(kept: seq<Tab>, open: seq<OpenTab>)
    ensures TabIds(Synced(kept, open)) == TabIds(kept)
  {
    var r := Synced(kept, open);
    forall x | x in TabIds(kept) ensures x in TabIds(r) {
      var t :| t in kept && t.id == x;
      var i :| 0 <= i < |kept| && kept[i] == t;
      assert r[i] in r;
    }
    forall x | x in TabIds(r) ensures x in TabIds(kept) {
      var t :| t in r && t.id == x;
      var i :| 0 <= i < |r| && r[i] == t;
      assert kept[i] in kept;
    }
  }

  /** The kept saved tabs and the records for the other open tabs together
      carry exactly the open ids. */
  lemma KeptAndAddedIds(open: seq<OpenTab>, kept: seq<Tab>, added: seq<OpenTab>, domainOf: string -> string, now: int)
    requires TabIds(kept) <= OpenIds(open) && added == NotKept(open, kept)
    ensures TabIds(Synced(kept, open) + NewTabs(added, domainOf, now)) == OpenIds(open)
  {
    TabIdsAppend(Synced(kept, open), NewTabs(added, domainOf, now));
    SyncedIds(kept, open);
    NewTabsIds(added, domainOf, now);
    forall x | x in OpenIds(open) && x !in TabIds(kept) ensures x in OpenIds(added) {
      var t :| t in open && t.id == x;
      assert t in added;
    }
  }

  /** With saved tabs, the list starts with the saved tabs still open, in
      saved order with refreshed URLs, and goes on with records for the open
      tabs that were not saved, in browser order; none of those was saved. */
  lemma ReconcileOrder(open: seq<OpenTab>, saved: seq<Tab>, domainOf: string -> string, now: int)
    ensures var r := Reconcile(open, Some(saved), domainOf, now);
      var kept := StillOpen(saved, open);
      && |r| == |kept| + |NotKept(open, kept)|
      && (forall i :: 0 <= i < |kept| ==>
            FindOpen(open, kept[i].id).Some? && r[i] == kept[i].(url := FindOpen(open, kept[i].id).value.url))
      && r[|kept|..] == NewTabs(NotKept(open, kept), domainOf, now)
      && (forall t :: t in r[|kept|..] ==> t.id !in TabIds(saved))
  {
    var kept := StillOpen(saved, open);
    var added := NotKept(open, kept);
    var r := Reconcile(open, Some(saved), domainOf, now);
    assert r == Synced(kept, open) + NewTabs(added, domainOf, now);
    assert r[|kept|..] == NewTabs(added, domainOf, now);
    forall i | 0 <= i < |kept|
      ensures FindOpen(open, kept[i].id).Some? && r[i] == kept[i].(url := FindOpen(open, kept[i].id).value.url)
    {
      assert kept[i] in kept;
    }
    NewTabsIds(added, domainOf, now);
    forall t | t in r[|kept|..] ensures t.id !in TabIds(saved) {
      assert t.id in OpenIds(added);
      var o :| o in added && o.id == t.id;
    }
  }

  /** Without saved tabs every open tab becomes a record, in browser order. */
  lemma ReconcileFirstRun(open: seq<OpenTab>, domainOf: string -> string, now: int)
    ensures var r := Reconcile(open, None, domainOf, now);
      && |r| == |open|
      && forall i :: 0 <= i < |open| ==>
           r[i].id == open[i].id && r[i].url == open[i].url && r[i].domain == domainOf(open[i].url)
           && r[i].thumbnail.None? && r[i].pos.fx.None? && r[i].pos.fy.None? && r[i].lastAccessed == now
  {
  }

  // ---------------------------------------------------------------------
  // Links
  // ---------------------------------------------------------------------

  /** A stored link made live: a missing type reads as 'domain'. */
  function ToLink(sl: SavedLink): Link {
    Link(sl.source, sl.target, sl.kind.GetOr(Domain), sl.labelText)
  }

  function ToLinks(saved: seq<SavedLink>): (r: seq<Link>)
    ensures |r| == |saved|
    ensures forall i :: 0 <= i < |saved| ==> r[i] == ToLink(saved[i])
  {
    seq(|saved|, i requires 0 <= i < |saved| => ToLink(saved[i]))
  }

  /** The `filter` step of the load: the stored links whose two endpoints
      are both among `ids`, in stored order. */
  function Joining(saved: seq<SavedLink>, ids: set<Id>): (r: seq<SavedLink>)
    ensures forall sl :: sl in r <==> sl in saved && sl.source in ids && sl.target in ids
    ensures |r| <= |saved|
    decreases |saved|
  {
    if saved == [] then []
    else
      assert saved == Init(saved) + [Last(saved)];
      Joining(Init(saved), ids)
        + if Last(saved).source in ids && Last(saved).target in ids then [Last(saved)] else []
  }

  /** The links rebuilt as the load writes it: each endpoint is looked up
      among the loaded tabs only. */
  function RehydrateAsWritten(tabs: seq<Tab>, saved: seq<SavedLink>): seq<Link> {
    ToLinks(Joining(saved, TabIds(tabs)))
  }

  /** The links rebuilt with every loaded node as a possible endpoint. */
  function Rehydrate(tabs: seq<Tab>, notes: seq<Note>, saved: seq<SavedLink>): seq<Link> {
    ToLinks(Joining(saved, TabIds(tabs) + NoteIds(notes)))
  }

  lemma ToLinksMembers(saved: seq<SavedLink>, l: Link)
    ensures l in ToLinks(saved) <==> exists sl :: sl in saved && l == ToLink(sl)
  {
    if sl :| sl in saved && l == ToLink(sl) {
      var i :| 0 <= i < |saved| && saved[i] == sl;
      assert ToLinks(saved)[i] == l;
    }
  }

  /** As written, a link survives the load iff it was stored and both of its
      endpoints are loaded tabs. */
  lemma RehydrateAsWrittenMembers(tabs: seq<Tab>, saved: seq<SavedLink>, l: Link)
    ensures l in RehydrateAsWritten(tabs, saved) <==>
      exists sl :: sl in saved && l == ToLink(sl) && sl.source in TabIds(tabs) && sl.target in TabIds(tabs)
  {
    ToLinksMembers(Joining(saved, TabIds(tabs)), l);
  }

  /** A link survives the load iff it was stored and both of its endpoints
      are loaded tabs or workspace notes. */
  lemma RehydrateMembers(tabs: seq<Tab>, notes: seq<Note>, saved: seq<SavedLink>, l: Link)
    ensures l in Rehydrate(tabs, notes, saved) <==>
      exists sl :: sl in saved && l == ToLink(sl)
        && sl.source in TabIds(tabs) + NoteIds(notes) && sl.target in TabIds(tabs) + NoteIds(notes)
  {
    ToLinksMembers(Joining(saved, TabIds(tabs) + NoteIds(notes)), l);
  }

  /** A saved workspace link survives a reload when its workspace and its
      tab are still there; the load as written drops it. */
  lemma WorkspaceLinkLostOnLoad()
    ensures var tabs := [Tab(1, "t", "https://a.example/", "a.example", "", None, 0, Pos(None, None, 0.0, 0.0))];
      var notes := [Note(7, "w", None, "#8a42c1", false, Pos(None, None, 0.0, 0.0))];
      var saved := [SavedLink(7, 1, Some(Cluster), None)];
      && RehydrateAsWritten(tabs, saved) == []
      && Rehydrate(tabs, notes, saved) == [Link(7, 1, Cluster, None)]
  {
    var tabs := [Tab(1, "t", "https://a.example/", "a.example", "", None, 0, Pos(None, None, 0.0, 0.0))];
    var notes := [Note(7, "w", None, "#8a42c1", false, Pos(None, None, 0.0, 0.0))];
    var saved := [SavedLink(7, 1, Some(Cluster), None)];
    assert TabIds(tabs) == {1};
    assert NoteIds(notes) == {7};
    assert Joining(saved, {1}) == [];
    assert Joining(saved, {1, 7}) == saved;
  }

  /** The links after loading: the saved links rebuilt over the loaded tabs
      and notes, or the domain links of the loaded tabs when none were saved.
      Either way every link joins two loaded nodes; generated links are
      'domain' links between two tabs. */
  function LoadLinks(tabs: seq<Tab>, notes: seq<Note>, saved: Option<seq<SavedLink>>): (r: seq<Link>)
    ensures forall l :: l in r ==> l.source in TabIds(tabs) + NoteIds(notes) && l.target in TabIds(tabs) + NoteIds(notes)
    ensures saved.None? ==> forall l :: l in r ==> l.kind == Domain && l.source in TabIds(tabs) && l.target in TabIds(tabs)
    ensures saved.Some? ==> |r| <= |saved.value|
    ensures saved.Some? ==> forall l :: l in r <==>
      exists sl :: sl in saved.value && l == ToLink(sl)
        && sl.source in TabIds(tabs) + NoteIds(notes) && sl.target in TabIds(tabs) + NoteIds(notes)
    ensures saved.None? ==> r == DomainLinks(tabs)
  {
    match saved
    case Some(s) =>
      var r := Rehydrate(tabs, notes, s);
      forall l
        ensures l in r <==>
          exists sl :: sl in s && l == ToLink(sl)
            && sl.source in TabIds(tabs) + NoteIds(notes) && sl.target in TabIds(tabs) + NoteIds(notes)
      {
        RehydrateMembers(tabs, notes, s, l);
      }
      r
    case None =>
      var r := DomainLinks(tabs);
      assert forall l :: l in r ==> l.kind == Domain && l.source in TabIds(tabs) && l.target in TabIds(tabs) by {
        forall l | l in r ensures l.kind == Domain && l.source in TabIds(tabs) && l.target in TabIds(tabs) {
          DomainLinksMembers(tabs, l);
          DomainLinksEndpoints(tabs, l);
          var i, j :| JoinsSameDomain(tabs, l, i, j);
          assert tabs[i] in tabs && tabs[j] in tabs;
        }
      }
      r
  }
}
