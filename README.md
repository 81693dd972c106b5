# Spatial Tab Manager — graph-editing core in Dafny

Spatial Tab Manager is a browser extension that draws the open tabs as nodes
on a canvas. Tabs can be linked to each other and grouped under workspace
notes. This project models the part of it that edits that graph, with every
link reduced to `(source id, target id, type, label)`:

- `generateLinks` groups tabs by domain and links each later tab of a domain
  to the first one (`utils.dfy`).
- The editor state, its thumbnail-free snapshots, and the undo/redo stacks
  (`app_state.dfy`).
- The edits of the App component (`app_editing.dfy`):
  - delete the selection;
  - drop a closed tab;
  - close a workspace with its tabs;
  - auto-group the ungrouped tabs by domain;
  - build a workspace from a search.
- Tidy, which lays the tabs of a workspace out as a list or a grid
  (`app_tidy.dfy`).
- Load reconciliation: the saved tabs against the open ones, and the saved
  links against the loaded nodes (`app_load.dfy`).
- The canvas (`canvas_graph.dfy`, `canvas_view.dfy`, `canvas_edit.dfy`):
  - the adjacency map and the work-list closures for cluster hulls, cluster
    search, focus and workspace-from-search;
  - what is hidden under a collapsed workspace;
  - link hydration and lasso selection;
  - link creation and delete mode.
- The command palette: the filtered item list and the selected-index state
  machine (`palette.dfy`).

Shared records (tabs, notes, nodes, links) are in `graph.dfy`. The ASCII
string helpers (`toLowerCase`, `trim`, `includes`) are in `text.dfy`.

Workspace notes made by the editor itself have no `text` field. A note with
an empty title and no text therefore has no name (`title || text` is
`undefined`), and the code that lower-cases that name throws a `TypeError`:
the palette's list and the note test of a workspace-from-search. This
happens, for instance, after auto-grouping tabs whose URL has no host name.
The model carries this as explicit failure outcomes.

The code follows the source's own shape:
- pure `filter`/`map` code is a function;
- loops that fill dictionaries, sets and queues (`generateLinks`, the
  closures, auto-group, tidy) are methods with loop invariants, each proved
  equal to a specification function;
- the palette's selected index is a class whose methods update it.

## Model

| member | source | states |
|---|---|---|
| Graph.AllNodes | src/App.jsx:660 | `[...tabs, ...notes]`: every tab as a node, then every note as a workspace node, in order |
| Graph.NoteName | src/components/CommandPalette.jsx:19 | `title \|\| text`: the title when it is not empty; no name at all (`undefined`) exactly when the title is empty and the note has no text |
| Utils.GroupByDomain | src/utils.js:72-77 | the `domains` dictionary has exactly the input's domains as keys, in first-appearance order, and maps each to its tab ids in input order |
| Utils.GenerateLinks | src/utils.js:68-93 | the links built by the nested loops equal the star links of every domain, domains taken in first-appearance order |
| Utils.DomainLinksMembers | src/utils.js:79-91 | a link is produced iff it joins the first tab of some domain to its k-th tab (k ≥ 1); every produced link has type 'domain' and no label |
| Utils.SingleTabDomainNoLinks | src/utils.js:79-89 | with unique ids, the only tab of a one-tab domain is neither the source nor the target of any produced link |
| Utils.DomainLinksEndpoints | src/utils.js:72-89 | both ends of every produced link are input tabs of the same domain |
| Utils.DomainLinksCount | src/utils.js:72-92 | the number of links is the number of tabs minus the number of distinct domains; no tabs, no links |
| Utils.DomainLinksTargets | src/utils.js:83-89 | the targets, as a multiset, are exactly the tabs that are not first of their domain |
| Utils.UniqueIdsTargets | src/utils.js:83-89 | with unique ids, every non-first tab is the target of exactly one link, a first tab of none, and no link is a self-link |
| Utils.DomainOrderFacts | src/utils.js:72-79 | the domain order lists every domain of the input exactly once |
| AppState.Sanitize | src/App.jsx:72-78 | same length and order; each tab equals the input tab with its thumbnail removed |
| AppState.SanitizeFacts | src/App.jsx:72-78 | every field but the thumbnail is kept, no thumbnail survives, and sanitizing twice equals sanitizing once |
| AppState.SaveHistory | src/App.jsx:80-93 | exactly one snapshot of the current state is appended to `past`; `future` becomes empty; nothing else changes |
| AppState.Undo | src/App.jsx:95-109 | a no-op on an empty `past`; otherwise the state becomes the last snapshot, `past` loses it, and the current snapshot goes to the front of `future` |
| AppState.Redo | src/App.jsx:111-125 | a no-op on an empty `future`; otherwise the state becomes the first future snapshot, `future` loses it, and the current snapshot is appended to `past` |
| AppState.UndoThenRedo | src/App.jsx:95-125 | redo after undo restores tabs (without thumbnails), notes, links, `past` and `future` |
| AppState.RedoThenUndo | src/App.jsx:95-125 | undo after redo restores the state, up to thumbnails |
| AppState.UndoRevertsEdit | src/App.jsx:80-109 | undoing any edit that began with `saveHistory` restores the state before the edit |
| AppState.HistoryStaysClean | src/App.jsx:80-125 | save, undo and redo keep every stored snapshot free of thumbnails |
| AppEditing.DeleteSelected | src/App.jsx:315-333 | history is saved. With a selection, the selected tabs and notes and every link touching them go, the survivors keep their order, and the selection empties. Without one, delete mode toggles and the focus clears |
| AppEditing.DeleteSelectedLeavesNoTrace | src/App.jsx:322-329 | no remaining tab, note or link endpoint is a selected id |
| AppEditing.RemoveTab | src/App.jsx:234-238 | the closed tab's id leaves tabs, notes and link endpoints; surviving tabs, notes and links keep their order; history is untouched |
| AppEditing.LinkedTabIds | src/App.jsx:482-485 | an id is listed iff a cluster link joins it to the workspace |
| AppEditing.CloseWorkspaceTabs | src/App.jsx:479-496 | history is saved; the workspace note goes; outside the extension its linked tabs go; every link touching the workspace or a linked tab goes; tabs, notes and links that stay keep their order |
| AppEditing.CloseWorkspaceTabsLeavesNoTrace | src/App.jsx:482-494 | the workspace's cluster links and every link of a linked tab are gone |
| AppEditing.Ungrouped | src/App.jsx:348 | the tabs no cluster link ends at, in order |
| AppEditing.AutoGroup | src/App.jsx:346-371 | history is saved, tabs are unchanged, and the new notes and links are those of the grouped domains, appended after the existing ones |
| AppEditing.GroupAll | src/App.jsx:350-365 | the loop over the domain dictionary builds exactly the specified notes and links, and no links without notes |
| AppEditing.AppendClusterLinks | src/App.jsx:362 | one cluster link per tab of the group, in group order |
| AppEditing.AutoGroupWorkspaces | src/App.jsx:355-361 | one workspace per domain with more than one ungrouped tab, each once; the k-th workspace is titled with its domain, has id `now + k` and is expanded |
| AppEditing.GroupNotes | src/App.jsx:355-361 | exactly one new workspace per grouped domain |
| AppEditing.GroupNotesAt | src/App.jsx:355-361 | the k-th new workspace is the note made for the k-th grouped domain: id `now + k`, titled with the domain and without a text, colour `noteCount + k` round the palette, pinned k·60 from the viewport centre |
| AppEditing.GroupLinks | src/App.jsx:355-362 | every link built is an unlabelled cluster link from one of the new workspaces, whose ids run from `now` |
| AppEditing.AutoGroupLinks | src/App.jsx:355-364 | a new link exists iff it is a cluster link from the k-th new workspace to an ungrouped tab of the k-th domain |
| AppEditing.AutoGroupLinkTargets | src/App.jsx:348-362 | the target of each new link is an ungrouped tab whose domain is the workspace's |
| AppEditing.MatchedIds | src/App.jsx:401-403 | an id is matched iff a tab whose title or domain contains the query, or a note that has a name containing it, has that id |
| AppEditing.AllNodeIdsMembers | src/App.jsx:400-403 | an id of `[...tabs, ...notes]` is the id of one of the tabs or of one of the notes, and every such id is listed |
| AppEditing.SearchNote | src/App.jsx:425-427 | the new workspace has id `now`, is titled "Workspace: " with the raw query, takes a colour of the palette, starts expanded and is pinned at the viewport centre |
| AppEditing.CreateWorkspaceFromSearch | src/App.jsx:396-433 | history is saved. The member list is exactly the matched ids, tabs first, in keyword mode; in cluster mode it is the id of every node, in node order and with repeats, whose id is connected to a match. A non-empty member list gets a new workspace, one cluster link per member in list order, a cleared search and the focus. With a non-empty query, a note with an empty title and no text makes the note test throw: history is saved and nothing else changes |
| AppEditing.ClusterMembersWidenMatches | src/App.jsx:404-423 | cluster mode keeps every match and is closed under the hydrated links |
| AppTidy.CeilSqrt | src/App.jsx:551 | the smallest c with c·c ≥ count |
| AppTidy.CeilSqrtIsLeast | src/App.jsx:551 | every smaller number squared falls short of the count |
| AppTidy.Slot | src/App.jsx:550-567 | every slot is pinned; a list slot keeps the anchor's x and lies at or below it; a grid slot of one of the `count` tabs lies inside the square of `cols` columns centred on the anchor's x and starting at its y |
| AppTidy.SlotsDistinct | src/App.jsx:550-568 | two different indices get different slots, in both the list and the grid layout |
| AppTidy.FindIndex | src/App.jsx:558 | the first index holding the id, or -1 when none does |
| AppTidy.PlaceTabs | src/App.jsx:549-569 | only positions change. A tab that no tidied tab resolves to keeps its position. With distinct ids, the i-th tidied tab lands on slot i |
| AppTidy.TabsToTidy | src/App.jsx:539-544 | the tabs a cluster link joins to the workspace, in tab order |
| AppTidy.Anchor | src/App.jsx:547-548 | the workspace's pinned x if it has one, otherwise its x; likewise y, then 60 further down |
| AppTidy.Tidy | src/App.jsx:534-572 | a menu on a tab, or no menu, changes nothing. A menu on a workspace tidies that workspace, with every outcome that AppTidy.TidyWorkspace states |
| AppTidy.TidyWorkspace | src/App.jsx:536-572 | history is saved. Nothing to tidy leaves the tabs alone. A missing workspace note is a failure. Otherwise only positions change, and with distinct ids the i-th tab sits at slot i from the anchor below the workspace |
| AppTidy.TidiedIdsDistinct | src/App.jsx:544 | distinct tab ids stay distinct among the tidied tabs |
| AppLoad.StillOpen | src/App.jsx:155-156 | the saved tabs whose id is open |
| AppLoad.NotKept | src/App.jsx:157-158 | the open tabs not among the kept saved tabs |
| AppLoad.NewTab | src/App.jsx:158-170 | a fresh record keeps the open tab's id, title and URL, takes its domain from the URL, has no pin and no thumbnail, is accessed now, and uses the browser's icon unless it is missing or empty |
| AppLoad.Refresh | src/App.jsx:162-165 | only the URL may change; a tab that is open takes the URL of an open tab with its id; any other tab is unchanged |
| AppLoad.Reconcile | src/App.jsx:154-172 | the loaded tab ids are exactly the open tab ids, with or without saved tabs; without saved tabs there is one record per open tab |
| AppLoad.ReconcileOrder | src/App.jsx:156-166 | the kept saved tabs come first, in saved order, each with its live url; then the open tabs not saved before, as fresh tabs |
| AppLoad.ReconcileFirstRun | src/App.jsx:167-171 | without saved tabs every open tab is loaded in order: unpinned, no thumbnail, accessed now, domain from its url |
| AppLoad.Joining | src/App.jsx:175-181 | the stored links with both endpoints among the given ids |
| AppLoad.RehydrateAsWrittenMembers | src/App.jsx:173-182 | as written, a stored link survives iff both ends are loaded tabs |
| AppLoad.RehydrateMembers | src/App.jsx:173-182 | corrected, a stored link survives iff both ends are loaded tabs or workspace notes |
| AppLoad.WorkspaceLinkLostOnLoad | src/App.jsx:176-180 | a cluster link from a workspace note to an open tab is dropped as written and kept when corrected |
| AppLoad.LoadLinks | src/App.jsx:173-183 | with stored links, a link is loaded iff it is a stored link whose two ends are loaded tabs or notes (corrected lookup, see Findings); without them, the links are exactly `generateLinks` of the loaded tabs, domain links between two tabs. Every loaded link joins two loaded nodes |
| CanvasGraph.BuildAdjacency | src/components/SpatialCanvas.jsx:115-123 | the map built by the loop equals the adjacency of the links |
| CanvasGraph.AdjacencyIsJoined | src/components/SpatialCanvas.jsx:116-123 | y is listed under x iff a link joins x and y, in either direction |
| CanvasGraph.AdjacencySymmetric | src/components/SpatialCanvas.jsx:121-122 | y is listed under x iff x is listed under y |
| CanvasGraph.ClusterOf | src/components/SpatialCanvas.jsx:126-138 | the result holds the start, is closed under adjacency, holds only ids with a walk from the start, and enqueues every id exactly once |
| CanvasGraph.ClusterOfLinks | src/components/SpatialCanvas.jsx:112-138 | the cluster of a workspace is its connected component |
| CanvasGraph.ClusterHulls | src/components/SpatialCanvas.jsx:124-138 | one cluster per expanded workspace, in node order, each its component |
| CanvasGraph.ComponentIsClosed | src/components/SpatialCanvas.jsx:126-138 | the component holds its seeds and no link leads out of it |
| CanvasGraph.NeighborViaAsWritten | src/components/SpatialCanvas.jsx:531-534 | the corrected step, except that a neighbour with id 0 becomes no neighbour; so the neighbour taken is never 0 |
| CanvasGraph.ZeroNeighborIsSkipped | src/components/SpatialCanvas.jsx:531-534 | a neighbour with id 0 is unmatched and joined, yet skipped as written |
| CanvasGraph.NeighborVia | src/components/SpatialCanvas.jsx:531-533 | the neighbour, if any, is joined by the link and not yet matched; none means every end of the link is matched |
| CanvasGraph.Spread | src/components/SpatialCanvas.jsx:526-537 | the work-list result is exactly the connected component of the seeds |
| CanvasView.CollapsedWorkspaceIds | src/components/SpatialCanvas.jsx:301 | the ids of the collapsed workspaces |
| CanvasView.HiddenSet | src/components/SpatialCanvas.jsx:302-310 | an id is hidden iff a cluster link joins it to a collapsed workspace |
| CanvasView.HiddenIds | src/components/SpatialCanvas.jsx:302-310 | the set filled by the loop is the hidden set |
| CanvasView.VisibleNodes | src/components/SpatialCanvas.jsx:311 | the nodes not hidden, as a subsequence of all nodes |
| CanvasView.VisibleLinks | src/components/SpatialCanvas.jsx:312-316 | the links touching no hidden id, as a subsequence |
| CanvasView.CollapseHidesCluster | src/components/SpatialCanvas.jsx:301-316 | a cluster link from a collapsed workspace hides its other end, and the link is not drawn |
| CanvasView.NothingCollapsedShowsAll | src/components/SpatialCanvas.jsx:301-316 | with nothing collapsed, every node and link is visible |
| CanvasView.Hydrate | src/components/SpatialCanvas.jsx:448-449 | the links whose two ends are among the nodes, in order |
| CanvasView.DrawnLinksJoinVisibleNodes | src/components/SpatialCanvas.jsx:301-316 | a drawn link is a stored link whose two ends are existing nodes that are not hidden |
| CanvasView.LassoSelect | src/components/SpatialCanvas.jsx:82-91 | an id is selected iff some node with that id lies between the corners on both axes |
| CanvasView.LassoDirectionFree | src/components/SpatialCanvas.jsx:82-85 | swapping the corners on either axis selects the same ids |
| CanvasView.KeywordIds | src/components/SpatialCanvas.jsx:521-522 | an id matches iff the lower-cased title or non-empty domain of its node contains the query |
| CanvasView.NormalizeQuery | src/components/SpatialCanvas.jsx:516 | the lower-cased query with only white space cut from its two ends; no capital letter and no white space at either end remains |
| CanvasView.SearchHighlight | src/components/SpatialCanvas.jsx:516-563 | keyword mode highlights the matches; cluster mode highlights their component; with no query a focus fades everything outside its component; with no query and no focus no node, link or hull is faded or highlighted |
| CanvasEdit.FindNode | src/components/SpatialCanvas.jsx:404 | the first node with the id, or none when no node has it |
| CanvasEdit.IsWorkspaceId | src/components/SpatialCanvas.jsx:404 | true iff the first node with the id is a workspace; a missing node is not one |
| CanvasEdit.DropIncident | src/components/SpatialCanvas.jsx:397 | the links not touching the id, as a subsequence |
| CanvasEdit.DeleteClickedNode | src/components/SpatialCanvas.jsx:390-398 | history is saved. Every link touching the node goes. A workspace leaves the notes; a tab leaves the tabs outside the extension. The remaining tabs and notes keep their order. Delete mode ends |
| CanvasEdit.DeleteKeepsOtherLinks | src/components/SpatialCanvas.jsx:397 | every link not touching the node is kept, in order |
| CanvasEdit.NewLinkKind | src/components/SpatialCanvas.jsx:404-405 | 'cluster' iff the source is a workspace, never 'domain' |
| CanvasEdit.LinkClick | src/components/SpatialCanvas.jsx:399-411 | the first click picks the source. Later clicks add one link unless it is a self-link or the pair is already joined either way. A workspace source stays armed |
| CanvasEdit.LinkClickJoins | src/components/SpatialCanvas.jsx:403-407 | afterwards the pair is joined; when it was not before, exactly one link is appended |
| CanvasEdit.LinkClickDeduplicates | src/components/SpatialCanvas.jsx:406-407 | clicking the same pair again, in either direction, changes nothing |
| CommandPalette.MatchedActions | src/components/CommandPalette.jsx:17 | an action is kept iff its lower-cased label contains the lower-cased query |
| CommandPalette.MatchedWorkspaces | src/components/CommandPalette.jsx:19 | the filter fails (the TypeError) iff some workspace has an empty title and no text; otherwise a workspace is kept iff its lower-cased title, or text when the title is empty, contains the lower-cased query |
| CommandPalette.JumpItems | src/components/CommandPalette.jsx:19-24 | one 'jump' item per workspace, in order, with its id and the label "Jump to: " + name |
| CommandPalette.FilteredItems | src/components/CommandPalette.jsx:15-25 | the list cannot be built iff some workspace has no name; otherwise at most one item per action and per workspace |
| CommandPalette.EmptyDomainWorkspaceBreaksPalette | src/App.jsx:355-359 | a workspace that auto-grouping made for the empty domain has no title and no text, so the palette's list then fails for every query |
| CommandPalette.FilteredItemsMembers | src/components/CommandPalette.jsx:15-25 | an item is listed iff it is a matching action or the jump item of a matching workspace |
| CommandPalette.FilteredItemsLayout | src/components/CommandPalette.jsx:15-25 | the matching actions in their own order, then the matching workspaces' jump items in their own order |
| CommandPalette.ActionsComeFirst | src/components/CommandPalette.jsx:15-25 | no jump item precedes an action item |
| CommandPalette.EmptyQueryKeepsAll | src/components/CommandPalette.jsx:17-19 | when every workspace has a name, an empty query lists every action, then every workspace |
| CommandPalette.JsRem | src/components/CommandPalette.jsx:48-51 | JavaScript's `%`: the remainder of the dividend's magnitude, with the dividend's sign; so in [0, \|n\|) for a non-negative dividend and in (-\|n\|, 0] for a negative one |
| CommandPalette.StepDown | src/components/CommandPalette.jsx:48 | from any number on a non-empty list, the next item, wrapping from the last to the first; NaN on an empty list or from NaN |
| CommandPalette.StepUp | src/components/CommandPalette.jsx:51 | from any number on a non-empty list, the previous item, wrapping from the first to the last; NaN on an empty list or from NaN |
| CommandPalette.StepsInverse | src/components/CommandPalette.jsx:48-51 | Down then Up, and Up then Down, return to the index started from |
| CommandPalette.DownTimesWraps | src/components/CommandPalette.jsx:48 | pressing Down k times moves k places round the list |
| CommandPalette.DownCycle | src/components/CommandPalette.jsx:48 | pressing Down once per item returns to the start |
| CommandPalette.Palette.SetQuery | src/components/CommandPalette.jsx:28-30 | a changed query resets the index to 0; an unchanged one leaves it |
| CommandPalette.Palette.Open | src/components/CommandPalette.jsx:33-39 | opening clears the query and selects the first item |
| CommandPalette.Palette.KeyDown | src/components/CommandPalette.jsx:43-61 | keys are ignored while closed, and when the list cannot be built (no listener is installed). The arrows step the index. Enter fires the addressed item and closes iff the index addresses an item. Escape closes |

## Left out

- Rendering is not modelled: d3, the force simulation, hull geometry, zoom, fit, peek, WASD panning, magnet distance and minimap scales. They are floating-point layout tied to the DOM.
- Chrome APIs, localStorage, JSON, import/export and `alert`/`prompt` are host I/O. Whether the code runs inside the extension is a boolean parameter. `chrome.tabs.remove` is left out. Its effect reaches the model through `AppEditing.RemoveTab` once the browser reports the closed tab.
- `getDomain` relies on the `URL` constructor, so it is a function parameter. `Date.now()` and the viewport centre are number parameters. A load uses one `now` for every new tab.
- AppEditing.AutoGroup: one `now` stands for every `Date.now()` the grouping loop reads, so the k-th new workspace gets id `now + k`. The source reads the clock once per grouped domain, so its ids can grow faster than by one and may differ from the model's when the clock ticks during the loop.
- The load fallback outside the extension, with sample tabs and notes, is not modelled. It is sample data.
- `toLowerCase` and `trim` are modelled on ASCII letters and the usual white-space characters only. There is no Unicode case mapping.
- Object key order is modelled as insertion order. JavaScript lists integer-like keys first, so `generateLinks` and auto-group could order domains named like integers differently. Prototype keys such as `__proto__` are not modelled.
- Coordinates are reals, not doubles. The tidy grid's column count is the least c with c·c ≥ count, which is what `Math.ceil(Math.sqrt(count))` computes whenever the square root is exact enough.
- The positions the simulation gives new tabs and notes are not modelled. A new tab starts unpinned at the origin.
- `cmActionDelete` and `cmActionStash` are not modelled. They are not part of the graph-editing core. Closing the context menu after an action is not modelled either.
- AppState.Undo: states that `|past| + |future|` is unchanged, not that it "grows by one"; the source moves one snapshot from one stack to the other.
- AppTidy.TidyWorkspace: the `TypeError` thrown when the workspace note is missing is the `MissingWorkspace` outcome. History has already been saved at that point, as in the source.
- AppTidy.PlaceTabs: the slot property is stated for distinct tab ids. With duplicate ids, `findIndex` sends every duplicate to the first tab, and the last write wins.
- CanvasView.SearchHighlight: a focus id of 0 is no focus. This follows the truthiness test in the source.
- CommandPalette.Palette: the palette is a prop-driven component. Whether it is open is a parameter of `KeyDown`, and closing is returned as a flag for the caller. Items run an action named by the `Action` record; what the action does is not modelled.

## Findings

| source | as written | input that shows it | evidently intended | confidence | as-written member | corrected member |
|---|---|---|---|---|---|---|
| src/components/SpatialCanvas.jsx:531-534, 549-552 and src/App.jsx:416-419 | `if (neighborId)` treats the id 0 as "no neighbour", so a node with id 0 is never added to a cluster search, focus or workspace-from-search | a link from 5 to 0 with 5 matched: the loop leaves 0 out, although 0 is joined to a matched node | `neighborId !== null`, so the closure is the whole connected component | not executed | CanvasGraph.NeighborViaAsWritten, CanvasGraph.ZeroNeighborIsSkipped | CanvasGraph.NeighborVia, CanvasGraph.Spread |
| src/App.jsx:176-180 | saved links are rehydrated with `finalTabs.find`, which searches tabs only, so every saved link with a workspace note at an end is dropped on reload | tab 1 open, note 7 saved, saved link 7→1 of type 'cluster': the as-written load yields no link | look the endpoints up among the tabs and the notes, as the canvas does, so workspace links survive a reload | not executed | AppLoad.RehydrateAsWrittenMembers, AppLoad.WorkspaceLinkLostOnLoad | AppLoad.RehydrateMembers, AppLoad.LoadLinks |
