/** `handleTidy` in src/App.jsx: lay the tabs of a workspace out in a list or
    a square grid below the workspace, pinning each one where it lands. */
module AppTidy {
  import opened Graph
  import opened AppState
  import opened AppEditing

  /** The two layouts of the context menu. */
  datatype Layout = Grid | List

  /** `Math.ceil(Math.sqrt(n))`: the smallest c with c * c >= n. */
  function CeilSqrt(n: nat): (c: nat)
    ensures c * c >= n
    ensures c == 0 || (c - 1) * (c - 1) < n
  {
    SqrtFrom(n, 0)
  }

  /** The search behind `CeilSqrt`, counting up from a `c` still too small. */
  function SqrtFrom(n: nat, c: nat): (r: nat)
    requires c == 0 || (c - 1) * (c - 1) < n
    ensures r * r >= n
    ensures r == 0 || (r - 1) * (r - 1) < n
    decreases n - c
  {
    if c * c >= n then c
    else
      MulMono(c, 1, c);
      SqrtFrom(n, c + 1)
  }

  /** The number of columns is the least one that fits: any narrower square
      holds fewer than `n` tabs. */
  lemma {:induction false} CeilSqrtIsLeast(n: nat, k: nat)
    requires k < CeilSqrt(n)
    ensures k * k < n
  {
    var c := CeilSqrt(n);
    MulMono(c - 1, k, k);
    MulMono(c - 1, k, c - 1);
  }

  /** A pinned position: `fx`, `fy`, `x` and `y` all set to the same point. */
  function Pin(x: real, y: real): Pos {
    Pos(Some(x), Some(y), x, y)
  }

  /** Where the `index`-th of `count` tabs goes. A list steps 50 down from
      the anchor. A grid has `CeilSqrt(count)` columns 80 apart, centred on
      the anchor's x, and rows 80 apart from the anchor's y. */
  function Slot(layout: Layout, count: nat, index: nat, startX: real, startY: real): (r: Pos)
    ensures r == Pin(r.x, r.y)
    ensures layout == List ==> r.x == startX && r.y >= startY
    ensures layout == Grid && index < count ==>
      var half := ((CeilSqrt(count) - 1) as real) * 40.0;
      && startY <= r.y <= startY + 2.0 * half
      && startX - half <= r.x <= startX + half
  {
    match layout
    case List => Pin(startX, startY + (index as real) * 50.0)
    case Grid =>
      var cols := CeilSqrt(count);
      if cols == 0 then Pin(startX, startY)
      else
        var row := index / cols;
        var col := index % cols;
        GridOffsets(index, count, cols);
        Pin(startX + ((col as real) - ((cols - 1) as real) / 2.0) * 80.0, startY + (row as real) * 80.0)
  }

  /** The offsets of a grid slot from the anchor: its column lies within
      half the grid's width either side, and its row within the grid's
      height below. */
  lemma GridOffsets(index: nat, count: nat, cols: nat)
    requires cols == CeilSqrt(count) && cols > 0
    ensures var half := ((cols - 1) as real) * 40.0;
      var dx := (((index % cols) as real) - ((cols - 1) as real) / 2.0) * 80.0;
      var dy := ((index / cols) as real) * 80.0;
      && -half <= dx <= half
      && (index < count ==> 0.0 <= dy <= 2.0 * half)
  {
    var col := index % cols;
    assert 0 <= col <= cols - 1;
    assert (col as real) <= ((cols - 1) as real);
    if index < count {
      DivBelow(index, cols);
      assert (index / cols) as real <= ((cols - 1) as real);
    }
  }

  /** In a grid every tab of the workspace lands in a distinct cell of the
      `cols` by `cols` square. */
  lemma GridCells(count: nat, i: nat, k: nat)
    requires i < count && k < count && i != k
    ensures var cols := CeilSqrt(count);
      && i / cols < cols && k / cols < cols
      && (i / cols != k / cols || i % cols != k % cols)
  {
    var cols := CeilSqrt(count);
    assert cols > 0;
    DivBelow(i, cols);
    DivBelow(k, cols);
    assert i == (i / cols) * cols + i % cols;
    assert k == (k / cols) * cols + k % cols;
  }

  /** `i / c < c` when `i < c * c`. */
  lemma DivBelow(i: nat, c: nat)
    requires 0 < c && i < c * c
    ensures i / c < c
  {
    assert i == (i / c) * c + i % c;
    MulMono(i / c, c, c);
  }

  /** No two tabs of one tidy share a slot, in either layout. */
  lemma SlotsDistinct(layout: Layout, count: nat, i: nat, k: nat, startX: real, startY: real)
    requires i < count && k < count && i != k
    ensures Slot(layout, count, i, startX, startY) != Slot(layout, count, k, startX, startY)
  {
    if layout == Grid {
      GridCells(count, i, k);
      var cols := CeilSqrt(count);
      if i / cols == k / cols {
        assert ((i % cols) as real) != ((k % cols) as real);
      } else {
        assert ((i / cols) as real) != ((k / cols) as real);
      }
    }
  }

  /** `findIndex`: the first position holding a tab with that id, or -1. */
  function FindIndex(tabs: seq<Tab>, id: Id): (r: int)
    ensures r == -1 <==> forall t :: t in tabs ==> t.id != id
    ensures r != -1 ==> 0 <= r < |tabs| && tabs[r].id == id && forall j :: 0 <= j < r ==> tabs[j].id != id
    decreases |tabs|
  {
    if tabs == [] then -1
    else if tabs[0].id == id then 0
    else
      var k := FindIndex(tabs[1..], id);
      if k == -1 then -1 else k + 1
  }

  /** Two tab lists with the same ids position by position. */
  predicate SameIds(a: seq<Tab>, b: seq<Tab>) {
    |a| == |b| && forall j :: 0 <= j < |a| ==> a[j].id == b[j].id
  }

  lemma {:induction false} FindIndexSameIds(a: seq<Tab>, b: seq<Tab>, id: Id)
    requires SameIds(a, b)
    ensures FindIndex(a, id) == FindIndex(b, id)
    decreases |a|
  {
    if a != [] && a[0].id != id {
      assert SameIds(a[1..], b[1..]);
      FindIndexSameIds(a[1..], b[1..], id);
    }
  }

  /** No two tabs share an id. */
  predicate DistinctIds(tabs: seq<Tab>) {
    forall i, j :: 0 <= i < j < |tabs| ==> tabs[i].id != tabs[j].id
  }

  /** Position `j` is not where any tab of `toTidy` is found. */
  predicate Untouched(tabs: seq<Tab>, toTidy: seq<Tab>, j: int) {
    forall i :: 0 <= i < |toTidy| ==> FindIndex(tabs, toTidy[i].id) != j
  }

  /** `placed` is `tabs` with at most the positions changed. */
  predicate OnlyMoves(tabs: seq<Tab>, placed: seq<Tab>) {
    |placed| == |tabs| && forall j :: 0 <= j < |tabs| ==> placed[j] == tabs[j].(pos := placed[j].pos)
  }

  /** Every tab no lookup for `toTidy` lands on is as it was. */
  predicate KeepsUntouched(tabs: seq<Tab>, toTidy: seq<Tab>, placed: seq<Tab>) {
    |placed| == |tabs| && forall j :: 0 <= j < |tabs| && Untouched(tabs, toTidy, j) ==> placed[j] == tabs[j]
  }

  /** The first `n` tabs of `toTidy` sit at their slots, found by id. */
  predicate AtSlots(tabs: seq<Tab>, toTidy: seq<Tab>, n: int, placed: seq<Tab>, layout: Layout, startX: real, startY: real) {
    |placed| == |tabs| &&
    forall k :: 0 <= k < n && k < |toTidy| && FindIndex(tabs, toTidy[k].id) != -1 ==>
      placed[FindIndex(tabs, toTidy[k].id)].pos == Slot(layout, |toTidy|, k, startX, startY)
  }

  /** One step of the placing loop: the tab with `toTidy[i]`'s id, found
      first by `findIndex`, moves to slot `i`. */
  function PlaceOne(placed: seq<Tab>, id: Id, at: Pos): (r: seq<Tab>)
    ensures |r| == |placed|
  {
    var k := FindIndex(placed, id);
    if k == -1 then placed else placed[k := placed[k].(pos := at)]
  }

  lemma PlaceStep(tabs: seq<Tab>, toTidy: seq<Tab>, i: int, placed: seq<Tab>, layout: Layout, startX: real, startY: real)
    requires 0 <= i < |toTidy|
    requires OnlyMoves(tabs, placed) && KeepsUntouched(tabs, toTidy[..i], placed)
    requires DistinctIds(toTidy) ==> AtSlots(tabs, toTidy, i, placed, layout, startX, startY)
    ensures var next := PlaceOne(placed, toTidy[i].id, Slot(layout, |toTidy|, i, startX, startY));
      && OnlyMoves(tabs, next) && KeepsUntouched(tabs, toTidy[..i + 1], next)
      && (DistinctIds(toTidy) ==> AtSlots(tabs, toTidy, i + 1, next, layout, startX, startY))
  {
    var id := toTidy[i].id;
    var at := Slot(layout, |toTidy|, i, startX, startY);
    var next := PlaceOne(placed, id, at);
    assert SameIds(placed, tabs);
    FindIndexSameIds(placed, tabs, id);
    var idx := FindIndex(tabs, id);
    forall j | 0 <= j < |tabs| && Untouched(tabs, toTidy[..i + 1], j)
      ensures next[j] == tabs[j]
    {
      forall k | 0 <= k < i ensures FindIndex(tabs, toTidy[..i][k].id) != j {
        assert toTidy[..i][k] == toTidy[..i + 1][k];
      }
      assert FindIndex(tabs, toTidy[..i + 1][i].id) != j;
      assert Untouched(tabs, toTidy[..i], j);
    }
    if DistinctIds(toTidy) {
      forall k | 0 <= k < i && FindIndex(tabs, toTidy[k].id) != -1
        ensures FindIndex(tabs, toTidy[k].id) != idx
      {
        assert toTidy[k].id != toTidy[i].id;
      }
    }
  }

  /** The `forEach` over the tabs to tidy. Each is looked up by id in the
      copy of the tab list and given its slot; nothing but positions changes,
      and a tab no lookup lands on is left as it was. When the tidied tabs
      have distinct ids, the `i`-th of them ends up at slot `i`. */
  method PlaceTabs(tabs: seq<Tab>, toTidy: seq<Tab>, layout: Layout, startX: real, startY: real)
    returns (placed: seq<Tab>)
    ensures OnlyMoves(tabs, placed)
    ensures KeepsUntouched(tabs, toTidy, placed)
    ensures DistinctIds(toTidy) ==> AtSlots(tabs, toTidy, |toTidy|, placed, layout, startX, startY)
  {
    placed := tabs;
    for i := 0 to |toTidy|
      invariant OnlyMoves(tabs, placed)
      invariant KeepsUntouched(tabs, toTidy[..i], placed)
      invariant DistinctIds(toTidy) ==> AtSlots(tabs, toTidy, i, placed, layout, startX, startY)
    {
      var at := Slot(layout, |toTidy|, i, startX, startY);
      PlaceStep(tabs, toTidy, i, placed, layout, startX, startY);
      ghost var next := PlaceOne(placed, toTidy[i].id, at);
      var tabIndex := FindIndex(placed, toTidy[i].id);
      if tabIndex != -1 {
        placed := placed[tabIndex := placed[tabIndex].(pos := at)];
      }
      assert placed == next;
    }
    assert toTidy[..|toTidy|] == toTidy;
  }

  /** The tabs a tidy moves: those tied to the workspace by a cluster link,
      in tab order. */
  function TabsToTidy(tabs: seq<Tab>, links: seq<Link>, w: Id): (r: seq<Tab>)
    ensures IsSubsequence(r, tabs)
    ensures forall t :: t in r <==> t in tabs && t.id in LinkedTabIds(links, w)
  {
    var linked := LinkedTabIds(links, w);
    var keep := (t: Tab) => t.id in linked;
    FilterIsSubsequence(tabs, keep);
    Filter(tabs, keep)
  }

  /** What a tidy leaves behind: the new editor, or the state at the point
      where the source throws because the workspace note is gone. */
  datatype TidyOutcome = Tidied(editor: Editor) | MissingWorkspace(editor: Editor)

  /** `Array.prototype.find` on the notes. */
  function FindNote(notes: seq<Note>, id: Id): (r: Option<Note>)
    ensures r.Some? ==> r.value in notes && r.value.id == id
    ensures r.None? ==> forall n :: n in notes ==> n.id != id
    decreases |notes|
  {
    if notes == [] then None
    else if notes[0].id == id then Some(notes[0])
    else FindNote(notes[1..], id)
  }

  /** The point a tidy lays out from: the workspace's pinned position if it
      has one, otherwise its simulated one, moved 60 down. */
  function Anchor(w: Note): (r: (real, real))
    ensures r.0 == if w.pos.fx.Some? then w.pos.fx.value else w.pos.x
    ensures r.1 == (if w.pos.fy.Some? then w.pos.fy.value else w.pos.y) + 60.0
  {
    (w.pos.EffX(), w.pos.EffY() + 60.0)
  }

  /** `handleTidy` on the node of the open context menu. Without a menu or on
      a tab nothing happens, not even a history entry; on a workspace the
      tidy of that workspace happens. */
  method Tidy(e: Editor, menu: Option<Node>, layout: Layout) returns (r: TidyOutcome)
    ensures menu.None? || !menu.value.isWorkspace ==> r == Tidied(e)
    ensures menu.Some? && menu.value.isWorkspace ==> TidiesWorkspace(e, menu.value.id, layout, r)
  {
    if menu.None? || !menu.value.isWorkspace {
      return Tidied(e);
    }
    r := TidyWorkspace(e, menu.value.id, layout);
  }

  /** What `handleTidy` does to workspace `w`, past its guard. History is
      saved first. With no linked tab nothing more happens. With linked tabs
      but no note for the workspace the source throws. Otherwise only the
      linked tabs move, and, when tab ids are distinct, each lands on its slot
      from the workspace's anchor. */
  predicate TidiesWorkspace(e: Editor, w: Id, layout: Layout, r: TidyOutcome) {
    var toTidy := TabsToTidy(e.tabs, e.links, w);
    var note := FindNote(e.notes, w);
    && (toTidy == [] ==> r == Tidied(SaveHistory(e)))
    && (toTidy != [] && note.None? ==> r == MissingWorkspace(SaveHistory(e)))
    && (toTidy != [] && note.Some? ==>
          && r.Tidied? && r.editor == SaveHistory(e).(tabs := r.editor.tabs)
          && OnlyMoves(e.tabs, r.editor.tabs)
          && KeepsUntouched(e.tabs, toTidy, r.editor.tabs))
    && (toTidy != [] && note.Some? && DistinctIds(e.tabs) ==>
          var (x, y) := Anchor(note.value);
          AtSlots(e.tabs, toTidy, |toTidy|, r.editor.tabs, layout, x, y))
  }

  /** `handleTidy` on workspace `w`, past its guard. */
  method TidyWorkspace(e: Editor, w: Id, layout: Layout) returns (r: TidyOutcome)
    ensures TidiesWorkspace(e, w, layout, r)
  {
    var saved := SaveHistory(e);
    var toTidy := TabsToTidy(e.tabs, e.links, w);
    if |toTidy| == 0 {
      return Tidied(saved);
    }
    var note := FindNote(e.notes, w);
    if note.None? {
      return MissingWorkspace(saved);
    }
    var (startX, startY) := Anchor(note.value);
    var placed := PlaceTabs(e.tabs, toTidy, layout, startX, startY);
    if DistinctIds(e.tabs) {
      TidiedIdsDistinct(e.tabs, e.links, w);
    }
    r := Tidied(saved.(tabs := placed));
  }

  /** Every tab a tidy moves is found by its id in the tab list. */
  lemma TidiedTabsFound(tabs: seq<Tab>, links: seq<Link>, w: Id, i: int)
    requires 0 <= i < |TabsToTidy(tabs, links, w)|
    ensures FindIndex(tabs, TabsToTidy(tabs, links, w)[i].id) != -1
  {
    assert TabsToTidy(tabs, links, w)[i] in tabs;
  }

  /** Tabs with distinct ids give tidied tabs with distinct ids. */
  lemma TidiedIdsDistinct(tabs: seq<Tab>, links: seq<Link>, w: Id)
    requires DistinctIds(tabs)
    ensures DistinctIds(TabsToTidy(tabs, links, w))
  {
    var r := TabsToTidy(tabs, links, w);
    SubsequenceIdsDistinct(r, tabs);
  }

  lemma {:induction false} SubsequenceIdsDistinct(xs: seq<Tab>, ys: seq<Tab>)
    requires IsSubsequence(xs, ys) && DistinctIds(ys)
    ensures DistinctIds(xs)
    decreases |ys|
  {
    if xs != [] {
      if xs[0] == ys[0] {
        assert DistinctIds(ys[1..]);
        SubsequenceIdsDistinct(xs[1..], ys[1..]);
        SubsequenceMembers(xs[1..], ys[1..]);
        forall j | 0 < j < |xs| ensures xs[0].id != xs[j].id {
          assert xs[j] == xs[1..][j - 1];
          var k :| 0 <= k < |ys[1..]| && ys[1..][k] == xs[j];
          assert ys[k + 1] == xs[j];
        }
      } else {
        assert DistinctIds(ys[1..]);
        SubsequenceIdsDistinct(xs, ys[1..]);
      }
    }
  }

  /** Every element of a subsequence is an element of the whole. */
  lemma {:induction false} SubsequenceMembers<T>(xs: seq<T>, ys: seq<T>)
    requires IsSubsequence(xs, ys)
    ensures forall j :: 0 <= j < |xs| ==> exists k :: 0 <= k < |ys| && ys[k] == xs[j]
    decreases |ys|
  {
    if xs != [] {
      if xs[0] == ys[0] {
        SubsequenceMembers(xs[1..], ys[1..]);
        forall j | 0 < j < |xs| ensures exists k :: 0 <= k < |ys| && ys[k] == xs[j] {
          assert xs[j] == xs[1..][j - 1];
          var k :| 0 <= k < |ys[1..]| && ys[1..][k] == xs[j];
          assert ys[k + 1] == xs[j];
        }
      } else {
        SubsequenceMembers(xs, ys[1..]);
        forall j | 0 <= j < |xs| ensures exists k :: 0 <= k < |ys| && ys[k] == xs[j] {
          var k :| 0 <= k < |ys[1..]| && ys[1..][k] == xs[j];
          assert ys[k + 1] == xs[j];
        }
      }
    }
  }
}
