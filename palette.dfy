/** The command palette: the list of items a query selects, and the
    selected-index state the arrow keys move through that list. */
module CommandPalette {
  import opened Graph
  import opened Text
  import AppEditing

  /** A generic action offered by the application; `name` stands for the
      callback the item runs. */
  datatype Action = Action(name: string, caption: string)

  /** An entry of the palette: an action (type 'action') or a jump to a
      workspace (type 'jump'). */
  datatype Item = ActionItem(action: Action) | JumpItem(id: Id, caption: string)

  /** `label.toLowerCase().includes(query.toLowerCase())`. */
  predicate Matches(text: string, query: string) {
    Contains(Lower(text), Lower(query))
  }

  /** `Jump to: ${w.title || w.text}`; a template literal spells
      `undefined` out, though the filter has thrown before that can happen. */
  function JumpLabel(w: Note): string {
    "Jump to: " + NoteName(w).GetOr("undefined")
  }

  /** `(w.title || w.text).toLowerCase().includes(query.toLowerCase())`,
      for a workspace that has a name. */
  predicate NameMatches(w: Note, query: string) {
    NoteName(w).Some? && Matches(NoteName(w).value, query)
  }

  /** `actions.filter(...)`: the actions whose label matches. */
  function MatchedActions(actions: seq<Action>, query: string): (r: seq<Action>)
    ensures forall a :: a in r <==> a in actions && Matches(a.caption, query)
  {
    Filter(actions, (a: Action) => Matches(a.caption, query))
  }

  /** `workspaces.filter(...)`: the workspaces whose name matches. A
      workspace with an empty title and no text makes the test throw, and
      with it the whole filter, whatever the query. */
  function MatchedWorkspaces(workspaces: seq<Note>, query: string): (r: Option<seq<Note>>)
    ensures r.None? <==> !AllNamed(workspaces)
    ensures r.Some? ==> forall w :: w in r.value <==> w in workspaces && NameMatches(w, query)
  {
    if AllNamed(workspaces) then Some(Filter(workspaces, (w: Note) => NameMatches(w, query))) else None
  }

  /** `.map(a => ({ ...a, type: 'action' }))`. */
  function ActionItems(actions: seq<Action>): (r: seq<Item>)
    ensures |r| == |actions|
    ensures forall k :: 0 <= k < |r| ==> r[k] == ActionItem(actions[k])
  {
    seq(|actions|, k requires 0 <= k < |actions| => ActionItem(actions[k]))
  }

  /** `.map(w => ({ id, label: 'Jump to: ' + name, type: 'jump' }))`. */
  function JumpItems(workspaces: seq<Note>): (r: seq<Item>)
    ensures |r| == |workspaces|
    ensures forall k :: 0 <= k < |r| ==> r[k] == JumpItem(workspaces[k].id, JumpLabel(workspaces[k]))
  {
    seq(|workspaces|, k requires 0 <= k < |workspaces| => JumpItem(workspaces[k].id, JumpLabel(workspaces[k])))
  }

  /** `filteredItems`: the action section, then the workspace section.
      `None` is the TypeError of the workspace filter: the palette is
      rendered, open or not, so an unnamed workspace breaks every render. */
  function FilteredItems(actions: seq<Action>, workspaces: seq<Note>, query: string): (r: Option<seq<Item>>)
    ensures r.None? <==> !AllNamed(workspaces)
    ensures r.Some? ==> |r.value| <= |actions| + |workspaces|
  {
    match MatchedWorkspaces(workspaces, query)
    case None => None
    case Some(ws) => Some(ActionItems(MatchedActions(actions, query)) + JumpItems(ws))
  }

  lemma ActionItemsMembers(xs: seq<Action>, it: Item)
    ensures it in ActionItems(xs) <==> it.ActionItem? && it.action in xs
  {
    if it.ActionItem? && it.action in xs {
      var k :| 0 <= k < |xs| && xs[k] == it.action;
      assert ActionItems(xs)[k] == it;
    }
  }

  lemma JumpItemsMembers(ws: seq<Note>, it: Item)
    ensures it in JumpItems(ws) <==> exists w :: w in ws && it == JumpItem(w.id, JumpLabel(w))
  {
    if it in JumpItems(ws) {
      var k :| 0 <= k < |ws| && JumpItems(ws)[k] == it;
      assert ws[k] in ws;
    }
    if w :| w in ws && it == JumpItem(w.id, JumpLabel(w)) {
      var k :| 0 <= k < |ws| && ws[k] == w;
      assert JumpItems(ws)[k] == it;
    }
  }

  /** An item is listed iff it is a matching action or the jump item of a
      matching workspace. */
  lemma FilteredItemsMembers(actions: seq<Action>, workspaces: seq<Note>, query: string, it: Item)
    requires AllNamed(workspaces)
    ensures FilteredItems(actions, workspaces, query).Some?
    ensures it in FilteredItems(actions, workspaces, query).value <==>
      (exists a :: a in actions && Matches(a.caption, query) && it == ActionItem(a))
      || (exists w :: w in workspaces && NameMatches(w, query) && it == JumpItem(w.id, JumpLabel(w)))
  {
    var xs := MatchedActions(actions, query);
    var ws := MatchedWorkspaces(workspaces, query).value;
    ActionItemsMembers(xs, it);
    JumpItemsMembers(ws, it);
  }

  /** The list holds the matching actions in their own order, then the
      matching workspaces in their own order, each workspace as its jump
      item. */
  lemma FilteredItemsLayout(actions: seq<Action>, workspaces: seq<Note>, query: string)
    requires AllNamed(workspaces)
    ensures MatchedWorkspaces(workspaces, query).Some? && FilteredItems(actions, workspaces, query).Some?
    ensures var xs := MatchedActions(actions, query);
      var ws := MatchedWorkspaces(workspaces, query).value;
      var r := FilteredItems(actions, workspaces, query).value;
      && IsSubsequence(xs, actions)
      && IsSubsequence(ws, workspaces)
      && |r| == |xs| + |ws|
      && (forall k :: 0 <= k < |xs| ==> r[k] == ActionItem(xs[k]))
      && (forall k :: 0 <= k < |ws| ==> r[|xs| + k] == JumpItem(ws[k].id, JumpLabel(ws[k])))
  {
    FilterIsSubsequence(actions, (a: Action) => Matches(a.caption, query));
    FilterIsSubsequence(workspaces, (w: Note) => NameMatches(w, query));
  }

  /** Every action item comes before every jump item. */
  lemma ActionsComeFirst(actions: seq<Action>, workspaces: seq<Note>, query: string)
    requires AllNamed(workspaces)
    ensures FilteredItems(actions, workspaces, query).Some?
    ensures var r := FilteredItems(actions, workspaces, query).value;
      forall i, j :: 0 <= i < j < |r| && r[j].ActionItem? ==> r[i].ActionItem?
  {
    FilteredItemsLayout(actions, workspaces, query);
  }

  /** An empty query matches every label. */
  lemma EmptyQueryMatchesAll(text: string)
    ensures Matches(text, "")
  {
    EmptyQueryMatches(Lower(text));
  }

  /** With an empty query nothing is filtered out: every action, then a
      jump item for every workspace. */
  lemma EmptyQueryKeepsAll(actions: seq<Action>, workspaces: seq<Note>)
    requires AllNamed(workspaces)
    ensures FilteredItems(actions, workspaces, "") == Some(ActionItems(actions) + JumpItems(workspaces))
  {
    forall a | a in actions ensures Matches(a.caption, "") {
      EmptyQueryMatchesAll(a.caption);
    }
    forall w | w in workspaces ensures NameMatches(w, "") {
      EmptyQueryMatchesAll(NoteName(w).value);
    }
    FilterKeepsAll(actions, (a: Action) => Matches(a.caption, ""));
    FilterKeepsAll(workspaces, (w: Note) => NameMatches(w, ""));
  }

  /** A workspace made by auto-grouping tabs whose domain is empty (a page
      whose URL has no host name) has neither a title nor a text, so from then
      on the palette cannot list its items, whatever the query. */
  lemma EmptyDomainWorkspaceBreaksPalette(actions: seq<Action>, notes: seq<Note>, query: string,
                                          k: nat, noteCount: nat, now: int, cx: real, cy: real)
    ensures FilteredItems(actions, notes + [AppEditing.GroupNote(k, "", noteCount, now, cx, cy)], query) == None
  {
    var w := AppEditing.GroupNote(k, "", noteCount, now, cx, cy);
    assert w in notes + [w] && NoteName(w) == None;
  }

  /** `selectedIndex`: a number, or NaN once a step divided by an empty list. */
  datatype Index = At(i: nat) | NaN

  /** JavaScript's `%`: the remainder takes the sign of the dividend. */
  function JsRem(a: int, b: int): (r: int)
    requires b != 0
    ensures a >= 0 ==> r == a % b && 0 <= r < if b > 0 then b else -b
    ensures a < 0 ==> r == -((-a) % b) && (if b > 0 then -b else b) < r <= 0
  {
    var m := if b > 0 then b else -b;
    ModAbs(a, b);
    ModAbs(-a, b);
    if a >= 0 then a % m else -((-a) % m)
  }

  /** Dafny's `%` ignores the sign of the divisor. */
  lemma ModAbs(a: int, b: int)
    requires b != 0
    ensures a % b == a % (if b > 0 then b else -b)
  {
    if b < 0 {
      var q, r := a / b, a % b;
      assert a == (-q) * (-b) + r;
      ModUnique(a, -b, -q, r);
    }
  }

  /** ArrowDown: `(prev + 1) % n`. From any number on a non-empty list it
      lands on the next item, wrapping from the last to the first; on an empty
      list, or from NaN, it gives NaN. */
  function StepDown(idx: Index, n: nat): (r: Index)
    ensures idx.At? && n > 0 ==> Selects(r, n) && r.i == (idx.i + 1) % n
    ensures idx.NaN? || n == 0 ==> r == NaN
  {
    match idx
    case NaN => NaN
    case At(i) => if n == 0 then NaN else At(JsRem(i + 1, n))
  }

  /** ArrowUp: `(prev - 1 + n) % n`. From any number on a non-empty list it
      lands on the previous item, wrapping from the first to the last; on an
      empty list, or from NaN, it gives NaN. */
  function StepUp(idx: Index, n: nat): (r: Index)
    ensures idx.At? && n > 0 ==> Selects(r, n) && r.i == (idx.i + n - 1) % n
    ensures idx.NaN? || n == 0 ==> r == NaN
  {
    match idx
    case NaN => NaN
    case At(i) => if n == 0 then NaN else At(JsRem(i - 1 + n, n))
  }

  /** `filteredItems[selectedIndex]` names an item. */
  predicate Selects(idx: Index, n: nat) {
    idx.At? && idx.i < n
  }

  /** The remainder is fixed by any quotient-and-remainder split. */
  lemma ModUnique(a: int, n: int, q: int, r: int)
    requires n > 0 && 0 <= r < n && a == q * n + r
    ensures a % n == r
  {
    var q', r' := a / n, a % n;
    assert a == q' * n + r';
    MulMono(q, q' + 1, n);
    MulMono(q', q + 1, n);
    assert (q' + 1) * n == q' * n + n;
    assert (q + 1) * n == q * n + n;
  }

  /** Down then Up, and Up then Down, return to the item selected before. */
  lemma StepsInverse(i: nat, n: nat)
    requires i < n
    ensures StepUp(StepDown(At(i), n), n) == At(i)
    ensures StepDown(StepUp(At(i), n), n) == At(i)
  {
    if i + 1 == n {
      ModUnique(i + 1, n, 1, 0);
      ModUnique(n - 1, n, 0, n - 1);
    } else {
      ModUnique(i + 1, n, 0, i + 1);
      ModUnique(i + n, n, 1, i);
    }
    if i == 0 {
      ModUnique(n - 1, n, 0, n - 1);
      ModUnique(n, n, 1, 0);
    } else {
      ModUnique(i - 1 + n, n, 1, i - 1);
      ModUnique(i, n, 0, i);
    }
  }

  /** ArrowDown pressed k times. */
  function DownTimes(idx: Index, n: nat, k: nat): Index
    decreases k
  {
    if k == 0 then idx else StepDown(DownTimes(idx, n, k - 1), n)
  }

  /** Stepping the remainder is the remainder of the step. */
  lemma ModNext(m: int, n: int)
    requires n > 0 && m >= 0
    ensures (m % n + 1) % n == (m + 1) % n
  {
    var j, q := m % n, m / n;
    assert m == q * n + j;
    assert (q + 1) * n == q * n + n;
    if j + 1 == n {
      ModUnique(j + 1, n, 1, 0);
      ModUnique(m + 1, n, q + 1, 0);
    } else {
      ModUnique(j + 1, n, 0, j + 1);
      ModUnique(m + 1, n, q, j + 1);
    }
  }

  /** Pressing ArrowDown k times moves k places round the list. */
  lemma {:induction false} DownTimesWraps(i: nat, n: nat, k: nat)
    requires i < n
    ensures DownTimes(At(i), n, k) == At((i + k) % n)
    decreases k
  {
    if k == 0 {
      ModUnique(i, n, 0, i);
    } else {
      DownTimesWraps(i, n, k - 1);
      ModNext(i + k - 1, n);
    }
  }

  /** Pressing ArrowDown once per item comes back to the start. */
  lemma DownCycle(i: nat, n: nat)
    requires i < n
    ensures DownTimes(At(i), n, n) == At(i)
  {
    DownTimesWraps(i, n, n);
    ModUnique(i + n, n, 1, i);
  }

  /** A key the palette listens to. */
  datatype Key = ArrowDown | ArrowUp | Enter | Escape | OtherKey

  /** The palette's own state: the query typed and the selected index. It
      lives on while the palette is closed. */
  class Palette {
    var query: string
    var selected: Index

    constructor ()
      ensures query == "" && selected == At(0)
    {
      query := "";
      selected := At(0);
    }

    /** Typing in the input; a changed query resets the selection to the
        first item, an unchanged one leaves everything as it was. */
    method SetQuery(q: string)
      modifies this
      ensures query == q
      ensures q != old(query) ==> selected == At(0)
      ensures q == old(query) ==> selected == old(selected)
    {
      if q != query {
        query := q;
        selected := At(0);
      }
    }

    /** The palette is opened: empty query, first item selected. */
    method Open()
      modifies this
      ensures query == "" && selected == At(0)
    {
      query := "";
      selected := At(0);
    }

    /** A key press; returns the item whose action runs, if any, and
        whether the palette asks to be closed. Keys are ignored while the
        palette is closed. When the list cannot be built the render has
        thrown, no key listener is installed, and the key does nothing. */
    method KeyDown(isOpen: bool, key: Key, actions: seq<Action>, workspaces: seq<Note>)
      returns (fired: Option<Item>, close: bool)
      modifies this
      ensures query == old(query)
      ensures FilteredItems(actions, workspaces, query).None? ==>
        selected == old(selected) && fired.None? && !close
      ensures var items := FilteredItems(actions, workspaces, query);
        items.Some? ==>
        selected == if isOpen && key == ArrowDown then StepDown(old(selected), |items.value|)
                    else if isOpen && key == ArrowUp then StepUp(old(selected), |items.value|)
                    else old(selected)
      ensures var items := FilteredItems(actions, workspaces, query);
        items.Some? ==> (fired.Some? <==> isOpen && key == Enter && Selects(old(selected), |items.value|))
      ensures var items := FilteredItems(actions, workspaces, query);
        fired.Some? ==> items.Some? && old(selected).i < |items.value| && fired.value == items.value[old(selected).i]
      ensures FilteredItems(actions, workspaces, query).Some? ==> (close <==> isOpen && (key == Escape || fired.Some?))
    {
      fired, close := None, false;
      if !isOpen {
        return;
      }
      var built := FilteredItems(actions, workspaces, query);
      if built.None? {
        return;
      }
      var items := built.value;
      match key
      case ArrowDown =>
        selected := StepDown(selected, |items|);
      case ArrowUp =>
        selected := StepUp(selected, |items|);
      case Enter =>
        if Selects(selected, |items|) {
          fired := Some(items[selected.i]);
          close := true;
        }
      case Escape =>
        close := true;
      case OtherKey =>
    }
  }
}
