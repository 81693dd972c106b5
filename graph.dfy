/** Shared records of the spatial tab graph: tabs, workspace notes, the
    node view the canvas draws, and links reduced to the ids they join. */
module Graph {

  datatype Option<T> = None | Some(value: T) {
    function GetOr(default: T): T {
      match this
      case Some(v) => v
      case None => default
    }
  }

  /** Tab ids come from the browser, note ids from the clock; both are numbers. */
  type Id = int

  /** The three link types the editor creates ('domain', 'cluster', 'history'). */
  datatype LinkKind = Domain | Cluster | History

  /** A link between two node ids. */
  datatype Link = Link(source: Id, target: Id, kind: LinkKind, labelText: Option<string>)

  /** A pinned position (fx, fy) wins over the simulated one (x, y). */
  datatype Pos = Pos(fx: Option<real>, fy: Option<real>, x: real, y: real) {
    function EffX(): real { fx.GetOr(x) }
    function EffY(): real { fy.GetOr(y) }
  }

  /** A browser tab as the editor stores it. */
  datatype Tab = Tab(
    id: Id,
    title: string,
    url: string,
    domain: string,
    favicon: string,
    thumbnail: Option<string>,
    lastAccessed: int,
    pos: Pos)

  /** A workspace note; every note is a workspace. Older notes may carry
      their name in `text` instead of `title`; the notes the editor makes
      itself have no `text` field at all (`None`). */
  datatype Note = Note(id: Id, title: string, text: Option<string>, color: string, collapsed: bool, pos: Pos)

  /** `note.title || note.text`: the title unless it is empty, else the
      text; `None` stands for `undefined`, a note with an empty title and no
      text, on which `.toLowerCase()` throws a TypeError. */
  function NoteName(n: Note): (r: Option<string>)
    ensures n.title != "" ==> r == Some(n.title)
    ensures r.None? <==> n.title == "" && n.text.None?
  {
    if n.title != "" then Some(n.title) else n.text
  }

  /** Every note has a name, so `(title || text).toLowerCase()` succeeds. */
  predicate AllNamed(notes: seq<Note>) {
    forall n :: n in notes ==> NoteName(n).Some?
  }

  /** What the canvas sees of a tab or a note. Notes have no domain. */
  datatype Node = Node(id: Id, title: string, domain: Option<string>, isWorkspace: bool, collapsed: bool, pos: Pos)

  function TabNode(t: Tab): Node {
    Node(t.id, t.title, Some(t.domain), false, false, t.pos)
  }

  function NoteNode(n: Note): Node {
    Node(n.id, n.title, None, true, n.collapsed, n.pos)
  }

  /** The canvas is given `[...tabs, ...notes]`. */
  function AllNodes(tabs: seq<Tab>, notes: seq<Note>): (r: seq<Node>)
    ensures |r| == |tabs| + |notes|
    ensures forall i :: 0 <= i < |tabs| ==> r[i] == TabNode(tabs[i])
    ensures forall i :: 0 <= i < |notes| ==> r[|tabs| + i] == NoteNode(notes[i])
  {
    seq(|tabs|, i requires 0 <= i < |tabs| => TabNode(tabs[i])) +
    seq(|notes|, i requires 0 <= i < |notes| => NoteNode(notes[i]))
  }

  /** The colours a new workspace cycles through. */
  const WorkspaceColors: seq<string> :=
    ["#8a42c1", "#007aff", "#28a745", "#ff9500", "#d12c2c", "#5ac8fa", "#ffcc00"]

  function Init<T>(s: seq<T>): seq<T>
    requires s != []
  {
    s[..|s| - 1]
  }

  function Last<T>(s: seq<T>): T
    requires s != []
  {
    s[|s| - 1]
  }

  predicate NoDup<T(==)>(s: seq<T>) {
    forall i, j :: 0 <= i < j < |s| ==> s[i] != s[j]
  }

  predicate Touches(l: Link, id: Id) {
    l.source == id || l.target == id
  }

  predicate TouchesAny(l: Link, ids: set<Id>) {
    l.source in ids || l.target in ids
  }

  function TabIds(tabs: seq<Tab>): (r: set<Id>)
    ensures forall t :: t in tabs ==> t.id in r
    ensures forall x :: x in r ==> exists t :: t in tabs && t.id == x
  {
    set t | t in tabs :: t.id
  }

  function NoteIds(notes: seq<Note>): (r: set<Id>)
    ensures forall n :: n in notes ==> n.id in r
    ensures forall x :: x in r ==> exists n :: n in notes && n.id == x
  {
    set n | n in notes :: n.id
  }

  function NodeIds(nodes: seq<Node>): (r: set<Id>)
    ensures forall n :: n in nodes ==> n.id in r
    ensures forall x :: x in r ==> exists n :: n in nodes && n.id == x
  {
    set n | n in nodes :: n.id
  }

  /** `xs` is `ys` with some elements left out, order kept. */
  predicate IsSubsequence<T(==)>(xs: seq<T>, ys: seq<T>)
    decreases |ys|
  {
    if xs == [] then true
    else if ys == [] then false
    else if xs[0] == ys[0] then IsSubsequence(xs[1..], ys[1..])
    else IsSubsequence(xs, ys[1..])
  }

  /** Every sequence is a subsequence of itself. */
  lemma {:induction false} IsSubsequenceRefl<T>(s: seq<T>)
    ensures IsSubsequence(s, s)
    decreases |s|
  {
    if s != [] {
      IsSubsequenceRefl(s[1..]);
    }
  }

  /** JavaScript's Array.prototype.filter. */
  function Filter<T(!new)>(s: seq<T>, p: T -> bool): (r: seq<T>)
    ensures |r| <= |s|
    ensures forall x :: x in r <==> x in s && p(x)
    decreases |s|
  {
    if s == [] then []
    else if p(s[|s| - 1]) then Filter(s[..|s| - 1], p) + [s[|s| - 1]]
    else Filter(s[..|s| - 1], p)
  }

  lemma {:induction false} FilterIsSubsequence<T(!new)>(s: seq<T>, p: T -> bool)
    ensures IsSubsequence(Filter(s, p), s)
    decreases |s|
  {
    if s != [] {
      FilterIsSubsequence(s[..|s| - 1], p);
      if p(s[|s| - 1]) {
        SubsequenceExtend(Filter(s[..|s| - 1], p), s[..|s| - 1], s[|s| - 1]);
      } else {
        SubsequenceSkip(Filter(s[..|s| - 1], p), s[..|s| - 1], s[|s| - 1]);
      }
      assert s[..|s| - 1] + [s[|s| - 1]] == s;
    }
  }

  /** A filter that rejects nothing returns its input. */
  lemma {:induction false} FilterKeepsAll<T(!new)>(s: seq<T>, p: T -> bool)
    requires forall x :: x in s ==> p(x)
    ensures Filter(s, p) == s
    decreases |s|
  {
    if s != [] {
      FilterKeepsAll(s[..|s| - 1], p);
      assert s[..|s| - 1] + [s[|s| - 1]] == s;
    }
  }

  lemma {:induction false} SubsequenceExtend<T>(xs: seq<T>, ys: seq<T>, x: T)
    requires IsSubsequence(xs, ys)
    ensures IsSubsequence(xs + [x], ys + [x])
    decreases |ys|
  {
    if xs == [] {
      if ys != [] {
        SubsequenceExtend(xs, ys[1..], x);
        assert (ys + [x])[1..] == ys[1..] + [x];
      }
    } else if xs[0] == ys[0] {
      SubsequenceExtend(xs[1..], ys[1..], x);
      assert (xs + [x])[1..] == xs[1..] + [x];
      assert (ys + [x])[1..] == ys[1..] + [x];
    } else {
      SubsequenceExtend(xs, ys[1..], x);
      assert (ys + [x])[1..] == ys[1..] + [x];
    }
  }

  lemma {:induction false} SubsequenceSkip<T>(xs: seq<T>, ys: seq<T>, x: T)
    requires IsSubsequence(xs, ys)
    ensures IsSubsequence(xs, ys + [x])
    decreases |ys|
  {
    if xs != [] {
      assert ys != [];
      assert (ys + [x])[1..] == ys[1..] + [x];
      if xs[0] == ys[0] {
        SubsequenceSkip(xs[1..], ys[1..], x);
      } else {
        SubsequenceSkip(xs, ys[1..], x);
      }
    }
  }

  /** Multiplying by a non-negative number keeps an inequality. */
  lemma MulMono(a: int, b: int, c: int)
    ensures a >= b && c >= 0 ==> a * c >= b * c
  {
    if a >= b && c >= 0 {
      assert a * c - b * c == (a - b) * c;
    }
  }
}
