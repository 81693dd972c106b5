/** `generateLinks` from src/utils.js: tabs are grouped by domain, in the
    order each domain first appears, and every later tab of a domain is
    linked to the first tab of that domain (a star of 'domain' links). */
module Utils {
  import opened Graph

  // ---------------------------------------------------------------------
  // Specification of the grouping
  // ---------------------------------------------------------------------

  /** The distinct domains of `tabs`, in order of first appearance (the key
      order of the `domains` object). */
  function DomainOrder(tabs: seq<Tab>): (r: seq<string>)
    decreases |tabs|
  {
    if tabs == [] then []
    else
      var o := DomainOrder(Init(tabs));
      if Last(tabs).domain in o then o else o + [Last(tabs).domain]
  }

  /** The ids of the tabs of domain `d`, in input order (`domains[d]`). */
  function Group(tabs: seq<Tab>, d: string): (r: seq<Id>)
    decreases |tabs|
  {
    if tabs == [] then []
    else Group(Init(tabs), d) + (if Last(tabs).domain == d then [Last(tabs).id] else [])
  }

  /** The ids of the tabs that are not the first of their domain. */
  function LaterIds(tabs: seq<Tab>): (r: seq<Id>)
    decreases |tabs|
  {
    if tabs == [] then []
    else LaterIds(Init(tabs)) + (if Last(tabs).domain in DomainOrder(Init(tabs)) then [Last(tabs).id] else [])
  }

  /** Tab `j` is the first tab of its domain. */
  predicate IsFirstOfDomain(tabs: seq<Tab>, j: int)
    requires 0 <= j < |tabs|
  {
    forall i :: 0 <= i < j ==> tabs[i].domain != tabs[j].domain
  }

  /** Some tab of `tabs` has domain `d`. */
  predicate HasDomain(tabs: seq<Tab>, d: string) {
    exists i :: 0 <= i < |tabs| && tabs[i].domain == d
  }

  /** The domain order lists each domain of the input once, and exactly the
      domains whose group is non-empty. */
  lemma {:induction false} DomainOrderFacts(tabs: seq<Tab>)
    ensures NoDup(DomainOrder(tabs))
    ensures forall d :: d in DomainOrder(tabs) <==> Group(tabs, d) != []
    ensures forall d :: d in DomainOrder(tabs) <==> HasDomain(tabs, d)
    decreases |tabs|
  {
    if tabs != [] {
      DomainOrderFacts(Init(tabs));
      forall d ensures HasDomain(tabs, d) <==> HasDomain(Init(tabs), d) || Last(tabs).domain == d
      {
        if i :| 0 <= i < |tabs| && tabs[i].domain == d {
          if i < |tabs| - 1 { assert Init(tabs)[i].domain == d; }
        }
        if i :| 0 <= i < |Init(tabs)| && Init(tabs)[i].domain == d {
          assert tabs[i].domain == d;
        }
      }
    }
  }

  /** Every id in a group is the id of an input tab of that domain. */
  lemma {:induction false} GroupMembers(tabs: seq<Tab>, d: string)
    ensures forall x :: x in Group(tabs, d) ==> exists i :: 0 <= i < |tabs| && tabs[i].id == x && tabs[i].domain == d
    decreases |tabs|
  {
    if tabs != [] {
      GroupMembers(Init(tabs), d);
      forall x | x in Group(tabs, d)
        ensures exists i :: 0 <= i < |tabs| && tabs[i].id == x && tabs[i].domain == d
      {
        if x in Group(Init(tabs), d) {
          var i :| 0 <= i < |Init(tabs)| && Init(tabs)[i].id == x && Init(tabs)[i].domain == d;
          assert tabs[i] == Init(tabs)[i];
        } else {
          assert tabs[|tabs| - 1].id == x && tabs[|tabs| - 1].domain == d;
        }
      }
    }
  }

  // ---------------------------------------------------------------------
  // Specification of the links
  // ---------------------------------------------------------------------

  /** The link from the first id of a group to its `k`-th id. */
  function StarLink(g: seq<Id>, k: int): Link
    requires 1 <= k < |g|
  {
    Link(g[0], g[k], Domain, None)
  }

  /** The links of one domain: none unless it has more than one tab. */
  function Star(g: seq<Id>): (r: seq<Link>)
    ensures |r| == if |g| > 1 then |g| - 1 else 0
    ensures forall i :: 0 <= i < |r| ==> r[i] == StarLink(g, i + 1)
  {
    if |g| > 1 then seq(|g| - 1, i requires 0 <= i < |g| - 1 => StarLink(g, i + 1)) else []
  }

  /** The links of the domains `o`, one star after another. */
  function Stars(tabs: seq<Tab>, o: seq<string>): seq<Link>
    decreases |o|
  {
    if o == [] then [] else Stars(tabs, Init(o)) + Star(Group(tabs, Last(o)))
  }

  /** What `generateLinks(tabs)` returns. */
  function DomainLinks(tabs: seq<Tab>): seq<Link> {
    Stars(tabs, DomainOrder(tabs))
  }

  function Targets(links: seq<Link>): (r: seq<Id>)
    ensures |r| == |links|
    ensures forall i :: 0 <= i < |links| ==> r[i] == links[i].target
  {
    seq(|links|, i requires 0 <= i < |links| => links[i].target)
  }

  // ---------------------------------------------------------------------
  // The implementation, with the loops of src/utils.js
  // ---------------------------------------------------------------------

  /** The first loop: fill the `domains` dictionary with `push`. */
  method GroupByDomain(tabs: seq<Tab>) returns (order: seq<string>, groups: map<string, seq<Id>>)
    ensures order == DomainOrder(tabs)
    ensures groups.Keys == set d | d in order
    ensures forall d :: d in groups ==> groups[d] == Group(tabs, d)
  {
    order, groups := [], map[];
    for i := 0 to |tabs|
      invariant order == DomainOrder(tabs[..i])
      invariant groups.Keys == set d | d in order
      invariant forall d :: d in groups ==> groups[d] == Group(tabs[..i], d)
    {
      var t := tabs[i];
      assert Init(tabs[..i + 1]) == tabs[..i] && Last(tabs[..i + 1]) == t;
      DomainOrderFacts(tabs[..i]);
      if t.domain !in groups {
        groups := groups[t.domain := []];
        order := order + [t.domain];
      }
      groups := groups[t.domain := groups[t.domain] + [t.id]];
    }
    assert tabs[..|tabs|] == tabs;
  }

  /** `generateLinks`. */
  method GenerateLinks(tabs: seq<Tab>) returns (links: seq<Link>)
    ensures links == DomainLinks(tabs)
  {
    var order, groups := GroupByDomain(tabs);
    links := [];
    for k := 0 to |order|
      invariant links == Stars(tabs, order[..k])
    {
      StarsStep(tabs, order, k);
      links := AppendStar(links, groups[order[k]]);
    }
    assert order[..|order|] == order;
  }

  /** The inner loop of `generateLinks`: a domain with more than one tab
      links its first tab to each later one, in order. */
  method AppendStar(links: seq<Link>, nodeIds: seq<Id>) returns (r: seq<Link>)
    ensures r == links + Star(nodeIds)
  {
    r := links;
    if |nodeIds| > 1 {
      var firstNodeId := nodeIds[0];
      for i := 1 to |nodeIds|
        invariant r == links + Star(nodeIds)[..i - 1]
      {
        StarPrefixStep(nodeIds, i);
        r := r + [Link(firstNodeId, nodeIds[i], Domain, None)];
      }
      assert Star(nodeIds)[..|nodeIds| - 1] == Star(nodeIds);
    }
  }

  /** The stars of one more domain. */
  lemma StarsStep(tabs: seq<Tab>, order: seq<string>, k: int)
    requires 0 <= k < |order|
    ensures Stars(tabs, order[..k + 1]) == Stars(tabs, order[..k]) + Star(Group(tabs, order[k]))
  {
    assert Init(order[..k + 1]) == order[..k] && Last(order[..k + 1]) == order[k];
  }

  /** One more link of a star. */
  lemma StarPrefixStep(g: seq<Id>, i: int)
    requires 1 <= i < |g|
    ensures Star(g)[..i] == Star(g)[..i - 1] + [Link(g[0], g[i], Domain, None)]
  {
    assert Star(g)[..i] == Star(g)[..i - 1] + [StarLink(g, i)];
  }

  // ---------------------------------------------------------------------
  // Properties of the links
  // ---------------------------------------------------------------------

  /** Link `l` is the star link to the `k`-th tab of domain `d`. */
  predicate FromDomain(tabs: seq<Tab>, l: Link, d: string, k: int) {
    1 <= k < |Group(tabs, d)| && l == StarLink(Group(tabs, d), k)
  }

  lemma {:induction false} StarsMembers(tabs: seq<Tab>, o: seq<string>, l: Link)
    ensures l in Stars(tabs, o) <==> exists d, k :: d in o && FromDomain(tabs, l, d, k)
    decreases |o|
  {
    if o != [] {
      StarsMembers(tabs, Init(o), l);
      var g := Group(tabs, Last(o));
      if l in Star(g) {
        var i :| 0 <= i < |Star(g)| && Star(g)[i] == l;
        assert FromDomain(tabs, l, Last(o), i + 1);
      }
      if d, k :| d in o && FromDomain(tabs, l, d, k) {
        if d == Last(o) {
          assert Star(g)[k - 1] == l;
        } else {
          assert d in Init(o);
        }
      }
    }
  }

  /** The links are exactly, for each domain with tabs `t0..tn` in input
      order, the links `t0 -> t1, ..., t0 -> tn`; a domain with one tab gives
      none, and every link is an unlabelled 'domain' link. */
  lemma DomainLinksMembers(tabs: seq<Tab>, l: Link)
    ensures l in DomainLinks(tabs) <==> exists d, k :: FromDomain(tabs, l, d, k)
    ensures l in DomainLinks(tabs) ==> l.kind == Domain && l.labelText == None
  {
    StarsMembers(tabs, DomainOrder(tabs), l);
    DomainOrderFacts(tabs);
  }

  /** With unique ids, the only tab of a one-tab domain is neither the
      source nor the target of any link. */
  lemma SingleTabDomainNoLinks(tabs: seq<Tab>, d: string)
    requires UniqueIds(tabs) && |Group(tabs, d)| == 1
    ensures forall l :: l in DomainLinks(tabs) ==> !Touches(l, Group(tabs, d)[0])
  {
    var x := Group(tabs, d)[0];
    GroupMembers(tabs, d);
    assert x in Group(tabs, d);
    var i :| 0 <= i < |tabs| && tabs[i].id == x && tabs[i].domain == d;
    forall l | l in DomainLinks(tabs) ensures !Touches(l, x) {
      LoneTabNotLinked(tabs, d, i, l);
    }
  }

  /** A tab of a one-tab domain ends no link. */
  lemma LoneTabNotLinked(tabs: seq<Tab>, d: string, i: int, l: Link)
    requires UniqueIds(tabs) && |Group(tabs, d)| == 1
    requires 0 <= i < |tabs| && tabs[i].domain == d
    requires l in DomainLinks(tabs)
    ensures !Touches(l, tabs[i].id)
  {
    DomainLinksMembers(tabs, l);
    var d', k :| FromDomain(tabs, l, d', k);
    var g := Group(tabs, d');
    GroupMembers(tabs, d');
    assert g[0] in g && g[k] in g;
    var i0 :| 0 <= i0 < |tabs| && tabs[i0].id == g[0] && tabs[i0].domain == d';
    var i1 :| 0 <= i1 < |tabs| && tabs[i1].id == g[k] && tabs[i1].domain == d';
    assert l.source == tabs[i0].id && l.target == tabs[i1].id;
    assert d' != d;
  }

  /** Tabs `i` and `j` are the source and target of `l` and share a domain. */
  predicate JoinsSameDomain(tabs: seq<Tab>, l: Link, i: int, j: int) {
    && 0 <= i < |tabs| && 0 <= j < |tabs|
    && tabs[i].id == l.source && tabs[j].id == l.target && tabs[i].domain == tabs[j].domain
  }

  /** Both ends of a link are input tabs, and of the same domain. */
  lemma DomainLinksEndpoints(tabs: seq<Tab>, l: Link)
    requires l in DomainLinks(tabs)
    ensures exists i, j :: JoinsSameDomain(tabs, l, i, j)
  {
    DomainLinksMembers(tabs, l);
    var d, k :| FromDomain(tabs, l, d, k);
    GroupMembers(tabs, d);
    var g := Group(tabs, d);
    assert g[0] in g && g[k] in g;
    var i :| 0 <= i < |tabs| && tabs[i].id == g[0] && tabs[i].domain == d;
    var j :| 0 <= j < |tabs| && tabs[j].id == g[k] && tabs[j].domain == d;
    assert JoinsSameDomain(tabs, l, i, j);
  }

  lemma TargetsAppend(a: seq<Link>, b: seq<Link>)
    ensures Targets(a + b) == Targets(a) + Targets(b)
  {
  }

  /** The targets of a star are the group without its first id. */
  lemma StarTargets(g: seq<Id>)
    ensures Targets(Star(g)) == if g == [] then [] else g[1..]
  {
  }

  /** The spec functions on a sequence with one more tab. */
  lemma UnfoldGroup(tabs: seq<Tab>, t: Tab, d: string)
    ensures Group(tabs + [t], d) == Group(tabs, d) + (if t.domain == d then [t.id] else [])
  {
    assert Init(tabs + [t]) == tabs && Last(tabs + [t]) == t;
  }

  lemma UnfoldOrder(tabs: seq<Tab>, t: Tab)
    ensures DomainOrder(tabs + [t]) == if t.domain in DomainOrder(tabs) then DomainOrder(tabs) else DomainOrder(tabs) + [t.domain]
    ensures LaterIds(tabs + [t]) == LaterIds(tabs) + if t.domain in DomainOrder(tabs) then [t.id] else []
  {
    assert Init(tabs + [t]) == tabs && Last(tabs + [t]) == t;
  }

  lemma StarsTargetsSplit(tabs: seq<Tab>, o: seq<string>)
    requires o != []
    ensures multiset(Targets(Stars(tabs, o)))
         == multiset(Targets(Stars(tabs, Init(o)))) + multiset(Targets(Star(Group(tabs, Last(o)))))
  {
    TargetsAppend(Stars(tabs, Init(o)), Star(Group(tabs, Last(o))));
  }

  /** One more tab of domain `d` adds its id to the targets of the star of `d`. */
  lemma GroupStepTargets(tabs: seq<Tab>, t: Tab, d: string)
    requires t.domain == d ==> Group(tabs, d) != []
    ensures multiset(Targets(Star(Group(tabs + [t], d))))
         == multiset(Targets(Star(Group(tabs, d)))) + if t.domain == d then multiset{t.id} else multiset{}
  {
    var g, g' := Group(tabs, d), Group(tabs + [t], d);
    UnfoldGroup(tabs, t, d);
    StarTargets(g');
    StarTargets(g);
    if t.domain == d {
      assert g' == g + [t.id];
      assert Targets(Star(g')) == g[1..] + [t.id];
    } else {
      assert g' == g;
    }
  }

  /** Appending a tab adds its id to the targets iff its domain is already
      among `o`. */
  lemma {:induction false} StarsTargetsStep(tabs: seq<Tab>, t: Tab, o: seq<string>)
    requires NoDup(o)
    requires forall d :: d in o ==> Group(tabs, d) != []
    ensures multiset(Targets(Stars(tabs + [t], o)))
         == multiset(Targets(Stars(tabs, o))) + if t.domain in o then multiset{t.id} else multiset{}
    decreases |o|
  {
    if o != [] {
      var d := Last(o);
      assert NoDup(Init(o));
      StarsTargetsStep(tabs, t, Init(o));
      assert forall i :: 0 <= i < |Init(o)| ==> Init(o)[i] != d;
      assert t.domain in o <==> t.domain in Init(o) || t.domain == d;
      StarsTargetsSplit(tabs + [t], o);
      StarsTargetsSplit(tabs, o);
      GroupStepTargets(tabs, t, d);
    }
  }

  /** The targets are, as a multiset, the ids of the tabs that are not the
      first of their domain. */
  lemma {:induction false} DomainLinksTargets(tabs: seq<Tab>)
    ensures multiset(Targets(DomainLinks(tabs))) == multiset(LaterIds(tabs))
    decreases |tabs|
  {
    if tabs != [] {
      var p, t := Init(tabs), Last(tabs);
      assert tabs == p + [t];
      DomainLinksTargets(p);
      var o := DomainOrder(p);
      DomainOrderFacts(p);
      StarsTargetsStep(p, t, o);
      UnfoldOrder(p, t);
      UnfoldGroup(p, t, t.domain);
      if t.domain !in o {
        var o' := o + [t.domain];
        assert Init(o') == o && Last(o') == t.domain;
        assert Group(tabs, t.domain) == [t.id];
        StarsTargetsSplit(tabs, o');
      }
    }
  }

  lemma {:induction false} LaterIdsCount(tabs: seq<Tab>)
    ensures |LaterIds(tabs)| + |DomainOrder(tabs)| == |tabs|
    decreases |tabs|
  {
    if tabs != [] {
      LaterIdsCount(Init(tabs));
    }
  }

  /** There are as many links as tabs minus distinct domains; no tabs give
      no links. */
  lemma DomainLinksCount(tabs: seq<Tab>)
    ensures |DomainLinks(tabs)| == |tabs| - |DomainOrder(tabs)|
    ensures tabs == [] ==> DomainLinks(tabs) == []
  {
    DomainLinksTargets(tabs);
    LaterIdsCount(tabs);
    assert |multiset(Targets(DomainLinks(tabs)))| == |multiset(LaterIds(tabs))|;
  }

  predicate UniqueIds(tabs: seq<Tab>) {
    forall i, j :: 0 <= i < j < |tabs| ==> tabs[i].id != tabs[j].id
  }

  /** With unique ids, the later ids are exactly the ids of the tabs that are
      not first of their domain, each once. */
  lemma {:induction false} LaterIdsCounts(tabs: seq<Tab>, j: int)
    requires UniqueIds(tabs) && 0 <= j < |tabs|
    ensures multiset(LaterIds(tabs))[tabs[j].id] == if IsFirstOfDomain(tabs, j) then 0 else 1
    decreases |tabs|
  {
    var p, t := Init(tabs), Last(tabs);
    assert tabs == p + [t];
    assert UniqueIds(p);
    if j < |p| {
      LaterIdsCounts(p, j);
      LaterIdsCountEarlier(p, t, j);
    } else {
      assert forall i :: 0 <= i < |p| ==> p[i].id != t.id;
      LaterIdsCountLast(p, t);
    }
  }

  /** Appending a tab with another id leaves the count of an earlier id alone. */
  lemma LaterIdsCountEarlier(p: seq<Tab>, t: Tab, j: int)
    requires 0 <= j < |p| && p[j].id != t.id
    ensures multiset(LaterIds(p + [t]))[p[j].id] == multiset(LaterIds(p))[p[j].id]
    ensures IsFirstOfDomain(p + [t], j) == IsFirstOfDomain(p, j)
  {
    UnfoldOrder(p, t);
    assert forall i :: 0 <= i <= j ==> (p + [t])[i] == p[i];
  }

  /** A fresh id appended is a later id iff its domain was seen before. */
  lemma LaterIdsCountLast(p: seq<Tab>, t: Tab)
    requires forall i :: 0 <= i < |p| ==> p[i].id != t.id
    ensures multiset(LaterIds(p + [t]))[t.id] == if IsFirstOfDomain(p + [t], |p|) then 0 else 1
  {
    UnfoldOrder(p, t);
    LaterIdsAreIds(p);
    assert t.id !in LaterIds(p) by {
      forall x | x in LaterIds(p) ensures x != t.id {
        var i :| 0 <= i < |p| && p[i].id == x;
      }
    }
    FirstOfDomainLast(p, t);
    DomainOrderFacts(p);
    var o := DomainOrder(p);
    if t.domain in o {
      assert LaterIds(p + [t]) == LaterIds(p) + [t.id];
      assert multiset(LaterIds(p + [t]))[t.id] == multiset(LaterIds(p))[t.id] + 1;
    } else {
      assert LaterIds(p + [t]) == LaterIds(p);
    }
  }

  lemma FirstOfDomainLast(p: seq<Tab>, t: Tab)
    ensures IsFirstOfDomain(p + [t], |p|) <==> !HasDomain(p, t.domain)
  {
    var tabs := p + [t];
    assert forall i :: 0 <= i < |p| ==> tabs[i] == p[i];
  }

  lemma {:induction false} LaterIdsAreIds(tabs: seq<Tab>)
    ensures forall x :: x in LaterIds(tabs) ==> exists i :: 0 <= i < |tabs| && tabs[i].id == x
    decreases |tabs|
  {
    if tabs != [] {
      LaterIdsAreIds(Init(tabs));
      forall x | x in LaterIds(tabs) ensures exists i :: 0 <= i < |tabs| && tabs[i].id == x {
        if x in LaterIds(Init(tabs)) {
          var i :| 0 <= i < |Init(tabs)| && Init(tabs)[i].id == x;
          assert tabs[i].id == x;
        } else {
          assert tabs[|tabs| - 1].id == x;
        }
      }
    }
  }

  /** With unique ids: a tab that is first of its domain is the target of no
      link, every other tab is the target of exactly one link, and no link
      joins a tab to itself. */
  lemma UniqueIdsTargets(tabs: seq<Tab>, j: int)
    requires UniqueIds(tabs) && 0 <= j < |tabs|
    ensures multiset(Targets(DomainLinks(tabs)))[tabs[j].id] == if IsFirstOfDomain(tabs, j) then 0 else 1
    ensures forall l :: l in DomainLinks(tabs) ==> l.source != l.target
  {
    DomainLinksTargets(tabs);
    LaterIdsCounts(tabs, j);
    forall l | l in DomainLinks(tabs) ensures l.source != l.target {
      DomainLinksMembers(tabs, l);
      var d, k :| FromDomain(tabs, l, d, k);
      GroupNoDup(tabs, d);
    }
  }

  lemma {:induction false} GroupNoDup(tabs: seq<Tab>, d: string)
    requires UniqueIds(tabs)
    ensures NoDup(Group(tabs, d))
    decreases |tabs|
  {
    if tabs != [] {
      assert UniqueIds(Init(tabs));
      GroupNoDup(Init(tabs), d);
      GroupMembers(Init(tabs), d);
      var t := Last(tabs);
      assert forall i :: 0 <= i < |Init(tabs)| ==> Init(tabs)[i].id != t.id;
      assert t.id !in Group(Init(tabs), d);
    }
  }
}
