/** Adding, deleting and copying XML trees in memory. */
module XmlSurgery {
  import X = XmlTree
  import opened Shapes
  import opened XmlNodes
  import opened Wrappers

  // ---------------------------------------------------------------------------------
  // Adding a child
  // ---------------------------------------------------------------------------------

  /** The writes of xml_add_child, last being the last child of a. */
  function Hooked(m: Mem, a: Ptr, last: Ptr, t: Ptr): Mem
    requires a in m && t in m && (last != 0 ==> last in m)
  {
    var m1 := if last == 0 then m[a := m[a].(child := t)] else m[last := m[last].(next := t)];
    var m2 := if last == 0 then m1 else m1[t := m1[t].(prev := last)];
    m2[t := m2[t].(parent := a)]
  }

  ghost predicate Alone(m: Mem, p: Ptr)
  {
    p in m && m[p].next == 0 && m[p].prev == 0
  }

  lemma HookPtrs(m: Mem, a: Ptr, ps: seq<Ptr>, t: Ptr)
    requires Listed(m, a, ps) && Alone(m, t) && t !in ps && t != a && t != 0
    ensures PtrAt(ps, |ps| - 1) != 0 ==> PtrAt(ps, |ps| - 1) in m
    ensures var n, qs := Hooked(m, a, PtrAt(ps, |ps| - 1), t), ps + [t];
            && n.Keys == m.Keys && Linked(n, a, qs) && n[a] == m[a].(child := PtrAt(qs, 0))
            && forall q :: q in m && q != a ==> if q in qs then Moved(m[q], n[q]) else n[q] == m[q]
  {
    var qs, last := ps + [t], PtrAt(ps, |ps| - 1);
    InList(m, a, ps);
    if |ps| > 0 {
      assert last == qs[|ps| - 1] && last in ps;
    }
    assert qs[|ps|] == t && t in qs && forall q :: q in qs <==> q == t || q in ps;
    var n := Hooked(m, a, last, t);
    forall i | 0 <= i < |qs| ensures LinkedAt(n, a, qs, i) {
      if i < |ps| {
        assert qs[i] == ps[i] && LinkedAt(m, a, ps, i);
        if i < |ps| - 1 {
          Differ(ps, i, |ps| - 1);
        }
      }
    }
  }

  /** A tree that shares nothing with a. */
  ghost predicate Addable(m: Mem, a: Shape, t: Shape)
  {
    Tree(m, a) && Separate(a) && Tree(m, t) && Separate(t) && Footprint(t) !! Footprint(a)
  }

  lemma {:induction false} ViewsJoin(m: Mem, ks: seq<Shape>, t: Shape)
    ensures Views(m, ks + [t]) == Views(m, ks) + [View(m, t)]
  {
    if ks == [] {
      assert ks + [t] == [t];
    } else {
      assert (ks + [t])[1..] == ks[1..] + [t];
      ViewsJoin(m, ks[1..], t);
    }
  }

  /** The old children of a, and t, as a list of its own. */
  lemma Pool(m: Mem, a: Shape, t: Shape)
    requires Addable(m, a, t)
    ensures var ks := a.kids + [t];
            && SeparateAll(ks) && Trees(m, ks) && Own(a) !! Footprints(ks) && Ptrs(ks) == Ptrs(a.kids) + [t.p]
            && Footprints(ks) == Footprints(a.kids) + Footprint(t) && Footprints(ks) <= m.Keys && a.p !in Footprints(ks)
            && (forall i :: 0 <= i < |ks| ==> RootOnly(ks[i], Ptrs(ks)))
            && t.p !in Ptrs(a.kids) && t.p != a.p && t.p != 0
  {
    var ks := a.kids + [t];
    JoinSeparate(a.kids, t);
    assert Trees(m, a.kids);
    forall i | 0 <= i < |ks| ensures Tree(m, ks[i]) {
      assert i < |a.kids| ==> ks[i] == a.kids[i];
    }
    RootsApart(m, ks);
    TreeAt(m, a);
    TreeAt(m, t);
    AllAllocated(m, a);
    AllAllocated(m, t);
    ChildrenListed(m, a);
  }

  /** The nodes after child t is hooked to a. */
  lemma HookNodes(m: Mem, a: Shape, t: Shape)
    requires Addable(m, a, t) && Alone(m, t.p)
    ensures var last, qs := At(a.kids, |a.kids| - 1), Ptrs(a.kids + [t]);
            && a.p in m && t.p in m && (last != 0 ==> last in m)
            && var n := Hooked(m, a.p, last, t.p);
               && n.Keys == m.Keys && Linked(n, a.p, qs) && n[a.p] == m[a.p].(child := PtrAt(qs, 0))
               && Relinked(m, n, Footprints(a.kids + [t]), qs)
               && forall q :: q in m && q !in Footprint(a) + Footprint(t) ==> Keeps(m, n, q)
  {
    Pool(m, a, t);
    ChildrenListed(m, a);
    TreeAt(m, a);
    TreeAt(m, t);
    HookPtrs(m, a.p, Ptrs(a.kids), t.p);
  }

  lemma HookTree(m: Mem, a: Shape, t: Shape)
    requires Addable(m, a, t) && m[a.p].content.Element? && Alone(m, t.p)
    ensures var last, b := At(a.kids, |a.kids| - 1), a.(kids := a.kids + [t]);
            && t.p in m && (last != 0 ==> last in m)
            && var n := Hooked(m, a.p, last, t.p);
               && Tree(n, b) && Separate(b) && Footprint(b) == Footprint(a) + Footprint(t)
               && View(n, b) == View(m, a).(kids := View(m, a).kids + [View(m, t)])
               && n.Keys == m.Keys && n[a.p] == m[a.p].(child := At(b.kids, 0))
               && forall q :: q in m && q !in Footprint(b) ==> Keeps(m, n, q)
  {
    var ks := a.kids + [t];
    HookNodes(m, a, t);
    var n := Hooked(m, a.p, At(a.kids, |a.kids| - 1), t.p);
    HookedTo(m, n, a, t, ks);
  }

  lemma HookedTo(m: Mem, n: Mem, a: Shape, t: Shape, ks: seq<Shape>)
    requires Addable(m, a, t) && m[a.p].content.Element? && ks == a.kids + [t]
    requires a.p in n && n[a.p] == m[a.p].(child := At(ks, 0)) && Linked(n, a.p, Ptrs(ks))
    requires Relinked(m, n, Footprints(ks), Ptrs(ks))
    ensures var b := a.(kids := ks);
            && Tree(n, b) && Separate(b) && Footprint(b) == Footprint(a) + Footprint(t)
            && View(n, b) == View(m, a).(kids := View(m, a).kids + [View(m, t)])
  {
    Pool(m, a, t);
    TreeAt(m, a);
    Relink(m, n, a, ks, Ptrs(ks));
    ViewsJoin(m, a.kids, t);
    assert Own(a.(kids := ks)) == Own(a);
  }

  // ---------------------------------------------------------------------------------
  // Deleting
  // ---------------------------------------------------------------------------------

  /** Node c of list ks was emptied; the links of the list are as they were. */
  lemma StillListed(m: Mem, m1: Mem, b: Shape, k: nat)
    requires Tree(m, b) && Separate(b) && k < |b.kids|
    requires b.kids[k].p in m && b.kids[k].p in m1 && m1[b.kids[k].p] == m[b.kids[k].p].(child := 0)
    requires forall q :: q in m && q !in Footprint(b.kids[k]) ==> Keeps(m, m1, q)
    ensures Listed(m1, b.p, Ptrs(b.kids))
  {
    var ps := Ptrs(b.kids);
    assert Trees(m, b.kids);
    ChildrenListed(m, b);
    TreeAt(m, b);
    FootprintsAt(b.kids, k);
    assert Keeps(m, m1, b.p);
    forall i | 0 <= i < |ps| ensures LinkedAt(m1, b.p, ps, i) {
      assert LinkedAt(m, b.p, ps, i);
      RootApart(m, b.kids, i, k);
      if i != k {
        assert Keeps(m, m1, ps[i]);
      }
    }
  }

  lemma WithoutViews(m: Mem, ks: seq<Shape>, k: nat)
    requires Trees(m, ks) && k < |ks|
    ensures Trees(m, Without(ks, k)) && Views(m, Without(ks, k)) == Views(m, ks)[..k] + Views(m, ks)[k + 1..]
  {
    var ls, vs := Without(ks, k), Views(m, ks)[..k] + Views(m, ks)[k + 1..];
    forall i | 0 <= i < |ls| ensures Views(m, ls)[i] == vs[i] && Tree(m, ls[i]) {
      ViewsAt(m, ls, i);
      ViewsAt(m, ks, if i < k then i else i + 1);
    }
  }

  /** What is left of the children, before and after. */
  lemma RestParts(m: Mem, b: Shape, k: nat)
    requires Tree(m, b) && Separate(b) && k < |b.kids|
    ensures var ls, t := Without(b.kids, k), b.kids[k];
            && Trees(m, ls) && SeparateAll(ls) && Own(b) !! Footprints(ls) && Footprint(t) !! Footprints(ls)
            && Footprints(ls) <= m.Keys && b.p !in Footprint(t) && b.p !in Footprints(ls)
            && Footprints(b.kids) == Footprint(t) + Footprints(ls)
            && Ptrs(ls) == PtrsWithout(Ptrs(b.kids), k) && t.p in Footprint(t) && t.p !in Ptrs(ls)
            && (forall i :: 0 <= i < |ls| ==> RootOnly(ls[i], Ptrs(b.kids)))
            && Own(b.(kids := ls)) == Own(b)
  {
    var ls, t := Without(b.kids, k), b.kids[k];
    assert Trees(m, b.kids);
    FootprintsWithout(b.kids, k);
    WithoutViews(m, b.kids, k);
    ChildrenListed(m, b);
    AllAllocated(m, b);
    TreeAt(m, b);
    TreeAt(m, t);
    forall i | 0 <= i < |ls| ensures RootOnly(ls[i], Ptrs(b.kids)) && ls[i].p != t.p {
      var j := if i < k then i else i + 1;
      assert RootOnly(b.kids[j], Ptrs(b.kids));
      RootApart(m, b.kids, j, k);
    }
  }

  /** The nodes after child k of b was emptied and unhooked. */
  lemma DeletedNodes(m: Mem, m1: Mem, b: Shape, k: nat)
    requires Tree(m, b) && Separate(b) && k < |b.kids|
    requires m1.Keys == m.Keys - Footprints(b.kids[k].kids) && b.kids[k].p in m1 && b.kids[k].p in m
    requires m1[b.kids[k].p] == m[b.kids[k].p].(child := 0)
    requires forall q :: q in m && q !in Footprint(b.kids[k]) ==> Keeps(m, m1, q)
    ensures var c := b.kids[k].p;
            c in m1 && (m1[c].prev != 0 ==> m1[c].prev in m1) && (m1[c].next != 0 ==> m1[c].next in m1) && m1[c].parent == b.p
    ensures b.p in m1 && b.p != 0 && b.p in m && m1[b.p] == m[b.p] && b.p != b.kids[k].p
    ensures var n1, r := Unhooked(m1, b.kids[k].p), PtrsWithout(Ptrs(b.kids), k);
            && n1.Keys == m1.Keys && Linked(n1, b.p, r) && n1[b.p] == m1[b.p].(child := PtrAt(r, 0))
            && forall q :: q in m1 && q != b.p ==> if q in Ptrs(b.kids) then Moved(m1[q], n1[q]) else n1[q] == m1[q]
  {
    TreeAt(m, b);
    assert Trees(m, b.kids);
    TreeAt(m, b.kids[k]);
    FootprintsAt(b.kids, k);
    assert Keeps(m, m1, b.p);
    StillListed(m, m1, b, k);
    UnhookPtrs(m1, b.p, Ptrs(b.kids), k);
  }

  lemma ReleaseLinked(n1: Mem, a: Ptr, ps: seq<Ptr>, c: Ptr)
    requires Linked(n1, a, ps) && c !in ps
    ensures Linked(n1 - {c}, a, ps)
  {
    forall i | 0 <= i < |ps| ensures LinkedAt(n1 - {c}, a, ps, i) {
      assert LinkedAt(n1, a, ps, i);
    }
  }

  /** The parent of a node that was emptied, unhooked and released. */
  lemma Deleted(m: Mem, m1: Mem, b: Shape, k: nat)
    requires Tree(m, b) && Separate(b) && k < |b.kids|
    requires m1.Keys == m.Keys - Footprints(b.kids[k].kids) && b.kids[k].p in m1 && b.kids[k].p in m
    requires m1[b.kids[k].p] == m[b.kids[k].p].(child := 0)
    requires forall q :: q in m && q !in Footprint(b.kids[k]) ==> Keeps(m, m1, q)
    ensures var c := b.kids[k].p;
            c in m1 && (m1[c].prev != 0 ==> m1[c].prev in m1) && (m1[c].next != 0 ==> m1[c].next in m1) && m1[c].parent == b.p
    ensures b.p in m1 && b.p != 0
    ensures var n, e := Unhooked(m1, b.kids[k].p) - {b.kids[k].p}, b.(kids := Without(b.kids, k));
            && Tree(n, e) && Separate(e) && Footprint(e) == Footprint(b) - Footprint(b.kids[k])
            && View(n, e) == View(m, b).(kids := View(m, b).kids[..k] + View(m, b).kids[k + 1..])
            && n.Keys == m.Keys - Footprint(b.kids[k])
            && b.p in n && n[b.p] == m[b.p].(child := At(e.kids, 0))
            && forall q :: q in m && q !in Footprint(b) ==> Keeps(m, n, q)
  {
    DeletedNodes(m, m1, b, k);
    RestPtrs(m, b, k);
    var c := b.kids[k].p;
    var n1 := Unhooked(m1, c);
    ReleaseLinked(n1, b.p, PtrsWithout(Ptrs(b.kids), k), c);
    var n := n1 - {c};
    WithoutChild(m, m1, n, b, k);
    OutsideKept(m, m1, n, b, k);
    OneGone(m, b, k);
  }

  lemma RestPtrs(m: Mem, b: Shape, k: nat)
    requires Tree(m, b) && Separate(b) && k < |b.kids|
    ensures var ls := Without(b.kids, k);
            && Ptrs(ls) == PtrsWithout(Ptrs(b.kids), k) && b.kids[k].p !in Ptrs(ls)
            && At(ls, 0) == PtrAt(PtrsWithout(Ptrs(b.kids), k), 0)
  {
    RestParts(m, b, k);
  }

  lemma OneGone(m: Mem, b: Shape, k: nat)
    requires Tree(m, b) && Separate(b) && k < |b.kids|
    ensures var e, t := b.(kids := Without(b.kids, k)), b.kids[k];
            && Footprint(e) == Footprint(b) - Footprint(t)
            && forall s: set<Ptr> :: s - Footprints(t.kids) - {t.p} == s - Footprint(t)
  {
    RestParts(m, b, k);
    assert Trees(m, b.kids);
    TreeAt(m, b.kids[k]);
    TreeAt(m, b);
  }

  lemma WithoutChild(m: Mem, m1: Mem, n: Mem, b: Shape, k: nat)
    requires Tree(m, b) && Separate(b) && k < |b.kids|
    requires forall q :: q in m && q !in Footprint(b.kids[k]) ==> Keeps(m, m1, q)
    requires forall q :: q in m1 && q != b.p && q != b.kids[k].p ==> q in n && if q in Ptrs(b.kids) then Moved(m1[q], n[q]) else n[q] == m1[q]
    requires b.p in n && b.p in m && n[b.p] == m[b.p].(child := At(Without(b.kids, k), 0))
    requires Linked(n, b.p, Ptrs(Without(b.kids, k)))
    ensures var e := b.(kids := Without(b.kids, k));
            && Tree(n, e) && Separate(e)
            && View(m, b).Element? && k < |View(m, b).kids|
            && View(n, e) == View(m, b).(kids := View(m, b).kids[..k] + View(m, b).kids[k + 1..])
  {
    var ls := Without(b.kids, k);
    HasKids(m, b, k);
    RestParts(m, b, k);
    forall q | q in Footprints(ls) ensures q in m && q in n && if q in Ptrs(b.kids) then Moved(m[q], n[q]) else n[q] == m[q] {
      assert Keeps(m, m1, q);
    }
    assert Trees(m, b.kids);
    WithoutViews(m, b.kids, k);
    Relink(m, n, b, ls, Ptrs(b.kids));
  }

  lemma HasKids(m: Mem, b: Shape, k: nat)
    requires Tree(m, b) && k < |b.kids|
    ensures m[b.p].content.Element?
  {
  }

  lemma OutsideKept(m: Mem, m1: Mem, n: Mem, b: Shape, k: nat)
    requires Tree(m, b) && Separate(b) && k < |b.kids|
    requires forall q :: q in m && q !in Footprint(b.kids[k]) ==> Keeps(m, m1, q)
    requires forall q :: q in m1 && q != b.p && q !in Ptrs(b.kids) ==> Keeps(m1, n, q)
    ensures forall q :: q in m && q !in Footprint(b) ==> Keeps(m, n, q)
  {
    TreeAt(m, b);
    ChildrenListed(m, b);
    FootprintsAt(b.kids, k);
    forall q | q in m && q !in Footprint(b) ensures Keeps(m, n, q) {
      assert Keeps(m, m1, q) && Keeps(m1, n, q);
    }
  }

  /** The first child gone. */
  lemma FirstGone(cur: Shape, t: Shape, i: nat)
    requires i < |t.kids| && cur == t.(kids := t.kids[i..])
    ensures cur.kids[0] == t.kids[i] && cur.(kids := Without(cur.kids, 0)) == t.(kids := t.kids[i + 1..])
    ensures Footprints(t.kids[..i + 1]) == Footprints(t.kids[..i]) + Footprint(t.kids[i])
    ensures Footprint(cur) <= Footprint(t)
  {
    assert t.kids[i..][1..] == t.kids[i + 1..];
    FootprintsJoin(t.kids[..i], [t.kids[i]]);
    Singleton(t.kids[i]);
    assert t.kids[..i + 1] == t.kids[..i] + [t.kids[i]];
    FootprintsJoin(t.kids[..i], t.kids[i..]);
    assert t.kids == t.kids[..i] + t.kids[i..];
  }

  /** A tree without its first i children. */
  function Rest(t: Shape, i: nat): Shape
    requires i <= |t.kids|
  {
    t.(kids := t.kids[i..])
  }

  /** From memory m to memory n, the first i children of t were deleted. */
  ghost predicate ClearedTo(m: Mem, n: Mem, t: Shape, i: nat)
  {
    && i <= |t.kids| && Tree(n, Rest(t, i)) && Separate(Rest(t, i)) && t.p in m && t.p in n
    && n[t.p] == m[t.p].(child := At(Rest(t, i).kids, 0))
    && n.Keys == m.Keys - Footprints(t.kids[..i])
    && forall q :: q in m && q !in Footprint(t) ==> Keeps(m, n, q)
  }

  lemma ClearedMore(m: Mem, n: Mem, n1: Mem, t: Shape, i: nat)
    requires ClearedTo(m, n, t, i) && i < |t.kids|
    requires var e := Rest(t, i).(kids := Without(Rest(t, i).kids, 0));
             && Tree(n1, e) && Separate(e) && n1.Keys == n.Keys - Footprint(t.kids[i])
             && t.p in n1 && n1[t.p] == n[t.p].(child := At(e.kids, 0))
    requires forall q :: q in n && q !in Footprint(Rest(t, i)) ==> Keeps(n, n1, q)
    ensures ClearedTo(m, n1, t, i + 1)
  {
    FirstGone(Rest(t, i), t, i);
    forall q | q in m && q !in Footprint(t) ensures Keeps(m, n1, q) {
      assert Keeps(m, n, q) && Keeps(n, n1, q);
    }
  }

  lemma ClearedFirst(m: Mem, n: Mem, t: Shape, i: nat)
    requires ClearedTo(m, n, t, i)
    ensures i < |t.kids| ==> n[t.p].child == t.kids[i].p && t.kids[i].p != 0 && Tree(n, t.kids[i]) && Separate(t.kids[i])
    ensures i == |t.kids| ==> n[t.p].child == 0
  {
    var c := Rest(t, i);
    FirstChild(n, c);
    if i < |t.kids| {
      assert c.kids[0] == t.kids[i] && Trees(n, c.kids) && SeparateAll(c.kids);
      TreeAt(n, c.kids[0]);
    }
  }

  lemma FirstChild(m: Mem, t: Shape)
    requires Tree(m, t)
    ensures m[t.p].child == 0 <==> t.kids == []
    ensures t.kids != [] ==> m[t.p].child == t.kids[0].p
  {
    assert Trees(m, t.kids);
    if t.kids != [] {
      TreeAt(m, t.kids[0]);
    }
  }

  // ---------------------------------------------------------------------------------
  // Copies
  // ---------------------------------------------------------------------------------

  ghost predicate Grown(m: Mem, n: Mem)
  {
    forall q :: q in m ==> Keeps(m, n, q)
  }

  /** d is in new memory and is all there is in it. */
  ghost predicate NewTree(m: Mem, n: Mem, d: Shape)
  {
    && Tree(n, d) && Separate(d) && Footprint(d) !! m.Keys && n.Keys == m.Keys + Footprint(d) && Grown(m, n)
    && Alone(n, d.p) && n[d.p].parent == 0
  }

  lemma GrownTree(m: Mem, n: Mem, t: Shape)
    requires Tree(m, t) && Grown(m, n)
    ensures Tree(n, t) && View(n, t) == View(m, t)
  {
    AllAllocated(m, t);
    forall q | q in Footprint(t) ensures Keeps(m, n, q) {
    }
    TreeSame(m, n, t);
  }

  /** d is a copy in new memory of t with its first i children. */
  ghost predicate CopyUpTo(m: Mem, n: Mem, t: Shape, d: Shape, i: nat)
  {
    && Tree(m, t) && NewTree(m, n, d) && i <= |t.kids| && m[t.p].content.Element?
    && View(m, t).Element? && |View(m, t).kids| == |t.kids|
    && View(n, d) == View(m, t).(kids := View(m, t).kids[..i])
  }

  lemma KeepsTwice(m: Mem, n: Mem, k: Mem)
    requires Grown(m, n) && forall q :: q in m ==> Keeps(n, k, q)
    ensures Grown(m, k)
  {
    forall q | q in m ensures Keeps(m, k, q) {
      assert Keeps(m, n, q) && Keeps(n, k, q);
    }
  }

  /** A new tree hooked to a new tree is a new tree. */
  lemma HookNew(m: Mem, n: Mem, n1: Mem, d: Shape, c: Shape)
    requires NewTree(m, n, d) && n[d.p].content.Element? && NewTree(n, n1, c)
    ensures var last, e := At(d.kids, |d.kids| - 1), d.(kids := d.kids + [c]);
            && d.p in n1 && c.p in n1 && (last != 0 ==> last in n1)
            && var n2 := Hooked(n1, d.p, last, c.p);
               && NewTree(m, n2, e)
               && View(n2, e) == View(n, d).(kids := View(n, d).kids + [View(n1, c)])
  {
    TreeAt(n, d);
    GrownTree(n, n1, d);
    AllAllocated(n, d);
    assert Keeps(n, n1, d.p);
    HookTree(n1, d, c);
    var n2 := Hooked(n1, d.p, At(d.kids, |d.kids| - 1), c.p);
    KeepsTwice(m, n, n1);
    KeepsTwice(m, n1, n2);
  }

  lemma OneMoreView(m: Mem, n: Mem, t: Shape, i: nat)
    requires Tree(m, t) && Grown(m, n) && View(m, t).Element? && i < |t.kids|
    ensures |View(m, t).kids| == |t.kids|
    ensures View(m, t).kids[..i] + [View(n, t.kids[i])] == View(m, t).kids[..i + 1]
  {
    assert Trees(m, t.kids);
    GrownTree(m, n, t.kids[i]);
    ViewsAt(m, t.kids, i);
  }

  /** One more child copied. */
  lemma CopyMore(m: Mem, n: Mem, n1: Mem, n2: Mem, t: Shape, d: Shape, i: nat, c: Shape)
    requires CopyUpTo(m, n, t, d, i) && i < |t.kids|
    requires NewTree(n, n1, c) && View(n1, c) == View(n, t.kids[i])
    requires var last := At(d.kids, |d.kids| - 1);
             && d.p in n1 && c.p in n1 && (last != 0 ==> last in n1) && n2 == Hooked(n1, d.p, last, c.p)
    ensures CopyUpTo(m, n2, t, d.(kids := d.kids + [c]), i + 1)
  {
    assert View(n, d).Element?;
    HookNew(m, n, n1, d, c);
    OneMoreView(m, n, t, i);
  }

  class XmlMemory {
    var nodes: Mem
    // addresses from here on have not been handed out
    var top: Ptr

    ghost predicate Valid()
      reads this
    {
      0 < top && forall p :: p in nodes ==> 0 < p < top
    }

    constructor ()
      ensures Valid() && nodes == map[]
    {
      nodes, top := map[], 1;
    }

    /** xml_new_element and xml_new_text: a node that is linked to nothing. */
    method NewNode(content: X.Node) returns (p: Ptr)
      requires Valid() && (content.Element? ==> content.kids == [])
      modifies this
      ensures Valid() && p != 0 && p !in old(nodes) && nodes == old(nodes)[p := Cell(content, 0, 0, 0, 0)]
    {
      p := top;
      nodes, top := nodes[p := Cell(content, 0, 0, 0, 0)], top + 1;
    }

    /** Only a node that is allocated may be released. */
    method Free(p: Ptr)
      requires Valid() && p in nodes
      modifies this`nodes
      ensures Valid() && nodes == old(nodes) - {p}
    {
      nodes := nodes - {p};
    }

    /** Appends a child to an element; a text node takes none. */
    method AddChild(node: Ptr, child: Ptr, ghost a: Shape, ghost t: Shape)
      requires Valid() && node == a.p && child == t.p && Addable(nodes, a, t) && Alone(nodes, child)
      modifies this`nodes
      ensures Valid()
      ensures if old(nodes)[node].content.Text? then nodes == old(nodes)
              else
                var b, last := a.(kids := a.kids + [t]), At(a.kids, |a.kids| - 1);
                && (last != 0 ==> last in old(nodes)) && nodes == Hooked(old(nodes), node, last, child)
                && Tree(nodes, b) && Separate(b) && Footprint(b) == Footprint(a) + Footprint(t)
                && View(nodes, b) == old(View(nodes, a)).(kids := old(View(nodes, a)).kids + [old(View(nodes, t))])
    {
      TreeAt(nodes, a);
      if nodes[node].content.Element? {
        HookTree(nodes, a, t);
        TreeAt(nodes, t);
        var last := Last(node, a);
        if last != 0 {
          nodes := nodes[last := nodes[last].(next := child)];
          nodes := nodes[child := nodes[child].(prev := last)];
        } else {
          nodes := nodes[node := nodes[node].(child := child)];
        }
        nodes := nodes[child := nodes[child].(parent := node)];
      }
    }

    /** Walks to the last child. */
    method Last(node: Ptr, ghost a: Shape) returns (last: Ptr)
      requires node == a.p && Tree(nodes, a)
      ensures last == At(a.kids, |a.kids| - 1) && (last != 0 ==> last in nodes)
    {
      last := nodes[node].child;
      FirstChild(nodes, a);
      if last != 0 {
        ghost var i := 0;
        NextChild(nodes, nodes, a, 0);
        while nodes[last].next != 0
          invariant i < |a.kids| && last == a.kids[i].p && last in nodes
          invariant nodes[last].next == At(a.kids, i + 1)
          invariant At(a.kids, i + 1) == 0 <==> i + 1 == |a.kids|
          decreases |a.kids| - i
        {
          NextChild(nodes, nodes, a, i + 1);
          last, i := nodes[last].next, i + 1;
        }
      }
    }

    /** Deletes the first child that is left. */
    method DeleteFirst(node: Ptr, ghost m: Mem, ghost t: Shape, ghost i: nat)
      requires Valid() && node == t.p && ClearedTo(m, nodes, t, i) && i < |t.kids|
      modifies this`nodes
      ensures Valid() && ClearedTo(m, nodes, t, i + 1)
      decreases t, 0
    {
      ghost var n := nodes;
      ClearedFirst(m, nodes, t, i);
      FirstGone(Rest(t, i), t, i);
      DeleteTree(nodes[node].child, t.kids[i], Some(Rest(t, i)), 0);
      ClearedMore(m, n, nodes, t, i);
    }

    /** Deletes all children: each time the first one, until there is none. */
    method ClearChild(node: Ptr, ghost t: Shape)
      requires Valid() && node == t.p && Tree(nodes, t) && Separate(t)
      modifies this`nodes
      ensures Valid() && nodes.Keys == old(nodes).Keys - Footprints(t.kids)
      ensures node in old(nodes) && node in nodes && nodes[node] == old(nodes)[node].(child := 0)
      ensures forall q :: q in old(nodes) && q !in Footprint(t) ==> Keeps(old(nodes), nodes, q)
      decreases t, 1
    {
      ghost var m, i := nodes, 0;
      assert t.kids[0..] == t.kids && t.kids[..0] == [];
      TreeAt(nodes, t);
      ClearedFirst(m, nodes, t, i);
      while nodes[node].child != 0
        invariant Valid() && ClearedTo(m, nodes, t, i)
        invariant nodes[node].child == 0 <==> i == |t.kids|
        decreases |t.kids| - i
      {
        DeleteFirst(node, m, t, i);
        i := i + 1;
        ClearedFirst(m, nodes, t, i);
      }
      assert t.kids[..i] == t.kids;
    }

    /** xml_delete_tree on child k of b, or on a node without parent and neighbours: releases exactly the nodes of
        the tree; a parent is left with its other children, linked as they should be. */
    method DeleteTree(root: Ptr, ghost t: Shape, ghost b: Option<Shape>, ghost k: nat)
      requires Valid() && root == t.p && Tree(nodes, t) && Separate(t)
      requires match b
               case None => nodes[root].parent == 0 && nodes[root].prev == 0
               case Some(a) => Tree(nodes, a) && Separate(a) && k < |a.kids| && a.kids[k] == t
      modifies this`nodes
      ensures Valid()
      ensures match b
              case None => nodes == old(nodes) - Footprint(t)
              case Some(a) =>
                var e, was := a.(kids := Without(a.kids, k)), old(View(nodes, a));
                && Tree(nodes, e) && Separate(e) && Footprint(e) == Footprint(a) - Footprint(t)
                && was.Element? && View(nodes, e) == was.(kids := was.kids[..k] + was.kids[k + 1..])
                && nodes.Keys == old(nodes).Keys - Footprint(t)
                && a.p in old(nodes) && a.p in nodes && nodes[a.p] == old(nodes)[a.p].(child := At(e.kids, 0))
                && forall q :: q in old(nodes) && q !in Footprint(a) ==> Keeps(old(nodes), nodes, q)
      decreases t, 2
    {
      ghost var m := nodes;
      TreeAt(nodes, t);
      ClearChild(root, t);
      if b.Some? {
        HasKids(m, b.value, k);
        Deleted(m, nodes, b.value, k);
        TreeAt(m, b.value);
      }
      Unhook(root, b.None?);
      Free(root);
      if b.None? {
        AllAllocated(m, t);
        assert nodes == m - Footprint(t);
      }
    }

    /** Leaves parent and neighbours. */
    method Unhook(root: Ptr, ghost loose: bool)
      requires Valid() && root in nodes
      requires (nodes[root].prev != 0 ==> nodes[root].prev in nodes) || loose
      requires (nodes[root].next != 0 ==> nodes[root].next in nodes) || loose
      requires (nodes[root].parent != 0 ==> nodes[root].parent in nodes) || loose
      requires loose ==> nodes[root].prev == 0 && nodes[root].parent == 0
      modifies this`nodes
      ensures Valid() && if loose then nodes == old(nodes) else nodes == Unhooked(old(nodes), root)
    {
      var parent, prev, next := nodes[root].parent, nodes[root].prev, nodes[root].next;
      if prev != 0 {
        nodes := nodes[prev := nodes[prev].(next := next)];
        if next != 0 {
          nodes := nodes[next := nodes[next].(prev := prev)];
        }
      } else if parent != 0 {
        nodes := nodes[parent := nodes[parent].(child := next)];
        if next != 0 {
          nodes := nodes[next := nodes[next].(prev := 0)];
        }
      }
    }

    /** A copy in new memory that says the same; existing nodes are unchanged. */
    method CopyTree(root: Ptr, ghost t: Shape) returns (copy: Ptr, ghost d: Shape)
      requires Valid() && root == t.p && Tree(nodes, t)
      modifies this
      ensures Valid() && copy == d.p && NewTree(old(nodes), nodes, d)
      ensures View(nodes, d) == old(View(nodes, t))
      decreases t
    {
      ghost var m := nodes;
      TreeAt(m, t);
      copy := NewNode(nodes[root].content);
      d := Shape(copy, false, 0, 0, []);
      assert Footprint(d) == {copy};
      if nodes[root].content.Text? {
        return;
      }
      assert View(m, t).kids[..0] == [];
      var child := nodes[root].child;
      ghost var i := 0;
      FirstChild(m, t);
      while child != 0
        invariant Valid() && copy == d.p && CopyUpTo(m, nodes, t, d, i)
        invariant child == At(t.kids, i) && (child == 0 <==> i == |t.kids|)
        decreases |t.kids| - i
      {
        d := CopyChild(child, copy, m, t, d, i);
        NextChild(m, nodes, t, i);
        child, i := nodes[child].next, i + 1;
      }
      assert View(m, t).kids[..i] == View(m, t).kids;
    }

    /** Copies child i and adds it to the copy so far. */
    method CopyChild(child: Ptr, copy: Ptr, ghost m: Mem, ghost t: Shape, ghost d: Shape, ghost i: nat) returns (ghost e: Shape)
      requires Valid() && copy == d.p && CopyUpTo(m, nodes, t, d, i) && i < |t.kids| && child == t.kids[i].p
      modifies this
      ensures Valid() && copy == e.p && CopyUpTo(m, nodes, t, e, i + 1)
      decreases t, 0
    {
      ghost var n := nodes;
      assert Trees(m, t.kids);
      GrownTree(m, n, t.kids[i]);
      TreeAt(n, d);
      var c;
      ghost var k;
      c, k := CopyTree(child, t.kids[i]);
      ghost var n1 := nodes;
      GrownTree(n, n1, d);
      AllAllocated(n, d);
      assert Keeps(n, n1, copy);
      AddChild(copy, c, d, k);
      CopyMore(m, n, n1, nodes, t, d, i, k);
      e := d.(kids := d.kids + [k]);
    }
  }

  lemma NextChild(m: Mem, n: Mem, t: Shape, i: nat)
    requires Tree(m, t) && Grown(m, n) && i < |t.kids|
    ensures t.kids[i].p in n && n[t.kids[i].p].next == At(t.kids, i + 1)
    ensures At(t.kids, i + 1) == 0 <==> i + 1 == |t.kids|
  {
    assert LinkedAt(m, t.p, Ptrs(t.kids), i) && Trees(m, t.kids);
    assert Keeps(m, n, t.kids[i].p);
    if i + 1 < |t.kids| {
      TreeAt(m, t.kids[i + 1]);
    }
  }
}
