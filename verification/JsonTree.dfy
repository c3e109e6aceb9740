/** Building and taking apart cJSON trees in memory. */
module JsonTree {
  import opened JsonHeap
  import opened Shapes

  function SetNext(m: Mem, p: Ptr, x: Ptr): Mem
    requires p in m && m[p].Cell?
  {
    m[p := m[p].(next := x)]
  }

  function SetPrev(m: Mem, p: Ptr, x: Ptr): Mem
    requires p in m && m[p].Cell?
  {
    m[p := m[p].(prev := x)]
  }

  function SetChild(m: Mem, p: Ptr, x: Ptr): Mem
    requires p in m && m[p].Cell?
  {
    m[p := m[p].(child := x)]
  }

  // ---------------------------------------------------------------------------------
  // Linked lists
  // ---------------------------------------------------------------------------------

  ghost predicate LinkedPtrs(m: Mem, ps: seq<Ptr>)
  {
    forall i :: 0 <= i < |ps| ==> PtrLinkedAt(m, ps, i)
  }

  ghost predicate PtrLinkedAt(m: Mem, ps: seq<Ptr>, i: int)
  {
    IsCell(m, PtrAt(ps, i)) && m[PtrAt(ps, i)].next == PtrAt(ps, i + 1) && m[PtrAt(ps, i)].prev == PtrAt(ps, i - 1)
  }

  lemma LinkedByPtrs(m: Mem, ks: seq<Shape>)
    ensures Linked(m, ks) <==> LinkedPtrs(m, Ptrs(ks))
  {
    var ps := Ptrs(ks);
    forall i | 0 <= i < |ks| ensures LinkedAt(m, ks, i) <==> PtrLinkedAt(m, ps, i) {
      assert At(ks, i) == PtrAt(ps, i) && At(ks, i + 1) == PtrAt(ps, i + 1) && At(ks, i - 1) == PtrAt(ps, i - 1);
    }
  }

  function Appended(m: Mem, a: Ptr, last: Ptr, t: Ptr): Mem
    requires a in m && m[a].Cell? && t in m && m[t].Cell? && (last != 0 ==> last in m && m[last].Cell?)
  {
    if last == 0 then SetChild(m, a, t) else SetPrev(SetNext(m, last, t), t, last)
  }

  ghost predicate Alone(m: Mem, p: Ptr)
  {
    IsCell(m, p) && m[p].next == 0 && m[p].prev == 0
  }

  lemma AppendPtrs(m: Mem, a: Ptr, ps: seq<Ptr>, t: Ptr)
    requires IsCell(m, a) && m[a].child == PtrAt(ps, 0) && LinkedPtrs(m, ps)
    requires Alone(m, t) && NoDup(ps + [t]) && a !in ps && a != t
    ensures var last := PtrAt(ps, |ps| - 1);
            && (last != 0 ==> IsCell(m, last))
            && var n := Appended(m, a, last, t);
               && Relinked(m, n, a, ps + [t]) && n[a] == m[a].(child := PtrAt(ps + [t], 0)) && LinkedPtrs(n, ps + [t])
  {
    var qs := ps + [t];
    var last := PtrAt(ps, |ps| - 1);
    if |ps| > 0 {
      assert PtrLinkedAt(m, ps, |ps| - 1) && last == qs[|ps| - 1];
    }
    assert qs[|ps|] == t && t in qs && (last != 0 ==> last in qs);
    var n := Appended(m, a, last, t);
    assert forall q :: q in qs ==> q == t || q in ps;
    forall q | q in ps ensures IsCell(m, q) {
      var i :| 0 <= i < |ps| && q == ps[i];
      assert PtrLinkedAt(m, ps, i);
    }
    forall i | 0 <= i < |qs| ensures PtrLinkedAt(n, qs, i) {
      if i < |ps| {
        assert qs[i] == ps[i] && PtrLinkedAt(m, ps, i);
      }
    }
  }

  ghost function Unlinked(m: Mem, a: Ptr, c: Ptr): Mem
    requires a in m && m[a].Cell? && c in m && m[c].Cell?
    requires (m[c].next != 0 ==> IsCell(m, m[c].next)) && (m[c].prev != 0 ==> IsCell(m, m[c].prev))
  {
    var prev, next := m[c].prev, m[c].next;
    var m1 := if prev != 0 then SetNext(m, prev, next) else m;
    var m2 := if next != 0 then SetPrev(m1, next, prev) else m1;
    var m3 := if c == m2[a].child then SetChild(m2, a, next) else m2;
    SetNext(SetPrev(m3, c, 0), c, 0)
  }

  /** Place k of a linked list and its neighbours. */
  ghost predicate Around(m: Mem, ps: seq<Ptr>, k: int)
  {
    && PtrLinkedAt(m, ps, k)
    && (PtrAt(ps, k + 1) != 0 ==> IsCell(m, PtrAt(ps, k + 1)))
    && (PtrAt(ps, k - 1) != 0 ==> IsCell(m, PtrAt(ps, k - 1)))
  }

  lemma AroundHere(m: Mem, ps: seq<Ptr>, k: nat)
    requires LinkedPtrs(m, ps) && k < |ps|
    ensures Around(m, ps, k)
  {
    assert PtrLinkedAt(m, ps, k);
    if k > 0 {
      assert PtrLinkedAt(m, ps, k - 1);
    }
    if k + 1 < |ps| {
      assert PtrLinkedAt(m, ps, k + 1);
    }
  }

  /** A container and its list of children. */
  ghost predicate Listed(m: Mem, a: Ptr, ps: seq<Ptr>)
  {
    IsCell(m, a) && m[a].child == PtrAt(ps, 0) && LinkedPtrs(m, ps) && NoDup(ps) && a !in ps
  }

  lemma NoNull(m: Mem, ps: seq<Ptr>)
    requires LinkedPtrs(m, ps)
    ensures 0 !in ps
  {
    forall i | 0 <= i < |ps| ensures ps[i] != 0 {
      assert PtrLinkedAt(m, ps, i);
    }
  }

  /** One item after unlinking c. */
  lemma UnlinkCell(m: Mem, a: Ptr, c: Ptr, q: Ptr)
    requires IsCell(m, a) && IsCell(m, c) && q in m && a != c
    requires var prev, next := m[c].prev, m[c].next;
             && prev != c && next != c && prev != a && next != a
             && (prev != 0 ==> IsCell(m, prev)) && (next != 0 ==> IsCell(m, next)) && (prev == next ==> next == 0)
    ensures var n, prev, next := Unlinked(m, a, c), m[c].prev, m[c].next;
            && n.Keys == m.Keys
            && n[q] == if q == c then m[q].(next := 0, prev := 0)
                       else if q == a then m[q].(child := if m[a].child == c then next else m[a].child)
                       else if q == prev && q != 0 then m[q].(next := next)
                       else if q == next && q != 0 then m[q].(prev := prev)
                       else m[q]
  {
  }

  lemma UnlinkPtrs(m: Mem, a: Ptr, ps: seq<Ptr>, k: nat)
    requires Listed(m, a, ps) && k < |ps|
    ensures Around(m, ps, k)
    ensures var n, r := Unlinked(m, a, ps[k]), PtrsWithout(ps, k);
            && Relinked(m, n, a, ps) && n[a] == m[a].(child := PtrAt(r, 0)) && LinkedPtrs(n, r) && Alone(n, ps[k])
  {
    var c := ps[k];
    AroundHere(m, ps, k);
    NoNull(m, ps);
    Neighbours(ps, k, k);
    if k + 1 < |ps| {
      Neighbours(ps, k, k + 1);
    }
    var n, r := Unlinked(m, a, c), PtrsWithout(ps, k);
    assert PtrAt(ps, k + 1) != 0 ==> PtrAt(ps, k + 1) in ps;
    assert PtrAt(ps, k - 1) != 0 ==> PtrAt(ps, k - 1) in ps;
    UnlinkCell(m, a, c, a);
    UnlinkCell(m, a, c, c);
    forall q | q in m ensures q != a ==> if q in ps then SiblingsOnly(m[q], n[q]) else n[q] == m[q] {
      UnlinkCell(m, a, c, q);
      if q in ps {
        var i :| 0 <= i < |ps| && q == ps[i];
        assert PtrLinkedAt(m, ps, i);
      }
    }
    forall i | 0 <= i < |r| ensures PtrLinkedAt(n, r, i) {
      var j := if i < k then i else i + 1;
      AroundHere(m, ps, j);
      Neighbours(ps, k, j);
      UnlinkCell(m, a, c, ps[j]);
    }
  }

  ghost function Swapped(m: Mem, a: Ptr, c: Ptr, t: Ptr): Mem
    requires a in m && m[a].Cell? && c in m && m[c].Cell? && t in m && m[t].Cell?
    requires (m[c].next != 0 ==> IsCell(m, m[c].next)) && (m[c].prev != 0 ==> IsCell(m, m[c].prev))
    requires c != m[a].child ==> m[c].prev != 0
  {
    var prev, next := m[c].prev, m[c].next;
    var m1 := SetPrev(SetNext(m, t, next), t, prev);
    var m2 := if next != 0 then SetPrev(m1, next, t) else m1;
    var m3 := if c == m2[a].child then SetChild(m2, a, t) else SetNext(m2, prev, t);
    SetNext(SetPrev(m3, c, 0), c, 0)
  }

  /** One item after putting t in the place of c. */
  lemma SwapCell(m: Mem, a: Ptr, c: Ptr, t: Ptr, q: Ptr)
    requires IsCell(m, a) && IsCell(m, c) && IsCell(m, t) && q in m && a != c && t != a && t != c
    requires var prev, next := m[c].prev, m[c].next;
             && prev != c && next != c && prev != a && next != a && prev != t && next != t
             && (prev != 0 ==> IsCell(m, prev)) && (next != 0 ==> IsCell(m, next)) && (prev == next ==> next == 0)
             && (c != m[a].child <==> prev != 0)
    ensures var n, prev, next := Swapped(m, a, c, t), m[c].prev, m[c].next;
            && n.Keys == m.Keys
            && n[q] == if q == c then m[q].(next := 0, prev := 0)
                       else if q == t then m[q].(next := next, prev := prev)
                       else if q == a then m[q].(child := if prev == 0 then t else m[a].child)
                       else if q == prev && q != 0 then m[q].(next := t)
                       else if q == next && q != 0 then m[q].(prev := t)
                       else m[q]
  {
  }

  lemma SwapPtrs(m: Mem, a: Ptr, ps: seq<Ptr>, k: nat, t: Ptr)
    requires Listed(m, a, ps) && k < |ps| && IsCell(m, t) && t !in ps && t != a
    ensures Around(m, ps, k) && (ps[k] != m[a].child ==> m[ps[k]].prev != 0)
    ensures var n, r := Swapped(m, a, ps[k], t), ps[k := t];
            && Relinked(m, n, a, ps + [t]) && n[a] == m[a].(child := PtrAt(r, 0)) && LinkedPtrs(n, r) && Alone(n, ps[k])
  {
    var c := ps[k];
    AroundHere(m, ps, k);
    NoNull(m, ps);
    Neighbours(ps, k, k);
    if k + 1 < |ps| {
      Neighbours(ps, k, k + 1);
    }
    assert PtrAt(ps, k + 1) != 0 ==> PtrAt(ps, k + 1) in ps;
    assert PtrAt(ps, k - 1) != 0 ==> PtrAt(ps, k - 1) in ps;
    assert k > 0 ==> PtrAt(ps, k - 1) == ps[k - 1];
    var n, r := Swapped(m, a, c, t), ps[k := t];
    SwapCell(m, a, c, t, a);
    SwapCell(m, a, c, t, c);
    SwapCell(m, a, c, t, t);
    forall q | q in m ensures q != a ==> if q in ps + [t] then SiblingsOnly(m[q], n[q]) else n[q] == m[q] {
      SwapCell(m, a, c, t, q);
      if q in ps {
        var i :| 0 <= i < |ps| && q == ps[i];
        assert PtrLinkedAt(m, ps, i);
      }
    }
    forall i | 0 <= i < |r| ensures PtrLinkedAt(n, r, i) {
      if i != k {
        AroundHere(m, ps, i);
        Neighbours(ps, k, i);
        SwapCell(m, a, c, t, ps[i]);
      }
    }
  }

  // ---------------------------------------------------------------------------------
  // Lists of children
  // ---------------------------------------------------------------------------------

  /** Roots of different trees of a list are different, and in no other tree of it. */
  lemma RootApart(m: Mem, ks: seq<Shape>, i: nat, j: nat)
    requires Trees(m, ks) && SeparateAll(ks) && i < |ks| && j < |ks|
    ensures ks[i].p in m && ks[i].p in Footprint(ks[i])
    ensures i != j ==> ks[i].p != ks[j].p && ks[i].p !in Footprint(ks[j])
  {
    TreeAt(m, ks[i]);
    TreeAt(m, ks[j]);
    if i < j {
      assert Footprint(ks[i]) !! Footprint(ks[j]);
    } else if j < i {
      assert Footprint(ks[j]) !! Footprint(ks[i]);
    }
  }

  lemma RootsApart(m: Mem, ks: seq<Shape>)
    requires Trees(m, ks) && SeparateAll(ks)
    ensures NoDup(Ptrs(ks))
    ensures forall i :: 0 <= i < |ks| ==> RootOnly(ks[i], Ptrs(ks))
  {
    var ps := Ptrs(ks);
    forall i, j | 0 <= i < j < |ks| ensures ps[i] != ps[j] {
      RootApart(m, ks, i, j);
    }
    forall i, q | 0 <= i < |ks| && q in ps && q in Footprint(ks[i]) ensures q == ks[i].p {
      var j :| 0 <= j < |ks| && q == ps[j];
      RootApart(m, ks, j, i);
    }
  }

  /** The roots of the children of a container are not the container. */
  lemma RootsBelow(m: Mem, a: Shape, ks: seq<Shape>)
    requires Trees(m, ks) && Own(a) !! Footprints(ks)
    ensures forall q :: q in Ptrs(ks) ==> q in Footprints(ks) && q !in Own(a)
  {
    forall q | q in Ptrs(ks) ensures q in Footprints(ks) && q !in Own(a) {
      var i :| 0 <= i < |ks| && q == Ptrs(ks)[i];
      TreeAt(m, ks[i]);
      FootprintsAt(ks, i);
    }
  }

  // ---------------------------------------------------------------------------------
  // Appending
  // ---------------------------------------------------------------------------------

  /** A tree that shares nothing with container a. */
  ghost predicate Addable(m: Mem, a: Shape, t: Shape)
  {
    && Tree(m, a) && Separate(a) && !a.reference
    && Tree(m, t) && Separate(t) && Footprint(t) !! Footprint(a)
  }

  lemma Pool(m: Mem, a: Shape, t: Shape)
    requires Addable(m, a, t)
    ensures var ks := a.kids + [t];
            && SeparateAll(ks) && Trees(m, ks) && Own(a) !! Footprints(ks)
            && Footprints(ks) == Footprints(a.kids) + Footprint(t)
  {
    var ks := a.kids + [t];
    JoinSeparate(a.kids, t);
    assert Trees(m, a.kids);
    forall i | 0 <= i < |ks| ensures Tree(m, ks[i]) {
      assert i < |a.kids| ==> ks[i] == a.kids[i];
    }
  }

  /** The children of a container in memory, as a linked list. */
  lemma ChildrenListed(m: Mem, a: Shape)
    requires Tree(m, a) && Separate(a) && !a.reference
    ensures Listed(m, a.p, Ptrs(a.kids))
    ensures forall q :: q in Ptrs(a.kids) ==> q in Footprints(a.kids) && q !in Own(a)
    ensures forall i :: 0 <= i < |a.kids| ==> RootOnly(a.kids[i], Ptrs(a.kids))
  {
    LinkedByPtrs(m, a.kids);
    RootsApart(m, a.kids);
    RootsBelow(m, a, a.kids);
    TreeAt(m, a);
  }

  /** The root of a tree to be added is not in the list yet. */
  lemma NewRoot(m: Mem, a: Shape, t: Shape)
    requires Addable(m, a, t)
    ensures IsCell(m, t.p) && t.p !in Ptrs(a.kids) && t.p != a.p
    ensures Ptrs(a.kids + [t]) == Ptrs(a.kids) + [t.p]
    ensures forall q :: q in Ptrs(a.kids + [t]) ==> q !in Own(a)
  {
    Pool(m, a, t);
    RootsBelow(m, a, a.kids + [t]);
    ChildrenListed(m, a);
    TreeAt(m, a);
    TreeAt(m, t);
    assert Ptrs(a.kids + [t]) == Ptrs(a.kids) + [t.p];
  }

  lemma AppendTree(m: Mem, a: Shape, t: Shape)
    requires Addable(m, a, t) && Alone(m, t.p)
    ensures var last, b := At(a.kids, |a.kids| - 1), a.(kids := a.kids + [t]);
            && (last != 0 ==> IsCell(m, last))
            && var n := Appended(m, a.p, last, t.p);
               && Tree(n, b) && Separate(b) && Footprint(b) == Footprint(a) + Footprint(t)
               && View(n, b) == View(m, a).(kids := View(m, a).kids + [View(m, t)])
               && Relinked(m, n, a.p, Ptrs(b.kids)) && n[a.p] == m[a.p].(child := At(b.kids, 0))
  {
    NewRoot(m, a, t);
    ChildrenListed(m, a);
    Pool(m, a, t);
    RootsApart(m, a.kids + [t]);
    AppendPtrs(m, a.p, Ptrs(a.kids), t.p);
    AppendedTree(m, Appended(m, a.p, At(a.kids, |a.kids| - 1), t.p), a, t);
  }

  lemma AppendedTree(m: Mem, n: Mem, a: Shape, t: Shape)
    requires Addable(m, a, t) && LinkedPtrs(n, Ptrs(a.kids + [t])) && Relinked(m, n, a.p, Ptrs(a.kids + [t]))
    requires a.p in n && a.p in m && m[a.p].Cell? && n[a.p] == m[a.p].(child := At(a.kids + [t], 0))
    ensures var b := a.(kids := a.kids + [t]);
            && Tree(n, b) && Separate(b) && Footprint(b) == Footprint(a) + Footprint(t)
            && View(n, b) == View(m, a).(kids := View(m, a).kids + [View(m, t)])
  {
    var ks := a.kids + [t];
    Pool(m, a, t);
    RootsApart(m, ks);
    RootsBelow(m, a, ks);
    LinkedByPtrs(n, ks);
    Relink(m, n, a, ks, Ptrs(ks));
    assert Trees(m, a.kids);
    ViewsJoin(m, a.kids, t);
    assert Own(a.(kids := ks)) == Own(a);
  }

  lemma {:induction false} ViewsJoin(m: Mem, ks: seq<Shape>, t: Shape)
    requires Trees(m, ks) && Tree(m, t)
    ensures Trees(m, ks + [t]) && Views(m, ks + [t]) == Views(m, ks) + [View(m, t)]
  {
    if ks == [] {
      assert ks + [t] == [t];
    } else {
      assert (ks + [t])[1..] == ks[1..] + [t];
      ViewsJoin(m, ks[1..], t);
    }
  }

  // ---------------------------------------------------------------------------------
  // Detaching
  // ---------------------------------------------------------------------------------

  lemma ViewsWithout(m: Mem, ks: seq<Shape>, k: nat)
    requires Trees(m, ks) && k < |ks|
    ensures Trees(m, Without(ks, k))
    ensures Views(m, Without(ks, k)) == Views(m, ks)[..k] + Views(m, ks)[k + 1..]
  {
    var ls, ds := Without(ks, k), Views(m, ks)[..k] + Views(m, ks)[k + 1..];
    forall i | 0 <= i < |ls| ensures Views(m, ls)[i] == ds[i] {
      ViewsAt(m, ls, i);
      ViewsAt(m, ks, if i < k then i else i + 1);
    }
  }

  /** The two parts container a falls into. */
  lemma DetachParts(m: Mem, a: Shape, k: nat)
    requires Tree(m, a) && Separate(a) && !a.reference && k < |a.kids|
    ensures var ls, b, c := Without(a.kids, k), a.(kids := Without(a.kids, k)), a.kids[k];
            && Trees(m, ls) && SeparateAll(ls) && Own(a) !! Footprints(ls) && Tree(m, c) && Separate(c)
            && Footprint(b) !! Footprint(c) && Footprint(b) + Footprint(c) == Footprint(a) && a.p !in Footprint(c)
            && Own(b) == Own(a)
  {
    assert Trees(m, a.kids) && SeparateAll(a.kids);
    FootprintsWithout(a.kids, k);
    ViewsWithout(m, a.kids, k);
    TreeAt(m, a);
    OwnApart(a, a.kids);
    assert Own(a.(kids := Without(a.kids, k))) == Own(a);
  }

  lemma RestRoots(m: Mem, a: Shape, k: nat)
    requires Tree(m, a) && Separate(a) && !a.reference && k < |a.kids|
    ensures var ls, ps := Without(a.kids, k), Ptrs(a.kids);
            && Ptrs(ls) == PtrsWithout(ps, k) && (forall q :: q in ps ==> q !in Own(a))
            && RootOnly(a.kids[k], ps) && forall i :: 0 <= i < |ls| ==> RootOnly(ls[i], ps)
  {
    var ls, ps := Without(a.kids, k), Ptrs(a.kids);
    ChildrenListed(m, a);
    forall i | 0 <= i < |ls| ensures RootOnly(ls[i], ps) {
      assert RootOnly(a.kids[if i < k then i else i + 1], ps);
    }
  }

  lemma DetachedView(m: Mem, a: Shape, k: nat)
    requires Tree(m, a) && k < |a.kids|
    ensures Tree(m, a.kids[k]) && Trees(m, Without(a.kids, k))
    ensures View(m, a).kids[k] == View(m, a.kids[k])
    ensures Views(m, Without(a.kids, k)) == View(m, a).kids[..k] + View(m, a).kids[k + 1..]
  {
    assert Trees(m, a.kids);
    ViewsAt(m, a.kids, k);
    ViewsWithout(m, a.kids, k);
  }

  /** Unlinking child k leaves two trees that share nothing. */
  lemma DetachTree(m: Mem, a: Shape, k: nat)
    requires Tree(m, a) && Separate(a) && !a.reference && k < |a.kids|
    ensures Around(m, Ptrs(a.kids), k) && Tree(m, a.kids[k])
    ensures var n, b, c := Unlinked(m, a.p, a.kids[k].p), a.(kids := Without(a.kids, k)), a.kids[k];
            && Tree(n, b) && Separate(b) && Tree(n, c) && Separate(c) && Alone(n, c.p)
            && Footprint(b) !! Footprint(c) && Footprint(b) + Footprint(c) == Footprint(a)
            && View(n, c) == View(m, a).kids[k]
            && View(n, b) == View(m, a).(kids := View(m, a).kids[..k] + View(m, a).kids[k + 1..])
            && Relinked(m, n, a.p, Ptrs(a.kids))
  {
    ChildrenListed(m, a);
    UnlinkPtrs(m, a.p, Ptrs(a.kids), k);
    DetachedTree(m, Unlinked(m, a.p, a.kids[k].p), a, k);
  }

  lemma DetachedTree(m: Mem, n: Mem, a: Shape, k: nat)
    requires Tree(m, a) && Separate(a) && !a.reference && k < |a.kids|
    requires Relinked(m, n, a.p, Ptrs(a.kids)) && LinkedPtrs(n, PtrsWithout(Ptrs(a.kids), k))
    requires a.p in n && n[a.p] == m[a.p].(child := PtrAt(PtrsWithout(Ptrs(a.kids), k), 0))
    ensures var b, c := a.(kids := Without(a.kids, k)), a.kids[k];
            && Tree(m, c) && Tree(n, b) && Separate(b) && Tree(n, c) && Separate(c)
            && Footprint(b) !! Footprint(c) && Footprint(b) + Footprint(c) == Footprint(a)
            && View(n, c) == View(m, a).kids[k]
            && View(n, b) == View(m, a).(kids := View(m, a).kids[..k] + View(m, a).kids[k + 1..])
  {
    var ls, ps := Without(a.kids, k), Ptrs(a.kids);
    DetachParts(m, a, k);
    RestRoots(m, a, k);
    DetachedView(m, a, k);
    LinkedByPtrs(n, ls);
    assert At(ls, 0) == PtrAt(Ptrs(ls), 0);
    Relink(m, n, a, ls, ps);
    TreeMoved(m, n, a.kids[k], a.p, ps);
  }

  // ---------------------------------------------------------------------------------
  // Replacing
  // ---------------------------------------------------------------------------------

  lemma ViewsUpdate(m: Mem, ks: seq<Shape>, k: nat, t: Shape)
    requires Trees(m, ks) && k < |ks| && Tree(m, t)
    ensures Trees(m, ks[k := t])
    ensures Views(m, ks[k := t]) == Views(m, ks)[k := View(m, t)]
  {
    var ls, ds := ks[k := t], Views(m, ks)[k := View(m, t)];
    forall i | 0 <= i < |ls| ensures Views(m, ls)[i] == ds[i] {
      ViewsAt(m, ls, i);
      ViewsAt(m, ks, i);
    }
  }

  /** What the container holds after the exchange, and what it no longer holds. */
  lemma ReplaceParts(m: Mem, a: Shape, k: nat, t: Shape)
    requires Addable(m, a, t) && k < |a.kids|
    ensures var ls, b, c, ps := a.kids[k := t], a.(kids := a.kids[k := t]), a.kids[k], Ptrs(a.kids + [t]);
            && Trees(m, ls) && SeparateAll(ls) && Own(a) !! Footprints(ls) && Tree(m, c) && Separate(c)
            && Footprint(b) !! Footprint(c) && Footprint(b) + Footprint(c) == Footprint(a) + Footprint(t)
            && a.p !in Footprint(c) && Own(b) == Own(a)
            && RootOnly(c, ps) && forall i :: 0 <= i < |ls| ==> RootOnly(ls[i], ps)
  {
    var ks, ls := a.kids, a.kids[k := t];
    var ps := Ptrs(ks + [t]);
    Pool(m, a, t);
    RootsApart(m, ks + [t]);
    assert Trees(m, ks);
    UpdateSeparate(ks, k, t);
    ViewsUpdate(m, ks, k, t);
    forall i | 0 <= i < |ls| ensures RootOnly(ls[i], ps) {
      assert RootOnly((ks + [t])[if i == k then |ks| else i], ps);
    }
    assert RootOnly((ks + [t])[k], ps);
    TreeAt(m, a);
    OwnApart(a, ks);
    assert Own(a.(kids := ls)) == Own(a);
  }

  /** Putting t in the place of child k. */
  lemma ReplaceTree(m: Mem, a: Shape, k: nat, t: Shape)
    requires Addable(m, a, t) && k < |a.kids|
    ensures Around(m, Ptrs(a.kids), k) && (a.kids[k].p != m[a.p].child ==> m[a.kids[k].p].prev != 0)
    ensures var n, b, c := Swapped(m, a.p, a.kids[k].p, t.p), a.(kids := a.kids[k := t]), a.kids[k];
            && Tree(n, b) && Separate(b) && Tree(n, c) && Separate(c) && Alone(n, c.p)
            && Footprint(b) !! Footprint(c) && Footprint(b) + Footprint(c) == Footprint(a) + Footprint(t)
            && View(n, b) == View(m, a).(kids := View(m, a).kids[k := View(m, t)])
            && Relinked(m, n, a.p, Ptrs(a.kids + [t]))
  {
    ChildrenListed(m, a);
    NewRoot(m, a, t);
    SwapPtrs(m, a.p, Ptrs(a.kids), k, t.p);
    assert Ptrs(a.kids[k := t]) == Ptrs(a.kids)[k := t.p];
    ReplacedTree(m, Swapped(m, a.p, a.kids[k].p, t.p), a, k, t);
  }

  lemma ReplacedTree(m: Mem, n: Mem, a: Shape, k: nat, t: Shape)
    requires Addable(m, a, t) && k < |a.kids|
    requires Relinked(m, n, a.p, Ptrs(a.kids + [t])) && LinkedPtrs(n, Ptrs(a.kids[k := t]))
    requires a.p in n && n[a.p] == m[a.p].(child := PtrAt(Ptrs(a.kids[k := t]), 0))
    ensures var b, c := a.(kids := a.kids[k := t]), a.kids[k];
            && Tree(n, b) && Separate(b) && Tree(n, c) && Separate(c)
            && Footprint(b) !! Footprint(c) && Footprint(b) + Footprint(c) == Footprint(a) + Footprint(t)
            && View(n, b) == View(m, a).(kids := View(m, a).kids[k := View(m, t)])
  {
    var ls, ps := a.kids[k := t], Ptrs(a.kids + [t]);
    NewRoot(m, a, t);
    ReplaceParts(m, a, k, t);
    LinkedByPtrs(n, ls);
    assert Trees(m, a.kids) && At(ls, 0) == PtrAt(Ptrs(ls), 0);
    ViewsUpdate(m, a.kids, k, t);
    Relink(m, n, a, ls, ps);
    TreeMoved(m, n, a.kids[k], a.p, ps);
  }

}
