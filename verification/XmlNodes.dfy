/** XML trees in memory: nodes linked to their parent, first child and neighbours. A node's strings are part of
    the node. */
module XmlNodes {
  import X = XmlTree
  import opened Shapes
  import opened Wrappers

  /** struct xml_node; the content is the node's kind and strings, without children. */
  datatype Cell = Cell(content: X.Node, parent: Ptr, child: Ptr, prev: Ptr, next: Ptr)

  type Mem = map<Ptr, Cell>

  ghost predicate LinkedAt(m: Mem, a: Ptr, ps: seq<Ptr>, i: int)
  {
    var p := PtrAt(ps, i);
    p != 0 && p in m && m[p].next == PtrAt(ps, i + 1) && m[p].prev == PtrAt(ps, i - 1) && m[p].parent == a
  }

  /** The children of a: next and prev are inverse to each other, end in null pointers, and all name a as parent. */
  ghost predicate Linked(m: Mem, a: Ptr, ps: seq<Ptr>)
  {
    forall i :: 0 <= i < |ps| ==> LinkedAt(m, a, ps, i)
  }

  /** The node at the root of shape t. Nothing is said of its parent and its neighbours. */
  ghost predicate Node(m: Mem, t: Shape)
  {
    && t.p != 0 && t.p in m && !t.reference && t.name == 0 && t.text == 0
    && m[t.p].child == At(t.kids, 0)
    && (match m[t.p].content case Text(_) => t.kids == [] case Element(_, _, _, kids) => kids == [])
  }

  ghost predicate Tree(m: Mem, t: Shape)
  {
    Node(m, t) && Linked(m, t.p, Ptrs(t.kids)) && Trees(m, t.kids)
  }

  ghost predicate Trees(m: Mem, ks: seq<Shape>)
  {
    forall i :: 0 <= i < |ks| ==> Tree(m, ks[i])
  }

  /** What a tree in memory says. */
  ghost function View(m: Mem, t: Shape): X.Node
  {
    if t.p in m && m[t.p].content.Element? then m[t.p].content.(kids := Views(m, t.kids))
    else X.Text(if t.p in m then m[t.p].content.text else "")
  }

  ghost function Views(m: Mem, ks: seq<Shape>): (vs: seq<X.Node>)
    ensures |vs| == |ks|
  {
    if ks == [] then [] else [View(m, ks[0])] + Views(m, ks[1..])
  }

  lemma {:induction false} ViewsAt(m: Mem, ks: seq<Shape>, i: nat)
    requires i < |ks|
    ensures Views(m, ks)[i] == View(m, ks[i])
  {
    if i > 0 {
      ViewsAt(m, ks[1..], i - 1);
    }
  }

  lemma TreeAt(m: Mem, t: Shape)
    requires Tree(m, t)
    ensures Own(t) == {t.p} && t.p in Footprint(t) && t.p in m && t.p != 0
  {
  }

  /** All nodes of a tree are in memory. */
  lemma {:induction false} Allocated(m: Mem, t: Shape, q: Ptr)
    requires Tree(m, t) && q in Footprint(t)
    ensures q in m && q != 0
    decreases t
  {
    if q !in Own(t) {
      assert Trees(m, t.kids);
      InFootprints(t.kids, q);
      var i :| 0 <= i < |t.kids| && q in Footprint(t.kids[i]);
      Allocated(m, t.kids[i], q);
    }
  }

  lemma AllAllocated(m: Mem, t: Shape)
    requires Tree(m, t)
    ensures Footprint(t) <= m.Keys && 0 !in Footprint(t)
  {
    forall q | q in Footprint(t) ensures q in m && q != 0 {
      Allocated(m, t, q);
    }
  }

  // ---------------------------------------------------------------------------------
  // What other changes leave alone
  // ---------------------------------------------------------------------------------

  ghost predicate Keeps(m: Mem, n: Mem, q: Ptr)
  {
    q in m && q in n && n[q] == m[q]
  }

  /** A tree depends on its own nodes only. */
  lemma {:induction false} TreeSame(m: Mem, n: Mem, t: Shape)
    requires Tree(m, t) && forall q :: q in Footprint(t) ==> Keeps(m, n, q)
    ensures Tree(n, t) && View(n, t) == View(m, t)
    decreases t
  {
    TreeAt(m, t);
    assert Keeps(m, n, t.p);
    ListSame(m, n, t.kids);
    LinkedSame(m, n, t.p, t.kids);
  }

  lemma LinkedSame(m: Mem, n: Mem, a: Ptr, ks: seq<Shape>)
    requires Linked(m, a, Ptrs(ks)) && Trees(m, ks) && forall q :: q in Footprints(ks) ==> Keeps(m, n, q)
    ensures Linked(n, a, Ptrs(ks))
  {
    forall i | 0 <= i < |ks| ensures LinkedAt(n, a, Ptrs(ks), i) {
      assert LinkedAt(m, a, Ptrs(ks), i);
      FootprintsAt(ks, i);
      TreeAt(m, ks[i]);
      assert Keeps(m, n, ks[i].p);
    }
  }

  lemma {:induction false} ListSame(m: Mem, n: Mem, ks: seq<Shape>)
    requires Trees(m, ks) && forall q :: q in Footprints(ks) ==> Keeps(m, n, q)
    ensures Trees(n, ks) && Views(n, ks) == Views(m, ks)
    decreases ks
  {
    if ks != [] {
      TreeSame(m, n, ks[0]);
      ListSame(m, n, ks[1..]);
      forall i | 0 <= i < |ks| ensures Tree(n, ks[i]) {
        assert i > 0 ==> ks[i] == ks[1..][i - 1];
      }
    }
  }

  /** Only the links of a node to its parent and neighbours differ. */
  predicate Moved(b: Cell, c: Cell)
  {
    c == b.(parent := c.parent, prev := c.prev, next := c.next)
  }

  /** Of the nodes fp, those in s were moved and the others are the same. */
  ghost predicate Relinked(m: Mem, n: Mem, fp: set<Ptr>, s: seq<Ptr>)
  {
    forall q :: q in fp ==> q in m && q in n && if q in s then Moved(m[q], n[q]) else n[q] == m[q]
  }

  /** A tree does not depend on where its root is linked. */
  lemma TreeMoved(m: Mem, n: Mem, t: Shape, s: seq<Ptr>)
    requires Tree(m, t) && Separate(t) && Relinked(m, n, Footprint(t), s) && RootOnly(t, s)
    ensures Tree(n, t) && View(n, t) == View(m, t)
  {
    TreeAt(m, t);
    forall q | q in Footprints(t.kids) ensures Keeps(m, n, q) {
      assert q != t.p && q !in s;
    }
    ListSame(m, n, t.kids);
    LinkedSame(m, n, t.p, t.kids);
  }

  /** Giving node a the children ks, after the links were set right. */
  lemma Relink(m: Mem, n: Mem, a: Shape, ks: seq<Shape>, s: seq<Ptr>)
    requires Tree(m, a) && Separate(a) && m[a.p].content.Element?
    requires SeparateAll(ks) && Own(a) !! Footprints(ks) && Trees(m, ks)
    requires Relinked(m, n, Footprints(ks), s) && Linked(n, a.p, Ptrs(ks))
    requires a.p in n && n[a.p].content == m[a.p].content && n[a.p].child == At(ks, 0)
    requires forall i :: 0 <= i < |ks| ==> RootOnly(ks[i], s)
    ensures var b := a.(kids := ks);
            Tree(n, b) && Separate(b) && View(n, b) == View(m, a).(kids := Views(m, ks))
  {
    TreeAt(m, a);
    forall i | 0 <= i < |ks| ensures Tree(n, ks[i]) && View(n, ks[i]) == View(m, ks[i]) {
      FootprintsAt(ks, i);
      TreeMoved(m, n, ks[i], s);
    }
    forall i | 0 <= i < |ks| ensures Views(n, ks)[i] == Views(m, ks)[i] {
      ViewsAt(m, ks, i);
      ViewsAt(n, ks, i);
    }
    assert Views(n, ks) == Views(m, ks);
    assert Own(a.(kids := ks)) == Own(a);
  }

  // ---------------------------------------------------------------------------------
  // Linked lists
  // ---------------------------------------------------------------------------------

  /** A node and its list of children. */
  ghost predicate Listed(m: Mem, a: Ptr, ps: seq<Ptr>)
  {
    a in m && m[a].child == PtrAt(ps, 0) && Linked(m, a, ps) && NoDup(ps) && a !in ps
  }

  lemma InList(m: Mem, a: Ptr, ps: seq<Ptr>)
    requires Linked(m, a, ps)
    ensures 0 !in ps && forall q :: q in ps ==> q in m
  {
    forall i | 0 <= i < |ps| ensures ps[i] != 0 && ps[i] in m {
      assert LinkedAt(m, a, ps, i);
    }
  }

  /** Roots of different trees of a list are different, and in no other tree of it. */
  lemma RootsApart(m: Mem, ks: seq<Shape>)
    requires Trees(m, ks) && SeparateAll(ks)
    ensures NoDup(Ptrs(ks))
    ensures forall i :: 0 <= i < |ks| ==> RootOnly(ks[i], Ptrs(ks))
  {
    var ps := Ptrs(ks);
    forall i, j | 0 <= i < j < |ks| ensures ps[i] != ps[j] {
      RootApart(m, ks, i, j);
    }
    forall i, q | 0 <= i < |ks| && q in ps && q in Footprint(ks[i]) ensures q == ks[i].p {
      var j :| 0 <= j < |ks| && q == ps[j];
      RootApart(m, ks, j, i);
    }
  }

  lemma RootApart(m: Mem, ks: seq<Shape>, i: nat, j: nat)
    requires Trees(m, ks) && SeparateAll(ks) && i < |ks| && j < |ks|
    ensures i != j ==> ks[i].p != ks[j].p && ks[i].p !in Footprint(ks[j])
  {
    TreeAt(m, ks[i]);
    TreeAt(m, ks[j]);
    if i < j {
      assert Footprint(ks[i]) !! Footprint(ks[j]);
    } else if j < i {
      assert Footprint(ks[j]) !! Footprint(ks[i]);
    }
  }

  lemma ChildrenListed(m: Mem, a: Shape)
    requires Tree(m, a) && Separate(a)
    ensures Listed(m, a.p, Ptrs(a.kids))
    ensures forall q :: q in Ptrs(a.kids) ==> q in Footprints(a.kids)
    ensures forall i :: 0 <= i < |a.kids| ==> RootOnly(a.kids[i], Ptrs(a.kids))
  {
    assert Trees(m, a.kids);
    RootsApart(m, a.kids);
    TreeAt(m, a);
    forall q | q in Ptrs(a.kids) ensures q in Footprints(a.kids) && q != a.p {
      var i :| 0 <= i < |a.kids| && q == Ptrs(a.kids)[i];
      TreeAt(m, a.kids[i]);
      FootprintsAt(a.kids, i);
    }
  }

  /** The writes by which a node leaves its parent and neighbours; its own links stay. */
  function Unhooked(m: Mem, c: Ptr): Mem
    requires c in m
    requires (m[c].prev != 0 ==> m[c].prev in m) && (m[c].next != 0 ==> m[c].next in m) && (m[c].parent != 0 ==> m[c].parent in m)
  {
    var parent, prev, next := m[c].parent, m[c].prev, m[c].next;
    if prev != 0 then
      var m1 := m[prev := m[prev].(next := next)];
      if next != 0 then m1[next := m1[next].(prev := prev)] else m1
    else if parent != 0 then
      var m1 := m[parent := m[parent].(child := next)];
      if next != 0 then m1[next := m1[next].(prev := 0)] else m1
    else m
  }

  /** One node after c has left its parent a. */
  lemma UnhookCell(m: Mem, a: Ptr, c: Ptr, q: Ptr)
    requires c in m && a in m && q in m && m[c].parent == a != 0 && a != c
    requires var prev, next := m[c].prev, m[c].next;
             && prev != c && next != c && prev != a && next != a
             && (prev != 0 ==> prev in m) && (next != 0 ==> next in m) && (prev == next ==> next == 0)
    ensures var n, prev, next := Unhooked(m, c), m[c].prev, m[c].next;
            && n.Keys == m.Keys
            && n[q] == if q == a then m[q].(child := if prev == 0 then next else m[a].child)
                       else if q == prev && q != 0 then m[q].(next := next)
                       else if q == next && q != 0 then m[q].(prev := prev)
                       else m[q]
  {
  }

  lemma UnhookPtrs(m: Mem, a: Ptr, ps: seq<Ptr>, k: nat)
    requires Listed(m, a, ps) && a != 0 && k < |ps|
    ensures var c := ps[k];
            c in m && (m[c].prev != 0 ==> m[c].prev in m) && (m[c].next != 0 ==> m[c].next in m) && m[c].parent == a
    ensures var n, r := Unhooked(m, ps[k]), PtrsWithout(ps, k);
            && n.Keys == m.Keys && Linked(n, a, r) && n[a] == m[a].(child := PtrAt(r, 0))
            && forall q :: q in m && q != a ==> if q in ps then Moved(m[q], n[q]) else n[q] == m[q]
  {
    var c := ps[k];
    InList(m, a, ps);
    assert LinkedAt(m, a, ps, k);
    assert PtrAt(ps, k + 1) != 0 ==> PtrAt(ps, k + 1) in ps;
    assert PtrAt(ps, k - 1) != 0 ==> PtrAt(ps, k - 1) in ps;
    Neighbours(ps, k, k);
    if k + 1 < |ps| {
      Neighbours(ps, k, k + 1);
    }
    var n, r := Unhooked(m, c), PtrsWithout(ps, k);
    UnhookCell(m, a, c, a);
    forall q | q in m ensures q != a ==> if q in ps then Moved(m[q], n[q]) else n[q] == m[q] {
      UnhookCell(m, a, c, q);
    }
    forall i | 0 <= i < |r| ensures LinkedAt(n, a, r, i) {
      var j := if i < k then i else i + 1;
      assert LinkedAt(m, a, ps, j);
      Neighbours(ps, k, j);
      UnhookCell(m, a, c, ps[j]);
    }
  }
}
