/** XML trees in memory that grow while a document is read: an element is linked first and filled after. */
module XmlGrow {
  import X = XmlTree
  import opened Shapes
  import opened XmlNodes
  import opened XmlSurgery
  import opened Wrappers

  /** From memory m to memory n, tree t has grown to d below its root: all it has gained is in new memory, the
      root's own links are the same, and nothing outside t has changed. */
  ghost predicate Grows(m: Mem, n: Mem, t: Shape, d: Shape)
  {
    && Tree(m, t) && Separate(t) && Tree(n, d) && Separate(d)
    && d.p == t.p && t.p in m && t.p in n && n[t.p] == m[t.p].(child := n[t.p].child)
    && (forall q :: q in m && q !in Footprint(t) ==> Keeps(m, n, q))
    && Footprint(t) <= Footprint(d) && Footprint(d) - Footprint(t) !! m.Keys
    && n.Keys == m.Keys + Footprint(d)
  }

  lemma GrowsNot(m: Mem, t: Shape)
    requires Tree(m, t) && Separate(t)
    ensures Grows(m, m, t, t)
  {
    TreeAt(m, t);
    AllAllocated(m, t);
  }

  lemma GrowsTwice(m: Mem, n: Mem, k: Mem, t: Shape, d: Shape, e: Shape)
    requires Grows(m, n, t, d) && Grows(n, k, d, e)
    ensures Grows(m, k, t, e)
  {
    AllAllocated(m, t);
    forall q | q in m && q !in Footprint(t) ensures Keeps(m, k, q) {
      assert Keeps(m, n, q) && Keeps(n, k, q);
    }
  }

  /** A new node without children. */
  function Leaf(p: Ptr): Shape
  {
    Shape(p, false, 0, 0, [])
  }

  lemma LeafTree(m: Mem, p: Ptr, content: X.Node)
    requires p != 0 && p !in m && (content.Element? ==> content.kids == [])
    ensures var n := m[p := Cell(content, 0, 0, 0, 0)];
            && Tree(n, Leaf(p)) && Separate(Leaf(p)) && Footprint(Leaf(p)) == {p} && View(n, Leaf(p)) == content
            && Alone(n, p) && forall q :: q in m ==> Keeps(m, n, q)
  {
  }

  /** A new node hooked to an element that was read so far. */
  lemma GrowsByLeaf(m: Mem, d: Shape, p: Ptr, content: X.Node)
    requires Tree(m, d) && Separate(d) && m[d.p].content.Element?
    requires p != 0 && p !in m && (content.Element? ==> content.kids == [])
    ensures var n1, last, b := m[p := Cell(content, 0, 0, 0, 0)], At(d.kids, |d.kids| - 1), d.(kids := d.kids + [Leaf(p)]);
            && Addable(n1, d, Leaf(p)) && Alone(n1, p) && d.p in n1 && n1[d.p].content == m[d.p].content
            && (last != 0 ==> last in n1)
            && var n2 := Hooked(n1, d.p, last, p);
               && Grows(m, n2, d, b) && View(n2, b) == View(m, d).(kids := View(m, d).kids + [content])
  {
    var n1 := m[p := Cell(content, 0, 0, 0, 0)];
    LeafTree(m, p, content);
    GrownTree(m, n1, d);
    AllAllocated(m, d);
    TreeAt(m, d);
    HookTree(n1, d, Leaf(p));
    HookedGrows(m, n1, Hooked(n1, d.p, At(d.kids, |d.kids| - 1), p), d, p);
  }

  lemma HookedGrows(m: Mem, n1: Mem, n2: Mem, d: Shape, p: Ptr)
    requires Tree(m, d) && Separate(d) && p !in m && Grown(m, n1) && n1.Keys == m.Keys + {p} && n2.Keys == n1.Keys
    requires var b := d.(kids := d.kids + [Leaf(p)]);
             && Tree(n2, b) && Separate(b) && Footprint(b) == Footprint(d) + {p}
             && n2[d.p] == n1[d.p].(child := At(b.kids, 0))
             && forall q :: q in n1 && q !in Footprint(b) ==> Keeps(n1, n2, q)
    ensures Grows(m, n2, d, d.(kids := d.kids + [Leaf(p)]))
  {
    AllAllocated(m, d);
    TreeAt(m, d);
    assert Keeps(m, n1, d.p);
    forall q | q in m && q !in Footprint(d) ensures Keeps(m, n2, q) {
      assert Keeps(m, n1, q) && Keeps(n1, n2, q);
    }
  }

  // ---------------------------------------------------------------------------------
  // A child that grows
  // ---------------------------------------------------------------------------------

  lemma OtherKid(m: Mem, n: Mem, b: Shape, k: nat, kid: Shape, j: nat)
    requires Tree(m, b) && Separate(b) && k < |b.kids| && j < |b.kids| && j != k && Grows(m, n, b.kids[k], kid)
    ensures Tree(n, b.kids[j]) && View(n, b.kids[j]) == View(m, b.kids[j]) && Footprint(b.kids[j]) !! Footprint(kid)
    ensures Keeps(m, n, b.kids[j].p)
  {
    assert Trees(m, b.kids) && SeparateAll(b.kids);
    TreeAt(m, b.kids[j]);
    AllAllocated(m, b.kids[j]);
    Apart(b.kids, j, k);
    forall q | q in Footprint(b.kids[j]) ensures Keeps(m, n, q) {
    }
    TreeSame(m, n, b.kids[j]);
  }

  lemma Apart(ks: seq<Shape>, i: nat, j: nat)
    requires SeparateAll(ks) && i < |ks| && j < |ks| && i != j
    ensures Footprint(ks[i]) !! Footprint(ks[j])
  {
    if i < j {
    } else {
      assert Footprint(ks[j]) !! Footprint(ks[i]);
    }
  }

  lemma KidLinks(m: Mem, n: Mem, b: Shape, k: nat, kid: Shape)
    requires Tree(m, b) && Separate(b) && k < |b.kids| && Grows(m, n, b.kids[k], kid)
    ensures Linked(n, b.p, Ptrs(b.kids[k := kid])) && Trees(n, b.kids[k := kid])
  {
    var ls := b.kids[k := kid];
    assert Ptrs(ls) == Ptrs(b.kids) && Trees(m, b.kids);
    forall j | 0 <= j < |ls| ensures LinkedAt(n, b.p, Ptrs(ls), j) && Tree(n, ls[j]) {
      assert LinkedAt(m, b.p, Ptrs(b.kids), j);
      if j != k {
        OtherKid(m, n, b, k, kid, j);
      }
    }
  }

  lemma KidViews(m: Mem, n: Mem, b: Shape, k: nat, kid: Shape)
    requires Tree(m, b) && Separate(b) && k < |b.kids| && Grows(m, n, b.kids[k], kid)
    ensures Views(n, b.kids[k := kid]) == Views(m, b.kids)[k := View(n, kid)]
  {
    var ls := b.kids[k := kid];
    forall j | 0 <= j < |ls| ensures Views(n, ls)[j] == Views(m, b.kids)[k := View(n, kid)][j] {
      ViewsAt(n, ls, j);
      ViewsAt(m, b.kids, j);
      if j != k {
        OtherKid(m, n, b, k, kid, j);
      }
    }
  }

  lemma KidApart(m: Mem, n: Mem, b: Shape, k: nat, kid: Shape)
    requires Tree(m, b) && Separate(b) && k < |b.kids| && Grows(m, n, b.kids[k], kid)
    ensures SeparateAll(b.kids[k := kid])
    ensures Footprints(b.kids[k := kid]) == Footprints(b.kids) + Footprint(kid)
    ensures Own(b) !! Footprints(b.kids[k := kid])
  {
    var ls := b.kids[k := kid];
    assert SeparateAll(b.kids);
    forall i | 0 <= i < |ls| ensures Separate(ls[i]) {
      assert i != k ==> Separate(b.kids[i]);
    }
    forall i, j | 0 <= i < j < |ls| ensures Footprint(ls[i]) !! Footprint(ls[j]) {
      Apart(b.kids, i, j);
      if i == k {
        OtherKid(m, n, b, k, kid, j);
      } else if j == k {
        OtherKid(m, n, b, k, kid, i);
      }
    }
    assert Without(ls, k) == Without(b.kids, k);
    FootprintsCut(ls, k);
    FootprintsCut(b.kids, k);
    TreeAt(m, b);
    FootprintsAt(b.kids, k);
  }

  /** An element grows when its child does, and says what the child then says in its place. */
  lemma GrowsInKid(m: Mem, n: Mem, b: Shape, k: nat, kid: Shape)
    requires Tree(m, b) && Separate(b) && k < |b.kids| && Grows(m, n, b.kids[k], kid)
    ensures var e := b.(kids := b.kids[k := kid]);
            && Grows(m, n, b, e) && View(m, b).Element? && |View(m, b).kids| == |b.kids|
            && View(n, e) == View(m, b).(kids := View(m, b).kids[k := View(n, kid)])
  {
    var e := b.(kids := b.kids[k := kid]);
    TreeAt(m, b);
    AllAllocated(m, b);
    FootprintsAt(b.kids, k);
    assert Keeps(m, n, b.p);
    KidLinks(m, n, b, k, kid);
    KidViews(m, n, b, k, kid);
    KidApart(m, n, b, k, kid);
    assert Own(e) == Own(b);
    KidGrows(m, n, b, k, kid, e);
  }

  lemma KidGrows(m: Mem, n: Mem, b: Shape, k: nat, kid: Shape, e: Shape)
    requires Tree(m, b) && Separate(b) && k < |b.kids| && Grows(m, n, b.kids[k], kid)
    requires Tree(n, e) && Separate(e) && e.p == b.p && Keeps(m, n, b.p) && Footprint(e) == Footprint(b) + Footprint(kid)
    ensures Grows(m, n, b, e)
  {
    AllAllocated(m, b);
    FootprintsAt(b.kids, k);
    TreeAt(m, b);
    forall q | q in m && q !in Footprint(b) ensures Keeps(m, n, q) {
      assert q !in Footprint(b.kids[k]);
    }
  }
}
