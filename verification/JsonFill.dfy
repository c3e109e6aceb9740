/** Trees that grow in memory while they are parsed: an item is allocated and linked first and filled in after. */
module JsonFill {
  import opened JsonHeap
  import opened JsonTree
  import opened JsonItems
  import opened JsonReaders
  import opened Wrappers
  import opened Shapes

  /** A new item: no children and no string; it may have a name. */
  ghost predicate Leaf(m: Mem, p: Ptr, name: Ptr)
  {
    && IsCell(m, p) && m[p].child == 0 && m[p].valuestring == 0 && !m[p].reference && m[p].number == 0.0
    && m[p].name == name && IsText(m, name) && name != p
  }

  function LeafShape(p: Ptr, name: Ptr): Shape
  {
    Shape(p, false, name, 0, [])
  }

  lemma LeafTree(m: Mem, p: Ptr, name: Ptr)
    requires Leaf(m, p, name)
    ensures Tree(m, LeafShape(p, name)) && Separate(LeafShape(p, name))
    ensures Footprint(LeafShape(p, name)) == {p, name} - {0}
  {
  }

  /** From memory m to memory n, a leaf has become the tree d: its links to siblings are the same, all it has
      gained is in new memory, and nothing else has changed. */
  ghost predicate Filled(m: Mem, n: Mem, d: Shape)
  {
    && Leaf(m, d.p, d.name) && NoReferences(d) && Tree(n, d) && Separate(d)
    && n[d.p].next == m[d.p].next && n[d.p].prev == m[d.p].prev
    && (forall q :: q in m && q != d.p ==> Keeps(m, n, q))
    && n.Keys == m.Keys + Footprint(d)
    && Footprint(d) - {d.p, d.name} !! m.Keys
  }

  lemma FilledStart(m: Mem, p: Ptr, name: Ptr)
    requires Leaf(m, p, name)
    ensures Filled(m, m, LeafShape(p, name))
  {
    LeafTree(m, p, name);
  }

  /** Writing type and number of the item itself. */
  lemma FilledTag(m: Mem, n: Mem, d: Shape, tag: nat, number: real)
    requires Filled(m, n, d)
    ensures var n' := n[d.p := n[d.p].(tag := tag, number := number)];
            Filled(m, n', d) && View(n', d) == View(n, d).(tag := tag, number := number)
  {
    var n' := n[d.p := n[d.p].(tag := tag, number := number)];
    assert d.p in Own(d);
    assert Trees(n, d.kids);
    AllAllocated(n, d);
    forall q | q in Footprints(d.kids) ensures Keeps(n, n', q) {
    }
    ListSame(n, n', d.kids);
    LinkedSame(n, n', d.kids);
  }

  /** Giving a leaf its string. */
  lemma FilledText(m: Mem, d: Shape, p: Ptr, s: string, tag: nat)
    requires Filled(m, m, d) && d == LeafShape(d.p, d.name) && p != 0 && p !in m
    ensures var n, e := m[p := Text(s)][d.p := m[d.p].(valuestring := p, tag := tag)], d.(text := p);
            Filled(m, n, e) && View(n, e) == View(m, d).(text := TextAt(n, p), tag := tag)
  {
    var n, e := m[p := Text(s)][d.p := m[d.p].(valuestring := p, tag := tag)], d.(text := p);
    assert Footprint(e) == {d.p, d.name, p} - {0} && Footprint(d) == {d.p, d.name} - {0};
    assert d.p in m && (d.name != 0 ==> d.name in m);
  }

  /** What stays when child k changes. */
  lemma OtherKids(m: Mem, n: Mem, b: Shape, k: nat, j: nat)
    requires Tree(m, b) && Separate(b) && k < |b.kids| && j < |b.kids| && j != k
    requires forall q :: q in m && q != b.kids[k].p ==> Keeps(m, n, q)
    ensures Tree(n, b.kids[j]) && View(n, b.kids[j]) == View(m, b.kids[j])
    ensures b.kids[j].p in m && Keeps(m, n, b.kids[j].p) && b.kids[j].p != b.kids[k].p
  {
    assert Trees(m, b.kids);
    RootApart(m, b.kids, k, j);
    RootApart(m, b.kids, j, k);
    AllAllocated(m, b.kids[j]);
    TreeSame(m, n, b.kids[j]);
  }

  /** The container of a child that was filled in. */
  ghost predicate KidFills(m: Mem, n: Mem, b: Shape, k: nat, kid: Shape)
  {
    && Tree(m, b) && Separate(b) && !b.reference && k < |b.kids|
    && Tree(n, kid) && Separate(kid) && NoReferences(kid) && kid.p == b.kids[k].p
    && kid.p in m && m[kid.p].Cell? && n[kid.p].next == m[kid.p].next && n[kid.p].prev == m[kid.p].prev
    && (forall q :: q in m && q != kid.p ==> Keeps(m, n, q))
    && Footprint(b.kids[k]) <= Footprint(kid) && Footprint(kid) - Footprint(b.kids[k]) !! m.Keys
  }

  lemma KidLinks(m: Mem, n: Mem, b: Shape, k: nat, kid: Shape)
    requires KidFills(m, n, b, k, kid)
    ensures Linked(n, b.kids[k := kid]) && Trees(n, b.kids[k := kid])
  {
    var ls := b.kids[k := kid];
    assert Trees(m, b.kids);
    forall j | 0 <= j < |ls| ensures LinkedAt(n, ls, j) && Tree(n, ls[j]) {
      assert LinkedAt(m, b.kids, j);
      if j != k {
        OtherKids(m, n, b, k, j);
      }
    }
  }

  lemma KidViews(m: Mem, n: Mem, b: Shape, k: nat, kid: Shape)
    requires KidFills(m, n, b, k, kid)
    ensures Views(n, b.kids[k := kid]) == Views(m, b.kids)[k := View(n, kid)]
  {
    var ls := b.kids[k := kid];
    forall j | 0 <= j < |ls| ensures Views(n, ls)[j] == Views(m, b.kids)[k := View(n, kid)][j] {
      ViewsAt(n, ls, j);
      ViewsAt(m, b.kids, j);
      if j != k {
        OtherKids(m, n, b, k, j);
      }
    }
  }

  lemma KidDisjoint(m: Mem, n: Mem, b: Shape, k: nat, kid: Shape, j: nat)
    requires KidFills(m, n, b, k, kid) && j < |b.kids| && j != k
    ensures Footprint(b.kids[j]) !! Footprint(kid)
  {
    assert Trees(m, b.kids) && SeparateAll(b.kids);
    AllAllocated(m, b.kids[j]);
    if j < k {
      assert Footprint(b.kids[j]) !! Footprint(b.kids[k]);
    } else {
      assert Footprint(b.kids[k]) !! Footprint(b.kids[j]);
    }
  }

  lemma KidApart(m: Mem, n: Mem, b: Shape, k: nat, kid: Shape)
    requires KidFills(m, n, b, k, kid)
    ensures SeparateAll(b.kids[k := kid])
    ensures Footprints(b.kids[k := kid]) == Footprints(b.kids) + Footprint(kid)
    ensures Own(b) !! Footprints(b.kids[k := kid])
  {
    var ls := b.kids[k := kid];
    assert SeparateAll(b.kids);
    AllAllocated(m, b);
    forall i | 0 <= i < |ls| ensures Separate(ls[i]) {
      assert i != k ==> Separate(b.kids[i]);
    }
    forall i, j | 0 <= i < j < |ls| ensures Footprint(ls[i]) !! Footprint(ls[j]) {
      assert Footprint(b.kids[i]) !! Footprint(b.kids[j]);
      if i == k {
        KidDisjoint(m, n, b, k, kid, j);
      } else if j == k {
        KidDisjoint(m, n, b, k, kid, i);
      }
    }
    assert Without(ls, k) == Without(b.kids, k);
    FootprintsCut(ls, k);
    FootprintsCut(b.kids, k);
  }

  lemma KidFilled(m: Mem, n: Mem, b: Shape, k: nat, kid: Shape)
    requires KidFills(m, n, b, k, kid)
    ensures var e := b.(kids := b.kids[k := kid]);
            && Tree(n, e) && Separate(e) && Footprint(e) == Footprint(b) + Footprint(kid)
            && View(n, e) == View(m, b).(kids := View(m, b).kids[k := View(n, kid)])
            && Keeps(m, n, b.p)
  {
    KidLinks(m, n, b, k, kid);
    KidViews(m, n, b, k, kid);
    KidApart(m, n, b, k, kid);
    var e := b.(kids := b.kids[k := kid]);
    assert Own(e) == Own(b);
    ChildrenListed(m, b);
    assert Ptrs(b.kids)[k] == kid.p;
    AllAllocated(m, b);
    NodeSame(m, n, b);
  }

  /** A child that is not in the memory from before. */
  lemma KidIsNew(m: Mem, n: Mem, d: Shape, k: nat)
    requires Filled(m, n, d) && k < |d.kids|
    ensures d.kids[k].p !in m && d.kids[k].p != d.p && d.kids[k].p in n && n[d.kids[k].p].Cell?
    ensures Footprint(d.kids[k]) !! m.Keys && d.kids[k].p in Footprint(d.kids[k])
  {
    assert Trees(n, d.kids);
    TreeAt(n, d.kids[k]);
    FootprintsAt(d.kids, k);
    assert d.p in Own(d) && (d.name != 0 ==> d.name in Own(d));
    NoNullIn(n, d.kids[k]);
  }

  lemma {:induction false} NoNullIn(m: Mem, t: Shape)
    requires Tree(m, t)
    ensures 0 !in Footprint(t)
    decreases t
  {
    assert Trees(m, t.kids);
    InFootprints(t.kids, 0);
    forall i | 0 <= i < |t.kids| ensures 0 !in Footprint(t.kids[i]) {
      NoNullIn(m, t.kids[i]);
    }
  }

  /** Filling a child goes on filling its container. */
  lemma FilledKid(m: Mem, n: Mem, n': Mem, d: Shape, k: nat, kid: Shape)
    requires Filled(m, n, d) && KidFills(n, n', d, k, kid) && n'.Keys == n.Keys + Footprint(kid)
    ensures var e := d.(kids := d.kids[k := kid]);
            Filled(m, n', e) && View(n', e) == View(n, d).(kids := View(n, d).kids[k := View(n', kid)])
  {
    var e := d.(kids := d.kids[k := kid]);
    KidFilled(n, n', d, k, kid);
    KidIsNew(m, n, d, k);
    FilledApart(m, n, d, k, kid, e);
  }

  lemma FilledApart(m: Mem, n: Mem, d: Shape, k: nat, kid: Shape, e: Shape)
    requires Filled(m, n, d) && k < |d.kids| && Footprint(d.kids[k]) !! m.Keys
    requires Footprint(kid) - Footprint(d.kids[k]) !! n.Keys
    requires Footprint(e) == Footprint(d) + Footprint(kid) && e.p == d.p && e.name == d.name
    ensures Footprint(e) - {e.p, e.name} !! m.Keys
  {
    assert m.Keys <= n.Keys;
  }

  /** Linking a new leaf behind the children goes on filling the container. */
  lemma FilledAppend(m: Mem, n: Mem, n': Mem, d: Shape, p: Ptr)
    requires Filled(m, n, d) && p != 0 && p !in n
    requires var n1 := n[p := Cell(0, 0, 0, 0, false, 0, 0.0, 0)];
             var last := At(d.kids, |d.kids| - 1);
             && IsCell(n1, d.p) && (last != 0 ==> IsCell(n1, last))
             && n' == Appended(n1, d.p, last, p)
    ensures var e := d.(kids := d.kids + [LeafShape(p, 0)]);
            Filled(m, n', e) && View(n', e) == View(n, d).(kids := View(n, d).kids + [Doc(0, 0.0, None, None, [])])
    ensures Leaf(n', p, 0)
  {
    var n1, leaf := n[p := Cell(0, 0, 0, 0, false, 0, 0.0, 0)], LeafShape(p, 0);
    var e := d.(kids := d.kids + [leaf]);
    GrownTree(n, n1, d);
    AllAllocated(n, d);
    LeafTree(n1, p, 0);
    AppendTree(n1, d, leaf);
    LinksBefore(n1, d, leaf);
    forall q | q in m && q != d.p ensures Keeps(m, n', q) {
      assert q !in Ptrs(e.kids) by {
        if q in Ptrs(e.kids) {
          AppendedIsNew(m, n, d, p, q);
        }
      }
    }
  }

  lemma AppendedIsNew(m: Mem, n: Mem, d: Shape, p: Ptr, q: Ptr)
    requires Filled(m, n, d) && p !in n && q in Footprints(d.kids) + {p}
    ensures q !in m
  {
    if q in Footprints(d.kids) {
      InFootprints(d.kids, q);
      var i :| 0 <= i < |d.kids| && q in Footprint(d.kids[i]);
      KidIsNew(m, n, d, i);
    }
  }

  /** A leaf child is given a name. */
  lemma KidNamed(n: Mem, d: Shape, k: nat, child: Ptr, p: Ptr, s: string, tag: nat)
    requires Tree(n, d) && Separate(d) && !d.reference && k < |d.kids| && d.kids[k] == LeafShape(child, 0)
    requires Leaf(n, child, 0) && p != 0 && p !in n
    ensures var n', kid := n[p := Text(s)][child := n[child].(name := p, tag := tag)], LeafShape(child, p);
            && KidFills(n, n', d, k, kid) && n'.Keys == n.Keys + Footprint(kid) && Leaf(n', child, p)
            && View(n', kid) == Doc(tag, 0.0, Some(s), None, [])
  {
    var n', kid := n[p := Text(s)][child := n[child].(name := p, tag := tag)], LeafShape(child, p);
    LeafTree(n', child, p);
    LeafTree(n, child, 0);
  }
}
