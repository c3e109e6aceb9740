/** cJSON items as a reader meets them, following the pointers. */
module JsonReaders {
  import opened JsonHeap
  import opened Shapes
  import opened Wrappers

  ghost predicate NextAt(m: Mem, ks: seq<Shape>, i: int)
  {
    IsCell(m, At(ks, i)) && m[At(ks, i)].next == At(ks, i + 1)
  }

  /** A shape as a reader meets it, through the child pointers of references too; the same item may be reached
      more than once. */
  ghost predicate Readable(m: Mem, t: Shape)
  {
    && IsCell(m, t.p)
    && m[t.p].name == t.name && IsText(m, t.name)
    && m[t.p].valuestring == t.text && IsText(m, t.text)
    && m[t.p].child == At(t.kids, 0)
    && ReadableFrom(m, t.kids)
  }

  ghost predicate ReadableFrom(m: Mem, ks: seq<Shape>)
  {
    forall i :: 0 <= i < |ks| ==> Readable(m, ks[i]) && NextAt(m, ks, i)
  }

  predicate NoReferences(t: Shape)
  {
    !t.reference && forall i :: 0 <= i < |t.kids| ==> NoReferences(t.kids[i])
  }

  /** A tree without references is read as it is owned. */
  lemma {:induction false} OwnedReadable(m: Mem, t: Shape)
    requires Tree(m, t) && NoReferences(t)
    ensures Readable(m, t)
    decreases t
  {
    assert Trees(m, t.kids);
    forall i | 0 <= i < |t.kids| ensures Readable(m, t.kids[i]) && NextAt(m, t.kids, i) {
      assert Tree(m, t.kids[i]) && NoReferences(t.kids[i]) && LinkedAt(m, t.kids, i);
      OwnedReadable(m, t.kids[i]);
    }
  }

  ghost predicate Grown(m: Mem, n: Mem)
  {
    forall q :: q in m ==> Keeps(m, n, q)
  }

  /** What is read depends only on the blocks that are met. */
  lemma {:induction false} ReadableSame(m: Mem, n: Mem, t: Shape)
    requires Readable(m, t) && forall q :: q in m && q in Footprint(t) ==> Keeps(m, n, q)
    ensures Readable(n, t) && View(n, t) == View(m, t)
    decreases t
  {
    assert t.p in Own(t) && (t.name != 0 ==> t.name in Own(t)) && (t.text != 0 ==> t.text in Own(t));
    assert Keeps(m, n, t.p) && (t.name != 0 ==> Keeps(m, n, t.name)) && (t.text != 0 ==> Keeps(m, n, t.text));
    ReadableListSame(m, n, t.kids);
  }

  lemma {:induction false} ReadableListSame(m: Mem, n: Mem, ks: seq<Shape>)
    requires ReadableFrom(m, ks) && forall q :: q in m && q in Footprints(ks) ==> Keeps(m, n, q)
    ensures ReadableFrom(n, ks) && Views(n, ks) == Views(m, ks)
    decreases ks
  {
    forall i | 0 <= i < |ks| ensures Readable(n, ks[i]) && NextAt(n, ks, i) && View(n, ks[i]) == View(m, ks[i]) {
      assert Readable(m, ks[i]) && NextAt(m, ks, i);
      FootprintsAt(ks, i);
      ReadableSame(m, n, ks[i]);
      assert ks[i].p in Own(ks[i]) && Keeps(m, n, ks[i].p);
    }
    forall i | 0 <= i < |ks| ensures Views(n, ks)[i] == Views(m, ks)[i] {
      ViewsAt(m, ks, i);
      ViewsAt(n, ks, i);
    }
  }

  /** Allocation does not disturb a reader. */
  lemma ReadableGrown(m: Mem, n: Mem, t: Shape)
    requires Readable(m, t) && Grown(m, n)
    ensures Readable(n, t) && View(n, t) == View(m, t)
  {
    ReadableSame(m, n, t);
  }

  /** An item as it is read through a reference at p: without its name. */
  function Borrowed(t: Shape, p: Ptr): Shape
  {
    Shape(p, true, 0, t.text, t.kids)
  }

  /** A reference to item t was made at p, and then the children of a were linked anew with p among them. */
  lemma ReferenceReads(m: Mem, n: Mem, a: Ptr, ps: seq<Ptr>, t: Shape, p: Ptr)
    requires Readable(m, t) && IsCell(m, a) && p != 0 && p !in m && a !in Footprint(t)
    requires forall q :: q in ps ==> q !in Footprints(t.kids)
    requires Relinked(m[p := m[t.p].(name := 0, reference := true, next := 0, prev := 0)], n, a, ps + [p])
    ensures Readable(n, Borrowed(t, p)) && View(n, Borrowed(t, p)) == View(m, t).(name := None)
  {
    var n1 := m[p := m[t.p].(name := 0, reference := true, next := 0, prev := 0)];
    forall q | q in m && q in Footprints(t.kids) ensures Keeps(m, n, q) {
      assert q in n1 && q != p && q !in ps + [p];
    }
    ReadableListSame(m, n, t.kids);
    if t.text != 0 {
      assert t.text in Own(t) && t.text in n1 && n[t.text] == m[t.text];
    }
  }

  lemma ReadableEnd(m: Mem, t: Shape, i: nat)
    requires Readable(m, t) && i <= |t.kids|
    ensures At(t.kids, i) == 0 <==> i == |t.kids|
    ensures i < |t.kids| ==> Readable(m, t.kids[i]) && NextAt(m, t.kids, i)
  {
    if i < |t.kids| {
      assert Readable(m, t.kids[i]);
    }
  }

  lemma NoneJoins(d: Shape, c: Shape)
    requires NoReferences(d) && NoReferences(c)
    ensures NoReferences(d.(kids := d.kids + [c]))
  {
    var e := d.(kids := d.kids + [c]);
    forall i | 0 <= i < |e.kids| ensures NoReferences(e.kids[i]) {
      assert i < |d.kids| ==> e.kids[i] == d.kids[i];
    }
  }
}
