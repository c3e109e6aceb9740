/** cJSON's operations on items in memory, each following the pointers the way the source does. */
module JsonItems {
  import opened JsonHeap
  import opened JsonTree
  import opened JsonReaders
  import opened Shapes
  import opened Wrappers

  /** The next pointers lead through ks from item i on. */
  ghost predicate ChainFrom(m: Mem, ks: seq<Shape>, i: nat)
  {
    forall j :: i <= j < |ks| ==> Tree(m, ks[j]) && NextAt(m, ks, j)
  }

  lemma LinkedChain(m: Mem, ks: seq<Shape>)
    requires Linked(m, ks) && Trees(m, ks)
    ensures ChainFrom(m, ks, 0)
  {
    forall j | 0 <= j < |ks| ensures NextAt(m, ks, j) {
      assert LinkedAt(m, ks, j);
    }
  }

  /** Releasing item i leaves the chain behind it as it was. */
  lemma ChainRest(m: Mem, n: Mem, ks: seq<Shape>, i: nat)
    requires i < |ks| && ChainFrom(m, ks, i) && SeparateAll(ks) && n == m - Footprint(ks[i])
    ensures ChainFrom(n, ks, i + 1)
  {
    forall j | i < j < |ks| ensures Tree(n, ks[j]) && NextAt(n, ks, j) {
      assert Footprint(ks[i]) !! Footprint(ks[j]);
      assert Tree(m, ks[j]) && NextAt(m, ks, j);
      forall q | q in Footprint(ks[j]) ensures Keeps(m, n, q) {
        Allocated(m, ks[j], q);
      }
      TreeSame(m, n, ks[j]);
      TreeAt(m, ks[j]);
    }
  }

  /** Pointers are null exactly at the end of a chain. */
  lemma AtEnd(m: Mem, ks: seq<Shape>, i: nat)
    requires i <= |ks| && ChainFrom(m, ks, i)
    ensures At(ks, i) == 0 <==> i == |ks|
  {
    if i < |ks| {
      assert Tree(m, ks[i]);
    }
  }

  lemma NoKids(m: Mem, t: Shape)
    requires Tree(m, t)
    ensures m[t.p].reference || m[t.p].child == 0 <==> t.reference || t.kids == []
    ensures t.reference ==> t.kids == []
  {
    assert Trees(m, t.kids);
    LinkedChain(m, t.kids);
    AtEnd(m, t.kids, 0);
  }

  lemma KidsChain(m: Mem, a: Shape)
    requires Tree(m, a) && !a.reference
    ensures ChainFrom(m, a.kids, 0) && m[a.p].child == At(a.kids, 0)
  {
    assert Trees(m, a.kids);
    LinkedChain(m, a.kids);
  }

  class Memory {
    var blocks: Mem
    // addresses from here on have not been handed out
    var top: Ptr

    ghost predicate Valid()
      reads this
    {
      0 < top && forall p :: p in blocks ==> 0 < p < top
    }

    constructor ()
      ensures Valid() && blocks == map[]
    {
      blocks, top := map[], 1;
    }

    method Malloc(b: Block) returns (p: Ptr)
      requires Valid()
      modifies this
      ensures Valid() && p != 0 && p !in old(blocks) && blocks == old(blocks)[p := b]
    {
      p := top;
      blocks, top := blocks[p := b], top + 1;
    }

    /** Only a block that is allocated may be released. */
    method Free(p: Ptr)
      requires Valid() && p in blocks
      modifies this`blocks
      ensures Valid() && blocks == old(blocks) - {p}
    {
      blocks := blocks - {p};
    }

    /** Releases the item c and all it owns. */
    method Release(c: Ptr, ghost t: Shape)
      requires Valid() && c == t.p && Tree(blocks, t) && Separate(t)
      modifies this`blocks
      ensures Valid() && blocks == old(blocks) - Footprint(t)
      decreases t
    {
      ghost var m := blocks;
      assert Trees(blocks, t.kids);
      LinkedChain(blocks, t.kids);
      NoKids(blocks, t);
      var cell := blocks[c];
      if !cell.reference && cell.child != 0 {
        Delete(cell.child, t.kids);
      }
      assert blocks == m - Footprints(t.kids);
      FreeItem(c, t, m);
      assert blocks == m - Footprint(t);
    }

    /** Releases an item's strings and the item itself. */
    method FreeItem(c: Ptr, ghost t: Shape, ghost m: Mem)
      requires Valid() && c == t.p && Node(m, t) && Separate(t) && blocks == m - Footprints(t.kids)
      modifies this`blocks
      ensures Valid() && blocks == old(blocks) - Own(t)
    {
      assert c in Own(t) && (t.name != 0 ==> t.name in Own(t)) && (t.text != 0 ==> t.text in Own(t));
      var cell := blocks[c];
      if !cell.reference && cell.valuestring != 0 {
        Free(cell.valuestring);
      }
      if cell.name != 0 {
        Free(cell.name);
      }
      Free(c);
    }

    /** cJSON_Delete: releases the chain of items that starts at item, each block it owns exactly once, and
        nothing else. Free's precondition rules out a second release of the same block. */
    method Delete(item: Ptr, ghost ks: seq<Shape>)
      requires Valid() && item == At(ks, 0) && ChainFrom(blocks, ks, 0) && SeparateAll(ks)
      modifies this`blocks
      ensures Valid() && blocks == old(blocks) - Footprints(ks)
      decreases ks
    {
      var c := item;
      ghost var i := 0;
      while c != 0
        invariant Valid() && i <= |ks| && c == At(ks, i) && ChainFrom(blocks, ks, i)
        invariant blocks == old(blocks) - Footprints(ks[..i])
        decreases |ks| - i
      {
        assert Tree(blocks, ks[i]) && NextAt(blocks, ks, i);
        var next := blocks[c].next;
        ChainRest(blocks, blocks - Footprint(ks[i]), ks, i);
        FootprintsUpTo(ks, i);
        Release(c, ks[i]);
        c, i := next, i + 1;
      }
      assert ks[..i] == ks;
    }

    // -------------------------------------------------------------------------------
    // Lists of children
    // -------------------------------------------------------------------------------

    /** Follows `which` next pointers; a negative number counts as none. */
    method Walk(container: Ptr, which: int, ghost a: Shape) returns (c: Ptr)
      requires container == a.p && Tree(blocks, a) && !a.reference
      ensures c == At(a.kids, if which < 0 then 0 else which)
      ensures c == 0 <==> |a.kids| <= if which < 0 then 0 else which
    {
      KidsChain(blocks, a);
      c := blocks[container].child;
      var left := which;
      ghost var i := 0;
      AtEnd(blocks, a.kids, 0);
      while c != 0 && left > 0
        invariant i <= |a.kids| && c == At(a.kids, i) && (c == 0 <==> i == |a.kids|)
        invariant left == which - i && (which < 0 ==> i == 0) && (which >= 0 ==> i <= which)
        decreases |a.kids| - i
      {
        assert NextAt(blocks, a.kids, i);
        c := blocks[c].next;
        left, i := left - 1, i + 1;
        AtEnd(blocks, a.kids, i);
      }
    }

    /** The last item of the list, or null. */
    method Last(container: Ptr, ghost a: Shape) returns (c: Ptr)
      requires container == a.p && Tree(blocks, a) && !a.reference
      ensures c == At(a.kids, |a.kids| - 1) && (c == 0 <==> a.kids == [])
      ensures c != 0 ==> IsCell(blocks, c)
    {
      KidsChain(blocks, a);
      c := blocks[container].child;
      ghost var i := 0;
      AtEnd(blocks, a.kids, 0);
      if c != 0 {
        assert NextAt(blocks, a.kids, 0);
        while blocks[c].next != 0
          invariant i < |a.kids| && c == At(a.kids, i) && NextAt(blocks, a.kids, i)
          decreases |a.kids| - i
        {
          AtEnd(blocks, a.kids, i + 1);
          c, i := blocks[c].next, i + 1;
          assert NextAt(blocks, a.kids, i);
        }
        AtEnd(blocks, a.kids, i + 1);
      }
    }

    /** Appends: the links, the view of the container and the blocks it owns all grow by the item. The null item is
        ignored. */
    method AddItemToArray(container: Ptr, item: Ptr, ghost a: Shape, ghost t: Shape)
      requires Valid() && container == a.p && Tree(blocks, a)
      requires item != 0 ==> item == t.p && Addable(blocks, a, t) && Alone(blocks, item)
      modifies this`blocks
      ensures Valid()
      ensures if item == 0 then blocks == old(blocks)
              else
                var b := a.(kids := a.kids + [t]);
                && Tree(blocks, b) && Separate(b) && Footprint(b) == Footprint(a) + Footprint(t)
                && View(blocks, b) == old(View(blocks, a)).(kids := old(View(blocks, a)).kids + [old(View(blocks, t))])
                && Relinked(old(blocks), blocks, container, Ptrs(b.kids))
                && blocks[container] == old(blocks)[container].(child := At(b.kids, 0))
    {
      if item == 0 {
        return;
      }
      AppendTree(blocks, a, t);
      var c := Last(container, a);
      if c == 0 {
        blocks := SetChild(blocks, container, item);
      } else {
        blocks := SetNext(blocks, c, item);
        blocks := SetPrev(blocks, item, c);
      }
    }

    /** Takes out the item at a position, or, when there is none, changes nothing. */
    method DetachItemFromArray(container: Ptr, which: int, ghost a: Shape) returns (c: Ptr)
      requires Valid() && container == a.p && Tree(blocks, a) && Separate(a) && !a.reference
      modifies this`blocks
      ensures Valid()
      ensures var k := if which < 0 then 0 else which;
              if k >= |a.kids| then c == 0 && blocks == old(blocks)
              else
                var b, t, was := a.(kids := Without(a.kids, k)), a.kids[k], old(View(blocks, a));
                && c == t.p && Alone(blocks, c)
                && Tree(blocks, b) && Separate(b) && Tree(blocks, t) && Separate(t)
                && Footprint(b) !! Footprint(t) && Footprint(b) + Footprint(t) == Footprint(a)
                && View(blocks, b) == was.(kids := was.kids[..k] + was.kids[k + 1..])
                && View(blocks, t) == was.kids[k]
                && Relinked(old(blocks), blocks, container, Ptrs(a.kids))
    {
      c := Walk(container, which, a);
      if c == 0 {
        return;
      }
      DetachTree(blocks, a, if which < 0 then 0 else which);
      Unlink(container, c);
    }

    method Unlink(container: Ptr, c: Ptr)
      requires Valid() && IsCell(blocks, container) && IsCell(blocks, c)
      requires (blocks[c].next != 0 ==> IsCell(blocks, blocks[c].next)) && (blocks[c].prev != 0 ==> IsCell(blocks, blocks[c].prev))
      modifies this`blocks
      ensures Valid() && blocks == Unlinked(old(blocks), container, c)
    {
      var prev, next := blocks[c].prev, blocks[c].next;
      if prev != 0 {
        blocks := SetNext(blocks, prev, next);
      }
      if next != 0 {
        blocks := SetPrev(blocks, next, prev);
      }
      if c == blocks[container].child {
        blocks := SetChild(blocks, container, next);
      }
      blocks := SetPrev(blocks, c, 0);
      blocks := SetNext(blocks, c, 0);
    }

    /** Puts t in the place of c. */
    method Swap(container: Ptr, c: Ptr, t: Ptr)
      requires Valid() && IsCell(blocks, container) && IsCell(blocks, c) && IsCell(blocks, t) && t != c
      requires (blocks[c].next != 0 ==> IsCell(blocks, blocks[c].next)) && (blocks[c].prev != 0 ==> IsCell(blocks, blocks[c].prev))
      requires c != blocks[container].child ==> blocks[c].prev != 0
      requires t != container && t != blocks[c].next && t != blocks[c].prev
      modifies this`blocks
      ensures Valid() && blocks == Swapped(old(blocks), container, c, t)
    {
      blocks := SetNext(blocks, t, blocks[c].next);
      blocks := SetPrev(blocks, t, blocks[c].prev);
      if blocks[t].next != 0 {
        blocks := SetPrev(blocks, blocks[t].next, t);
      }
      if c == blocks[container].child {
        blocks := SetChild(blocks, container, t);
      } else {
        blocks := SetNext(blocks, blocks[t].prev, t);
      }
      blocks := SetPrev(blocks, c, 0);
      blocks := SetNext(blocks, c, 0);
    }

    /** Releases one item that stands alone. */
    method DeleteOne(c: Ptr, ghost t: Shape)
      requires Valid() && c == t.p && Tree(blocks, t) && Separate(t) && Alone(blocks, c)
      modifies this`blocks
      ensures Valid() && blocks == old(blocks) - Footprint(t)
    {
      assert NextAt(blocks, [t], 0);
      Singleton(t);
      Delete(c, [t]);
    }

    /** Takes out and releases the item at a position; the rest of the container stays. */
    method DeleteItemFromArray(container: Ptr, which: int, ghost a: Shape)
      requires Valid() && container == a.p && Tree(blocks, a) && Separate(a) && !a.reference
      modifies this`blocks
      ensures Valid()
      ensures var k := if which < 0 then 0 else which;
              if k >= |a.kids| then blocks == old(blocks)
              else
                var b, t, was := a.(kids := Without(a.kids, k)), a.kids[k], old(View(blocks, a));
                && Tree(blocks, b) && Separate(b) && Footprint(b) == Footprint(a) - Footprint(t)
                && View(blocks, b) == was.(kids := was.kids[..k] + was.kids[k + 1..])
                && blocks.Keys == old(blocks).Keys - Footprint(t)
                && forall q :: q in old(blocks) && q !in Footprint(a) ==> Keeps(old(blocks), blocks, q)
    {
      ghost var m := blocks;
      var c := DetachItemFromArray(container, which, a);
      if c == 0 {
        Delete(c, []);
      } else {
        ghost var k := if which < 0 then 0 else which;
        ghost var b, t, n := a.(kids := Without(a.kids, k)), a.kids[k], blocks;
        DeleteOne(c, t);
        StillThere(n, blocks, b, t);
        LinksInside(m, a, n, a.kids);
      }
    }

    /** Exchanges the item at a position and releases the old one; where there is none, changes nothing, and
        the new item stays with the caller. */
    method ReplaceItemInArray(container: Ptr, which: int, newitem: Ptr, ghost a: Shape, ghost t: Shape)
      requires Valid() && container == a.p && newitem == t.p && Addable(blocks, a, t)
      modifies this`blocks
      ensures Valid()
      ensures var k := if which < 0 then 0 else which;
              if k >= |a.kids| then blocks == old(blocks)
              else
                var b, was := a.(kids := a.kids[k := t]), old(View(blocks, a));
                && Tree(blocks, b) && Separate(b)
                && View(blocks, b) == was.(kids := was.kids[k := old(View(blocks, t))])
                && blocks.Keys == old(blocks).Keys - Footprint(a.kids[k])
                && forall q :: q in old(blocks) && q !in Footprint(a) + Footprint(t) ==> Keeps(old(blocks), blocks, q)
    {
      ghost var m := blocks;
      var c := Walk(container, which, a);
      if c == 0 {
        return;
      }
      ghost var k := if which < 0 then 0 else which;
      Exchange(container, c, newitem, a, k, t);
      ghost var n := blocks;
      DeleteOne(c, a.kids[k]);
      StillThere(n, blocks, a.(kids := a.kids[k := t]), a.kids[k]);
      LinksInsideBoth(m, a, n, t);
      FootprintsAt(a.kids, k);
    }

    method Exchange(container: Ptr, c: Ptr, newitem: Ptr, ghost a: Shape, ghost k: nat, ghost t: Shape)
      requires Valid() && container == a.p && newitem == t.p && Addable(blocks, a, t) && k < |a.kids| && c == a.kids[k].p
      modifies this`blocks
      ensures Valid()
      ensures var b, old_ := a.(kids := a.kids[k := t]), a.kids[k];
              && Tree(blocks, b) && Separate(b) && Tree(blocks, old_) && Separate(old_) && Alone(blocks, c)
              && Footprint(b) !! Footprint(old_)
              && View(blocks, b) == old(View(blocks, a)).(kids := old(View(blocks, a)).kids[k := old(View(blocks, t))])
              && Relinked(old(blocks), blocks, container, Ptrs(a.kids + [t]))
    {
      ReplaceTree(blocks, a, k, t);
      NewRoot(blocks, a, t);
      OtherThan(Ptrs(a.kids), k, t.p);
      Swap(container, c, newitem);
    }

    // -------------------------------------------------------------------------------
    // References
    // -------------------------------------------------------------------------------

    /** A copy of the item that shares its children and its string but has no name and does not own them. */
    method CreateReference(item: Ptr) returns (r: Ptr)
      requires Valid() && IsCell(blocks, item)
      modifies this
      ensures Valid() && r != 0 && r !in old(blocks) && Alone(blocks, r)
      ensures blocks == old(blocks)[r := old(blocks)[item].(name := 0, reference := true, next := 0, prev := 0)]
    {
      var copied := blocks[item].(name := 0, reference := true, next := 0, prev := 0);
      r := Malloc(copied);
    }

    /** Appends a reference to the item, which reads as the item does but has no name. That holds of an item anywhere
        that neither contains the container nor reads, below itself, through the container's children. */
    method AddItemReferenceToArray(container: Ptr, item: Ptr, ghost a: Shape) returns (ghost r: Shape)
      requires Valid() && container == a.p && Tree(blocks, a) && Separate(a) && !a.reference && IsCell(blocks, item)
      modifies this
      ensures Valid() && r.p != 0 && r.p !in old(blocks) && Footprint(r) == {r.p}
      ensures var b := a.(kids := a.kids + [r]);
              && Tree(blocks, b) && Separate(b) && Footprint(b) == Footprint(a) + {r.p}
              && blocks.Keys == old(blocks).Keys + {r.p}
              && blocks[container] == old(blocks)[container].(child := At(b.kids, 0))
              && forall q :: q in old(blocks) && q !in Footprint(a) ==> Keeps(old(blocks), blocks, q)
      ensures forall t :: Readable(old(blocks), t) && t.p == item && container !in Footprint(t)
                          && (forall q :: q in Ptrs(a.kids) ==> q !in Footprints(t.kids)) ==>
                && Readable(blocks, Borrowed(t, r.p))
                && View(blocks, Borrowed(t, r.p)) == old(View(blocks, t)).(name := None)
    {
      ghost var m := blocks;
      var p := CreateReference(item);
      r := Shape(p, true, 0, 0, []);
      GrownTree(m, blocks, a);
      AllAllocated(m, a);
      assert Footprint(r) == {p};
      assert Tree(blocks, r) && Separate(r);
      TreeAt(m, a);
      ghost var n := blocks;
      LinksBefore(n, a, r);
      AddItemToArray(container, p, a, r);
      assert Ptrs(a.kids + [r]) == Ptrs(a.kids) + [p];
      forall t | Readable(m, t) && t.p == item && container !in Footprint(t)
                 && (forall q :: q in Ptrs(a.kids) ==> q !in Footprints(t.kids))
        ensures Readable(blocks, Borrowed(t, p)) && View(blocks, Borrowed(t, p)) == View(m, t).(name := None)
      {
        ReferenceReads(m, blocks, container, Ptrs(a.kids), t, p);
      }
    }

    /** Adding an existing item to a container by reference and then deleting the container gives back every
        block of the container and leaves the item as it was, with all it owns. */
    method BorrowAndDelete(container: Ptr, item: Ptr, ghost a: Shape, ghost t: Shape)
      requires Valid() && container == a.p && item == t.p && Addable(blocks, a, t) && Alone(blocks, container)
      modifies this
      ensures Valid() && blocks == old(blocks) - Footprint(a)
      ensures Tree(blocks, t) && View(blocks, t) == old(View(blocks, t))
    {
      ghost var m := blocks;
      TreeAt(m, t);
      TreeAt(m, a);
      ghost var r := AddItemReferenceToArray(container, item, a);
      ghost var b := a.(kids := a.kids + [r]);
      ghost var n := blocks;
      Singleton(b);
      assert NextAt(n, [b], 0);
      Delete(container, [b]);
      assert blocks == m - Footprint(a);
      StillThere(m, blocks, t, a);
    }
  }

  /** A tree stays where it is when other blocks are allocated. */
  lemma GrownTree(m: Mem, n: Mem, t: Shape)
    requires Tree(m, t) && forall q :: q in m ==> Keeps(m, n, q)
    ensures Tree(n, t) && View(n, t) == View(m, t)
  {
    forall q | q in Footprint(t) ensures Keeps(m, n, q) {
      Allocated(m, t, q);
    }
    TreeSame(m, n, t);
  }

  lemma AllAllocated(m: Mem, t: Shape)
    requires Tree(m, t)
    ensures Footprint(t) <= m.Keys
  {
    forall q | q in Footprint(t) ensures q in m {
      Allocated(m, t, q);
    }
  }

  lemma LinksBefore(m: Mem, a: Shape, t: Shape)
    requires Addable(m, a, t)
    ensures forall q :: q in Ptrs(a.kids + [t]) ==> q in Footprints(a.kids) + Footprint(t)
  {
    Pool(m, a, t);
    RootsBelow(m, a, a.kids + [t]);
  }

  lemma OtherThan(ps: seq<Ptr>, k: nat, t: Ptr)
    requires k < |ps| && t !in ps && t != 0
    ensures t != ps[k] && t != PtrAt(ps, k + 1) && t != PtrAt(ps, k - 1)
  {
  }

  lemma LinksInsideBoth(m: Mem, a: Shape, n: Mem, t: Shape)
    requires Addable(m, a, t) && Relinked(m, n, a.p, Ptrs(a.kids + [t]))
    ensures forall q :: q in m && q !in Footprint(a) + Footprint(t) ==> Keeps(m, n, q)
  {
    Pool(m, a, t);
    assert Trees(m, a.kids + [t]);
    RootsBelow(m, a, a.kids + [t]);
    TreeAt(m, a);
  }

  /** Releasing tree t leaves tree b, which shares nothing with it. */
  lemma StillThere(m: Mem, n: Mem, b: Shape, t: Shape)
    requires Tree(m, b) && Footprint(b) !! Footprint(t) && n == m - Footprint(t)
    ensures Tree(n, b) && View(n, b) == View(m, b)
  {
    forall q | q in Footprint(b) ensures Keeps(m, n, q) {
      Allocated(m, b, q);
    }
    TreeSame(m, n, b);
  }

  /** Relinking children of a changes nothing outside a. */
  lemma LinksInside(m: Mem, a: Shape, n: Mem, ks: seq<Shape>)
    requires Tree(m, a) && Separate(a) && Relinked(m, n, a.p, Ptrs(ks)) && ks == a.kids
    ensures forall q :: q in m && q !in Footprint(a) ==> Keeps(m, n, q)
  {
    assert Trees(m, a.kids);
    RootsBelow(m, a, a.kids);
    TreeAt(m, a);
  }
}
