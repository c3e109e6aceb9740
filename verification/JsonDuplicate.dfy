/** cJSON_Duplicate: a copy with the same contents in new memory, which owns everything it reaches. */
module JsonDuplicate {
  import opened JsonHeap
  import opened JsonTree
  import opened JsonItems
  import opened JsonReaders
  import opened Shapes

  /** A new string with the given contents, or null for null. */
  method CopyText(mem: Memory, p: Ptr) returns (r: Ptr)
    requires mem.Valid() && IsText(mem.blocks, p)
    modifies mem
    ensures mem.Valid() && IsText(mem.blocks, r) && TextAt(mem.blocks, r) == old(TextAt(mem.blocks, p))
    ensures mem.blocks.Keys == old(mem.blocks).Keys + ({r} - {0}) && r !in old(mem.blocks)
    ensures Grown(old(mem.blocks), mem.blocks)
  {
    if p != 0 {
      r := mem.Malloc(mem.blocks[p]);
    } else {
      r := 0;
      assert r !in mem.blocks;
    }
  }

  /** d is in new memory, owns all of it, and reaches nothing else. */
  ghost predicate NewTree(m: Mem, n: Mem, d: Shape)
  {
    && Tree(n, d) && Separate(d) && NoReferences(d) && Alone(n, d.p)
    && Footprint(d) !! m.Keys && n.Keys == m.Keys + Footprint(d) && Grown(m, n)
  }

  /** A copy of one item without its children. */
  method CopyItem(mem: Memory, item: Ptr, ghost t: Shape) returns (newitem: Ptr, ghost d: Shape)
    requires mem.Valid() && Readable(mem.blocks, t) && item == t.p
    modifies mem
    ensures mem.Valid() && newitem == d.p && d.kids == [] && NewTree(old(mem.blocks), mem.blocks, d)
    ensures View(mem.blocks, d) == old(View(mem.blocks, t)).(kids := [])
  {
    var cell := mem.blocks[item];
    var text := CopyText(mem, cell.valuestring);
    var name := CopyText(mem, cell.name);
    ghost var n := mem.blocks;
    newitem := mem.Malloc(Cell(0, 0, 0, cell.tag, false, text, cell.number, name));
    d := Shape(newitem, false, name, text, []);
    NewItem(old(mem.blocks), n, d, cell.tag, cell.number);
  }

  /** An item made behind its strings. */
  lemma NewItem(m: Mem, n: Mem, d: Shape, tag: nat, number: real)
    requires Grown(m, n) && n.Keys == m.Keys + ({d.name, d.text} - {0}) && d.name !in m && d.text !in m
    requires IsText(n, d.name) && IsText(n, d.text) && (d.name == d.text ==> d.name == 0)
    requires d.p != 0 && d.p !in n && d.p != d.name && d.p != d.text && !d.reference && d.kids == []
    ensures var n1 := n[d.p := Cell(0, 0, 0, tag, false, d.text, number, d.name)];
            NewTree(m, n1, d) && View(n1, d) == Doc(tag, number, TextAt(n, d.name), TextAt(n, d.text), [])
  {
    assert Footprint(d) == Own(d);
    var n1 := n[d.p := Cell(0, 0, 0, tag, false, d.text, number, d.name)];
    forall q | q in m ensures Keeps(m, n1, q) {
      assert Keeps(m, n, q);
    }
  }

  /** Hooks a copied child behind the last one. */
  method Attach(mem: Memory, newitem: Ptr, last: Ptr, child: Ptr, ghost d: Shape, ghost c: Shape)
    requires mem.Valid() && newitem == d.p && child == c.p && last == At(d.kids, |d.kids| - 1)
    requires Addable(mem.blocks, d, c) && Alone(mem.blocks, child) && Alone(mem.blocks, newitem)
    modifies mem`blocks
    ensures mem.Valid()
    ensures var b := d.(kids := d.kids + [c]);
            && Tree(mem.blocks, b) && Separate(b) && Footprint(b) == Footprint(d) + Footprint(c) && Alone(mem.blocks, newitem)
            && View(mem.blocks, b) == old(View(mem.blocks, d)).(kids := old(View(mem.blocks, d)).kids + [old(View(mem.blocks, c))])
            && mem.blocks.Keys == old(mem.blocks).Keys
            && forall q :: q in old(mem.blocks) && q !in Footprint(b) ==> Keeps(old(mem.blocks), mem.blocks, q)
  {
    AppendTree(mem.blocks, d, c);
    LinksBefore(mem.blocks, d, c);
    TreeAt(mem.blocks, d);
    if last != 0 {
      mem.blocks := SetNext(mem.blocks, last, child);
      mem.blocks := SetPrev(mem.blocks, child, last);
    } else {
      mem.blocks := SetChild(mem.blocks, newitem, child);
    }
  }

  /** d is a copy in new memory of item t with its first i children. */
  ghost predicate CopyUpTo(m: Mem, n: Mem, t: Shape, d: Shape, i: nat)
  {
    && NewTree(m, n, d) && i <= |t.kids| && |d.kids| == i
    && View(n, d) == View(m, t).(kids := View(m, t).kids[..i])
  }

  /** Copies child i and hooks it to the copy so far; m is the memory before anything was copied. */
  method CopyChild(mem: Memory, newitem: Ptr, last: Ptr, cptr: Ptr, ghost m: Mem, ghost t: Shape, ghost i: nat, ghost d: Shape)
    returns (newchild: Ptr, ghost e: Shape)
    requires mem.Valid() && newitem == d.p && CopyUpTo(m, mem.blocks, t, d, i) && last == At(d.kids, |d.kids| - 1)
    requires i < |t.kids| && Readable(m, t.kids[i]) && cptr == t.kids[i].p
    modifies mem
    ensures mem.Valid() && newitem == e.p && CopyUpTo(m, mem.blocks, t, e, i + 1) && newchild == At(e.kids, |e.kids| - 1)
    decreases t, 0
  {
    ghost var n, k := mem.blocks, t.kids[i];
    ReadableGrown(m, n, k);
    ghost var c;
    newchild, c := Duplicate(mem, cptr, true, k);
    ghost var n1 := mem.blocks;
    AttachReady(m, n, n1, d, c);
    Attach(mem, newitem, last, newchild, d, c);
    e := d.(kids := d.kids + [c]);
    Attached(m, n, n1, mem.blocks, d, c);
    OneMoreView(m, t, i);
  }

  lemma OneMoreView(m: Mem, t: Shape, i: nat)
    requires i < |t.kids|
    ensures View(m, t).kids[..i] + [View(m, t.kids[i])] == View(m, t).kids[..i + 1]
  {
    ViewsAt(m, t.kids, i);
  }

  lemma AttachReady(m: Mem, n: Mem, n1: Mem, d: Shape, c: Shape)
    requires NewTree(m, n, d) && NewTree(n, n1, c)
    ensures Addable(n1, d, c) && Alone(n1, d.p) && View(n1, d) == View(n, d)
  {
    GrownTree(n, n1, d);
    AllAllocated(n, d);
    assert Keeps(n, n1, d.p);
  }

  /** A new tree hooked to a new tree makes a new tree. */
  lemma Attached(m: Mem, n: Mem, n1: Mem, n2: Mem, d: Shape, c: Shape)
    requires NewTree(m, n, d) && NewTree(n, n1, c)
    requires var e := d.(kids := d.kids + [c]);
             && Tree(n2, e) && Separate(e) && Footprint(e) == Footprint(d) + Footprint(c) && Alone(n2, d.p)
             && n2.Keys == n1.Keys && forall q :: q in n1 && q !in Footprint(e) ==> Keeps(n1, n2, q)
    ensures NewTree(m, n2, d.(kids := d.kids + [c]))
  {
    forall q | q in m ensures Keeps(m, n2, q) {
      assert Keeps(m, n, q) && Keeps(n, n1, q);
    }
    NoneJoins(d, c);
  }

  lemma CopyStarts(m: Mem, n: Mem, t: Shape, d: Shape)
    requires NewTree(m, n, d) && d.kids == [] && View(n, d) == View(m, t).(kids := [])
    ensures CopyUpTo(m, n, t, d, 0)
  {
    assert View(m, t).kids[..0] == [];
  }

  /** A copy in new memory that owns all it reaches, also where the original goes through references. */
  method Duplicate(mem: Memory, item: Ptr, recurse: bool, ghost t: Shape) returns (newitem: Ptr, ghost d: Shape)
    requires mem.Valid() && Readable(mem.blocks, t) && item == t.p
    modifies mem
    ensures mem.Valid() && newitem == d.p && NewTree(old(mem.blocks), mem.blocks, d) && Readable(mem.blocks, d)
    ensures View(mem.blocks, d) == if recurse then old(View(mem.blocks, t)) else old(View(mem.blocks, t)).(kids := [])
    decreases t, 2
  {
    ghost var m := mem.blocks;
    newitem, d := CopyItem(mem, item, t);
    if recurse {
      assert Keeps(m, mem.blocks, item);
      CopyStarts(m, mem.blocks, t, d);
      d := CopyChildren(mem, newitem, mem.blocks[item].child, m, t, d);
    }
    OwnedReadable(mem.blocks, d);
  }

  /** Walks the children of the original, of which first is the first. */
  method CopyChildren(mem: Memory, newitem: Ptr, first: Ptr, ghost m: Mem, ghost t: Shape, ghost c: Shape) returns (ghost d: Shape)
    requires mem.Valid() && Readable(m, t) && newitem == c.p && CopyUpTo(m, mem.blocks, t, c, 0) && first == At(t.kids, 0)
    modifies mem
    ensures mem.Valid() && newitem == d.p && NewTree(m, mem.blocks, d) && View(mem.blocks, d) == View(m, t)
    decreases t, 1
  {
    var cptr, nptr := first, 0;
    ghost var i := 0;
    d := c;
    ReadableEnd(m, t, 0);
    while cptr != 0
      invariant mem.Valid() && newitem == d.p && CopyUpTo(m, mem.blocks, t, d, i)
      invariant cptr == At(t.kids, i) && nptr == At(d.kids, i - 1)
      invariant cptr == 0 <==> i == |t.kids|
      decreases |t.kids| - i
    {
      ReadableEnd(m, t, i);
      nptr, d := CopyChild(mem, newitem, nptr, cptr, m, t, i, d);
      assert Keeps(m, mem.blocks, cptr);
      cptr, i := mem.blocks[cptr].next, i + 1;
      ReadableEnd(m, t, i);
    }
    assert View(m, t).kids[..i] == View(m, t).kids;
  }
}
