/** The memory cJSON trees live in, and what it means for a tree to be there. */
module JsonHeap {
  import opened Wrappers
  import opened Shapes

  /** A string, or an item. The flag in `type` that marks references is kept apart from the type itself. */
  datatype Block =
    | Text(chars: string)
    | Cell(next: Ptr, prev: Ptr, child: Ptr, tag: nat, reference: bool, valuestring: Ptr, number: real, name: Ptr)

  type Mem = map<Ptr, Block>

  ghost predicate IsText(m: Mem, p: Ptr)
  {
    p != 0 ==> p in m && m[p].Text?
  }

  ghost predicate IsCell(m: Mem, p: Ptr)
  {
    p != 0 && p in m && m[p].Cell?
  }

  /** The sibling links of a list of children are mutually inverse and end in null pointers. */
  ghost predicate Linked(m: Mem, ks: seq<Shape>)
  {
    forall i :: 0 <= i < |ks| ==> LinkedAt(m, ks, i)
  }

  ghost predicate LinkedAt(m: Mem, ks: seq<Shape>, i: int)
  {
    IsCell(m, At(ks, i)) && m[At(ks, i)].next == At(ks, i + 1) && m[At(ks, i)].prev == At(ks, i - 1)
  }

  /** The item at the root of shape t. Nothing is said of its sibling links. */
  ghost predicate Node(m: Mem, t: Shape)
  {
    && IsCell(m, t.p)
    && m[t.p].reference == t.reference && m[t.p].name == t.name && IsText(m, t.name)
    && (t.reference ==> t.text == 0 && t.kids == [])
    && (!t.reference ==> m[t.p].valuestring == t.text && IsText(m, t.text) && m[t.p].child == At(t.kids, 0))
  }

  /** Shape t is in memory. */
  ghost predicate Tree(m: Mem, t: Shape)
  {
    Node(m, t) && Linked(m, t.kids) && Trees(m, t.kids)
  }

  ghost predicate Trees(m: Mem, ks: seq<Shape>)
  {
    forall i :: 0 <= i < |ks| ==> Tree(m, ks[i])
  }

  // ---------------------------------------------------------------------------------
  // What a tree says
  // ---------------------------------------------------------------------------------

  datatype Doc = Doc(tag: nat, number: real, name: Option<string>, text: Option<string>, kids: seq<Doc>)

  ghost function TextAt(m: Mem, p: Ptr): Option<string>
  {
    if p != 0 && p in m && m[p].Text? then Some(m[p].chars) else None
  }

  ghost function View(m: Mem, t: Shape): Doc
  {
    var (tag, number) := if IsCell(m, t.p) then (m[t.p].tag, m[t.p].number) else (0, 0.0);
    Doc(tag, number, TextAt(m, t.name), TextAt(m, t.text), Views(m, t.kids))
  }

  ghost function Views(m: Mem, ks: seq<Shape>): (ds: seq<Doc>)
    ensures |ds| == |ks|
  {
    if ks == [] then [] else [View(m, ks[0])] + Views(m, ks[1..])
  }

  lemma {:induction false} ViewsAt(m: Mem, ks: seq<Shape>, i: nat)
    requires i < |ks|
    ensures Views(m, ks)[i] == View(m, ks[i])
  {
    if i > 0 {
      ViewsAt(m, ks[1..], i - 1);
    }
  }

  // ---------------------------------------------------------------------------------
  // What other changes to memory leave alone
  // ---------------------------------------------------------------------------------

  ghost predicate Keeps(m: Mem, n: Mem, q: Ptr)
  {
    q in m && q in n && n[q] == m[q]
  }

  /** A tree depends on its own blocks only. */
  lemma {:induction false} TreeSame(m: Mem, n: Mem, t: Shape)
    requires Tree(m, t) && forall q :: q in Footprint(t) ==> Keeps(m, n, q)
    ensures Tree(n, t) && View(n, t) == View(m, t)
    decreases t
  {
    ListSame(m, n, t.kids);
    LinkedSame(m, n, t.kids);
    NodeSame(m, n, t);
  }

  lemma NodeSame(m: Mem, n: Mem, t: Shape)
    requires Node(m, t) && forall q :: q in Own(t) ==> Keeps(m, n, q)
    ensures Node(n, t) && n[t.p] == m[t.p] && TextAt(n, t.name) == TextAt(m, t.name) && TextAt(n, t.text) == TextAt(m, t.text)
  {
    assert t.p in Own(t) && (t.name != 0 ==> t.name in Own(t)) && (t.text != 0 ==> t.text in Own(t));
    assert Keeps(m, n, t.p) && (t.name != 0 ==> Keeps(m, n, t.name)) && (t.text != 0 ==> Keeps(m, n, t.text));
  }

  lemma LinkedSame(m: Mem, n: Mem, ks: seq<Shape>)
    requires Linked(m, ks) && forall q :: q in Footprints(ks) ==> Keeps(m, n, q)
    ensures Linked(n, ks)
  {
    forall i | 0 <= i < |ks| ensures LinkedAt(n, ks, i) {
      assert LinkedAt(m, ks, i);
      FootprintsAt(ks, i);
      assert ks[i].p in Own(ks[i]);
      assert Keeps(m, n, ks[i].p);
    }
  }

  lemma {:induction false} ListSame(m: Mem, n: Mem, ks: seq<Shape>)
    requires Trees(m, ks)
    requires forall q :: q in Footprints(ks) ==> Keeps(m, n, q)
    ensures Trees(n, ks)
    ensures Views(n, ks) == Views(m, ks)
    decreases ks
  {
    if ks != [] {
      TreeSame(m, n, ks[0]);
      ListSame(m, n, ks[1..]);
      forall i | 0 <= i < |ks| ensures Tree(n, ks[i]) {
        assert i > 0 ==> ks[i] == ks[1..][i - 1];
      }
    }
  }

  predicate SiblingsOnly(b: Block, c: Block)
  {
    b.Cell? && c.Cell? && c == b.(next := c.next, prev := c.prev)
  }

  /** Nothing changed but the sibling links of the items in s, and item a. */
  ghost predicate Relinked(m: Mem, n: Mem, a: Ptr, s: seq<Ptr>)
  {
    && n.Keys == m.Keys
    && forall q :: q in m && q != a ==> if q in s then SiblingsOnly(m[q], n[q]) else n[q] == m[q]
  }

  /** A tree does not depend on the sibling links of its root. */
  lemma TreeMoved(m: Mem, n: Mem, t: Shape, a: Ptr, s: seq<Ptr>)
    requires Tree(m, t) && Separate(t) && Relinked(m, n, a, s)
    requires a !in Footprint(t) && RootOnly(t, s)
    ensures Tree(n, t) && View(n, t) == View(m, t)
  {
    TreeAt(m, t);
    forall q | q in Footprints(t.kids) ensures Keeps(m, n, q) {
      Allocated(m, t, q);
      assert q != t.p && q !in s;
    }
    ListSame(m, n, t.kids);
    LinkedSame(m, n, t.kids);
    assert t.p in n && n[t.p] == m[t.p].(next := n[t.p].next, prev := n[t.p].prev);
    TextKept(m, n, t, t.name, a, s);
    TextKept(m, n, t, t.text, a, s);
  }

  lemma TextKept(m: Mem, n: Mem, t: Shape, q: Ptr, a: Ptr, s: seq<Ptr>)
    requires Tree(m, t) && Separate(t) && Relinked(m, n, a, s) && (q == t.name || q == t.text)
    requires a !in Footprint(t) && RootOnly(t, s)
    ensures IsText(n, q) && TextAt(n, q) == TextAt(m, q)
  {
    if q != 0 {
      assert q in Own(t) && q in Footprint(t);
      assert q in m && q !in s;
    }
  }

  lemma TreeAt(m: Mem, t: Shape)
    requires Tree(m, t)
    ensures t.p in Own(t) && t.p in Footprint(t) && t.p in m
  {
  }

  /** All blocks of a tree are in memory. */
  lemma {:induction false} Allocated(m: Mem, t: Shape, q: Ptr)
    requires Tree(m, t) && q in Footprint(t)
    ensures q in m
    decreases t
  {
    if q !in Own(t) {
      InFootprints(t.kids, q);
      var i :| 0 <= i < |t.kids| && q in Footprint(t.kids[i]);
      Allocated(m, t.kids[i], q);
    }
  }

  /** Giving container a the list of children ks, after the links were set right. */
  lemma Relink(m: Mem, n: Mem, a: Shape, ks: seq<Shape>, s: seq<Ptr>)
    requires Tree(m, a) && !a.reference && Separate(a)
    requires SeparateAll(ks) && Own(a) !! Footprints(ks) && Trees(m, ks)
    requires Relinked(m, n, a.p, s) && n[a.p] == m[a.p].(child := At(ks, 0)) && Linked(n, ks)
    requires (forall q :: q in s ==> q !in Own(a)) && forall i :: 0 <= i < |ks| ==> RootOnly(ks[i], s)
    ensures var b := a.(kids := ks);
            Tree(n, b) && Separate(b) && View(n, b) == View(m, a).(kids := Views(m, ks))
  {
    var b := a.(kids := ks);
    TreeAt(m, a);
    forall i | 0 <= i < |ks| ensures Tree(n, ks[i]) && View(n, ks[i]) == View(m, ks[i]) {
      FootprintsAt(ks, i);
      TreeMoved(m, n, ks[i], a.p, s);
    }
    forall i | 0 <= i < |ks| ensures Views(n, ks)[i] == Views(m, ks)[i] {
      ViewsAt(m, ks, i);
      ViewsAt(n, ks, i);
    }
    assert Views(n, ks) == Views(m, ks);
    assert Own(b) == Own(a);
    assert IsText(n, b.name) && IsText(n, b.text);
  }
}
