/** Reading a document into nodes in memory, in the order of the source: an element is created, linked below its
    parent, and filled after. */
module XmlBuild {
  import X = XmlTree
  import P = XmlParse
  import R = XmlReader
  import opened Shapes
  import opened XmlNodes
  import opened XmlSurgery
  import opened XmlGrow
  import opened Wrappers
  import opened Sequences

  // ---------------------------------------------------------------------------------
  // Reading
  // ---------------------------------------------------------------------------------

  /** What the tree at the root says, if there is one. */
  ghost function Seen(m: Mem, t: Option<Shape>): Option<X.Node>
  {
    if t.None? then None else Some(View(m, t.value))
  }

  ghost predicate IsRoot(m: Mem, root: Ptr, t: Option<Shape>)
  {
    && (root == 0 <==> t.None?)
    && (t.Some? ==> root == t.value.p && Tree(m, t.value) && Separate(t.value) && View(m, t.value).Element?)
  }

  /** From memory m to memory n, the root has grown, or was made; if there is none still, nothing has changed. */
  ghost predicate Built(m: Mem, n: Mem, t: Option<Shape>, root: Ptr, d: Option<Shape>)
  {
    && IsRoot(n, root, d)
    && match (t, d)
       case (None, None) => n == m
       case (None, Some(new_)) => NewTree(m, n, new_)
       case (Some(before), Some(after)) => Grows(m, n, before, after)
       case (Some(_), None) => false
  }

  /** A new node below an element. */
  method AddNew(mem: XmlMemory, root: Ptr, content: X.Node, ghost d: Shape) returns (p: Ptr, ghost b: Shape)
    requires mem.Valid() && root == d.p && Tree(mem.nodes, d) && Separate(d) && View(mem.nodes, d).Element?
    requires content.Element? ==> content.kids == []
    modifies mem
    ensures mem.Valid() && b == d.(kids := d.kids + [Leaf(p)]) && Grows(old(mem.nodes), mem.nodes, d, b)
    ensures View(mem.nodes, b) == R.AddChild(old(View(mem.nodes, d)), content)
  {
    ghost var m := mem.nodes;
    TreeAt(m, d);
    p := mem.NewNode(content);
    GrowsByLeaf(m, d, p, content);
    mem.AddChild(root, p, d, Leaf(p));
    b := d.(kids := d.kids + [Leaf(p)]);
  }

  /** The last child of an element, and what follows when it has grown. */
  lemma LastGrew(m: Mem, n1: Mem, n2: Mem, d: Shape, p: Ptr, content: X.Node, kid: Shape)
    requires var b := d.(kids := d.kids + [Leaf(p)]);
             && Grows(m, n1, d, b) && View(m, d).Element? && View(n1, b) == R.AddChild(View(m, d), content)
             && Grows(n1, n2, Leaf(p), kid)
    ensures Grows(m, n2, d, d.(kids := d.kids + [kid]))
    ensures View(n2, d.(kids := d.kids + [kid])) == R.AddChild(View(m, d), View(n2, kid))
  {
    var b, k := d.(kids := d.kids + [Leaf(p)]), |d.kids|;
    assert b.kids[k] == Leaf(p) && b.kids[k := kid] == d.kids + [kid];
    GrowsInKid(n1, n2, b, k, kid);
    GrowsTwice(m, n1, n2, d, b, d.(kids := d.kids + [kid]));
    assert |View(n1, b).kids| == k + 1;
    assert View(n1, b).kids[k := View(n2, kid)] == View(m, d).kids + [View(n2, kid)];
  }

  lemma LastKid(m: Mem, n: Mem, d: Shape, p: Ptr, content: X.Node)
    requires var b := d.(kids := d.kids + [Leaf(p)]);
             Grows(m, n, d, b) && View(m, d).Element? && View(n, b) == R.AddChild(View(m, d), content)
    ensures Tree(n, Leaf(p)) && Separate(Leaf(p)) && View(n, Leaf(p)) == content && p != 0
  {
    var b, k := d.(kids := d.kids + [Leaf(p)]), |d.kids|;
    assert b.kids[k] == Leaf(p) && Trees(n, b.kids);
    TreeAt(n, b.kids[k]);
    ViewsAt(n, b.kids, k);
    assert |View(n, b).kids| == k + 1;
  }

  /** An element below the root, with what its content holds. */
  method ReadBelow(mem: XmlMemory, root: Ptr, head: P.Head, content: string, ghost d: Shape) returns (ok: bool, ghost e: Shape)
    requires mem.Valid() && '\0' !in content
    requires root == d.p && Tree(mem.nodes, d) && Separate(d) && View(mem.nodes, d).Element?
    modifies mem
    ensures mem.Valid()
    ensures var r := R.ParseInto(content, Some(head));
            && (ok <==> r.Some?)
            && (ok ==> r.value.Some? && Grows(old(mem.nodes), mem.nodes, d, e)
                       && View(mem.nodes, e) == R.AddChild(old(View(mem.nodes, d)), r.value.value))
    decreases |content|, 2
  {
    ghost var m := mem.nodes;
    var node;
    ghost var b;
    node, b := AddNew(mem, root, head, d);
    ghost var n1 := mem.nodes;
    LastKid(m, n1, d, node, head);
    var q;
    ghost var kid;
    ok, q, kid := ParseDoc(mem, content, node, Some(Leaf(node)));
    e := d;
    if ok {
      LastGrew(m, n1, mem.nodes, d, node, head, kid.value);
      e := d.(kids := d.kids + [kid.value]);
    }
  }

  /** An element that becomes the root. */
  method ReadRoot(mem: XmlMemory, head: P.Head, content: string) returns (ok: bool, node: Ptr, ghost e: Shape)
    requires mem.Valid() && '\0' !in content
    modifies mem
    ensures mem.Valid()
    ensures var r := R.ParseInto(content, Some(head));
            && (ok <==> r.Some?)
            && (ok ==> r.value.Some? && node == e.p && NewTree(old(mem.nodes), mem.nodes, e)
                       && View(mem.nodes, e) == r.value.value && View(mem.nodes, e).Element?)
    decreases |content|, 2
  {
    ghost var m := mem.nodes;
    node := mem.NewNode(head);
    LeafTree(m, node, head);
    ghost var n1 := mem.nodes;
    var q;
    ghost var kid;
    ok, q, kid := ParseDoc(mem, content, node, Some(Leaf(node)));
    e := Leaf(node);
    if ok {
      e := kid.value;
      NewGrew(m, n1, mem.nodes, node, e);
    }
  }

  lemma NewGrew(m: Mem, n1: Mem, n2: Mem, p: Ptr, e: Shape)
    requires p !in m && Grown(m, n1) && n1.Keys == m.Keys + {p} && Alone(n1, p) && n1[p].parent == 0
    requires Grows(n1, n2, Leaf(p), e) && Footprint(Leaf(p)) == {p}
    ensures NewTree(m, n2, e)
  {
    forall q | q in m ensures Keeps(m, n2, q) {
      assert Keeps(m, n1, q) && Keeps(n1, n2, q);
    }
  }

  /** One element: below the root, after which reading goes on, or as the root, after which it is over. */
  method ReadElement(mem: XmlMemory, root: Ptr, head: P.Head, content: string, rest: string, ghost m: Mem, ghost t: Option<Shape>, ghost d: Option<Shape>)
    returns (ok: bool, newRoot: Ptr, curPos: string, ghost e: Option<Shape>)
    requires mem.Valid() && '\0' !in content && '\0' !in rest && Built(m, mem.nodes, t, root, d)
    modifies mem
    ensures mem.Valid()
    ensures var r := R.ParseInto(content, Some(head));
            && (ok <==> r.Some?)
            && (ok ==> r.value.Some? && Built(m, mem.nodes, t, newRoot, e) && '\0' !in curPos && |curPos| <= |rest|
                       && R.ParseInto(curPos, Seen(mem.nodes, e)) ==
                          if d.None? then Some(Some(r.value.value))
                          else R.ParseInto(rest, Some(R.AddChild(old(View(mem.nodes, d.value)), r.value.value))))
    decreases |content|, 3
  {
    ghost var n := mem.nodes;
    if root != 0 {
      ghost var f;
      ok, f := ReadBelow(mem, root, head, content, d.value);
      newRoot, curPos, e := root, rest, Some(f);
      if ok && t.Some? {
        GrowsTwice(m, n, mem.nodes, t.value, d.value, f);
      } else if ok {
        NewGrows(m, n, mem.nodes, d.value, f);
      }
    } else {
      ghost var f;
      ok, newRoot, f := ReadRoot(mem, head, content);
      curPos, e := "", Some(f);
      if ok {
        TreeAt(mem.nodes, f);
        R.NothingLeft("", Some(View(mem.nodes, f)));
      }
    }
  }

  lemma NewGrows(m: Mem, n: Mem, k: Mem, d: Shape, e: Shape)
    requires NewTree(m, n, d) && Grows(n, k, d, e)
    ensures NewTree(m, k, e)
  {
    forall q | q in m ensures Keeps(m, k, q) {
      assert Keeps(m, n, q) && Keeps(n, k, q);
    }
  }

  /** Text becomes the only child of a root that has none. */
  method ReadText(mem: XmlMemory, root: Ptr, text: string, ghost m: Mem, ghost t: Option<Shape>, ghost d: Option<Shape>)
    returns (ghost e: Option<Shape>)
    requires mem.Valid() && Built(m, mem.nodes, t, root, d)
    modifies mem
    ensures mem.Valid() && Built(m, mem.nodes, t, root, e)
    ensures var was := old(Seen(mem.nodes, d));
            Seen(mem.nodes, e) ==
            if was.Some? && was.value.kids == [] then Some(was.value.(kids := [X.Text(text)])) else was
  {
    ghost var n := mem.nodes;
    e := d;
    if root != 0 {
      FirstChild(mem.nodes, d.value);
      TreeAt(mem.nodes, d.value);
      if mem.nodes[root].child == 0 {
        var p;
        ghost var b;
        p, b := AddNew(mem, root, X.Text(text), d.value);
        e := Some(b);
        assert |View(n, d.value).kids| == |d.value.kids| && [] + [X.Text(text)] == [X.Text(text)];
        if t.Some? {
          GrowsTwice(m, n, mem.nodes, t.value, d.value, b);
        } else {
          NewGrows(m, n, mem.nodes, d.value, b);
        }
      }
    }
  }

  lemma BuiltNot(m: Mem, root: Ptr, t: Option<Shape>)
    requires IsRoot(m, root, t)
    ensures Built(m, m, t, root, t)
  {
    if t.Some? {
      GrowsNot(m, t.value);
    }
  }

  /** One round of the loop. */
  method ReadNext(mem: XmlMemory, doc: string, root: Ptr, ghost m: Mem, ghost t: Option<Shape>, ghost d: Option<Shape>)
    returns (ok: bool, newRoot: Ptr, curPos: string, ghost e: Option<Shape>)
    requires mem.Valid() && doc != "" && '\0' !in doc && Built(m, mem.nodes, t, root, d)
    modifies mem
    ensures mem.Valid()
    ensures !ok ==> R.ParseInto(doc, old(Seen(mem.nodes, d))) == None
    ensures ok ==>
              && Built(m, mem.nodes, t, newRoot, e) && '\0' !in curPos && |curPos| < |doc|
              && R.ParseInto(curPos, Seen(mem.nodes, e)) == R.ParseInto(doc, old(Seen(mem.nodes, d)))
    decreases |doc|, 0
  {
    R.ParseStep(doc, Seen(mem.nodes, d));
    ok, newRoot, curPos, e := true, root, "", d;
    var tag := R.NextTag(doc);
    match tag
    case NoTag =>
      e := ReadText(mem, root, doc, m, t, d);
      R.NothingLeft(curPos, Seen(mem.nodes, e));
    case BadTag =>
      ok := false;
    case Empty(head, rest) =>
      R.NothingLeft("", Some(head));
      ok, newRoot, curPos, e := ReadElement(mem, root, head, "", rest, m, t, d);
    case Open(head, front) =>
      var end := R.NextEnd(front, P.QName(head));
      match end {
        case NoEnd => curPos := front;
        case BadEnd => ok := false;
        case Ends(content, rest) =>
          ok, newRoot, curPos, e := ReadElement(mem, root, head, content, rest, m, t, d);
      }
  }

  /** _xml_parse_doc: adds what the document holds below the root it is given, or makes its first element the root.
      Not ok where the source would follow a null pointer; nothing is said of memory then. */
  method ParseDoc(mem: XmlMemory, doc: string, given: Ptr, ghost t: Option<Shape>) returns (ok: bool, root: Ptr, ghost d: Option<Shape>)
    requires mem.Valid() && '\0' !in doc && IsRoot(mem.nodes, given, t)
    modifies mem
    ensures mem.Valid()
    ensures var r := R.ParseInto(doc, old(Seen(mem.nodes, t)));
            && (ok <==> r.Some?)
            && (ok ==> Built(old(mem.nodes), mem.nodes, t, root, d) && Seen(mem.nodes, d) == r.value)
    decreases |doc|, 1
  {
    ghost var m, goal := mem.nodes, R.ParseInto(doc, Seen(mem.nodes, t));
    ok := true;
    BuiltNot(m, given, t);
    var curPos := doc;
    root, d := given, t;
    while curPos != ""
      invariant |curPos| <= |doc| && '\0' !in curPos && mem.Valid() && Built(m, mem.nodes, t, root, d)
      invariant R.ParseInto(curPos, Seen(mem.nodes, d)) == goal
      decreases |curPos|
    {
      ok, root, curPos, d := ReadNext(mem, curPos, root, m, t, d);
      if !ok {
        return;
      }
    }
    R.NothingLeft(curPos, Seen(mem.nodes, d));
  }

  /** Memory after a document that yields r was read. */
  ghost predicate Reads(m: Mem, n: Mem, r: Option<Option<X.Node>>, ok: bool, root: Ptr, d: Option<Shape>)
  {
    && (ok <==> r.Some?)
    && (ok ==> (root == 0 <==> r.value.None?) && (root == 0 <==> d.None?))
    && (ok && root == 0 ==> n == m)
    && (ok && root != 0 ==> root == d.value.p && NewTree(m, n, d.value) && View(n, d.value) == r.value.value)
  }

  lemma ReadsExact(m: Mem, n: Mem, r: Option<Option<X.Node>>, ok: bool, root: Ptr, d: Option<Shape>, v: X.Node)
    requires Reads(m, n, r, ok, root, d)
    ensures ok && root != 0 ==> d.Some? && root == d.value.p && NewTree(m, n, d.value)
    ensures ok && root != 0 && View(n, d.value) == v <==> r == Some(Some(v))
  {
  }

  /** xml_parse: what is in front of the first element is skipped, and the rest is read into new nodes. */
  method ParseDocument(mem: XmlMemory, doc: string) returns (ok: bool, root: Ptr, ghost d: Option<Shape>)
    requires mem.Valid() && '\0' !in doc
    modifies mem
    ensures mem.Valid() && Reads(old(mem.nodes), mem.nodes, P.ParseDocument(doc), ok, root, d)
  {
    var procInst, comment := P.SkipMarks(doc, "<?"), P.SkipMarks(doc, "<!");
    if procInst < 0 || comment < 0 {
      return false, 0, None;
    }
    var start := if procInst > comment then procInst else comment;
    ok, root, d := ParseDoc(mem, doc[start..], 0, None);
  }
}
