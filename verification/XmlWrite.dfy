/** Writing XML trees from memory: the size pass and the dump, walking the linked nodes, and reading back what was
    written. */
module XmlWrite {
  import X = XmlTree
  import D = XmlDump
  import P = XmlParse
  import XmlText
  import XmlRoundTrip
  import XmlProlog
  import opened Shapes
  import opened XmlNodes
  import opened XmlSurgery
  import opened XmlBuild
  import opened Wrappers
  import opened Sequences

  /** The node at the root of a tree, and its first child. */
  lemma NodeSays(m: Mem, t: Shape)
    requires Tree(m, t)
    ensures t.p in m && (m[t.p].content.Text? <==> View(m, t).Text?)
    ensures View(m, t).Text? ==> m[t.p].content == View(m, t)
    ensures View(m, t).Element? ==> |View(m, t).kids| == |t.kids| && m[t.p].content == View(m, t).(kids := [])
    ensures m[t.p].child == At(t.kids, 0) && (m[t.p].child == 0 <==> t.kids == [])
  {
    FirstChild(m, t);
  }

  lemma KidSays(m: Mem, t: Shape, i: nat)
    requires Tree(m, t) && i < |t.kids| && View(m, t).Element?
    ensures Tree(m, t.kids[i]) && |View(m, t).kids| == |t.kids| && View(m, t).kids[i] == View(m, t.kids[i])
    ensures t.kids[i].p in m && m[t.kids[i].p].next == At(t.kids, i + 1) && (At(t.kids, i + 1) == 0 <==> i + 1 == |t.kids|)
  {
    assert Trees(m, t.kids);
    ViewsAt(m, t.kids, i);
    TreeAt(m, t.kids[i]);
    NextChild(m, m, t, i);
  }

  // ---------------------------------------------------------------------------------
  // Size
  // ---------------------------------------------------------------------------------

  /** xml_tree_size: walking the links gives the length of the text, for every tree, level and spacing. */
  method TreeSize(mem: XmlMemory, node: Ptr, level: nat, space: nat, ghost t: Shape, ghost v: X.Node) returns (size: nat)
    requires node == t.p && Tree(mem.nodes, t) && v == View(mem.nodes, t)
    ensures size == |X.Dump(v, level, space)|
    decreases t, 3
  {
    NodeSays(mem.nodes, t);
    var content := mem.nodes[node].content;
    size := 0;
    if content.Text? {
      size := size + |content.text|;
    } else {
      X.SizeParts(v, level, space);
      size := size + X.StartSize(content);
      var isElementChild, kids := ChildrenSize(mem, mem.nodes[node].child, level, space, t, v);
      var closing := ClosingSize(isElementChild, level, space, v.kids);
      size := size + kids + closing + X.EndSize(content);
    }
  }

  /** The loop over the children. */
  method ChildrenSize(mem: XmlMemory, first: Ptr, level: nat, space: nat, ghost t: Shape, ghost v: X.Node)
    returns (isElementChild: bool, size: nat)
    requires Tree(mem.nodes, t) && v == View(mem.nodes, t) && v.Element? && first == At(t.kids, 0) && (first == 0 <==> t.kids == [])
    ensures isElementChild <==> v.kids != [] && v.kids[|v.kids| - 1].Element?
    ensures size == |X.DumpKids(v.kids, level, space)|
    decreases t, 1
  {
    var child := first;
    ghost var i := 0;
    size, isElementChild := 0, false;
    assert v.kids[0..] == v.kids && |v.kids| == |t.kids|;
    while child != 0
      invariant i <= |t.kids| && child == At(t.kids, i) && (child == 0 <==> i == |t.kids|)
      invariant size + |X.DumpKids(v.kids[i..], level, space)| == |X.DumpKids(v.kids, level, space)|
      invariant isElementChild <==> i > 0 && v.kids[i - 1].Element?
      decreases |t.kids| - i
    {
      KidSays(mem.nodes, t, i);
      X.NextKid(v.kids, i, level, space);
      var childSize;
      isElementChild, childSize := ChildSize(mem, child, level, space, t.kids[i], v.kids[i]);
      size := size + childSize;
      child, i := mem.nodes[child].next, i + 1;
    }
  }

  /** One child, with the line it is on. */
  method ChildSize(mem: XmlMemory, child: Ptr, level: nat, space: nat, ghost t: Shape, ghost v: X.Node)
    returns (isElement: bool, size: nat)
    requires child == t.p && Tree(mem.nodes, t) && v == View(mem.nodes, t)
    ensures isElement == v.Element?
    ensures size == |X.Opening(v, level, space)| + |X.Dump(v, X.NextLevel(level), space)|
    decreases t, 4
  {
    NodeSays(mem.nodes, t);
    size := 0;
    isElement := mem.nodes[child].content.Element?;
    if isElement && level != 0 {
      size := size + 1;
      size := size + level * space;
      X.IndentSize(level, space);
    }
    var childSize := TreeSize(mem, child, if level != 0 then level + 1 else 0, space, t, v);
    size := size + childSize;
  }

  /** The line before the end tag. */
  method ClosingSize(isElementChild: bool, level: nat, space: nat, ghost ks: seq<X.Node>) returns (size: nat)
    requires isElementChild <==> ks != [] && ks[|ks| - 1].Element?
    ensures size == |X.Closing(ks, level, space)|
  {
    size := 0;
    if isElementChild && level != 0 {
      X.IndentSize(level - 1, space);
      size := size + 1;
      size := size + (level - 1) * space;
    }
  }

  // ---------------------------------------------------------------------------------
  // Text
  // ---------------------------------------------------------------------------------

  /** _xml_dump_tree: appends the text of the tree at node. */
  method DumpNode(mem: XmlMemory, node: Ptr, buf: array<char>, level: int, space: nat, ghost t: Shape, ghost v: X.Node, ghost done: string)
    requires node == t.p && Tree(mem.nodes, t) && v == View(mem.nodes, t) && D.Clean(v)
    requires D.Holds(buf[..], done) && |done| + |X.Dump(v, level, space)| < buf.Length && space <= 10
    modifies buf
    ensures D.Holds(buf[..], done + X.Dump(v, level, space))
    decreases t, 2
  {
    NodeSays(mem.nodes, t);
    var content := mem.nodes[node].content;
    if content.Text? {
      D.StrCat(buf, content.text, done);
    } else {
      DumpElement(mem, node, buf, level, space, t, v, done);
    }
  }

  method DumpElement(mem: XmlMemory, node: Ptr, buf: array<char>, level: int, space: nat, ghost t: Shape, ghost v: X.Node, ghost done: string)
    requires node == t.p && Tree(mem.nodes, t) && v == View(mem.nodes, t) && v.Element? && D.Clean(v)
    requires D.Holds(buf[..], done) && |done| + |X.Dump(v, level, space)| < buf.Length && space <= 10
    modifies buf
    ensures D.Holds(buf[..], done + X.Dump(v, level, space))
    decreases t, 1
  {
    NodeSays(mem.nodes, t);
    var content := mem.nodes[node].content;
    ghost var start, kids, closing := X.StartTag(v), X.DumpKids(v.kids, level, space), X.Closing(v.kids, level, space);
    Assoc(done, start, kids);
    Assoc(done, start + kids, closing);
    Assoc(done, start + kids + closing, X.EndTag(v));
    D.PutStart(content, buf, done);
    var isElementChild := DumpChildren(mem, mem.nodes[node].child, buf, level, space, t, v, done + start);
    D.PutClosing(v.kids, isElementChild, buf, level, space, done + start + kids);
    D.PutEnd(content, buf, done + start + kids + closing);
  }

  /** One child, on a line of its own if it is an element and the text is formatted. */
  method DumpChild(mem: XmlMemory, child: Ptr, buf: array<char>, level: int, space: nat, ghost t: Shape, ghost v: X.Node, ghost done: string)
    returns (isElement: bool)
    requires child == t.p && Tree(mem.nodes, t) && v == View(mem.nodes, t) && D.Clean(v) && D.Holds(buf[..], done) && space <= 10
    requires |done| + |X.Opening(v, level, space)| + |X.Dump(v, X.NextLevel(level), space)| < buf.Length
    modifies buf
    ensures D.Holds(buf[..], done + (X.Opening(v, level, space) + X.Dump(v, X.NextLevel(level), space)))
    ensures isElement == v.Element?
    decreases t, 3
  {
    var nextLevel := if level != 0 then level + 1 else 0;
    ghost var opening := X.Opening(v, level, space);
    Assoc(done, opening, X.Dump(v, nextLevel, space));
    NodeSays(mem.nodes, t);
    isElement := mem.nodes[child].content.Element?;
    if isElement && level != 0 {
      D.PutIndent(buf, if level > 0 then level else 0, space, done);
    } else {
      assert done + opening == done;
    }
    DumpNode(mem, child, buf, nextLevel, space, t, v, done + opening);
  }

  method DumpChildren(mem: XmlMemory, first: Ptr, buf: array<char>, level: int, space: nat, ghost t: Shape, ghost v: X.Node, ghost done: string)
    returns (isElementChild: bool)
    requires Tree(mem.nodes, t) && v == View(mem.nodes, t) && v.Element? && D.Clean(v) && first == At(t.kids, 0)
    requires first == 0 <==> t.kids == []
    requires D.Holds(buf[..], done) && space <= 10 && |done| + |X.DumpKids(v.kids, level, space)| < buf.Length
    modifies buf
    ensures D.Holds(buf[..], done + X.DumpKids(v.kids, level, space))
    ensures isElementChild <==> v.kids != [] && v.kids[|v.kids| - 1].Element?
    decreases t, 0
  {
    var child := first;
    ghost var i := 0;
    isElementChild := false;
    ghost var text, goal := done, done + X.DumpKids(v.kids, level, space);
    assert v.kids[0..] == v.kids && |v.kids| == |t.kids|;
    while child != 0
      invariant i <= |t.kids| && child == At(t.kids, i) && (child == 0 <==> i == |t.kids|)
      invariant D.Holds(buf[..], text) && text + X.DumpKids(v.kids[i..], level, space) == goal
      invariant isElementChild <==> i > 0 && v.kids[i - 1].Element?
      decreases |t.kids| - i
    {
      KidSays(mem.nodes, t, i);
      ghost var line := X.Opening(v.kids[i], level, space) + X.Dump(v.kids[i], X.NextLevel(level), space);
      D.KidStep(v.kids, i, level, space, text, line);
      isElementChild := DumpChild(mem, child, buf, level, space, t.kids[i], v.kids[i], text);
      text := text + line;
      child, i := mem.nodes[child].next, i + 1;
    }
    D.Nothing(text, v.kids[i..], level, space);
  }

  // ---------------------------------------------------------------------------------
  // Whole texts
  // ---------------------------------------------------------------------------------

  method NewBuffer(n: nat) returns (buf: array<char>)
    requires n > 0
    ensures fresh(buf) && buf.Length == n && D.Holds(buf[..], "")
  {
    buf := new char[n](_ => '\0');
  }

  lemma FilledExactly(buf: seq<char>, text: string)
    requires D.Holds(buf, text) && |buf| == |text| + 1
    ensures buf == text + "\0"
  {
  }

  /** xml_dump_tree: the unformatted text, in a buffer that it fills exactly. */
  method DumpTree(mem: XmlMemory, root: Ptr, ghost t: Shape, ghost v: X.Node) returns (buf: array<char>)
    requires root == t.p && Tree(mem.nodes, t) && v == View(mem.nodes, t) && D.Clean(v)
    ensures fresh(buf) && buf[..] == X.Dump(v, 0, 0) + "\0" && D.Holds(buf[..], X.Dump(v, 0, 0))
  {
    var size := TreeSize(mem, root, 0, 0, t, v);
    buf := NewBuffer(size + 1);
    DumpNode(mem, root, buf, 0, 0, t, v, "");
    ghost var text := X.Dump(v, 0, 0);
    assert "" + text == text;
    FilledExactly(buf[..], text);
  }

  /** What xml_dump_tree_ex puts in front of the tree. */
  function Before(prolog: Option<string>, newLine: int): string
  {
    if prolog.None? then "" else if newLine != 0 then prolog.value + "\n" else prolog.value
  }

  /** xml_dump_tree_ex: the formatted text, after a prolog if there is one. */
  method DumpTreeEx(mem: XmlMemory, root: Ptr, prolog: Option<string>, newLine: int, space: nat, ghost t: Shape, ghost v: X.Node)
    returns (buf: array<char>)
    requires root == t.p && Tree(mem.nodes, t) && v == View(mem.nodes, t) && D.Clean(v)
    requires prolog.Some? ==> '\0' !in prolog.value
    requires newLine <= 1 || space == 0 || !D.HasElementChild(v)
    ensures fresh(buf)
    ensures D.Holds(buf[..], Before(prolog, newLine) + X.Dump(v, newLine, if space > 10 then 10 else space))
  {
    var spacing := if space > 10 then 10 else space;
    var size := TreeSize(mem, root, 1, spacing, t, v);
    D.RoomExact(v, newLine, spacing);
    if prolog.Some? {
      buf := NewBuffer(|prolog.value| + size + if newLine != 0 then 2 else 1);
      PutProlog(buf, prolog.value, newLine);
    } else {
      buf := NewBuffer(size + 1);
    }
    DumpNode(mem, root, buf, newLine, spacing, t, v, Before(prolog, newLine));
  }

  method PutProlog(buf: array<char>, prolog: string, newLine: int)
    requires D.Holds(buf[..], "") && '\0' !in prolog && |prolog| + (if newLine != 0 then 1 else 0) < buf.Length
    modifies buf
    ensures D.Holds(buf[..], Before(Some(prolog), newLine))
  {
    D.StrCat(buf, prolog, "");
    assert "" + prolog == prolog;
    if newLine != 0 {
      D.StrCat(buf, "\n", prolog);
    }
  }

  // ---------------------------------------------------------------------------------
  // Writing and reading
  // ---------------------------------------------------------------------------------

  lemma {:induction false} PlainClean(v: X.Node)
    requires XmlText.Plain(v)
    ensures D.Clean(v)
    decreases v
  {
    if !XmlText.IsTextNode(v.kids) {
      forall i | 0 <= i < |v.kids| ensures D.Clean(v.kids[i]) {
        PlainClean(v.kids[i]);
      }
    }
  }

  /** Reading a text that stands for v under some condition. */
  method Reparse(mem: XmlMemory, doc: string, ghost v: X.Node, ghost same: bool) returns (ok: bool, root: Ptr, ghost d: Option<Shape>)
    requires mem.Valid() && '\0' !in doc && (P.ParseDocument(doc) == Some(Some(v)) <==> same)
    modifies mem
    ensures mem.Valid()
    ensures ok && root != 0 ==> d.Some? && root == d.value.p && NewTree(old(mem.nodes), mem.nodes, d.value)
    ensures ok && root != 0 && View(mem.nodes, d.value) == v <==> same
  {
    ghost var m := mem.nodes;
    ok, root, d := ParseDocument(mem, doc);
    ReadsExact(m, mem.nodes, P.ParseDocument(doc), ok, root, d, v);
  }

  /** Dumping a plain tree and parsing the text builds a separate tree, which has the same contents exactly when no
      element is inside another one of the same name. */
  method DumpAndParse(mem: XmlMemory, node: Ptr, ghost t: Shape) returns (ok: bool, root: Ptr, ghost d: Option<Shape>)
    requires mem.Valid() && node == t.p && Tree(mem.nodes, t) && XmlText.Plain(View(mem.nodes, t))
    modifies mem
    ensures mem.Valid()
    ensures ok && root != 0 ==> d.Some? && root == d.value.p && NewTree(old(mem.nodes), mem.nodes, d.value)
    ensures ok && root != 0 && View(mem.nodes, d.value) == old(View(mem.nodes, t))
            <==> XmlRoundTrip.UnnestedTree(old(View(mem.nodes, t)))
  {
    ghost var v := View(mem.nodes, t);
    PlainClean(v);
    var buf := DumpTree(mem, node, t, v);
    var doc := TextIn(buf, X.Dump(v, 0, 0));
    XmlProlog.DocumentRoundTrip(v, 0, 0);
    ok, root, d := Reparse(mem, doc, v, XmlRoundTrip.UnnestedTree(v));
  }

  /** The same for text that is formatted in any way that fits its buffer. */
  method DumpExAndParse(mem: XmlMemory, node: Ptr, newLine: int, space: nat, ghost t: Shape)
    returns (ok: bool, root: Ptr, ghost d: Option<Shape>)
    requires mem.Valid() && node == t.p && Tree(mem.nodes, t) && XmlText.Plain(View(mem.nodes, t))
    requires newLine <= 1 || space == 0 || !D.HasElementChild(View(mem.nodes, t))
    modifies mem
    ensures mem.Valid()
    ensures ok && root != 0 ==> d.Some? && root == d.value.p && NewTree(old(mem.nodes), mem.nodes, d.value)
    ensures ok && root != 0 && View(mem.nodes, d.value) == old(View(mem.nodes, t))
            <==> XmlRoundTrip.UnnestedTree(old(View(mem.nodes, t)))
  {
    ghost var v, spacing := View(mem.nodes, t), if space > 10 then 10 else space;
    PlainClean(v);
    var buf := DumpTreeEx(mem, node, None, newLine, space, t, v);
    assert "" + X.Dump(v, newLine, spacing) == X.Dump(v, newLine, spacing);
    var doc := TextIn(buf, X.Dump(v, newLine, spacing));
    XmlProlog.DocumentRoundTrip(v, newLine, spacing);
    ok, root, d := Reparse(mem, doc, v, XmlRoundTrip.UnnestedTree(v));
  }

  /** Reading a document as it may be written. */
  method ParseWritten(mem: XmlMemory, doc: string, ghost ns: seq<XmlProlog.Note>, ghost w: XmlText.Written, ghost tail: string)
    returns (ok: bool, root: Ptr, ghost d: Option<Shape>)
    requires mem.Valid() && XmlProlog.GoodNotes(ns) && XmlText.Good(w) && '<' !in tail
    requires '\0' !in doc && doc == XmlProlog.NotesThen(ns, XmlText.Then(w, tail))
    modifies mem
    ensures mem.Valid()
    ensures ok && root != 0 ==> d.Some? && root == d.value.p && NewTree(old(mem.nodes), mem.nodes, d.value)
    ensures ok && root != 0 && View(mem.nodes, d.value) == XmlText.Tree(w) <==> XmlRoundTrip.Unnested(w)
  {
    XmlProlog.WrittenRoundTrip(ns, w, tail);
    ok, root, d := Reparse(mem, doc, XmlText.Tree(w), XmlRoundTrip.Unnested(w));
  }

  /** The C string in a buffer. */
  method TextIn(buf: array<char>, ghost text: string) returns (s: string)
    requires D.Holds(buf[..], text)
    ensures s == text && '\0' !in s
  {
    D.HoldsAt(buf[..], text);
    s := CString(buf, text);
  }

  /** The C string in a buffer. */
  method CString(buf: array<char>, ghost text: string) returns (s: string)
    requires |text| < buf.Length && buf[|text|] == '\0'
    requires forall i :: 0 <= i < |text| ==> buf[i] == text[i] && buf[i] != '\0'
    ensures s == text && '\0' !in s
  {
    var n := 0;
    while buf[n] != '\0'
      invariant 0 <= n <= |text|
      decreases |text| - n
    {
      n := n + 1;
    }
    s := buf[..n];
  }
}
