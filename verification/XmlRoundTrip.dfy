/** Parsing a text that is written gives back its tree exactly when no element has, inside another one of the same
    name, an end tag. */
module XmlRoundTrip {
  import opened XmlTree
  import opened XmlParse
  import opened XmlText
  import opened XmlSearch
  import opened XmlSoup
  import opened Wrappers
  import opened Sequences

  /** No end tag is written inside an element of the same name. */
  predicate Unnested(w: Written)
  {
    w.Whole? ==> QName(w.start.head) !in EndNamesOf(w.kids) && AllUnnested(w.kids)
  }

  predicate AllUnnested(ks: seq<Written>)
  {
    ks == [] || (Unnested(ks[0]) && AllUnnested(ks[1..]))
  }

  // ---------------------------------------------------------------------------------
  // Tags
  // ---------------------------------------------------------------------------------

  lemma BehindGap(gap: string, m: string, v: string)
    requires '<' !in gap
    ensures Find(gap + StartThen(m, v), "<") == |gap| && (gap + StartThen(m, v))[|gap| + 1..] == m + (">" + v)
  {
    FindSkip(gap, StartThen(m, v), "<");
    assert "<" <= StartThen(m, v);
  }

  lemma TagFound(m: string, v: string)
    requires '>' !in m
    ensures Find(m + (">" + v), ">") == |m|
  {
    FindSkip(m, ">" + v, ">");
    assert ">" <= ">" + v;
  }

  lemma TagSlices(m: string, v: string, u: string)
    requires m != "" && u == m + (">" + v)
    ensures |m| < |u| && u[..|m|] == m && u[|m| + 1..] == v && u[|m| - 1] == m[|m| - 1] && u[..|m| - 1] == m[..|m| - 1]
  {
  }

  lemma BehindIs(u: string, m: string, v: string, head: Head)
    requires m != "" && Find(u, ">") == |m| && |m| < |u| && u[..|m|] == m && u[|m| + 1..] == v
    requires u[|m| - 1] == m[|m| - 1] && u[..|m| - 1] == m[..|m| - 1]
    requires ParseTag(if m[|m| - 1] == '/' then m[..|m| - 1] else m) == Some(head)
    ensures TagBehind(u) == if m[|m| - 1] == '/' then Empty(head, v) else Open(head, v)
  {
  }

  lemma ReadGood(gap: string, m: string, v: string, head: Head)
    requires '<' !in gap && m != "" && '>' !in m
    requires ParseTag(if m[|m| - 1] == '/' then m[..|m| - 1] else m) == Some(head)
    ensures ReadTag(gap + StartThen(m, v)) == if m[|m| - 1] == '/' then Empty(head, v) else Open(head, v)
  {
    BehindGap(gap, m, v);
    TagFound(m, v);
    TagSlices(m, v, m + (">" + v));
    BehindIs(m + (">" + v), m, v, head);
  }

  lemma ReadStart(gap: string, s: Start, v: string)
    requires '<' !in gap && GoodStart(s)
    ensures ReadTag(gap + StartThen(StartText(s), v)) == Open(s.head, v)
  {
    GoodRead(s);
    ReadGood(gap, StartText(s), v, s.head);
  }

  lemma ReadShort(gap: string, s: Start, v: string)
    requires '<' !in gap && GoodStart(s)
    ensures ReadTag(gap + StartThen(StartText(s) + "/", v)) == Empty(s.head, v)
  {
    GoodRead(s);
    ReadGood(gap, StartText(s) + "/", v, s.head);
  }

  lemma FindClose(m: string, v: string)
    requires '>' !in m
    ensures Find(EndThen(m, v), ">") == |m| + 2
  {
    Assoc("</", m, ">" + v);
    FindSkip("</" + m, ">" + v, ">");
    assert ">" <= ">" + v;
  }

  lemma ClosingParts(body: string, m: string, v: string)
    ensures (body + EndThen(m, v))[..|body|] == body && (body + EndThen(m, v))[|body|..] == EndThen(m, v)
    ensures (body + EndThen(m, v))[|body| + |m| + 3..] == v
  {
  }

  lemma ReadClosing(doc: string, body: string, m: string, v: string)
    requires IsMark(m) && doc == body + EndThen(m, v) && Find(doc, EndMark(m)) == |body|
    ensures ReadEnd(doc, m) == Ends(body, v)
  {
    ClosingParts(body, m, v);
    FindClose(m, v);
    assert doc[|body|..] == EndThen(m, v) && doc[..|body|] == body && doc[|body| + |m| + 3..] == v;
    EndIs(doc, m, |body|, doc[|body|..], |m| + 2, doc[..|body|], doc[|body| + (|m| + 2) + 1..]);
  }

  /** The content of an element, as text. */
  function Content(ks: seq<Written>, closing: string): string
  {
    KidsThen(ks, closing)
  }

  /** The end tag that is found first, when none is written for the name inside. */
  lemma ReadWhole(w: Written, v: string)
    requires Good(w) && w.Whole? && QName(w.start.head) !in EndNamesOf(w.kids)
    ensures var q := QName(w.start.head);
            ReadEnd(KidsThen(w.kids, w.closing + EndThen(q, v)), q) == Ends(Content(w.kids, w.closing), v)
  {
    var q := QName(w.start.head);
    var end := w.closing + EndThen(q, v);
    NameMark(w.start.head);
    SkipKids(w.kids, end, q);
    SkipsGap(w.closing, EndThen(q, v), q);
    FoundEnd(q, v);
    KidsConcat(w.kids, w.closing, EndThen(q, v));
    ReadClosing(KidsThen(w.kids, end), Content(w.kids, w.closing), q, v);
  }

  /** When one is written inside, it cuts the content short, and what is left has fewer elements of that name. */
  lemma ReadCut(w: Written, v: string)
    requires Good(w) && w.Whole? && QName(w.start.head) in EndNamesOf(w.kids) && Soup(v)
    ensures var q := QName(w.start.head);
            var r := ReadEnd(KidsThen(w.kids, w.closing + EndThen(q, v)), q);
            r.Ends? && Few(ParseKids(r.content, false), q, ShortsOf(w.kids, q))
  {
    var q := QName(w.start.head);
    var end := w.closing + EndThen(q, v);
    var doc := KidsThen(w.kids, end);
    NameMark(w.start.head);
    InKids(w.kids, end, q);
    SoupEnd(w.start.head, v, q);
    SoupSkip(w.closing, EndThen(q, v));
    SoupKids(w.kids, end, q);
    KidsConcat(w.kids, "", end);
    assert "" + end == end;
    var r := EndInSoup(doc, q);
    var e := Find(doc, EndMark(q));
    CutShorts(KidsThen(w.kids, ""), end, doc, e, q, ShortsOf(w.kids, q));
    NotInFront(doc, EndMark(q));
    FewNamed(doc[..e], false, q);
  }

  /** A cut before end leaves no more short elements than there are before end. */
  lemma CutShorts(kids: string, end: string, doc: string, e: nat, n: string, count: nat)
    requires doc == kids + end && Soup(doc) && e < |kids| && doc[e] == '<' && Shorts(doc, n) == count + Shorts(end, n)
    ensures Soup(doc[..e]) && Shorts(doc[..e], n) <= count
  {
    TagsLocal(n);
    TagsParts(doc, e, |kids|, GoodTag, ShortTag(n));
    assert doc[|kids|..] == end;
  }

  lemma NotInFront(s: string, t: string)
    requires Find(s, t) >= 0 && t != ""
    ensures Find(s[..Find(s, t)], t) < 0
  {
    var e := Find(s, t);
    if Find(s[..e], t) >= 0 {
      FindThere(s[..e], t);
      var k := Find(s[..e], t);
      assert s[..e][k..k + |t|] == s[k..k + |t|];
      FindFirst(s, t, k);
    }
  }

  // ---------------------------------------------------------------------------------
  // Lists of children
  // ---------------------------------------------------------------------------------

  lemma NoTagLeft(w: string, hasChild: bool)
    requires '<' !in w
    ensures ParseKids(w, hasChild) == Some(if w == "" || hasChild then [] else [Text(w)])
  {
    FindNot(w, "<");
  }

  /** Reading the children of an element from its content. */
  lemma {:induction false} ContentRoundTrip(ks: seq<Written>, closing: string)
    requires (AllGood(ks) || IsText(ks)) && IsGap(closing) && (ks == [] || IsText(ks) ==> closing == "")
    ensures ParseKids(Content(ks, closing), false) == Some(Trees(ks)) <==> AllUnnested(ks)
    decreases ks, 2
  {
    if AllGood(ks) {
      ListRoundTrip(ks, closing, false);
    } else {
      TextContent(ks);
      NoTagLeft(ks[0].text, false);
    }
  }

  lemma TextContent(ks: seq<Written>)
    requires IsText(ks)
    ensures Content(ks, "") == ks[0].text && Trees(ks) == [Text(ks[0].text)] && AllUnnested(ks)
  {
    assert ks[1..] == [];
    assert KidsThen(ks, "") == Then(ks[0], KidsThen(ks[1..], "")) == ks[0].text + "";
    assert Trees(ks) == [Tree(ks[0])] + Trees(ks[1..]) && Trees(ks[1..]) == [];
    assert AllUnnested(ks[1..]);
  }

  /** Reading a list of elements with some text w without tags behind it. */
  lemma {:induction false} ListRoundTrip(ks: seq<Written>, w: string, hasChild: bool)
    requires AllGood(ks) && IsGap(w) && (ks == [] && !hasChild ==> w == "")
    ensures ParseKids(KidsThen(ks, w), hasChild) == Some(Trees(ks)) <==> AllUnnested(ks)
    decreases ks, 1
  {
    if ks == [] {
      NoTagLeft(w, hasChild);
    } else {
      ListRoundTrip(ks[1..], w, true);
      SoupText(w);
      SoupKids(ks[1..], w, "");
      FirstRoundTrip(ks[0], KidsThen(ks[1..], w), hasChild, ks[1..]);
    }
  }

  lemma SoupText(w: string)
    requires '<' !in w
    ensures Soup(w)
  {
    SoupSkip(w, "");
    assert w + "" == w;
  }

  /** Reading one element and then what follows it. */
  lemma {:induction false} FirstRoundTrip(k: Written, v: string, hasChild: bool, ks: seq<Written>)
    requires Good(k) && Soup(v)
    requires ParseKids(v, true) == Some(Trees(ks)) <==> AllUnnested(ks)
    ensures ParseKids(Then(k, v), hasChild) == Some([Tree(k)] + Trees(ks)) <==> Unnested(k) && AllUnnested(ks)
    decreases k, 0
  {
    if k.Short? {
      ReadShort(k.gap, k.start, v);
      ShortElement(Then(k, v), hasChild, k, ks, v);
    } else {
      var q := QName(k.start.head);
      var front := KidsThen(k.kids, k.closing + EndThen(q, v));
      ReadStart(k.gap, k.start, front);
      if q in EndNamesOf(k.kids) {
        ReadCut(k, v);
      } else {
        ReadWhole(k, v);
        ContentRoundTrip(k.kids, k.closing);
      }
      OneElement(Then(k, v), hasChild, k, ks, front);
    }
  }

  lemma ShortElement(doc: string, hasChild: bool, k: Written, ks: seq<Written>, v: string)
    requires k.Short? && doc != "" && ReadTag(doc) == Empty(k.start.head, v)
    requires ParseKids(v, true) == Some(Trees(ks)) <==> AllUnnested(ks)
    ensures ParseKids(doc, hasChild) == Some([Tree(k)] + Trees(ks)) <==> Unnested(k) && AllUnnested(ks)
  {
    if ParseKids(v, true).Some? {
      SameList(Tree(k), ParseKids(v, true).value, Tree(k), Trees(ks));
    }
  }

  lemma SameList(a: Node, s: seq<Node>, b: Node, t: seq<Node>)
    ensures [a] + s == [b] + t <==> a == b && s == t
  {
    assert ([a] + s)[0] == a && ([b] + t)[0] == b && ([a] + s)[1..] == s && ([b] + t)[1..] == t;
  }

  /** What is read of the content is the children, or has too few elements of the name. */
  predicate ContentRead(k: Written, r: Option<seq<Node>>)
    requires k.Whole?
  {
    var q := QName(k.start.head);
    if q in EndNamesOf(k.kids) then Few(r, q, ShortsOf(k.kids, q))
    else r == Some(Trees(k.kids)) <==> AllUnnested(k.kids)
  }

  lemma ContentExact(k: Written, r: Option<seq<Node>>)
    requires k.Whole? && ContentRead(k, r)
    ensures r == Some(Trees(k.kids)) <==> Unnested(k)
  {
    MoreOf(k.kids, QName(k.start.head));
  }

  /** The element read, and the ones after it. */
  lemma OneElement(doc: string, hasChild: bool, k: Written, ks: seq<Written>, front: string)
    requires k.Whole? && doc != "" && ReadTag(doc) == Open(k.start.head, front)
    requires var r := ReadEnd(front, QName(k.start.head));
             && r.Ends? && ContentRead(k, ParseKids(r.content, false))
             && (QName(k.start.head) !in EndNamesOf(k.kids) ==> (ParseKids(r.rest, true) == Some(Trees(ks)) <==> AllUnnested(ks)))
    ensures ParseKids(doc, hasChild) == Some([Tree(k)] + Trees(ks)) <==> Unnested(k) && AllUnnested(ks)
  {
    var r := ReadEnd(front, QName(k.start.head));
    var kids, rest := ParseKids(r.content, false), ParseKids(r.rest, true);
    ContentExact(k, kids);
    if kids.Some? && rest.Some? {
      SameList(k.start.head.(kids := kids.value), rest.value, Tree(k), Trees(ks));
    }
  }

  // ---------------------------------------------------------------------------------
  // Documents
  // ---------------------------------------------------------------------------------

  /** The first element of a document; what follows it is not read. */
  lemma RootRoundTrip(w: Written, v: string)
    requires Good(w) && Soup(v)
    ensures ParseRoot(Then(w, v)) == Some(Some(Tree(w))) <==> Unnested(w)
  {
    if w.Short? {
      ReadShort(w.gap, w.start, v);
    } else {
      var q := QName(w.start.head);
      var front := KidsThen(w.kids, w.closing + EndThen(q, v));
      ReadStart(w.gap, w.start, front);
      if q in EndNamesOf(w.kids) {
        ReadCut(w, v);
      } else {
        ReadWhole(w, v);
        ContentRoundTrip(w.kids, w.closing);
      }
      RootElement(Then(w, v), w, front);
    }
  }

  lemma RootElement(doc: string, w: Written, front: string)
    requires w.Whole? && doc != "" && ReadTag(doc) == Open(w.start.head, front)
    requires var r := ReadEnd(front, QName(w.start.head)); r.Ends? && ContentRead(w, ParseKids(r.content, false))
    ensures ParseRoot(doc) == Some(Some(Tree(w))) <==> Unnested(w)
  {
    var r := ReadEnd(front, QName(w.start.head));
    RootIs(doc, w.start.head, front, r.content, r.rest);
    ContentExact(w, ParseKids(r.content, false));
  }

  lemma RootIs(doc: string, head: Head, front: string, content: string, rest: string)
    requires doc != "" && ReadTag(doc) == Open(head, front) && ReadEnd(front, QName(head)) == Ends(content, rest)
    ensures ParseRoot(doc) == match ParseKids(content, false) case None => None case Some(kids) => Some(Some(head.(kids := kids)))
  {
  }

  // ---------------------------------------------------------------------------------
  // Dumped trees
  // ---------------------------------------------------------------------------------

  /** No element is inside another one of the same name. */
  predicate UnnestedTree(t: Node)
  {
    t.Element? ==> QName(t) !in NamesOf(t.kids) && AllUnnestedTrees(t.kids)
  }

  predicate AllUnnestedTrees(ks: seq<Node>)
  {
    ks == [] || (UnnestedTree(ks[0]) && AllUnnestedTrees(ks[1..]))
  }

  lemma {:induction false} LayoutUnnested(t: Node, gap: string, level: int, space: nat)
    ensures Unnested(Layout(t, gap, level, space)) <==> UnnestedTree(t)
    decreases t
  {
    if t.Element? {
      LayoutsAre(t.kids, level, space);
      LayoutsUnnested(t.kids, level, space);
      assert QName(HeadOf(t)) == QName(t);
    }
  }

  lemma {:induction false} LayoutsUnnested(ks: seq<Node>, level: int, space: nat)
    ensures AllUnnested(Layouts(ks, level, space)) <==> AllUnnestedTrees(ks)
    decreases ks
  {
    if ks != [] {
      LayoutUnnested(ks[0], Opening(ks[0], level, space), NextLevel(level), space);
      LayoutsUnnested(ks[1..], level, space);
    }
  }

  // ---------------------------------------------------------------------------------
  // Tags without an end
  // ---------------------------------------------------------------------------------

  /** A start tag that no end tag follows is passed over. */
  lemma UnclosedSkipped(gap: string, s: Start, v: string, hasChild: bool)
    requires '<' !in gap && GoodStart(s)
    requires Find(v, EndMark(QName(s.head))) < 0 && Find(v, "</" + QName(s.head) + " ") < 0
    ensures ParseKids(gap + StartThen(StartText(s), v), hasChild) == ParseKids(v, hasChild)
    ensures ParseRoot(gap + StartThen(StartText(s), v)) == ParseRoot(v)
  {
    ReadStart(gap, s, v);
  }

  /** An end tag with a blank in it counts when there is none without. */
  lemma BlankEnd(body: string, q: string, more: string, v: string)
    requires '>' !in q && '>' !in more
    requires var doc := body + ("</" + q + " " + more + ">" + v);
             Find(doc, EndMark(q)) < 0 && Find(doc, "</" + q + " ") == |body|
    ensures ReadEnd(body + ("</" + q + " " + more + ">" + v), q) == Ends(body, v)
  {
    var tag := "</" + q + " " + more;
    FindSkip(tag, ">" + v, ">");
    assert ">" <= ">" + v;
    EndSlices(body, tag, v);
    BlankEndIs(body + (tag + ">" + v), q, |body|, tag + (">" + v), |tag|, body, v);
  }

  lemma BlankEndIs(doc: string, q: string, e: nat, w: string, k: nat, content: string, rest: string)
    requires Find(doc, EndMark(q)) < 0 && Find(doc, "</" + q + " ") == e && e + k < |doc| && w == doc[e..] && Find(w, ">") == k
    requires content == doc[..e] && rest == doc[e + k + 1..]
    ensures ReadEnd(doc, q) == Ends(content, rest)
  {
  }

  lemma EndSlices(body: string, tag: string, v: string)
    ensures var doc := body + (tag + ">" + v);
            doc[|body|..] == tag + (">" + v) && doc[..|body|] == body && doc[|body| + |tag| + 1..] == v
  {
    Assoc(tag, ">", v);
  }
}
