/** Documents with instructions and comments in front of their first element. */
module XmlProlog {
  import opened XmlTree
  import opened XmlParse
  import opened XmlText
  import opened XmlSearch
  import opened XmlSoup
  import opened XmlRoundTrip
  import opened Wrappers
  import opened Sequences

  /** Instructions and comments: <?...> and <!...> */
  datatype Note = Note(mark: char, body: string, gap: string)

  predicate GoodNotes(ns: seq<Note>)
  {
    forall i :: 0 <= i < |ns| ==>
      (ns[i].mark == '?' || ns[i].mark == '!') && '<' !in ns[i].body && '>' !in ns[i].body && IsGap(ns[i].gap)
  }

  function NotesThen(ns: seq<Note>, v: string): string
  {
    if ns == [] then v else "<" + ([ns[0].mark] + (ns[0].body + (">" + (ns[0].gap + NotesThen(ns[1..], v)))))
  }

  /** Behind the last note with that mark, or at the beginning. */
  function Behind(ns: seq<Note>, mark: char): nat
  {
    if ns == [] then 0
    else
      var k, n := Behind(ns[1..], mark), |ns[0].body| + 3;
      if Marked(ns[1..], mark) then n + |ns[0].gap| + k else if ns[0].mark == mark then n else 0
  }

  predicate Marked(ns: seq<Note>, mark: char)
  {
    exists i :: 0 <= i < |ns| && ns[i].mark == mark
  }

  /** Such text has no instruction and no comment in it. */
  lemma {:induction false} NoMarks(doc: string, mark: string)
    requires Tags(doc, GoodTag) && (mark == "<?" || mark == "<!")
    ensures Find(doc, mark) < 0
  {
    if doc != "" {
      NoMarks(doc[1..], mark);
      PrefixAt(doc, mark, 0);
      PrefixAt(doc, mark, 1);
    }
  }

  lemma SkipIs(doc: string, mark: string, k: int, rest: string)
    requires mark != "" && doc != "" && Find(doc, mark) >= 0 && k == Close(doc, Find(doc, mark)) && 0 < k < |doc| && rest == doc[k..]
    ensures SkipMarks(doc, mark) == Shift(k, SkipMarks(rest, mark))
  {
  }

  lemma SkipLast(doc: string, mark: string)
    requires mark != "" && doc != "" && Find(doc, mark) >= 0 && Close(doc, Find(doc, mark)) == |doc|
    ensures SkipMarks(doc, mark) == Find(doc, mark)
  {
  }

  lemma LaterIs(y: string, n: nat, x: string, i: nat)
    requires n <= |y| && y[n..] == x && i <= |x|
    ensures y[n + i..] == x[i..]
  {
  }

  lemma CloseLater(y: string, n: nat, x: string, i: nat)
    requires n <= |y| && y[n..] == x && i <= |x|
    ensures Close(y, n + i) == Shift(n, Close(x, i))
  {
    LaterIs(y, n, x, i);
  }

  /** Text without the mark in front, n characters of it, moves what is found. */
  lemma SkipFront(y: string, n: nat, x: string, mark: string)
    requires n <= |y| && y[n..] == x && mark != "" && x != "" && SkipMarks(x, mark) >= 0
    requires Find(y, mark) == Shift(n, Find(x, mark))
    ensures SkipMarks(y, mark) == if Find(x, mark) < 0 then 0 else n + SkipMarks(x, mark)
  {
    if Find(x, mark) < 0 {
      NoMark(y, mark);
    } else {
      var i := Find(x, mark);
      MarkClosed(x, mark);
      CloseLater(y, n, x, i);
      LaterIs(y, n, x, Close(x, i));
      SkipMoved(y, x, n, mark, i, Close(x, i));
    }
  }

  lemma NoMark(y: string, mark: string)
    requires mark != "" && y != "" && Find(y, mark) < 0
    ensures SkipMarks(y, mark) == 0
  {
  }

  lemma SkipMoved(y: string, x: string, n: nat, mark: string, i: nat, k: nat)
    requires mark != "" && x != "" && |y| == n + |x| && Find(x, mark) == i <= |x| && Find(y, mark) == n + i
    requires Close(x, i) == k && 0 < k && Close(y, n + i) == n + k && y[n + k..] == x[k..] && SkipMarks(x, mark) >= 0
    ensures SkipMarks(y, mark) == n + SkipMarks(x, mark)
  {
    if k == |x| {
      SkipLast(x, mark);
      SkipLast(y, mark);
    } else {
      SkipIs(x, mark, k, x[k..]);
      SkipIs(y, mark, n + k, x[k..]);
    }
  }

  lemma MarkClosed(x: string, mark: string)
    requires mark != "" && x != "" && SkipMarks(x, mark) >= 0 && Find(x, mark) >= 0
    ensures Close(x, Find(x, mark)) > 0
  {
  }

  lemma NoteText(n: Note, x: string)
    ensures "<" + ([n.mark] + (n.body + (">" + x))) == ("<" + [n.mark] + n.body + ">") + x
  {
    Assoc("<" + [n.mark] + n.body, ">", x);
    Assoc("<" + [n.mark], n.body, ">" + x);
    Assoc("<", [n.mark], n.body + (">" + x));
  }

  /** Skipping to behind the note that a text starts with. */
  lemma SkipNote(n: Note, x: string, mark: string)
    requires '>' !in n.body && n.mark != '>' && mark == "<" + [n.mark] && x != "" && SkipMarks(x, mark) >= 0
    ensures var doc := "<" + ([n.mark] + (n.body + (">" + x)));
            SkipMarks(doc, mark) == |n.body| + 3 + SkipMarks(x, mark)
  {
    var head := "<" + [n.mark] + n.body;
    var doc := (head + ">") + x;
    NoteText(n, x);
    Assoc(head, ">", x);
    FindSkip(head, ">" + x, ">");
    assert ">" <= ">" + x;
    Assoc("<" + [n.mark], n.body, ">" + x);
    assert mark <= doc;
    FirstMark(doc, mark, |n.body| + 2, x);
  }

  lemma FirstMark(doc: string, mark: string, j: nat, rest: string)
    requires mark != "" && mark <= doc && Find(doc, ">") == j && j < |doc|
    requires doc[j + 1..] == rest != "" && SkipMarks(rest, mark) >= 0
    ensures SkipMarks(doc, mark) == j + 1 + SkipMarks(rest, mark)
  {
    assert Find(doc, mark) == 0 && doc[0..] == doc;
    SkipIs(doc, mark, j + 1, rest);
  }

  /** A note with the other mark is passed over. */
  lemma OtherNote(n: Note, x: string, mark: string)
    requires '<' !in n.body && |mark| == 2 && mark[0] == '<' && mark[1] != n.mark && n.mark != '<'
    ensures var doc := "<" + ([n.mark] + (n.body + (">" + x)));
            Find(doc, mark) == Shift(|n.body| + 3, Find(x, mark))
  {
    var doc := "<" + ([n.mark] + (n.body + (">" + x)));
    var u := [n.mark] + (n.body + ">");
    Assoc(n.body, ">", x);
    Assoc([n.mark], n.body + ">", x);
    assert doc[1..] == u + x && doc[1] == n.mark;
    PrefixAt(doc, mark, 1);
    FindSkip(u, x, mark);
  }

  /** Passing over it leads to the same place. */
  lemma OtherSkipped(n: Note, x: string, mark: string)
    requires '<' !in n.body && |mark| == 2 && mark[0] == '<' && mark[1] != n.mark && n.mark != '<'
    requires x != "" && SkipMarks(x, mark) >= 0
    ensures var doc := "<" + ([n.mark] + (n.body + (">" + x)));
            && SkipMarks(doc, mark) == (if Find(x, mark) < 0 then 0 else |n.body| + 3 + SkipMarks(x, mark))
            && (Find(doc, mark) < 0 <==> Find(x, mark) < 0)
  {
    OtherNote(n, x, mark);
    NoteText(n, x);
    var head := "<" + [n.mark] + n.body + ">";
    assert (head + x)[|head|..] == x;
    SkipFront(head + x, |head|, x, mark);
  }

  /** One note and the gap behind it. */
  lemma NoteSkipped(n: Note, x: string, mark: char, k: nat)
    requires (n.mark == '?' || n.mark == '!') && '<' !in n.body && '>' !in n.body && IsGap(n.gap)
    requires (mark == '?' || mark == '!') && x != "" && SkipMarks(x, "<" + [mark]) == k
    ensures var m, size := "<" + [mark], |n.body| + 3;
            var doc := "<" + ([n.mark] + (n.body + (">" + (n.gap + x))));
            && (Find(doc, m) < 0 <==> Find(x, m) < 0 && n.mark != mark)
            && SkipMarks(doc, m) == if Find(x, m) >= 0 then size + |n.gap| + k else if n.mark == mark then size else 0
  {
    var m, y := "<" + [mark], n.gap + x;
    FindSkip(n.gap, x, m);
    assert y[|n.gap|..] == x;
    SkipFront(y, |n.gap|, x, m);
    if n.mark == mark {
      SkipNote(n, y, m);
      NoteText(n, y);
      Assoc(m, n.body + ">", y);
      assert m <= "<" + [n.mark] + n.body + ">" + y;
    } else {
      OtherSkipped(n, y, m);
    }
  }

  /** What the parser skips of notes and a text without marks. */
  lemma {:induction false} NotesSkipped(ns: seq<Note>, v: string, mark: char)
    requires GoodNotes(ns) && v != "" && (mark == '?' || mark == '!') && Find(v, "<" + [mark]) < 0
    ensures SkipMarks(NotesThen(ns, v), "<" + [mark]) == Behind(ns, mark)
    ensures Find(NotesThen(ns, v), "<" + [mark]) < 0 <==> !Marked(ns, mark)
    ensures NotesThen(ns, v) != ""
  {
    if ns != [] {
      NotesSkipped(ns[1..], v, mark);
      NoteSkipped(ns[0], NotesThen(ns[1..], v), mark, Behind(ns[1..], mark));
      MarkedFirst(ns, mark);
    }
  }

  lemma MarkedFirst(ns: seq<Note>, mark: char)
    requires ns != []
    ensures Marked(ns, mark) <==> ns[0].mark == mark || Marked(ns[1..], mark)
  {
    if Marked(ns[1..], mark) {
      var i :| 0 <= i < |ns[1..]| && ns[1..][i].mark == mark;
      assert ns[i + 1].mark == mark;
    }
    if Marked(ns, mark) && ns[0].mark != mark {
      var i :| 0 <= i < |ns| && ns[i].mark == mark;
      assert ns[1..][i - 1].mark == mark;
    }
  }

  /** Where the text behind the notes starts, with the gap behind the last of them. */
  lemma {:induction false} NotesEnd(ns: seq<Note>, v: string)
    requires GoodNotes(ns) && ns != []
    ensures var a, b := Behind(ns, '?'), Behind(ns, '!');
            var k := if a > b then a else b;
            k <= |NotesThen(ns, v)| && NotesThen(ns, v)[k..] == ns[|ns| - 1].gap + v && k > 0
  {
    var n, ms := ns[0], ns[1..];
    assert ns == [n] + ms;
    if ms == [] {
      NotesOne(ns, v);
    } else {
      NotesEnd(ms, v);
      assert ms[|ms| - 1] == ns[|ns| - 1];
      LaterEnd(n, ms);
      var a, b := Behind(ms, '?'), Behind(ms, '!');
      NotesLater(n, ms, v, if a > b then a else b, ms[|ms| - 1].gap + v);
    }
  }

  lemma NotesLater(n: Note, ms: seq<Note>, v: string, k: nat, rest: string)
    requires k <= |NotesThen(ms, v)| && NotesThen(ms, v)[k..] == rest
    ensures var doc, j := NotesThen([n] + ms, v), |n.body| + 3 + |n.gap| + k;
            j <= |doc| && doc[j..] == rest
  {
    var x := NotesThen(ms, v);
    assert ([n] + ms)[1..] == ms;
    NoteText(n, n.gap + x);
    NotesCut(n, x, k);
  }

  /** The last of several notes is not the first one. */
  lemma LaterEnd(n: Note, ms: seq<Note>)
    requires GoodNotes(ms) && ms != []
    ensures var a, b := Behind(ms, '?'), Behind(ms, '!');
            var c, d := Behind([n] + ms, '?'), Behind([n] + ms, '!');
            var k := if a > b then a else b;
            k > 0 ==> (if c > d then c else d) == |n.body| + 3 + |n.gap| + k
  {
    assert ([n] + ms)[1..] == ms;
    assert Marked(ms, ms[0].mark);
    if !Marked(ms, '?') {
      NoneBehind(ms, '?');
    }
    if !Marked(ms, '!') {
      NoneBehind(ms, '!');
    }
  }

  lemma NotesOne(ns: seq<Note>, v: string)
    requires GoodNotes(ns) && |ns| == 1
    ensures var k := |ns[0].body| + 3;
            && (Behind(ns, '?') == k || Behind(ns, '!') == k) && Behind(ns, '?') <= k && Behind(ns, '!') <= k
            && k <= |NotesThen(ns, v)| && NotesThen(ns, v)[k..] == ns[0].gap + v
  {
    assert ns[1..] == [];
    NoteText(ns[0], ns[0].gap + v);
  }

  lemma {:induction false} NoneBehind(ns: seq<Note>, mark: char)
    requires !Marked(ns, mark)
    ensures Behind(ns, mark) == 0
  {
    if ns != [] {
      MarkedFirst(ns, mark);
      assert ns[0].mark != mark;
    }
  }

  lemma NotesCut(n: Note, x: string, k: nat)
    requires k <= |x|
    ensures ("<" + ([n.mark] + (n.body + (">" + (n.gap + x)))))[|n.body| + 3 + |n.gap| + k..] == x[k..]
  {
    NoteText(n, n.gap + x);
  }

  lemma {:induction false} GapTwice(w: Written, gap: string, v: string)
    requires Good(w) && IsGap(gap)
    ensures Good(WithGap(w, gap)) && Then(WithGap(w, gap), v) == gap + Then(w, v)
    ensures Tree(WithGap(w, gap)) == Tree(w) && (Unnested(WithGap(w, gap)) <==> Unnested(w))
  {
    match w
    case Short(g, start) => Assoc(gap, g, StartThen(StartText(start) + "/", v));
    case Whole(g, start, kids, closing) =>
      Assoc(gap, g, StartThen(StartText(start), KidsThen(kids, closing + EndThen(QName(start.head), v))));
  }

  function WithGap(w: Written, gap: string): Written
    requires !w.Words?
  {
    w.(gap := gap + w.gap)
  }

  /** Whatever instructions and comments stand in front of an element, and whatever text behind it, parsing the document
      gives its tree exactly when no end tag is written inside an element of the same name. */
  lemma WrittenRoundTrip(ns: seq<Note>, w: Written, tail: string)
    requires GoodNotes(ns) && Good(w) && '<' !in tail
    ensures ParseDocument(NotesThen(ns, Then(w, tail))) == Some(Some(Tree(w))) <==> Unnested(w)
  {
    var v := Then(w, tail);
    var doc := NotesThen(ns, v);
    SoupText(tail);
    SoupTree(w, tail, "");
    NotEmpty(w, tail);
    NotesBoth(ns, v);
    if ns == [] {
      assert doc[0..] == doc;
      RootRoundTrip(w, tail);
    } else {
      NotesEnd(ns, v);
      GapTwice(w, ns[|ns| - 1].gap, tail);
      RootRoundTrip(WithGap(w, ns[|ns| - 1].gap), tail);
    }
  }

  lemma NotesBoth(ns: seq<Note>, v: string)
    requires GoodNotes(ns) && Soup(v) && v != ""
    ensures SkipMarks(NotesThen(ns, v), "<?") == Behind(ns, '?') && SkipMarks(NotesThen(ns, v), "<!") == Behind(ns, '!')
  {
    assert "<" + ['?'] == "<?" && "<" + ['!'] == "<!";
    NoMarks(v, "<?");
    NoMarks(v, "<!");
    NotesSkipped(ns, v, '?');
    NotesSkipped(ns, v, '!');
  }

  lemma NotEmpty(w: Written, v: string)
    requires Good(w)
    ensures Then(w, v) != ""
  {
  }

  // ---------------------------------------------------------------------------------
  // Dumped trees
  // ---------------------------------------------------------------------------------

  /** Parsing the text of a tree, unformatted or formatted in any way, gives back the tree exactly when no element
      is inside another one of the same name. */
  lemma DocumentRoundTrip(t: Node, level: int, space: nat)
    requires Plain(t)
    ensures ParseDocument(Dump(t, level, space)) == Some(Some(t)) <==> UnnestedTree(t)
  {
    PrologRoundTrip(t, [], level, space);
  }

  /** The same behind a prolog. */
  lemma PrologRoundTrip(t: Node, ns: seq<Note>, level: int, space: nat)
    requires Plain(t) && GoodNotes(ns)
    ensures ParseDocument(NotesThen(ns, Dump(t, level, space))) == Some(Some(t)) <==> UnnestedTree(t)
  {
    var w, text := Layout(t, "", level, space), Dump(t, level, space);
    LayoutGood(t, "", level, space);
    LayoutIs(t, "", level, space);
    LayoutText(t, "", level, space, "");
    assert "" + (text + "") == text;
    LayoutUnnested(t, "", level, space);
    WrittenRoundTrip(ns, w, "");
  }

  /** <a><a></a></a> is one that does not come back: its outer element is cut short at the inner end tag. */
  lemma NestedIsLost()
    ensures var t := Element(None, "a", None, [Element(None, "a", None, [])]);
            Plain(t) && ParseDocument(Dump(t, 0, 0)) != Some(Some(t))
  {
    var inner := Element(None, "a", None, []);
    var t := Element(None, "a", None, [inner]);
    PlainA(inner);
    PlainA(t);
    assert Plain(inner) && "a" in Names(inner) && "a" in NamesOf(t.kids);
    DocumentRoundTrip(t, 0, 0);
  }

  lemma PlainA(t: Node)
    requires t.Element? && t.prefix.None? && t.name == "a" && t.attr.None?
    ensures GoodStart(OneBlank(t))
  {
    assert PlainName("a");
    NameAlone(OneBlank(t));
  }
}
