/** Documents as they may be written: with any text between elements, blanks in tags, and elements without content
    written short. Dumped text is one such text. */
module XmlText {
  import opened XmlTree
  import opened XmlParse
  import opened Wrappers
  import opened Sequences

  /** Names that a tag is made of without a doubt about where they end. */
  predicate PlainName(n: string)
  {
    && n != "" && n[0] != '?' && n[0] != '!'
    && ' ' !in n && '<' !in n && '>' !in n && '/' !in n && ':' !in n && '\0' !in n
  }

  predicate PlainText(s: string)
  {
    s != "" && '<' !in s && '\0' !in s
  }

  predicate PlainAttr(a: string)
  {
    && a != "" && a[0] != ' ' && a[|a| - 1] != ' ' && a[|a| - 1] != '/'
    && '<' !in a && '>' !in a && '\0' !in a
  }

  predicate PlainHead(t: Node)
    requires t.Element?
  {
    PlainName(t.name) && (t.prefix.Some? ==> PlainName(t.prefix.value)) && (t.attr.Some? ==> PlainAttr(t.attr.value))
  }

  /** Text without tags. */
  predicate IsGap(g: string)
  {
    '<' !in g && '\0' !in g
  }

  /** A tag: lead blanks in front of the attributes, and trail blanks at its end. */
  datatype Start = Start(head: Head, lead: nat, trail: nat)

  datatype Written =
    | Words(text: string)
    | Whole(gap: string, start: Start, kids: seq<Written>, closing: string)
    | Short(gap: string, start: Start)

  /** What follows the name in a tag. */
  function TagTail(s: Start): string
  {
    (if s.head.attr.Some? then Blanks(s.lead) + s.head.attr.value else "") + Blanks(s.trail)
  }

  function StartText(s: Start): string
  {
    QName(s.head) + TagTail(s)
  }

  predicate GoodStart(s: Start)
  {
    PlainHead(s.head) && (s.head.attr.Some? ==> s.lead > 0) && NamespaceRead(StartText(s), s.head.prefix)
  }

  /** Elements that hold either one text or only elements, with text that is not kept between them. */
  predicate Good(w: Written)
  {
    match w
    case Words(_) => false
    case Short(gap, start) => IsGap(gap) && GoodStart(start)
    case Whole(gap, start, kids, closing) =>
      && IsGap(gap) && GoodStart(start) && IsGap(closing)
      && (|kids| == 0 || IsText(kids) ==> closing == "")
      && (IsText(kids) || AllGood(kids))
  }

  predicate AllGood(ks: seq<Written>)
  {
    forall i :: 0 <= i < |ks| ==> Good(ks[i])
  }

  predicate IsText(ks: seq<Written>)
  {
    |ks| == 1 && ks[0].Words? && PlainText(ks[0].text)
  }

  function StartThen(m: string, v: string): string { "<" + (m + (">" + v)) }

  function EndThen(m: string, v: string): string { "</" + (m + (">" + v)) }

  /** What is written, and then v. */
  function Then(w: Written, v: string): (r: string)
    ensures |r| >= |v|
  {
    match w
    case Words(text) => text + v
    case Short(gap, start) => gap + StartThen(StartText(start) + "/", v)
    case Whole(gap, start, kids, closing) =>
      gap + StartThen(StartText(start), KidsThen(kids, closing + EndThen(QName(start.head), v)))
  }

  function KidsThen(ks: seq<Written>, v: string): (r: string)
    ensures |r| >= |v|
  {
    if ks == [] then v else Then(ks[0], KidsThen(ks[1..], v))
  }

  /** The tree that is written. */
  function Tree(w: Written): Node
  {
    match w
    case Words(text) => Text(text)
    case Short(_, start) => start.head
    case Whole(_, start, kids, _) => start.head.(kids := Trees(kids))
  }

  function Trees(ks: seq<Written>): seq<Node>
  {
    if ks == [] then [] else [Tree(ks[0])] + Trees(ks[1..])
  }

  /** The names that end tags are written for. */
  function EndNames(w: Written): set<string>
  {
    match w
    case Words(_) => {}
    case Short(_, _) => {}
    case Whole(_, start, kids, _) => {QName(start.head)} + EndNamesOf(kids)
  }

  function EndNamesOf(ks: seq<Written>): set<string>
  {
    if ks == [] then {} else EndNames(ks[0]) + EndNamesOf(ks[1..])
  }

  /** The parts a list of children is taken apart into. */
  lemma KidsParts(ks: seq<Written>)
    requires (AllGood(ks) || IsText(ks)) && ks != []
    ensures Good(ks[0]) || IsText([ks[0]])
    ensures AllGood(ks[1..])
  {
  }

  lemma {:induction false} ThenConcat(w: Written, a: string, b: string)
    ensures Then(w, a + b) == Then(w, a) + b
    decreases w
  {
    match w
    case Words(text) => Assoc(text, a, b);
    case Short(gap, start) =>
      StartConcat(StartText(start) + "/", a, b);
      Assoc(gap, StartThen(StartText(start) + "/", a), b);
    case Whole(gap, start, kids, closing) =>
      var q, m := QName(start.head), StartText(start);
      EndConcat(q, a, b);
      Assoc(closing, EndThen(q, a), b);
      KidsConcat(kids, closing + EndThen(q, a), b);
      StartConcat(m, KidsThen(kids, closing + EndThen(q, a)), b);
      Assoc(gap, StartThen(m, KidsThen(kids, closing + EndThen(q, a))), b);
  }

  lemma {:induction false} KidsConcat(ks: seq<Written>, a: string, b: string)
    ensures KidsThen(ks, a + b) == KidsThen(ks, a) + b
    decreases ks
  {
    if ks != [] {
      KidsConcat(ks[1..], a, b);
      ThenConcat(ks[0], KidsThen(ks[1..], a), b);
    }
  }

  lemma StartConcat(m: string, a: string, b: string)
    ensures StartThen(m, a + b) == StartThen(m, a) + b
  {
    Assoc(">", a, b);
    Assoc(m, ">" + a, b);
    Assoc("<", m + (">" + a), b);
  }

  lemma EndConcat(m: string, a: string, b: string)
    ensures EndThen(m, a + b) == EndThen(m, a) + b
  {
    Assoc(">", a, b);
    Assoc(m, ">" + a, b);
    Assoc("</", m + (">" + a), b);
  }

  // ---------------------------------------------------------------------------------
  // Reading a tag
  // ---------------------------------------------------------------------------------

  lemma {:induction false} FindSkip(u: string, v: string, t: string)
    requires t != "" && t[0] !in u
    ensures Find(u + v, t) == Shift(|u|, Find(v, t))
    decreases |u|
  {
    if u == "" {
      assert u + v == v;
    } else {
      assert (u + v)[1..] == u[1..] + v && (u + v)[0] == u[0];
      PrefixAt(u + v, t, 0);
      FindSkip(u[1..], v, t);
    }
  }

  lemma FindNot(u: string, t: string)
    requires t != "" && t[0] !in u
    ensures Find(u, t) < 0
  {
    FindSkip(u, "", t);
    assert u + "" == u;
  }

  lemma {:induction false} FrontStripped(n: nat, s: string)
    requires s == "" || s[0] != ' '
    ensures StripFront(Blanks(n) + s) == s
  {
    if n == 0 {
      assert Blanks(n) + s == s;
    } else {
      assert (Blanks(n) + s)[1..] == Blanks(n - 1) + s && (Blanks(n) + s)[0] == ' ';
      FrontStripped(n - 1, s);
    }
  }

  lemma {:induction false} RearStripped(s: string, n: nat)
    requires s == "" || s[|s| - 1] != ' '
    ensures StripRear(s + Blanks(n)) == s
  {
    if n == 0 {
      assert s + Blanks(n) == s;
    } else {
      var t := s + Blanks(n);
      assert t[..|t| - 1] == s + Blanks(n - 1) && t[|t| - 1] == ' ';
      RearStripped(s, n - 1);
    }
  }

  /** Stripping takes the blanks at both ends, and only those. */
  lemma Stripped(a: nat, s: string, b: nat)
    requires s != "" && s[0] != ' ' && s[|s| - 1] != ' '
    ensures Strip(Blanks(a) + (s + Blanks(b))) == s
  {
    FrontStripped(a, s + Blanks(b));
    RearStripped(s, b);
  }

  lemma StrippedName(s: string)
    requires ' ' !in s
    ensures Strip(s) == s
  {
    if s == "" {
      assert StripFront(s) == s;
    } else {
      Stripped(0, s, 0);
      assert Blanks(0) + (s + Blanks(0)) == s;
    }
  }

  lemma StrippedBlanks(n: nat)
    ensures Strip(Blanks(n)) == ""
  {
    FrontStripped(n, "");
    assert Blanks(n) + "" == Blanks(n);
  }

  /** A name or prefix that ends where it should. */
  predicate Simple(n: string)
  {
    n != "" && ' ' !in n && ':' !in n
  }

  lemma TailStripped(s: Start)
    requires s.head.attr.Some? ==> PlainAttr(s.head.attr.value)
    ensures Strip(TagTail(s)) == if s.head.attr.Some? then s.head.attr.value else ""
  {
    if s.head.attr.Some? {
      Stripped(s.lead, s.head.attr.value, s.trail);
      Assoc(Blanks(s.lead), s.head.attr.value, Blanks(s.trail));
    } else {
      StrippedBlanks(s.trail);
      assert TagTail(s) == Blanks(s.trail);
    }
  }

  lemma TailFirst(s: Start)
    requires s.head.attr.Some? ==> s.lead > 0
    ensures TagTail(s) != "" ==> TagTail(s)[0] == ' ' && Find(TagTail(s), " ") == 0
  {
    if TagTail(s) != "" {
      assert TagTail(s)[..1] == " ";
      PrefixIs(TagTail(s), " ");
    }
  }

  lemma Cut(a: string, b: string)
    ensures (a + b)[..|a|] == a && (a + b)[|a|..] == b
  {
  }

  /** The name and the attributes behind it. */
  lemma RestRead(tag: string, s: Start)
    requires Simple(s.head.name) && (s.head.attr.Some? ==> PlainAttr(s.head.attr.value) && s.lead > 0)
    requires NamespaceRead(tag, s.head.prefix)
    ensures ParseRest(tag, s.head.prefix, s.head.name + TagTail(s)) == Some(s.head)
  {
    var name, tail := s.head.name, TagTail(s);
    FindSkip(name, tail, " ");
    TailFirst(s);
    TailStripped(s);
    StrippedName(name);
    Cut(name, tail);
    if tail == "" {
      assert name + tail == name;
    }
  }

  /** Where a prefix ends, and that there is none. */
  lemma ColonFound(s: Start)
    requires Simple(s.head.name) && (s.head.prefix.Some? ==> Simple(s.head.prefix.value))
    requires s.head.attr.Some? ==> s.lead > 0
    ensures var t := StartText(s);
            var colon, blank := Find(t, ":"), Find(t, " ");
            && (s.head.prefix.Some? <==> colon >= 0 && (blank < 0 || colon < blank))
            && (s.head.prefix.Some? ==> colon == |s.head.prefix.value|)
  {
    var name, tail, q := s.head.name, TagTail(s), QName(s.head);
    TailFirst(s);
    NoBlank(s.head);
    FindSkip(q, tail, " ");
    match s.head.prefix
    case Some(p) =>
      Assoc(p, ":", name);
      Assoc(p, ":" + name, tail);
      FindSkip(p, ":" + name + tail, ":");
      assert (":" + name + tail)[..1] == ":";
      PrefixIs(":" + name + tail, ":");
    case None =>
      FindSkip(q, tail, ":");
      if Find(tail, ":") == 0 {
        PrefixAt(tail, ":", 0);
        FindThere(tail, ":");
      }
  }

  lemma NoBlank(h: Head)
    requires ' ' !in h.name && (h.prefix.Some? ==> ' ' !in h.prefix.value)
    ensures ' ' !in QName(h)
  {
  }

  /** A tag says what it was written for. */
  lemma TagRead(s: Start)
    requires Simple(s.head.name) && (s.head.prefix.Some? ==> Simple(s.head.prefix.value))
    requires s.head.attr.Some? ==> PlainAttr(s.head.attr.value) && s.lead > 0
    requires NamespaceRead(StartText(s), s.head.prefix)
    ensures ParseTag(StartText(s)) == Some(s.head)
  {
    ColonFound(s);
    RestRead(StartText(s), s);
    match s.head.prefix
    case None =>
    case Some(p) =>
      PrefixCut(p, s.head.name, TagTail(s));
      StrippedName(p);
  }

  lemma PrefixCut(p: string, name: string, tail: string)
    ensures var t := (p + ":" + name) + tail;
            t[..|p|] == p && t[|p| + 1..] == name + tail
  {
  }

  lemma NameAlone(s: Start)
    requires s.head.attr.None? && s.trail == 0 && PlainName(s.head.name) && (s.head.prefix.Some? ==> PlainName(s.head.prefix.value))
    ensures StartText(s) == QName(s.head) && GoodStart(s)
  {
    assert StartText(s) == QName(s.head);
    NoBlank(s.head);
    FindNot(StartText(s), NamespaceMark(s.head.prefix));
  }

  /** The text of an end tag reads as a tag too, of a name with a slash in front. */
  lemma EndRead(h: Head)
    requires PlainHead(h)
    ensures ParseTag("/" + QName(h)).Some?
  {
    var e := match h.prefix case Some(p) => Element(Some("/" + p), h.name, None, []) case None => Element(None, "/" + h.name, None, []);
    var s := Start(e, 0, 0);
    assert StartText(s) == "/" + QName(h) by {
      assert TagTail(s) == "";
      if h.prefix.Some? {
        Assoc("/", h.prefix.value, ":");
        Assoc("/", h.prefix.value + ":", h.name);
      }
    }
    NoBlank(e);
    FindNot(StartText(s), NamespaceMark(e.prefix));
    TagRead(s);
  }

  // ---------------------------------------------------------------------------------
  // Where the parts of a dumped tag stand
  // ---------------------------------------------------------------------------------

  /** The character behind the name. */
  function Behind(t: Node): char
    requires t.Element?
  {
    if t.attr.Some? then ' ' else '>'
  }

  /** <prefix:name attr> and </prefix:name>: the prefix reaches from the bracket to the first colon, the name from there
      to a blank or the end, and the attributes from the blank to the end. */
  lemma PrefixedTags(t: Node)
    requires t.Element? && t.prefix.Some? && ':' !in t.prefix.value
    ensures var p, n, s := t.prefix.value, t.name, StartTag(t);
            && Find(s, ":") == 1 + |p| && s[0] == '<' && s[1..1 + |p|] == p
            && s[2 + |p|..2 + |p| + |n|] == n && s[2 + |p| + |n|] == Behind(t)
            && (t.attr.Some? ==> s[3 + |p| + |n|..|s| - 1] == t.attr.value) && s[|s| - 1] == '>'
            && |s| == 3 + |p| + |n| + (if t.attr.Some? then 1 + |t.attr.value| else 0)
    ensures EndTag(t) == "</" + t.prefix.value + ":" + t.name + ">"
  {
    var p, n, s := t.prefix.value, t.name, StartTag(t);
    var tail := (if t.attr.Some? then " " + t.attr.value else "") + ">";
    assert s == ("<" + p) + (":" + (n + tail));
    PrefixedParts(p, n, tail);
    assert "</" + (p + ":" + n) == "</" + p + ":" + n;
  }

  lemma PrefixedParts(p: string, n: string, tail: string)
    requires ':' !in p && tail != ""
    ensures var s := ("<" + p) + (":" + (n + tail));
            && Find(s, ":") == 1 + |p| && s[0] == '<' && s[1..1 + |p|] == p
            && s[2 + |p|..2 + |p| + |n|] == n && s[2 + |p| + |n|..] == tail
  {
    FindSkip("<" + p, ":" + (n + tail), ":");
    assert ":" <= ":" + (n + tail);
  }

  /** <name attr> and </name> */
  lemma BareTags(t: Node)
    requires t.Element? && t.prefix.None?
    ensures var n, s, e := t.name, StartTag(t), EndTag(t);
            && s[0] == '<' && s[1..1 + |n|] == n && s[1 + |n|] == Behind(t)
            && (t.attr.Some? ==> s[2 + |n|..|s| - 1] == t.attr.value) && s[|s| - 1] == '>'
            && |s| == 2 + |n| + (if t.attr.Some? then 1 + |t.attr.value| else 0)
            && e == "</" + n + ">"
  {
  }

  // ---------------------------------------------------------------------------------
  // Dumped text
  // ---------------------------------------------------------------------------------

  function HeadOf(t: Node): Head
    requires t.Element?
  {
    t.(kids := [])
  }

  function OneBlank(t: Node): Start
    requires t.Element?
  {
    Start(HeadOf(t), 1, 0)
  }

  /** Trees that are dumped without a doubt: their elements hold either one text or only elements. */
  predicate Plain(t: Node)
  {
    t.Element? && GoodStart(OneBlank(t)) && (IsTextNode(t.kids) || AllPlain(t.kids))
  }

  predicate AllPlain(ks: seq<Node>)
  {
    forall i :: 0 <= i < |ks| ==> Plain(ks[i])
  }

  predicate IsTextNode(ks: seq<Node>)
  {
    |ks| == 1 && ks[0].Text? && PlainText(ks[0].text)
  }

  /** A dumped tree, as a text that is written. */
  function Layout(t: Node, gap: string, level: int, space: nat): Written
  {
    match t
    case Text(text) => Words(text)
    case Element(_, _, _, kids) => Whole(gap, OneBlank(t), Layouts(kids, level, space), Closing(kids, level, space))
  }

  function Layouts(ks: seq<Node>, level: int, space: nat): (ws: seq<Written>)
    ensures |ws| == |ks|
  {
    if ks == [] then []
    else [Layout(ks[0], Opening(ks[0], level, space), NextLevel(level), space)] + Layouts(ks[1..], level, space)
  }

  lemma {:induction false} RepeatPlain(n: nat, space: nat, c: char)
    requires c != ' '
    ensures c !in Repeat(n, space)
  {
    if n > 0 {
      RepeatPlain(n - 1, space, c);
    }
  }

  lemma IndentGap(n: nat, space: nat)
    ensures IsGap(Indent(n, space))
  {
    RepeatPlain(n, space, '<');
    RepeatPlain(n, space, '\0');
  }

  lemma GapsPlain(ks: seq<Node>, level: int, space: nat)
    ensures IsGap(Closing(ks, level, space))
    ensures ks != [] ==> IsGap(Opening(ks[0], level, space))
  {
    IndentGap(AtLeast0(level), space);
    IndentGap(AtLeast0(level - 1), space);
  }

  lemma {:induction false} LayoutGood(t: Node, gap: string, level: int, space: nat)
    requires (Plain(t) && IsGap(gap)) || IsTextNode([t])
    ensures var w := Layout(t, gap, level, space);
            (Plain(t) ==> Good(w)) && (t.Text? ==> IsText([w]))
    decreases t
  {
    if t.Element? {
      GapsPlain(t.kids, level, space);
      LayoutsGood(t.kids, level, space);
    }
  }

  lemma {:induction false} LayoutsGood(ks: seq<Node>, level: int, space: nat)
    requires AllPlain(ks) || IsTextNode(ks)
    ensures (AllPlain(ks) ==> AllGood(Layouts(ks, level, space))) && (IsTextNode(ks) ==> IsText(Layouts(ks, level, space)))
    decreases ks
  {
    if ks != [] {
      GapsPlain(ks, level, space);
      LayoutGood(ks[0], Opening(ks[0], level, space), NextLevel(level), space);
      LayoutsGood(ks[1..], level, space);
    }
  }

  lemma {:induction false} LayoutIs(t: Node, gap: string, level: int, space: nat)
    ensures Tree(Layout(t, gap, level, space)) == t && EndNames(Layout(t, gap, level, space)) == Names(t)
    decreases t
  {
    if t.Element? {
      LayoutsAre(t.kids, level, space);
    }
  }

  lemma {:induction false} LayoutsAre(ks: seq<Node>, level: int, space: nat)
    ensures Trees(Layouts(ks, level, space)) == ks && EndNamesOf(Layouts(ks, level, space)) == NamesOf(ks)
    decreases ks
  {
    if ks != [] {
      LayoutIs(ks[0], Opening(ks[0], level, space), NextLevel(level), space);
      LayoutsAre(ks[1..], level, space);
      assert [ks[0]] + ks[1..] == ks;
    }
  }

  /** The names of the elements in a tree, with their prefixes. */
  function Names(t: Node): set<string>
  {
    match t
    case Text(_) => {}
    case Element(_, _, _, kids) => {QName(t)} + NamesOf(kids)
  }

  function NamesOf(ks: seq<Node>): set<string>
  {
    if ks == [] then {} else Names(ks[0]) + NamesOf(ks[1..])
  }

  lemma TagTexts(t: Node, v: string)
    requires t.Element?
    ensures StartTag(t) + v == StartThen(StartText(OneBlank(t)), v) && EndTag(t) + v == EndThen(QName(t), v)
  {
    var s := OneBlank(t);
    var attr := if t.attr.Some? then " " + t.attr.value else "";
    assert Blanks(1) == " " && Blanks(0) == "";
    assert TagTail(s) == attr;
    Assoc("<" + QName(t) + attr, ">", v);
    Assoc("<", QName(t), attr);
    Assoc("<", QName(t) + attr, ">" + v);
    Assoc("</" + QName(t), ">", v);
    Assoc("</", QName(t), ">" + v);
  }

  /** Dumped text is what is written in that layout. */
  lemma {:induction false} LayoutText(t: Node, gap: string, level: int, space: nat, v: string)
    requires t.Text? ==> gap == ""
    ensures Then(Layout(t, gap, level, space), v) == gap + (Dump(t, level, space) + v)
    decreases t
  {
    if t.Text? {
      assert gap + (t.text + v) == t.text + v;
    } else {
      var kids, closing := DumpKids(t.kids, level, space), Closing(t.kids, level, space);
      Assoc(StartTag(t) + kids + closing, EndTag(t), v);
      Assoc(StartTag(t) + kids, closing, EndTag(t) + v);
      Assoc(StartTag(t), kids, closing + (EndTag(t) + v));
      LayoutsText(t.kids, level, space, closing + (EndTag(t) + v));
      TagTexts(t, v);
      TagTexts(t, kids + (closing + (EndTag(t) + v)));
    }
  }

  lemma {:induction false} LayoutsText(ks: seq<Node>, level: int, space: nat, v: string)
    ensures KidsThen(Layouts(ks, level, space), v) == DumpKids(ks, level, space) + v
    decreases ks
  {
    if ks == [] {
      assert "" + v == v;
    } else {
      var gap, next := Opening(ks[0], level, space), NextLevel(level);
      LayoutsText(ks[1..], level, space, v);
      LayoutText(ks[0], gap, next, space, DumpKids(ks[1..], level, space) + v);
      Assoc(gap + Dump(ks[0], next, space), DumpKids(ks[1..], level, space), v);
      Assoc(gap, Dump(ks[0], next, space), DumpKids(ks[1..], level, space) + v);
    }
  }
}
