/** Formatted output, described by what stands between tags: where lines end and how far they are indented. */
module XmlLayout {
  import opened XmlTree
  import opened XmlParse
  import opened XmlText
  import opened XmlSearch
  import opened Wrappers
  import opened Sequences

  /** A new line, and the spacing n times. */
  function Line(n: int, space: nat): string
  {
    "\n" + seq(if n < 0 then 0 else n * space, _ => ' ')
  }

  /** A text without line breaks between tags, laid out tag by tag; depth elements are open, and afterEnd tells whether
      an end tag was the last. Every start tag but the first is on a line of its own, behind one spacing for each open
      element and the level, less one; so is an end tag that follows another one, once its own element is closed. */
  function Lay(u: string, depth: nat, afterEnd: bool, level: nat, space: nat): string
    decreases |u|
  {
    if u == "" then ""
    else if u[0] != '<' then [u[0]] + Lay(u[1..], depth, false, level, space)
    else
      var j := Find(u, ">");
      if j < 0 then u
      else if CharAt(u, 1) == '/' && depth > 0 then
        (if afterEnd then Line(level + depth - 2, space) else "") + (u[..j + 1] + Lay(u[j + 1..], depth - 1, true, level, space))
      else
        (if depth > 0 then Line(level + depth - 1, space) else "") + (u[..j + 1] + Lay(u[j + 1..], depth + 1, false, level, space))
  }

  lemma {:induction false} RepeatIs(n: nat, space: nat)
    ensures Repeat(n, space) == Blanks(n * space)
  {
    if n > 0 {
      RepeatIs(n - 1, space);
      assert n * space == (n - 1) * space + space;
      assert Blanks((n - 1) * space) + Blanks(space) == Blanks((n - 1) * space + space);
    }
  }

  lemma IndentIs(n: nat, space: nat)
    ensures Indent(n, space) == Line(n, space)
  {
    RepeatIs(n, space);
    assert Blanks(n * space) == seq(n * space, _ => ' ');
  }

  /** Laying out u yields r, and leads from one state to another. */
  ghost predicate Lays(u: string, depth: nat, afterEnd: bool, r: string, after: nat, last: bool, level: nat, space: nat)
  {
    forall v :: Lay(u + v, depth, afterEnd, level, space) == r + Lay(v, after, last, level, space)
  }

  lemma LaysTwice(a: string, depth: nat, e: bool, ra: string, d1: nat, e1: bool, b: string, rb: string, d2: nat, e2: bool,
                  level: nat, space: nat)
    requires Lays(a, depth, e, ra, d1, e1, level, space) && Lays(b, d1, e1, rb, d2, e2, level, space)
    ensures Lays(a + b, depth, e, ra + rb, d2, e2, level, space)
  {
    forall v ensures Lay((a + b) + v, depth, e, level, space) == (ra + rb) + Lay(v, d2, e2, level, space) {
      Assoc(a, b, v);
      Assoc(ra, rb, Lay(v, d2, e2, level, space));
    }
  }

  lemma LaysNothing(depth: nat, e: bool, last: bool, level: nat, space: nat)
    requires last == e
    ensures Lays("", depth, e, "", depth, last, level, space)
  {
    forall v ensures Lay("" + v, depth, e, level, space) == "" + Lay(v, depth, last, level, space) {
      assert "" + v == v && "" + Lay(v, depth, e, level, space) == Lay(v, depth, e, level, space);
    }
  }

  lemma LaysText(s: string, depth: nat, e: bool, level: nat, space: nat)
    requires '<' !in s && s != ""
    ensures Lays(s, depth, e, s, depth, false, level, space)
  {
    forall v ensures Lay(s + v, depth, e, level, space) == s + Lay(v, depth, false, level, space) {
      LayText(s, v, depth, e, level, space);
    }
  }

  lemma {:induction false} LayText(s: string, v: string, depth: nat, afterEnd: bool, level: nat, space: nat)
    requires '<' !in s && s != ""
    ensures Lay(s + v, depth, afterEnd, level, space) == s + Lay(v, depth, false, level, space)
  {
    assert (s + v)[1..] == s[1..] + v && (s + v)[0] == s[0];
    if |s| > 1 {
      LayText(s[1..], v, depth, false, level, space);
      Assoc([s[0]], s[1..], Lay(v, depth, false, level, space));
      assert [s[0]] + s[1..] == s;
    } else {
      assert s[1..] + v == v && s == [s[0]];
    }
  }

  lemma TagCut(m: string, v: string)
    requires '>' !in m
    ensures var u := (m + ">") + v;
            Find(u, ">") == |m| && u[..|m| + 1] == m + ">" && u[|m| + 1..] == v
  {
    Assoc(m, ">", v);
    FindSkip(m, ">" + v, ">");
    assert ">" <= ">" + v;
  }

  lemma LayStart(m: string, v: string, depth: nat, afterEnd: bool, level: nat, space: nat)
    requires |m| > 1 && m[0] == '<' && m[1] != '/' && '>' !in m
    ensures Lay((m + ">") + v, depth, afterEnd, level, space)
            == (if depth > 0 then Line(level + depth - 1, space) else "") + ((m + ">") + Lay(v, depth + 1, false, level, space))
  {
    TagCut(m, v);
    assert ((m + ">") + v)[0] == '<' && CharAt((m + ">") + v, 1) == m[1];
  }

  lemma LayEnd(m: string, v: string, depth: nat, afterEnd: bool, level: nat, space: nat)
    requires |m| > 1 && m[0] == '<' && m[1] == '/' && '>' !in m && depth > 0
    ensures Lay((m + ">") + v, depth, afterEnd, level, space)
            == (if afterEnd then Line(level + depth - 2, space) else "") + ((m + ">") + Lay(v, depth - 1, true, level, space))
  {
    TagCut(m, v);
    assert ((m + ">") + v)[0] == '<' && CharAt((m + ">") + v, 1) == m[1];
  }

  /** Tags that end at their first '>'. */
  predicate Tight(t: Node)
    requires t.Element?
  {
    QName(t) != "" && QName(t)[0] != '/' && '>' !in QName(t) && (t.attr.Some? ==> '>' !in t.attr.value)
  }

  /** Elements that hold either one text or only elements. */
  predicate Laid(t: Node)
  {
    t.Element? && Tight(t) && (IsTextNode(t.kids) || AllLaid(t.kids))
  }

  predicate AllLaid(ks: seq<Node>)
  {
    ks == [] || (Laid(ks[0]) && AllLaid(ks[1..]))
  }

  lemma {:induction false} PlainLaid(t: Node)
    requires Plain(t)
    ensures Laid(t)
    decreases t
  {
    HeadTight(t);
    if !IsTextNode(t.kids) {
      PlainsLaid(t.kids);
    }
  }

  lemma {:induction false} PlainsLaid(ks: seq<Node>)
    requires AllPlain(ks)
    ensures AllLaid(ks)
    decreases ks
  {
    if ks != [] {
      PlainLaid(ks[0]);
      PlainsLaid(ks[1..]);
    }
  }

  lemma HeadTight(t: Node)
    requires t.Element? && PlainHead(t)
    ensures Tight(t)
  {
    NameMark(HeadOf(t));
    assert QName(HeadOf(t)) == QName(t) && QName(t)[0] in QName(t);
  }

  lemma TagsOf(t: Node) returns (s: string, e: string)
    requires t.Element? && Tight(t)
    ensures StartTag(t) == s + ">" && |s| > 1 && s[0] == '<' && s[1] != '/' && '>' !in s
    ensures EndTag(t) == e + ">" && |e| > 1 && e[0] == '<' && e[1] == '/' && '>' !in e
  {
    var attr := if t.attr.Some? then " " + t.attr.value else "";
    s, e := "<" + (QName(t) + attr), "</" + QName(t);
    Assoc("<", QName(t), attr);
    assert s[1] == QName(t)[0];
  }

  /** The text of an element. */
  lemma {:induction false} LayTree(t: Node, depth: nat, e: bool, line: string, n: nat, level: nat, space: nat)
    requires Laid(t) && level > 0 && n == level + depth && line == if depth > 0 then Line(n - 1, space) else ""
    ensures Lays(Dump(t, 0, 0), depth, e, line + Dump(t, n, space), depth, true, level, space)
    decreases t
  {
    var kids, formatted, last := DumpKids(t.kids, 0, 0), DumpKids(t.kids, n, space), LastElement(t.kids);
    var closing := Closing(t.kids, n, space);
    LaysStart(t, depth, e, line, n, level, space);
    LayKids(t.kids, depth + 1, false, last, n, level, space);
    LaysTwice(StartTag(t), depth, e, line + StartTag(t), depth + 1, false, kids, formatted, depth + 1, last, level, space);
    LaysEnd(t, depth, last, n, level, space);
    LaysTwice(StartTag(t) + kids, depth, e, line + StartTag(t) + formatted, depth + 1, last,
              EndTag(t), closing + EndTag(t), depth, true, level, space);
    FormattedParts(line, StartTag(t), formatted, closing, EndTag(t), kids);
  }

  lemma LaysStart(t: Node, depth: nat, e: bool, line: string, n: nat, level: nat, space: nat)
    requires t.Element? && Tight(t) && level > 0 && n == level + depth && line == if depth > 0 then Line(n - 1, space) else ""
    ensures Lays(StartTag(t), depth, e, line + StartTag(t), depth + 1, false, level, space)
  {
    var s, x := TagsOf(t);
    forall v ensures Lay(StartTag(t) + v, depth, e, level, space) == (line + StartTag(t)) + Lay(v, depth + 1, false, level, space) {
      LayStart(s, v, depth, e, level, space);
      Assoc(line, StartTag(t), Lay(v, depth + 1, false, level, space));
    }
  }

  lemma LaysEnd(t: Node, depth: nat, last: bool, n: nat, level: nat, space: nat)
    requires t.Element? && Tight(t) && level > 0 && n == level + depth && last == LastElement(t.kids)
    ensures Lays(EndTag(t), depth + 1, last, Closing(t.kids, n, space) + EndTag(t), depth, true, level, space)
  {
    var closing := Closing(t.kids, n, space);
    var s, x := TagsOf(t);
    EndLine(t, n, space);
    forall v ensures Lay(EndTag(t) + v, depth + 1, last, level, space) == (closing + EndTag(t)) + Lay(v, depth, true, level, space) {
      LayEnd(x, v, depth + 1, last, level, space);
      Assoc(closing, EndTag(t), Lay(v, depth, true, level, space));
    }
  }

  lemma FormattedParts(line: string, start: string, formatted: string, closing: string, end: string, kids: string)
    ensures ((line + start) + formatted) + (closing + end) == line + (start + formatted + closing + end)
    ensures (start + kids) + end == start + kids + "" + end
  {
    Assoc((line + start) + formatted, closing, end);
    Assoc(line, start, formatted);
    Assoc(line, start + formatted, closing);
    Assoc(line, start + formatted + closing, end);
    assert start + kids + "" == start + kids;
  }

  predicate LastElement(ks: seq<Node>)
  {
    ks != [] && ks[|ks| - 1].Element?
  }

  lemma EndLine(t: Node, n: nat, space: nat)
    requires t.Element? && n > 0
    ensures Closing(t.kids, n, space) == if LastElement(t.kids) then Line(n - 1, space) else ""
  {
    IndentIs(n - 1, space);
  }

  /** The text of children; last tells whether an end tag comes last. */
  lemma {:induction false} LayKids(ks: seq<Node>, depth: nat, e: bool, last: bool, n: nat, level: nat, space: nat)
    requires (AllLaid(ks) || IsTextNode(ks)) && level > 0 && depth > 0 && n == level + depth - 1
    requires last == if ks == [] then e else LastElement(ks)
    ensures Lays(DumpKids(ks, 0, 0), depth, e, DumpKids(ks, n, space), depth, last, level, space)
    decreases ks
  {
    if ks == [] {
      LaysNone(ks, depth, e, last, n, level, space);
    } else if ks[0].Text? {
      LaysOnlyText(ks, depth, e, last, n, level, space);
    } else {
      LastOf(ks);
      LayTree(ks[0], depth, e, Line(n, space), n + 1, level, space);
      LayKids(ks[1..], depth, true, last, n, level, space);
      LaysFirst(ks, depth, e, last, n, level, space);
    }
  }

  lemma LaysNone(ks: seq<Node>, depth: nat, e: bool, last: bool, n: nat, level: nat, space: nat)
    requires ks == [] && last == e
    ensures Lays(DumpKids(ks, 0, 0), depth, e, DumpKids(ks, n, space), depth, last, level, space)
  {
    LaysNothing(depth, e, last, level, space);
  }

  lemma LaysOnlyText(ks: seq<Node>, depth: nat, e: bool, last: bool, n: nat, level: nat, space: nat)
    requires IsTextNode(ks) && !last
    ensures Lays(DumpKids(ks, 0, 0), depth, e, DumpKids(ks, n, space), depth, last, level, space)
  {
    LaysText(ks[0].text, depth, e, level, space);
    TextLine(ks, n, space);
    TextLine(ks, 0, 0);
  }

  lemma LaysFirst(ks: seq<Node>, depth: nat, e: bool, last: bool, n: nat, level: nat, space: nat)
    requires ks != [] && ks[0].Element? && n > 0
    requires Lays(Dump(ks[0], 0, 0), depth, e, Line(n, space) + Dump(ks[0], n + 1, space), depth, true, level, space)
    requires Lays(DumpKids(ks[1..], 0, 0), depth, true, DumpKids(ks[1..], n, space), depth, last, level, space)
    ensures Lays(DumpKids(ks, 0, 0), depth, e, DumpKids(ks, n, space), depth, last, level, space)
  {
    KidParts(ks, n, space);
    LaysTwice(Dump(ks[0], 0, 0), depth, e, Line(n, space) + Dump(ks[0], n + 1, space), depth, true,
              DumpKids(ks[1..], 0, 0), DumpKids(ks[1..], n, space), depth, last, level, space);
  }

  lemma KidParts(ks: seq<Node>, n: nat, space: nat)
    requires ks != [] && ks[0].Element? && n > 0
    ensures DumpKids(ks, 0, 0) == Dump(ks[0], 0, 0) + DumpKids(ks[1..], 0, 0)
    ensures DumpKids(ks, n, space) == (Line(n, space) + Dump(ks[0], n + 1, space)) + DumpKids(ks[1..], n, space)
  {
    IndentIs(n, space);
    assert "" + Dump(ks[0], 0, 0) == Dump(ks[0], 0, 0);
  }

  lemma LastOf(ks: seq<Node>)
    requires ks != [] && ks[0].Element?
    ensures LastElement(ks) == (LastElement(ks[1..]) || ks[1..] == [])
  {
  }

  lemma TextLine(ks: seq<Node>, level: nat, space: nat)
    requires IsTextNode(ks)
    ensures DumpKids(ks, level, space) == ks[0].text
  {
    assert ks[1..] == [] && DumpKids(ks[1..], level, space) == "";
    assert "" + ks[0].text + "" == ks[0].text;
  }

  /** Text formatted from a level from 1 on is unformatted text laid out: lines and blanks stand where the tags say, and
      nowhere else. */
  lemma DumpIsLaid(t: Node, level: nat, space: nat)
    requires Plain(t) && level > 0
    ensures Dump(t, level, space) == Lay(Dump(t, 0, 0), 0, false, level, space)
  {
    PlainLaid(t);
    LayTree(t, 0, false, "", level, level, space);
    assert Dump(t, 0, 0) + "" == Dump(t, 0, 0);
    assert "" + Dump(t, level, space) + "" == Dump(t, level, space);
    assert Lay(Dump(t, 0, 0) + "", 0, false, level, space) == ("" + Dump(t, level, space)) + Lay("", 0, true, level, space);
  }
}
