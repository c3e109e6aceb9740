/** Where the parser finds the end tags in a text that is written. */
module XmlSearch {
  import opened XmlTree
  import opened XmlParse
  import opened XmlText
  import opened Wrappers
  import opened Sequences

  /** What can stand in an end tag. */
  predicate IsMark(q: string)
  {
    q != "" && q[0] != '?' && q[0] != '!' && ' ' !in q && '<' !in q && '>' !in q && '/' !in q
  }

  lemma NameMark(h: Head)
    requires PlainHead(h)
    ensures IsMark(QName(h))
  {
  }

  /** A tag that is no end tag. */
  predicate IsStart(m: string)
  {
    m != "" && m[0] != '/' && m[0] != '?' && m[0] != '!' && '<' !in m && '>' !in m
  }

  lemma BlanksPlain(n: nat, c: char)
    requires c != ' '
    ensures c !in Blanks(n)
  {
  }

  lemma StartIs(s: Start)
    requires PlainHead(s.head)
    ensures IsStart(StartText(s)) && IsStart(StartText(s) + "/") && StartText(s)[|StartText(s)| - 1] != '/'
  {
    var q, m := QName(s.head), StartText(s);
    BlanksPlain(s.lead, '<');
    BlanksPlain(s.lead, '>');
    BlanksPlain(s.trail, '<');
    BlanksPlain(s.trail, '>');
    NameMark(s.head);
    assert m[0] == q[0];
    if s.trail > 0 {
      assert Blanks(s.trail)[s.trail - 1] == ' ' == m[|m| - 1];
    } else if s.head.attr.None? {
      assert m == q && q[|q| - 1] in q;
    }
  }

  // ---------------------------------------------------------------------------------
  // Searching past a piece
  // ---------------------------------------------------------------------------------

  lemma SkipStart(m: string, v: string, n: string)
    requires IsStart(m)
    ensures Find(StartThen(m, v), EndMark(n)) == Shift(|m| + 2, Find(v, EndMark(n)))
  {
    var s, t := StartThen(m, v), EndMark(n);
    Assoc(m, ">", v);
    assert s[1] == m[0] && t[1] == '/';
    PrefixAt(s, t, 1);
    assert s[1..] == (m + ">") + v;
    FindSkip(m + ">", v, t);
  }

  lemma SameName(m: string, n: string, v: string)
    requires '>' !in m && '>' !in n && n + ">" <= m + (">" + v)
    ensures m == n
  {
    var s, t := m + (">" + v), n + ">";
    var w := s[|t|..];
    assert s == t + w;
    Assoc(n, ">", w);
    FindSkip(m, ">" + v, ">");
    FindSkip(n, ">" + w, ">");
    assert ">" <= ">" + v && ">" <= ">" + w;
    assert m == s[..|m|] && n == s[..|n|];
  }

  lemma SkipEnd(m: string, v: string, n: string)
    requires IsMark(m) && IsMark(n) && m != n
    ensures Find(EndThen(m, v), EndMark(n)) == Shift(|m| + 3, Find(v, EndMark(n)))
  {
    var s, t := EndThen(m, v), EndMark(n);
    if t <= s {
      Assoc("</", n, ">");
      assert t[2..] == n + ">" && s[2..] == m + (">" + v);
      assert t[2..] <= s[2..];
      SameName(m, n, v);
    }
    Assoc("/" + m, ">", v);
    assert s[1..] == ("/" + m + ">") + v;
    FindSkip("/" + m + ">", v, t);
  }

  lemma FoundEnd(n: string, v: string)
    ensures Find(EndThen(n, v), EndMark(n)) == 0
  {
    Assoc("</", n, ">" + v);
    Assoc("</" + n, ">", v);
    assert EndMark(n) <= EndThen(n, v);
  }

  // ---------------------------------------------------------------------------------
  // Searching what is written
  // ---------------------------------------------------------------------------------

  /** Nothing is found before v, in a text that ends in v. */
  predicate Skips(s: string, v: string, n: string)
  {
    |s| >= |v| && Find(s, EndMark(n)) == Shift(|s| - |v|, Find(v, EndMark(n)))
  }

  lemma SkipsTwice(s: string, u: string, v: string, n: string)
    requires Skips(s, u, n) && Skips(u, v, n)
    ensures Skips(s, v, n)
  {
  }

  lemma SkipsGap(gap: string, v: string, n: string)
    requires IsGap(gap)
    ensures Skips(gap + v, v, n)
  {
    FindSkip(gap, v, EndMark(n));
  }

  lemma SkipsStart(gap: string, m: string, v: string, n: string)
    requires IsGap(gap) && IsStart(m)
    ensures Skips(gap + StartThen(m, v), v, n)
  {
    SkipStart(m, v, n);
    SkipsGap(gap, StartThen(m, v), n);
    SkipsTwice(gap + StartThen(m, v), StartThen(m, v), v, n);
  }

  lemma SkipsEnd(closing: string, m: string, v: string, n: string)
    requires IsGap(closing) && IsMark(m) && IsMark(n) && m != n
    ensures Skips(closing + EndThen(m, v), v, n)
  {
    SkipEnd(m, v, n);
    SkipsGap(closing, EndThen(m, v), n);
    SkipsTwice(closing + EndThen(m, v), EndThen(m, v), v, n);
  }

  /** The end tag of a name that none is written for is found behind the text. */
  lemma {:induction false} SkipTree(w: Written, v: string, n: string)
    requires (Good(w) || IsText([w])) && IsMark(n) && n !in EndNames(w)
    ensures Skips(Then(w, v), v, n)
    decreases w
  {
    match w
    case Words(text) => SkipsGap(text, v, n);
    case Short(gap, start) =>
      StartIs(start);
      SkipsStart(gap, StartText(start) + "/", v, n);
    case Whole(gap, start, kids, closing) =>
      var end := closing + EndThen(QName(start.head), v);
      StartIs(start);
      NameMark(start.head);
      SkipsEnd(closing, QName(start.head), v, n);
      SkipKids(kids, end, n);
      SkipsTwice(KidsThen(kids, end), end, v, n);
      SkipsStart(gap, StartText(start), KidsThen(kids, end), n);
      SkipsTwice(Then(w, v), KidsThen(kids, end), v, n);
  }

  lemma {:induction false} SkipKids(ks: seq<Written>, v: string, n: string)
    requires (AllGood(ks) || IsText(ks)) && IsMark(n) && n !in EndNamesOf(ks)
    ensures Skips(KidsThen(ks, v), v, n)
    decreases ks
  {
    if ks != [] {
      KidsParts(ks);
      SkipKids(ks[1..], v, n);
      SkipTree(ks[0], KidsThen(ks[1..], v), n);
      SkipsTwice(KidsThen(ks, v), KidsThen(ks[1..], v), v, n);
    }
  }

  /** Something is found before v. */
  predicate Finds(s: string, v: string, n: string)
  {
    0 <= Find(s, EndMark(n)) < |s| - |v|
  }

  lemma FindsLater(s: string, u: string, v: string, n: string)
    requires Skips(s, u, n) && Finds(u, v, n)
    ensures Finds(s, v, n)
  {
  }

  /** The end tag of a name that one is written for is found inside the text. */
  lemma {:induction false} InTree(w: Written, v: string, n: string)
    requires Good(w) && IsMark(n) && n in EndNames(w)
    ensures Finds(Then(w, v), v, n)
    decreases w
  {
    var Whole(gap, start, kids, closing) := w;
    var end := closing + EndThen(QName(start.head), v);
    StartIs(start);
    SkipsStart(gap, StartText(start), KidsThen(kids, end), n);
    if n in EndNamesOf(kids) {
      InKids(kids, end, n);
    } else {
      SkipKids(kids, end, n);
      SkipsGap(closing, EndThen(n, v), n);
      FoundEnd(n, v);
      FindsLater(KidsThen(kids, end), end, v, n);
    }
    FindsLater(Then(w, v), KidsThen(kids, end), v, n);
  }

  lemma {:induction false} InKids(ks: seq<Written>, v: string, n: string)
    requires (AllGood(ks) || IsText(ks)) && IsMark(n) && n in EndNamesOf(ks)
    ensures Finds(KidsThen(ks, v), v, n)
    decreases ks
  {
    var rest := KidsThen(ks[1..], v);
    if n in EndNames(ks[0]) {
      InTree(ks[0], rest, n);
    } else {
      KidsParts(ks);
      SkipTree(ks[0], rest, n);
      InKids(ks[1..], v, n);
      FindsLater(KidsThen(ks, v), rest, v, n);
    }
  }
}
