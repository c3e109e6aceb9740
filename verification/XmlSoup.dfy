/** What the parser makes of written text that was cut off at a tag. */
module XmlSoup {
  import opened XmlTree
  import opened XmlParse
  import opened XmlText
  import opened XmlSearch
  import opened Wrappers
  import opened Sequences

  /** What the parser takes for the tag, of a text behind a '<' with the next '>' at j. */
  function TagOf(u: string, j: nat): string
    requires 0 < j <= |u|
  {
    if u[j - 1] == '/' then u[..j - 1] else u[..j]
  }

  /** The text behind a '<': a tag that can be read, with nothing in it that the parser would stop at. An end tag has
      no blank in it. */
  predicate GoodTag(u: string)
  {
    var j := Find(u, ">");
    && j > 0 && u[0] != '?' && u[0] != '!' && '<' !in u[..j] && (u[0] == '/' ==> ' ' !in u[..j])
    && ParseTag(TagOf(u, j)).Some?
  }

  /** The tag of an element that is written short, with this name. */
  predicate IsShort(u: string, n: string)
  {
    var j := Find(u, ">");
    j > 0 && u[j - 1] == '/' && ParseTag(u[..j - 1]).Some? && QName(ParseTag(u[..j - 1]).value) == n
  }

  // ---------------------------------------------------------------------------------
  // Tags in a text
  // ---------------------------------------------------------------------------------

  /** Every '<' is followed by a good tag. */
  predicate Tags(doc: string, good: string -> bool)
  {
    doc == "" || ((doc[0] == '<' ==> good(doc[1..])) && Tags(doc[1..], good))
  }

  /** How many of the tags have a property. */
  function Tally(doc: string, has: string -> bool): nat
  {
    if doc == "" then 0 else (if doc[0] == '<' && has(doc[1..]) then 1 else 0) + Tally(doc[1..], has)
  }

  lemma {:induction false} TagsSkip(u: string, v: string, good: string -> bool, has: string -> bool)
    requires '<' !in u
    ensures Tags(v, good) ==> Tags(u + v, good)
    ensures Tally(u + v, has) == Tally(v, has)
  {
    if u == "" {
      assert u + v == v;
    } else {
      assert (u + v)[1..] == u[1..] + v;
      TagsSkip(u[1..], v, good, has);
    }
  }

  lemma {:induction false} TagsSuffix(doc: string, i: nat, good: string -> bool, has: string -> bool)
    requires Tags(doc, good) && i <= |doc|
    ensures Tags(doc[i..], good) && Tally(doc[i..], has) <= Tally(doc, has)
    decreases i
  {
    if i == 0 {
      assert doc[0..] == doc;
    } else {
      TagsSuffix(doc[1..], i - 1, good, has);
      assert doc[1..][i - 1..] == doc[i..];
    }
  }

  /** One tag, and what is behind its '<'. */
  lemma TagsAt(doc: string, i: nat, good: string -> bool, has: string -> bool)
    requires Tags(doc, good) && i < |doc| && doc[i] == '<'
    ensures good(doc[i + 1..]) && Tags(doc[i + 1..], good)
    ensures Tally(doc[i + 1..], has) + (if has(doc[i + 1..]) then 1 else 0) <= Tally(doc, has)
  {
    TagsSuffix(doc, i, good, has);
    assert doc[i..][1..] == doc[i + 1..];
  }

  /** The properties of a tag do not depend on what follows the next '<'. */
  ghost predicate Local(good: string -> bool, has: string -> bool)
  {
    forall u: string, i: nat :: i < |u| && u[i] == '<' && good(u) ==> good(u[..i]) && has(u[..i]) == has(u)
  }

  /** Cutting a text at a tag. */
  lemma {:induction false} TagsPrefix(doc: string, i: nat, good: string -> bool, has: string -> bool)
    requires Tags(doc, good) && i < |doc| && doc[i] == '<' && Local(good, has)
    ensures Tags(doc[..i], good) && Tally(doc, has) == Tally(doc[..i], has) + Tally(doc[i..], has)
    decreases i
  {
    if i == 0 {
      assert doc[0..] == doc && doc[..0] == "";
    } else {
      TagsPrefix(doc[1..], i - 1, good, has);
      assert doc[..i][1..] == doc[1..][..i - 1] && doc[1..][i - 1..] == doc[i..] && doc[..i][0] == doc[0];
      if doc[0] == '<' {
        LocalAt(doc[1..], i - 1, good, has);
      }
      TagsCons(doc, doc[1..], doc[..i], doc[1..][..i - 1], good, has);
    }
  }

  lemma LocalAt(u: string, i: nat, good: string -> bool, has: string -> bool)
    requires Local(good, has) && i < |u| && u[i] == '<' && good(u)
    ensures good(u[..i]) && has(u[..i]) == has(u)
  {
  }

  /** One more character in front of a text and of what was cut off it. */
  lemma TagsCons(doc: string, u: string, cut: string, v: string, good: string -> bool, has: string -> bool)
    requires doc != "" && cut != "" && doc[1..] == u && cut[1..] == v && cut[0] == doc[0] && Tags(v, good)
    requires doc[0] == '<' ==> good(v) && has(v) == has(u)
    ensures Tags(cut, good) && Tally(doc, has) - Tally(u, has) == Tally(cut, has) - Tally(v, has)
  {
  }

  /** The two sides of something cut out at a tag. */
  lemma TagsParts(doc: string, e: nat, r: nat, good: string -> bool, has: string -> bool)
    requires Tags(doc, good) && e < r <= |doc| && doc[e] == '<' && Local(good, has)
    ensures Tags(doc[..e], good) && Tags(doc[r..], good)
    ensures Tally(doc[..e], has) + Tally(doc[r..], has) <= Tally(doc, has)
  {
    TagsPrefix(doc, e, good, has);
    TagsSuffix(doc, e, good, has);
    assert doc[e..][r - e..] == doc[r..];
    TagsRest(doc[e..], r - e, doc[r..], good, has);
  }

  lemma TagsRest(s: string, k: nat, rest: string, good: string -> bool, has: string -> bool)
    requires Tags(s, good) && k <= |s| && rest == s[k..]
    ensures Tags(rest, good) && Tally(rest, has) <= Tally(s, has)
  {
    TagsSuffix(s, k, good, has);
  }

  /** What follows a tag of that length. */
  lemma TagsBehind(doc: string, i: nat, u: string, k: nat, rest: string, good: string -> bool, has: string -> bool)
    requires Tags(doc, good) && i < |doc| && doc[i] == '<' && u == doc[i + 1..] && k <= |u| && rest == u[k..]
    ensures Tags(rest, good) && Tally(rest, has) + (if has(u) then 1 else 0) <= Tally(doc, has)
  {
    TagsAt(doc, i, good, has);
    TagsRest(u, k, rest, good, has);
  }

  // ---------------------------------------------------------------------------------
  // Written text
  // ---------------------------------------------------------------------------------

  /** Text in which every '<' starts a tag that can be read. */
  predicate Soup(doc: string)
  {
    Tags(doc, GoodTag)
  }

  function ShortTag(n: string): string -> bool
  {
    u => IsShort(u, n)
  }

  /** How many elements of that name are written short. */
  function Shorts(doc: string, n: string): nat
  {
    Tally(doc, ShortTag(n))
  }

  lemma SoupSkip(u: string, v: string)
    requires '<' !in u && Soup(v)
    ensures Soup(u + v)
  {
    TagsSkip(u, v, GoodTag, GoodTag);
  }

  lemma ShortsSkip(u: string, v: string, n: string)
    requires '<' !in u
    ensures Shorts(u + v, n) == Shorts(v, n)
  {
    TagsSkip(u, v, GoodTag, ShortTag(n));
  }

  /** The tag behind a '<'. */
  lemma TagEnd(m: string, v: string)
    requires m != "" && '>' !in m
    ensures Find(m + (">" + v), ">") == |m| && (m + (">" + v))[..|m|] == m && (m + (">" + v))[0] == m[0]
    ensures m[|m| - 1] == '/' ==> (m + (">" + v))[..|m| - 1] == m[..|m| - 1]
  {
    FindSkip(m, ">" + v, ">");
    assert ">" <= ">" + v;
  }

  lemma GoodTagOf(m: string, v: string)
    requires m != "" && m[0] != '?' && m[0] != '!' && '<' !in m && '>' !in m && (m[0] == '/' ==> ' ' !in m)
    requires ParseTag(if m[|m| - 1] == '/' then m[..|m| - 1] else m).Some?
    ensures GoodTag(m + (">" + v))
  {
    TagEnd(m, v);
  }

  lemma ShortTagOf(m: string, v: string, n: string)
    requires m != "" && '>' !in m && ParseTag(if m[|m| - 1] == '/' then m[..|m| - 1] else m).Some?
    ensures IsShort(m + (">" + v), n) <==>
              m[|m| - 1] == '/' && QName(ParseTag(m[..|m| - 1]).value) == n
  {
    TagEnd(m, v);
  }

  /** A start tag, or the tag of an element that is written short. */
  lemma SoupStart(m: string, v: string, n: string)
    requires IsStart(m) && ParseTag(if m[|m| - 1] == '/' then m[..|m| - 1] else m).Some? && Soup(v)
    ensures Soup(StartThen(m, v))
    ensures Shorts(StartThen(m, v), n) ==
              (if m[|m| - 1] == '/' && QName(ParseTag(m[..|m| - 1]).value) == n then 1 else 0) + Shorts(v, n)
  {
    GoodTagOf(m, v);
    ShortTagOf(m, v, n);
    Assoc(m, ">", v);
    SoupSkip(m + ">", v);
    ShortsSkip(m + ">", v, n);
    assert StartThen(m, v)[1..] == m + (">" + v);
  }

  lemma SoupEnd(h: Head, v: string, n: string)
    requires PlainHead(h) && Soup(v)
    ensures Soup(EndThen(QName(h), v)) && Shorts(EndThen(QName(h), v), n) == Shorts(v, n)
  {
    var q := QName(h);
    var m := "/" + q;
    NameMark(h);
    EndRead(h);
    assert q[|q| - 1] in q && m[|m| - 1] == q[|q| - 1];
    GoodTagOf(m, v);
    ShortTagOf(m, v, n);
    Assoc(m, ">", v);
    SoupSkip(m + ">", v);
    ShortsSkip(m + ">", v, n);
    EndParts(q, v);
  }

  lemma EndParts(m: string, v: string)
    ensures EndThen(m, v)[0] == '<' && EndThen(m, v)[1..] == ("/" + m) + (">" + v)
  {
    Assoc("/", m, ">" + v);
    assert EndThen(m, v) == "<" + ("/" + (m + (">" + v)));
  }

  lemma GoodRead(s: Start)
    requires GoodStart(s)
    ensures ParseTag(StartText(s)) == Some(s.head)
    ensures IsStart(StartText(s)) && IsStart(StartText(s) + "/") && StartText(s)[|StartText(s)| - 1] != '/'
    ensures var m := StartText(s) + "/"; m[|m| - 1] == '/' && m[..|m| - 1] == StartText(s)
  {
    TagRead(s);
    StartIs(s);
  }

  /** The elements of that name that are written short. */
  function ShortsIn(w: Written, n: string): nat
  {
    match w
    case Words(_) => 0
    case Short(_, start) => if QName(start.head) == n then 1 else 0
    case Whole(_, _, kids, _) => ShortsOf(kids, n)
  }

  function ShortsOf(ks: seq<Written>, n: string): nat
  {
    if ks == [] then 0 else ShortsIn(ks[0], n) + ShortsOf(ks[1..], n)
  }

  lemma {:induction false} SoupTree(w: Written, v: string, n: string)
    requires (Good(w) || IsText([w])) && Soup(v)
    ensures Soup(Then(w, v)) && Shorts(Then(w, v), n) == ShortsIn(w, n) + Shorts(v, n)
    decreases w
  {
    match w
    case Words(text) =>
      SoupSkip(text, v);
      ShortsSkip(text, v, n);
    case Short(gap, start) =>
      var m := StartText(start) + "/";
      GoodRead(start);
      SoupStart(m, v, n);
      SoupSkip(gap, StartThen(m, v));
      ShortsSkip(gap, StartThen(m, v), n);
    case Whole(gap, start, kids, closing) =>
      var m, end := StartText(start), EndThen(QName(start.head), v);
      GoodRead(start);
      SoupEnd(start.head, v, n);
      SoupSkip(closing, end);
      ShortsSkip(closing, end, n);
      SoupKids(kids, closing + end, n);
      var body := KidsThen(kids, closing + end);
      SoupStart(m, body, n);
      SoupSkip(gap, StartThen(m, body));
      ShortsSkip(gap, StartThen(m, body), n);
  }

  lemma {:induction false} SoupKids(ks: seq<Written>, v: string, n: string)
    requires (AllGood(ks) || IsText(ks)) && Soup(v)
    ensures Soup(KidsThen(ks, v)) && Shorts(KidsThen(ks, v), n) == ShortsOf(ks, n) + Shorts(v, n)
    decreases ks
  {
    if ks != [] {
      KidsParts(ks);
      SoupKids(ks[1..], v, n);
      SoupTree(ks[0], KidsThen(ks[1..], v), n);
    }
  }

  // ---------------------------------------------------------------------------------
  // Counting elements by name
  // ---------------------------------------------------------------------------------

  function Count(t: Node, n: string): nat
  {
    match t
    case Text(_) => 0
    case Element(_, _, _, kids) => (if QName(t) == n then 1 else 0) + CountOf(kids, n)
  }

  function CountOf(ks: seq<Node>, n: string): nat
  {
    if ks == [] then 0 else Count(ks[0], n) + CountOf(ks[1..], n)
  }

  /** When an end tag is written for a name, more elements have it than are written short. */
  lemma {:induction false} MoreThanShorts(w: Written, n: string)
    ensures Count(Tree(w), n) >= ShortsIn(w, n) + if n in EndNames(w) then 1 else 0
    decreases w
  {
    match w
    case Words(_) =>
    case Short(_, start) =>
    case Whole(_, start, kids, _) =>
      MoreOf(kids, n);
      assert QName(Tree(w)) == QName(start.head);
  }

  lemma {:induction false} MoreOf(ks: seq<Written>, n: string)
    ensures CountOf(Trees(ks), n) >= ShortsOf(ks, n) + if n in EndNamesOf(ks) then 1 else 0
    decreases ks
  {
    if ks != [] {
      MoreThanShorts(ks[0], n);
      MoreOf(ks[1..], n);
      assert Trees(ks)[1..] == Trees(ks[1..]);
    }
  }

  // ---------------------------------------------------------------------------------
  // Parts of text
  // ---------------------------------------------------------------------------------

  lemma PrefixOf(s: string, t: string, n: nat)
    requires n <= |s|
    ensures t <= s[..n] ==> t <= s
  {
    if t <= s[..n] {
      assert s[..n][..|t|] == s[..|t|];
    }
  }

  lemma MemberAt(s: string, j: int, n: nat)
    ensures n < j <= |s| ==> s[n] in s[..j]
  {
    if n < j <= |s| {
      assert s[..j][n] == s[n];
    }
  }

  /** A search does not look behind what it finds, */
  lemma {:induction false} FindInPrefix(s: string, t: string, n: nat)
    requires n <= |s| && 0 <= Find(s, t) && Find(s, t) + |t| <= n
    ensures Find(s[..n], t) == Find(s, t)
    decreases n
  {
    if t <= s {
      assert s[..|t|] == s[..n][..|t|];
    } else {
      assert s[..n][1..] == s[1..][..n - 1];
      PrefixOf(s, t, n);
      FindInPrefix(s[1..], t, n - 1);
    }
  }

  lemma PartOfPart(s: string, i: nat, j: nat, k: nat, n: nat)
    requires i + k + n <= j <= |s|
    ensures s[i..j][k..k + n] == s[i + k..i + k + n]
  {
    var a, b := s[i..j][k..k + n], s[i + k..i + k + n];
    assert forall x :: 0 <= x < n ==> a[x] == b[x];
    assert a == b;
  }

  /** and what is found in a part is found in the whole. */
  lemma FindInPart(s: string, t: string, i: nat, j: nat)
    requires i <= j <= |s| && Find(s, t) < 0
    ensures Find(s[i..j], t) < 0
  {
    if Find(s[i..j], t) >= 0 {
      FindThere(s[i..j], t);
      var k := Find(s[i..j], t);
      PartOfPart(s, i, j, k, |t|);
      FindFirst(s, t, i + k);
    }
  }

  lemma GoodTagCut(u: string, i: nat, n: string)
    requires GoodTag(u) && i < |u| && u[i] == '<'
    ensures GoodTag(u[..i]) && (IsShort(u[..i], n) <==> IsShort(u, n))
  {
    var j := Find(u, ">");
    NotBefore(u, ">");
    MemberAt(u, j, i);
    FindInPrefix(u, ">", i);
    SameTag(u, u[..i], j, n);
  }

  lemma SameTag(u: string, w: string, j: nat, n: string)
    requires Find(u, ">") == j && Find(w, ">") == j && 0 < j <= |w| <= |u| && w == u[..|w|] && GoodTag(u)
    ensures GoodTag(w) && (IsShort(w, n) <==> IsShort(u, n))
  {
    assert w[..j] == u[..j] && w[..j - 1] == u[..j - 1] && w[j - 1] == u[j - 1] && w[0] == u[0];
    assert TagOf(w, j) == TagOf(u, j);
  }

  lemma TagsLocal(n: string)
    ensures Local(GoodTag, ShortTag(n))
  {
    forall u: string, i: nat | i < |u| && u[i] == '<' && GoodTag(u)
      ensures GoodTag(u[..i]) && ShortTag(n)(u[..i]) == ShortTag(n)(u)
    {
      GoodTagCut(u, i, n);
    }
  }

  // ---------------------------------------------------------------------------------
  // Names in what is parsed
  // ---------------------------------------------------------------------------------

  lemma HeadPrefix(s: string, t: string)
    requires s != "" && |t| == 1
    ensures t <= s <==> s[0] == t[0]
  {
    if s[0] == t[0] {
      assert s[..1] == t;
    }
  }

  /** Searching for a single character. */
  lemma {:induction false} NotBefore(s: string, t: string)
    requires |t| == 1
    ensures var j := Find(s, t);
            if j < 0 then t[0] !in s else s[j] == t[0] && t[0] !in s[..j]
  {
    if s != "" {
      NotBefore(s[1..], t);
      HeadPrefix(s, t);
      var j := Find(s[1..], t);
      if j >= 0 {
        assert s[..j + 1] == [s[0]] + s[1..][..j];
      }
    }
  }

  lemma {:induction false} StripFrontChars(s: string, c: char)
    requires c !in s
    ensures c !in StripFront(s)
  {
    if s != "" && s[0] == ' ' {
      StripFrontChars(s[1..], c);
    }
  }

  lemma {:induction false} StripRearChars(s: string, c: char)
    requires c !in s
    ensures c !in StripRear(s)
  {
    if s != "" && s[|s| - 1] == ' ' {
      StripRearChars(s[..|s| - 1], c);
    }
  }

  lemma StripChars(s: string, c: char)
    requires c !in s
    ensures c !in Strip(s)
  {
    StripFrontChars(s, c);
    StripRearChars(StripFront(s), c);
  }

  lemma RestChars(tag: string, prefix: Option<string>, rest: string, c: char)
    requires c !in rest && ParseRest(tag, prefix, rest).Some?
    ensures c !in ParseRest(tag, prefix, rest).value.name && ParseRest(tag, prefix, rest).value.prefix == prefix
  {
    var blank := Find(rest, " ");
    StripChars(if blank < 0 then rest else rest[..blank], c);
  }

  /** A name has no characters that its tag has not. */
  lemma NameChars(tag: string, c: char)
    requires c !in tag && ParseTag(tag).Some? && c != ':'
    ensures c !in QName(ParseTag(tag).value)
  {
    var colon, blank := Find(tag, ":"), Find(tag, " ");
    if colon >= 0 && (blank < 0 || colon < blank) {
      var p := Strip(tag[..colon]);
      StripChars(tag[..colon], c);
      RestChars(tag, Some(p), tag[colon + 1..], c);
    } else {
      RestChars(tag, None, tag, c);
    }
  }

  /** What is read from a good tag. */
  lemma GoodBehind(u: string)
    requires GoodTag(u)
    ensures var j, r := Find(u, ">"), TagBehind(u);
            (r.Empty? || r.Open?) && (r.Empty? <==> u[j - 1] == '/') && r.rest == u[j + 1..]
            && ParseTag(TagOf(u, j)) == Some(r.head)
  {
  }

  /** The tag the parser finds next in such text. */
  lemma SoupTag(doc: string)
    requires Soup(doc)
    ensures Find(doc, "<") < 0 ==> ReadTag(doc) == NoTag
    ensures Find(doc, "<") >= 0 ==>
              var u := doc[Find(doc, "<") + 1..];
              GoodTag(u) && ReadTag(doc) == TagBehind(u) && doc[Find(doc, "<")] == '<'
  {
    var i := Find(doc, "<");
    if i >= 0 {
      NotBefore(doc, "<");
      TagsAt(doc, i, GoodTag, GoodTag);
    }
  }

  /** In such text, a name is never followed by a blank. */
  lemma {:induction false} NoBlankEnd(doc: string, tag: string)
    requires Tags(doc, GoodTag) && '>' !in tag
    ensures Find(doc, "</" + tag + " ") < 0
  {
    if doc != "" {
      NoBlankEnd(doc[1..], tag);
      if "</" + tag + " " <= doc {
        BlankBehind(doc, tag);
      }
    }
  }

  lemma BlankBehind(doc: string, tag: string)
    requires "</" + tag + " " <= doc && '>' !in tag
    ensures doc[0] == '<' && !GoodTag(doc[1..])
  {
    var t := "</" + tag + " ";
    assert t[0] == '<' && t[1..] == "/" + tag + " ";
    PrefixAt(doc, t, 0);
    assert doc[1..][..|t| - 1] == t[1..] by {
      assert doc[..|t|] == t;
    }
    PrefixIs(doc[1..], t[1..]);
    BlankInTag(doc[1..], "/" + tag);
  }

  lemma TagAt(w: string, tag: string, j: int)
    requires tag + " " <= w
    ensures 0 <= j < |tag| ==> w[j] in tag
    ensures w[|tag|] == ' '
  {
    var t := tag + " ";
    assert w[..|t|] == t && t[|tag|] == ' ';
    if 0 <= j < |tag| {
      assert w[j] == t[j] == tag[j];
    }
  }

  lemma BlankInTag(w: string, tag: string)
    requires tag + " " <= w && '>' !in tag && tag != "" && tag[0] == '/'
    ensures !GoodTag(w)
  {
    var j := Find(w, ">");
    NotBefore(w, ">");
    TagAt(w, tag, j);
    MemberAt(w, j, |tag|);
  }

  /** The end of an element: its content, and the rest from position r on. */
  lemma EndInSoup(doc: string, tag: string) returns (r: nat)
    requires Soup(doc) && '>' !in tag
    ensures Find(doc, EndMark(tag)) < 0 ==> ReadEnd(doc, tag) == NoEnd
    ensures var e := Find(doc, EndMark(tag));
            e >= 0 ==> e < r <= |doc| && doc[e] == '<' && ReadEnd(doc, tag) == Ends(doc[..e], doc[r..])
  {
    var e := Find(doc, EndMark(tag));
    r := 0;
    if e >= 0 {
      r := EndFound(doc, tag, e);
    } else {
      NoBlankEnd(doc, tag);
    }
  }

  lemma EndFound(doc: string, tag: string, e: nat) returns (r: nat)
    requires e == Find(doc, EndMark(tag))
    ensures e < r <= |doc| && doc[e] == '<' && ReadEnd(doc, tag) == Ends(doc[..e], doc[r..])
  {
    FindThere(doc, EndMark(tag));
    EndMarkAt(doc, tag, e);
    var k := Find(doc[e..], ">");
    r := e + k + 1;
    EndIs(doc, tag, e, doc[e..], k, doc[..e], doc[r..]);
  }

  lemma EndMarkAt(doc: string, tag: string, e: nat)
    requires e + |tag| + 3 <= |doc| && doc[e..e + |tag| + 3] == EndMark(tag)
    ensures doc[e] == '<' && Find(doc[e..], ">") >= 0
  {
    var t, n := EndMark(tag), |tag| + 2;
    assert doc[e] == t[0] && t[n] == '>';
    assert doc[e..][n] == doc[e..e + n + 1][n];
    assert doc[e..][n..n + 1] == ">";
    FindFirst(doc[e..], ">", n);
  }

  lemma Suffix(s: string, i: nat, j: nat)
    requires i + j <= |s|
    ensures s[i..][j..] == s[i + j..] == s[i + j..|s|]
  {
  }

  lemma FromPlace(doc: string, i: nat, u: string, j: nat)
    requires i < |doc| && u == doc[i + 1..] && j < |u|
    ensures i + j + 2 <= |doc| && u[j + 1..] == doc[i + j + 2..]
  {
    Suffix(doc, i + 1, j + 1);
  }

  /** Text that follows such a tag is such text again. */
  predicate Follows(rest: string, doc: string, n: string)
  {
    Soup(rest) && |rest| < |doc| && Find(rest, EndMark(n)) < 0 && Shorts(rest, n) <= Shorts(doc, n)
  }

  /** The next tag, and what follows it. */
  lemma NextInSoup(doc: string, n: string) returns (tag: Tag)
    requires Soup(doc) && Find(doc, EndMark(n)) < 0 && Find(doc, "<") >= 0
    ensures tag == ReadTag(doc) && (tag.Empty? || tag.Open?) && '>' !in QName(tag.head)
    ensures Follows(tag.rest, doc, n)
    ensures tag.Empty? && QName(tag.head) == n ==> Shorts(tag.rest, n) + 1 <= Shorts(doc, n)
  {
    SoupTag(doc);
    var i := Find(doc, "<");
    var u := doc[i + 1..];
    tag := TagBehind(u);
    GoodBehind(u);
    TagName(u);
    ShortIs(u, n);
    BehindTag(doc, i, u, Find(u, ">"), tag.rest, tag.Empty? && QName(tag.head) == n, n);
  }

  lemma TagName(u: string)
    requires GoodTag(u)
    ensures (TagBehind(u).Empty? || TagBehind(u).Open?) && '>' !in QName(TagBehind(u).head)
  {
    var j := Find(u, ">");
    GoodBehind(u);
    NotBefore(u, ">");
    InPart(u, j, TagOf(u, j), '>');
    NameChars(TagOf(u, j), '>');
  }

  lemma InPart(u: string, j: nat, s: string, c: char)
    requires j <= |u| && c !in u[..j] && (s == u[..j] || (j > 0 && s == u[..j - 1]))
    ensures c !in s
  {
    forall k | 0 <= k < |s| ensures s[k] != c {
      assert s[k] == u[..j][k];
    }
  }

  lemma ShortIs(u: string, n: string)
    requires GoodTag(u)
    ensures var r := TagBehind(u);
            (r.Empty? || r.Open?) && (IsShort(u, n) <==> r.Empty? && QName(r.head) == n)
  {
  }

  lemma BehindTag(doc: string, i: nat, u: string, j: nat, rest: string, short: bool, n: string)
    requires Soup(doc) && i < |doc| && doc[i] == '<' && u == doc[i + 1..] && Find(doc, EndMark(n)) < 0
    requires j < |u| && rest == u[j + 1..] && short == ShortTag(n)(u)
    ensures Follows(rest, doc, n) && (short ==> Shorts(rest, n) + 1 <= Shorts(doc, n))
  {
    TagsBehind(doc, i, u, j + 1, rest, GoodTag, ShortTag(n));
    BehindLacks(doc, i, u, j, rest, n);
  }

  lemma BehindLacks(doc: string, i: nat, u: string, j: nat, rest: string, n: string)
    requires i < |doc| && u == doc[i + 1..] && j < |u| && rest == u[j + 1..] && Find(doc, EndMark(n)) < 0
    ensures Find(rest, EndMark(n)) < 0 && |rest| < |doc|
  {
    FromPlace(doc, i, u, j);
    RestLacks(doc, EndMark(n), i + j + 2);
    assert rest == doc[i + j + 2..];
  }

  lemma CountJoin(k: Node, ks: seq<Node>, n: string)
    ensures CountOf([k] + ks, n) == Count(k, n) + CountOf(ks, n)
  {
    assert ([k] + ks)[1..] == ks;
  }

  /** What is read has at most that many elements of that name. */
  predicate Few(r: Option<seq<Node>>, n: string, most: nat)
  {
    r.Some? && CountOf(r.value, n) <= most
  }

  /** Text without the end tag of a name yields no elements of that name but those that are written short. */
  lemma {:induction false} FewNamed(doc: string, hasChild: bool, n: string)
    requires Soup(doc) && IsMark(n) && Find(doc, EndMark(n)) < 0
    ensures Few(ParseKids(doc, hasChild), n, Shorts(doc, n))
    decreases |doc|, 0
  {
    if doc != "" {
      if Find(doc, "<") < 0 {
        SoupTag(doc);
        CountJoin(Text(doc), [], n);
        assert [Text(doc)] + [] == [Text(doc)];
      } else {
        var tag := NextInSoup(doc, n);
        if tag.Empty? {
          FewNamed(tag.rest, true, n);
          CountJoin(tag.head, ParseKids(tag.rest, true).value, n);
        } else {
          FewElement(doc, tag.head, tag.rest, hasChild, n);
        }
      }
    }
  }

  /** The content and the rest of an element are such text again, without that end tag. */
  lemma PartsInSoup(front: string, tag: string, n: string) returns (content: string, rest: string)
    requires Soup(front) && Find(front, EndMark(n)) < 0 && Find(front, EndMark(tag)) >= 0 && '>' !in tag
    ensures ReadEnd(front, tag) == Ends(content, rest) && |content| < |front| && |rest| < |front|
    ensures Soup(content) && Find(content, EndMark(n)) < 0
    ensures Soup(rest) && Find(rest, EndMark(n)) < 0
    ensures Shorts(content, n) + Shorts(rest, n) <= Shorts(front, n)
  {
    var r := EndInSoup(front, tag);
    var e := Find(front, EndMark(tag));
    content, rest := front[..e], front[r..];
    TagsLocal(n);
    TagsParts(front, e, r, GoodTag, ShortTag(n));
    ContentLacks(front, e, n);
    RestLacks(front, EndMark(n), r);
  }

  lemma ContentLacks(front: string, e: nat, n: string)
    requires Find(front, EndMark(n)) < 0 && e <= |front|
    ensures Find(front[..e], EndMark(n)) < 0
  {
    assert front[0..e] == front[..e];
    FindInPart(front, EndMark(n), 0, e);
  }

  lemma RestLacks(s: string, mark: string, i: nat)
    requires mark != "" && Find(s, mark) < 0 && i <= |s|
    ensures Find(s[i..], mark) < 0
  {
    Suffix(s, 0, i);
    FindInPart(s, mark, i, |s|);
  }

  lemma {:induction false} FewElement(doc: string, head: Head, front: string, hasChild: bool, n: string)
    requires doc != "" && ReadTag(doc) == Open(head, front) && '>' !in QName(head) && IsMark(n) && Follows(front, doc, n)
    ensures Few(ParseKids(doc, hasChild), n, Shorts(doc, n))
    decreases |front|, 1
  {
    var q := QName(head);
    if Find(front, EndMark(q)) < 0 {
      var r := EndInSoup(front, q);
      FewNamed(front, hasChild, n);
      FewSkipped(doc, head, front, hasChild);
    } else {
      var content, rest := PartsInSoup(front, q, n);
      assert q != n;
      FewNamed(content, false, n);
      FewNamed(rest, true, n);
      FewParts(doc, head, front, hasChild, content, rest, n);
    }
  }

  lemma FewParts(doc: string, head: Head, front: string, hasChild: bool, content: string, rest: string, n: string)
    requires doc != "" && ReadTag(doc) == Open(head, front) && ReadEnd(front, QName(head)) == Ends(content, rest)
    requires QName(head) != n && ParseKids(content, false).Some? && ParseKids(rest, true).Some?
    ensures ParseKids(doc, hasChild).Some?
    ensures CountOf(ParseKids(doc, hasChild).value, n)
            == CountOf(ParseKids(content, false).value, n) + CountOf(ParseKids(rest, true).value, n)
  {
    var kids, after := ParseKids(content, false).value, ParseKids(rest, true).value;
    CountJoin(head.(kids := kids), after, n);
    assert QName(head.(kids := kids)) == QName(head);
  }

  lemma FewSkipped(doc: string, head: Head, front: string, hasChild: bool)
    requires doc != "" && ReadTag(doc) == Open(head, front) && ReadEnd(front, QName(head)) == NoEnd
    ensures ParseKids(doc, hasChild) == ParseKids(front, hasChild)
  {
  }
}
