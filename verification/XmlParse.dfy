/** Reading XML: the search for tags, and the trees built from them. Documents are C strings. The result is None where
    the source would follow a null pointer, as for a tag without a name. */
module XmlParse {
  import opened XmlTree
  import opened Wrappers

  // ---------------------------------------------------------------------------------
  // Substring search
  // ---------------------------------------------------------------------------------

  /** Where t first occurs in s; -1 stands for the null pointer. */
  function Find(s: string, t: string): (r: int)
    ensures r == -1 || 0 <= r <= r + |t| <= |s|
  {
    if t <= s then 0
    else if s == "" then -1
    else Shift(1, Find(s[1..], t))
  }

  /** A position, n characters on. */
  function Shift(n: nat, r: int): int
  {
    if r < 0 then -1 else n + r
  }

  /** What is found is there, */
  lemma {:induction false} FindThere(s: string, t: string)
    requires Find(s, t) >= 0
    ensures var i := Find(s, t);
            s[i..i + |t|] == t
  {
    if !(t <= s) {
      FindThere(s[1..], t);
      SliceTail(s, Find(s[1..], t), |t|);
    }
  }

  lemma SliceTail(s: string, i: nat, n: nat)
    requires 1 + i + n <= |s|
    ensures s[1..][i..i + n] == s[1 + i..1 + i + n]
  {
  }

  lemma PrefixIs(s: string, t: string)
    requires |t| <= |s| && s[..|t|] == t
    ensures t <= s
  {
    forall k | 0 <= k < |t| ensures t[k] == s[k] {
      assert s[..|t|][k] == s[k];
    }
  }

  /** and no occurrence comes before it. */
  lemma {:induction false} FindFirst(s: string, t: string, i: nat)
    requires i + |t| <= |s| && s[i..i + |t|] == t
    ensures 0 <= Find(s, t) <= i
    decreases i
  {
    if i == 0 {
      assert s[0..|t|] == s[..|t|];
      PrefixIs(s, t);
    } else if !(t <= s) {
      SliceTail(s, i - 1, |t|);
      FindFirst(s[1..], t, i - 1);
    }
  }

  function CharAt(s: string, i: nat): char
  {
    if i < |s| then s[i] else '\0'
  }

  lemma PrefixAt(s: string, t: string, b: nat)
    requires b < |t|
    ensures t <= s ==> b < |s| && s[b] == t[b]
  {
    assert t <= s ==> s[..|t|][b] == s[b];
  }

  /** Compares up to a difference or the end of str2. */
  method StartsWith(str1: string, p: nat, str2: string) returns (same: bool)
    requires p <= |str1| && '\0' !in str1 && '\0' !in str2
    ensures same <==> str2 <= str1[p..]
  {
    var b := 0;
    while true
      invariant b <= |str2| && p + b <= |str1| && str2[..b] == str1[p..p + b]
      decreases |str2| - b
    {
      if CharAt(str2, b) == '\0' {
        assert b == |str2| && str1[p..][..b] == str1[p..p + b];
        return true;
      }
      if CharAt(str1, p + b) != CharAt(str2, b) {
        PrefixAt(str1[p..], str2, b);
        return false;
      }
      assert str2[..b + 1] == str2[..b] + [str2[b]] && str1[p..p + b + 1] == str1[p..p + b] + [str1[p + b]];
      b := b + 1;
    }
  }

  lemma FindNext(s: string, t: string, p: nat)
    requires p < |s| && t != ""
    ensures Find(s[p..], t) == if t <= s[p..] then 0 else Shift(1, Find(s[p + 1..], t))
  {
    assert s[p..][1..] == s[p + 1..];
  }

  /** xml_strstr: scans for the first character, then compares the rest. */
  method StrStr(str1: string, str2: string) returns (r: int)
    requires '\0' !in str1 && '\0' !in str2
    ensures r == Find(str1, str2)
  {
    if str2 == "" {
      return 0;
    }
    var p := 0;
    assert str1[0..] == str1;
    while p < |str1|
      invariant p <= |str1| && Find(str1, str2) == Shift(p, Find(str1[p..], str2))
    {
      FindNext(str1, str2, p);
      PrefixAt(str1[p..], str2, 0);
      if str1[p] == str2[0] {
        var same := StartsWith(str1, p, str2);
        if same {
          return p;
        }
      }
      p := p + 1;
    }
    return -1;
  }

  // ---------------------------------------------------------------------------------
  // Tags
  // ---------------------------------------------------------------------------------

  /** An element as its tag shows it. */
  type Head = t: Node | t.Element? && t.kids == [] witness Element(None, "", None, [])

  /** The name in the end tag. */
  function QName(t: Node): string
    requires t.Element?
  {
    TagName(t.prefix, t.name)
  }

  function StripFront(s: string): string
  {
    if s != "" && s[0] == ' ' then StripFront(s[1..]) else s
  }

  function StripRear(s: string): string
  {
    if s != "" && s[|s| - 1] == ' ' then StripRear(s[..|s| - 1]) else s
  }

  /** str_strip: without the blanks at both ends; "" stands for the null pointer. */
  function Strip(s: string): string
  {
    StripRear(StripFront(s))
  }

  function NamespaceMark(prefix: Option<string>): string
  {
    match prefix
    case Some(p) => " xmlns:" + p
    case None => " xmlns"
  }

  function Quote(u: string, eq: nat): string
  {
    if CharAt(u, eq + 1) == '\'' then "'" else "\""
  }

  /** The namespace in the tag, if it has one, has a '=' and stands between two quotes. */
  predicate NamespaceRead(tag: string, prefix: Option<string>)
  {
    var i := Find(tag, NamespaceMark(prefix));
    i < 0 || Quoted(tag[i..])
  }

  predicate Quoted(u: string)
  {
    var eq := Find(u, "=");
    eq >= 0 && var a := Find(u, Quote(u, eq)); a >= 0 && Find(u[a + 1..], Quote(u, eq)) >= 0
  }

  /** The name up to the first blank, and the attributes behind it. */
  function ParseRest(tag: string, prefix: Option<string>, rest: string): Option<Head>
  {
    var blank := Find(rest, " ");
    var name := Strip(if blank < 0 then rest else rest[..blank]);
    var attr := if blank < 0 then "" else Strip(rest[blank..]);
    if name == "" || !NamespaceRead(tag, prefix) then None
    else Some(Element(prefix, name, if attr == "" then None else Some(attr), []))
  }

  /** _parse_tag: a prefix is what stands in front of a colon that comes before the first blank. */
  function ParseTag(tag: string): Option<Head>
  {
    var colon, blank := Find(tag, ":"), Find(tag, " ");
    if colon >= 0 && (blank < 0 || colon < blank) then
      var prefix := Strip(tag[..colon]);
      if prefix == "" then None else ParseRest(tag, Some(prefix), tag[colon + 1..])
    else ParseRest(tag, None, tag)
  }

  /** What is at the next '<' that has a '>' behind it. */
  datatype Tag =
    | NoTag
    | BadTag
    | Empty(head: Head, rest: string)
    | Open(head: Head, rest: string)

  /** The tag behind a '<'. */
  function TagBehind(u: string): (r: Tag)
    ensures r.Empty? || r.Open? ==> |r.rest| < |u|
  {
    var j := Find(u, ">");
    if j < 0 then NoTag
    else
      var short := j > 0 && u[j - 1] == '/';
      match ParseTag(if short then u[..j - 1] else u[..j])
      case None => BadTag
      case Some(head) => if short then Empty(head, u[j + 1..]) else Open(head, u[j + 1..])
  }

  function ReadTag(doc: string): (r: Tag)
    ensures r.Empty? || r.Open? ==> |r.rest| < |doc|
  {
    var i := Find(doc, "<");
    if i < 0 then NoTag else TagBehind(doc[i + 1..])
  }

  datatype End =
    | NoEnd
    | BadEnd
    | Ends(content: string, rest: string)

  /** The content before the first end tag for the name, and the text after that tag. */
  function ReadEnd(doc: string, name: string): (r: End)
    ensures r.Ends? ==> |r.content| <= |doc| && |r.rest| < |doc|
  {
    var e1 := Find(doc, EndMark(name));
    var e := if e1 >= 0 then e1 else Find(doc, "</" + name + " ");
    if e < 0 then NoEnd
    else
      var k := Find(doc[e..], ">");
      if k < 0 then BadEnd else Ends(doc[..e], doc[e + k + 1..])
  }

  lemma EndIs(doc: string, name: string, e: int, v: string, k: int, content: string, rest: string)
    requires e == Find(doc, EndMark(name)) >= 0 && v == doc[e..] && k == Find(v, ">") >= 0
    requires content == doc[..e] && rest == doc[e + k + 1..]
    ensures ReadEnd(doc, name) == Ends(content, rest)
  {
  }

  function EndMark(name: string): string
  {
    "</" + name + ">"
  }

  // ---------------------------------------------------------------------------------
  // Documents
  // ---------------------------------------------------------------------------------

  function Prepend(ks: seq<Node>, r: Option<seq<Node>>): Option<seq<Node>>
  {
    match r
    case None => None
    case Some(ls) => Some(ks + ls)
  }

  /** The children added to an element for a piece of its content; hasChild tells whether it had one before. */
  function ParseKids(doc: string, hasChild: bool): Option<seq<Node>>
    decreases |doc|
  {
    if doc == "" then Some([])
    else
      match ReadTag(doc)
      case NoTag => Some(if hasChild then [] else [Text(doc)])
      case BadTag => None
      case Empty(head, rest) => Prepend([head], ParseKids(rest, true))
      case Open(head, front) =>
        match ReadEnd(front, QName(head))
        case NoEnd => ParseKids(front, hasChild)
        case BadEnd => None
        case Ends(content, rest) =>
          match ParseKids(content, false)
          case None => None
          case Some(kids) => Prepend([head.(kids := kids)], ParseKids(rest, true))
  }

  /** The first element of a document with all its content; what follows it is not read. The outer None is as
      above, the inner one is the null pointer. */
  function ParseRoot(doc: string): Option<Option<Node>>
    decreases |doc|
  {
    if doc == "" then Some(None)
    else
      match ReadTag(doc)
      case NoTag => Some(None)
      case BadTag => None
      case Empty(head, rest) => Some(Some(head))
      case Open(head, front) =>
        match ReadEnd(front, QName(head))
        case NoEnd => ParseRoot(front)
        case BadEnd => None
        case Ends(content, rest) =>
          match ParseKids(content, false)
          case None => None
          case Some(kids) => Some(Some(head.(kids := kids)))
  }

  /** The position behind the next '>' from i on. */
  function Close(doc: string, i: nat): (k: int)
    requires i <= |doc|
    ensures k == -1 || i < k <= |doc|
  {
    Shift(i + 1, Find(doc[i..], ">"))
  }

  /** Skips everything up to the '>' of the last tag that starts with the mark. The result is where the rest
      starts, or -1 where the source has no answer: no text at all, or a mark without '>'. When nothing follows
      the last such tag, the source stays at its beginning. */
  function SkipMarks(doc: string, mark: string): (r: int)
    requires mark != ""
    ensures r == -1 || 0 <= r <= |doc|
    decreases |doc|
  {
    if doc == "" then -1
    else
      var i := Find(doc, mark);
      if i < 0 then 0
      else
        var k := Close(doc, i);
        if k < 0 then -1
        else if k == |doc| then i
        else Shift(k, SkipMarks(doc[k..], mark))
  }

  /** xml_parse: the prolog, instructions and comments in front, is dropped. */
  function ParseDocument(doc: string): Option<Option<Node>>
  {
    var procInst, comment := SkipMarks(doc, "<?"), SkipMarks(doc, "<!");
    if procInst < 0 || comment < 0 then None
    else ParseRoot(doc[if procInst > comment then procInst else comment..])
  }
}
