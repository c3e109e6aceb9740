/** The parsing of a document, round by round: what _xml_parse_doc makes of the text that is left. */
module XmlReader {
  import opened XmlTree
  import opened XmlParse
  import opened Wrappers

  /** What is to be built: below a root that is there already, or the root itself. */
  function ParseInto(doc: string, root: Option<Node>): Option<Option<Node>>
    requires root.Some? ==> root.value.Element?
  {
    match root
    case None => ParseRoot(doc)
    case Some(e) =>
      match ParseKids(doc, e.kids != [])
      case None => None
      case Some(ks) => Some(Some(e.(kids := e.kids + ks)))
  }

  /** strchr: the position of a character, -1 for the null pointer. */
  method StrChr(s: string, c: char) returns (r: int)
    requires '\0' !in s && c != '\0'
    ensures r == Find(s, [c])
  {
    r := 0;
    assert s[0..] == s;
    while r < |s| && s[r] != c
      invariant 0 <= r <= |s| && Find(s, [c]) == Shift(r, Find(s[r..], [c]))
    {
      FindNext(s, [c], r);
      PrefixAt(s[r..], [c], 0);
      r := r + 1;
    }
    if r == |s| {
      assert s[r..] == "";
      return -1;
    }
    assert s[r..][..1] == [c];
    PrefixIs(s[r..], [c]);
  }

  lemma {:induction false} FrontStep(s: string, i: nat)
    requires i < |s| && s[i] == ' '
    ensures StripFront(s[i..]) == StripFront(s[i + 1..])
  {
    assert s[i..][1..] == s[i + 1..];
  }

  lemma RearStep(s: string, i: nat, j: nat)
    requires i < j <= |s| && s[j - 1] == ' '
    ensures StripRear(s[i..j]) == StripRear(s[i..j - 1])
  {
    assert s[i..j][..j - i - 1] == s[i..j - 1];
  }

  /** str_strip: from both ends inwards; the null pointer, here "", if there are only blanks. */
  method StrStrip(str: string) returns (strip: string)
    ensures strip == Strip(str) && ('\0' !in str ==> '\0' !in strip)
  {
    var front := 0;
    assert str[0..] == str;
    while front < |str| && str[front] == ' '
      invariant 0 <= front <= |str| && StripFront(str) == StripFront(str[front..])
    {
      FrontStep(str, front);
      front := front + 1;
    }
    if front == |str| {
      return "";
    }
    var rear := |str|;
    assert StripFront(str) == str[front..] == str[front..rear];
    while rear > front && str[rear - 1] == ' '
      invariant front <= rear <= |str| && Strip(str) == StripRear(str[front..rear])
    {
      RearStep(str, front, rear);
      rear := rear - 1;
    }
    strip := str[front..rear];
  }

  /** The search for a namespace and its quotes. */
  method FindNamespace(tag: string, prefix: Option<string>) returns (ok: bool)
    requires '\0' !in tag && (prefix.Some? ==> '\0' !in prefix.value)
    ensures ok == NamespaceRead(tag, prefix)
  {
    var nsTag := if prefix.Some? then " xmlns:" + prefix.value else " xmlns";
    var nsFront := StrStr(tag, nsTag);
    if nsFront < 0 {
      return true;
    }
    ok := FindQuotes(tag[nsFront..]);
  }

  method FindQuotes(ns: string) returns (ok: bool)
    requires '\0' !in ns
    ensures ok == Quoted(ns)
  {
    var eq := StrChr(ns, '=');
    if eq < 0 {
      return false;
    }
    var sep := if CharAt(ns, eq + 1) == '\'' then '\'' else '\"';
    var uriFront := StrChr(ns, sep);
    if uriFront < 0 {
      return false;
    }
    var uriRear := StrChr(ns[uriFront + 1..], sep);
    ok := uriRear >= 0;
  }

  /** The strings of a tag are C strings. */
  predicate CleanHead(head: Head)
  {
    && '\0' !in head.name && (head.prefix.Some? ==> '\0' !in head.prefix.value)
    && (head.attr.Some? ==> '\0' !in head.attr.value)
  }

  /** The name and the attributes. */
  method ReadRest(tag: string, prefix: Option<string>, rest: string) returns (head: Option<Head>)
    requires '\0' !in tag && '\0' !in rest && (prefix.Some? ==> '\0' !in prefix.value)
    ensures head == ParseRest(tag, prefix, rest) && (head.Some? ==> CleanHead(head.value))
  {
    var tagSep := StrChr(rest, ' ');
    var name := StrStrip(if tagSep < 0 then rest else rest[..tagSep]);
    var attr := "";
    if tagSep >= 0 {
      attr := StrStrip(rest[tagSep..]);
    }
    var ok := FindNamespace(tag, prefix);
    head := if name == "" || !ok then None
            else Some(Element(prefix, name, if attr == "" then None else Some(attr), []));
  }

  method ReadPrefixed(tag: string, prefixChar: nat) returns (head: Option<Head>)
    requires '\0' !in tag && prefixChar < |tag|
    ensures var prefix := Strip(tag[..prefixChar]);
            head == if prefix == "" then None else ParseRest(tag, Some(prefix), tag[prefixChar + 1..])
    ensures head.Some? ==> CleanHead(head.value)
  {
    var prefix := StrStrip(tag[..prefixChar]);
    if prefix == "" {
      return None;
    }
    head := ReadRest(tag, Some(prefix), tag[prefixChar + 1..]);
  }

  lemma TagParts(tag: string, colon: int, blank: int)
    requires colon == Find(tag, ":") && blank == Find(tag, " ")
    ensures ParseTag(tag) ==
              if colon >= 0 && (blank < 0 || colon < blank) then
                (var prefix := Strip(tag[..colon]);
                 if prefix == "" then None else ParseRest(tag, Some(prefix), tag[colon + 1..]))
              else ParseRest(tag, None, tag)
  {
  }

  method ReadHead(tag: string) returns (head: Option<Head>)
    requires '\0' !in tag
    ensures head == ParseTag(tag) && (head.Some? ==> CleanHead(head.value))
  {
    var prefixChar := StrChr(tag, ':');
    var tagSep := StrChr(tag, ' ');
    TagParts(tag, prefixChar, tagSep);
    if prefixChar >= 0 && (tagSep < 0 || prefixChar < tagSep) {
      head := ReadPrefixed(tag, prefixChar);
    } else {
      head := ReadRest(tag, None, tag);
    }
  }

  /** The next tag. */
  method NextTag(curPos: string) returns (tag: Tag)
    requires '\0' !in curPos
    ensures tag == ReadTag(curPos)
    ensures tag.Empty? || tag.Open? ==> CleanHead(tag.head) && '\0' !in tag.rest
  {
    var i := StrChr(curPos, '<');
    if i < 0 {
      return NoTag;
    }
    tag := TagAfter(curPos[i + 1..]);
  }

  method TagAfter(tagFront: string) returns (tag: Tag)
    requires '\0' !in tagFront
    ensures tag == TagBehind(tagFront)
    ensures tag.Empty? || tag.Open? ==> CleanHead(tag.head) && '\0' !in tag.rest
  {
    var j := StrChr(tagFront, '>');
    if j < 0 {
      return NoTag;
    }
    var head;
    if j > 0 && tagFront[j - 1] == '/' {
      head := ReadHead(tagFront[..j - 1]);
      tag := if head.None? then BadTag else Empty(head.value, tagFront[j + 1..]);
    } else {
      head := ReadHead(tagFront[..j]);
      tag := if head.None? then BadTag else Open(head.value, tagFront[j + 1..]);
    }
  }

  /** The first end tag for a name. */
  method NextEnd(docFront: string, name: string) returns (end: End)
    requires '\0' !in docFront && '\0' !in name
    ensures end == ReadEnd(docFront, name)
    ensures end.Ends? ==> '\0' !in end.content && '\0' !in end.rest
  {
    var endTag1, endTag2 := "</" + name + ">", "</" + name + " ";
    var e := StrStr(docFront, endTag1);
    if e < 0 {
      e := StrStr(docFront, endTag2);
    }
    if e < 0 {
      return NoEnd;
    }
    var k := StrChr(docFront[e..], '>');
    end := if k < 0 then BadEnd else Ends(docFront[..e], docFront[e + k + 1..]);
  }

  /** One round of the loop on the text that is left. */
  lemma ParseStep(doc: string, root: Option<Node>)
    requires doc != "" && (root.Some? ==> root.value.Element?)
    ensures match ReadTag(doc)
            case NoTag =>
              ParseInto(doc, root) ==
                Some(if root.Some? && root.value.kids == [] then Some(root.value.(kids := [Text(doc)])) else root)
            case BadTag => ParseInto(doc, root) == None
            case Empty(head, rest) =>
              ParseInto(doc, root) ==
                (if root.None? then Some(Some(head)) else ParseInto(rest, Some(AddChild(root.value, head))))
            case Open(head, front) =>
              match ReadEnd(front, QName(head))
              case NoEnd => ParseInto(doc, root) == ParseInto(front, root)
              case BadEnd => ParseInto(doc, root) == None
              case Ends(content, rest) =>
                match ParseInto(content, Some(head))
                case None => ParseInto(doc, root) == None
                case Some(e) =>
                  && e.Some?
                  && ParseInto(doc, root) ==
                     (if root.None? then Some(e) else ParseInto(rest, Some(AddChild(root.value, e.value))))
  {
    match ReadTag(doc)
    case NoTag => NoTagStep(doc, root);
    case BadTag =>
    case Empty(head, rest) =>
      if root.Some? {
        AddThenMore(root.value, head, rest);
      }
    case Open(head, front) =>
      match ReadEnd(front, QName(head)) {
        case NoEnd =>
        case BadEnd =>
        case Ends(content, rest) => ElementStep(doc, root, head, front, content, rest);
      }
  }

  lemma NoTagStep(doc: string, root: Option<Node>)
    requires doc != "" && (root.Some? ==> root.value.Element?) && ReadTag(doc).NoTag?
    ensures ParseInto(doc, root) ==
              Some(if root.Some? && root.value.kids == [] then Some(root.value.(kids := [Text(doc)])) else root)
  {
    if root.Some? {
      assert root.value.kids + [] == root.value.kids;
      assert root.value.kids == [] ==> root.value.kids + [Text(doc)] == [Text(doc)];
    }
  }

  /** An element with content. */
  lemma ElementStep(doc: string, root: Option<Node>, head: Head, front: string, content: string, rest: string)
    requires doc != "" && (root.Some? ==> root.value.Element?)
    requires ReadTag(doc) == Open(head, front) && ReadEnd(front, QName(head)) == Ends(content, rest)
    ensures match ParseInto(content, Some(head))
            case None => ParseInto(doc, root) == None
            case Some(e) =>
              && e.Some?
              && ParseInto(doc, root) ==
                 (if root.None? then Some(e) else ParseInto(rest, Some(AddChild(root.value, e.value))))
  {
    if ParseKids(content, false).Some? {
      var kids := ParseKids(content, false).value;
      assert head.kids + kids == kids;
      if root.Some? {
        AddThenMore(root.value, head.(kids := kids), rest);
      }
    }
  }

  /** xml_add_child on an element. */
  function AddChild(t: Node, k: Node): (r: Node)
    requires t.Element?
    ensures r.Element? && r.kids != []
  {
    t.(kids := t.kids + [k])
  }

  lemma AddThenMore(t: Node, k: Node, rest: string)
    requires t.Element?
    ensures ParseInto(rest, Some(AddChild(t, k))) ==
            match Prepend([k], ParseKids(rest, true)) case None => None case Some(ks) => Some(Some(t.(kids := t.kids + ks)))
  {
    if ParseKids(rest, true).Some? {
      var ls := ParseKids(rest, true).value;
      assert (t.kids + [k]) + ls == t.kids + ([k] + ls);
    }
  }

  lemma NothingLeft(doc: string, root: Option<Node>)
    requires doc == "" && (root.Some? ==> root.value.Element?)
    ensures ParseInto(doc, root) == Some(root)
  {
    if root.Some? {
      assert root.value.kids + [] == root.value.kids;
    }
  }
}
