/** XML trees and the text they are dumped to. */
module XmlTree {
  import opened Wrappers

  /** An element with the children its child list holds, or a text node. */
  datatype Node =
    | Text(text: string)
    | Element(prefix: Option<string>, name: string, attr: Option<string>, kids: seq<Node>)

  /** The tag's name part: the name, with its prefix if it has one. */
  function TagName(prefix: Option<string>, name: string): string
  {
    match prefix
    case Some(p) => p + ":" + name
    case None => name
  }

  function StartTag(t: Node): string
    requires t.Element?
  {
    "<" + TagName(t.prefix, t.name) + (if t.attr.Some? then " " + t.attr.value else "") + ">"
  }

  function EndTag(t: Node): string
    requires t.Element?
  {
    "</" + TagName(t.prefix, t.name) + ">"
  }

  function Blanks(n: nat): (b: string)
    ensures |b| == n && forall i :: 0 <= i < n ==> b[i] == ' '
  {
    seq(n, _ => ' ')
  }

  /** A new line with n times the spacing. */
  function Indent(n: nat, space: nat): string
  {
    "\n" + Repeat(n, space)
  }

  function AtLeast0(n: int): nat
  {
    if n < 0 then 0 else n
  }

  function Repeat(n: nat, space: nat): string
  {
    if n == 0 then "" else Repeat(n - 1, space) + Blanks(space)
  }

  lemma {:induction false} IndentSize(n: nat, space: nat)
    ensures |Indent(n, space)| == 1 + n * space
  {
    if n > 0 {
      IndentSize(n - 1, space);
      assert n * space == (n - 1) * space + space;
    }
  }

  /** Level 0 is unformatted; otherwise the level counts the depth, from 1 on as a rule. Levels below 0 count up to
      unformatted. */
  function NextLevel(level: int): (next: int)
    ensures level >= 0 ==> next >= 0
  {
    if level == 0 then 0 else level + 1
  }

  function Dump(t: Node, level: int, space: nat): string
  {
    match t
    case Text(text) => text
    case Element(_, _, _, kids) =>
      StartTag(t) + DumpKids(kids, level, space) + Closing(kids, level, space) + EndTag(t)
  }

  function DumpKids(ks: seq<Node>, level: int, space: nat): string
  {
    if ks == [] then ""
    else Opening(ks[0], level, space) + Dump(ks[0], NextLevel(level), space) + DumpKids(ks[1..], level, space)
  }

  /** Formatted, every child element starts a line of its own, */
  function Opening(k: Node, level: int, space: nat): string
  {
    if k.Element? && level != 0 then Indent(AtLeast0(level), space) else ""
  }

  /** and so does the end tag after a last child that is an element. */
  function Closing(ks: seq<Node>, level: int, space: nat): string
  {
    if ks != [] && ks[|ks| - 1].Element? && level != 0 then Indent(AtLeast0(level - 1), space) else ""
  }

  // ---------------------------------------------------------------------------------
  // Size
  // ---------------------------------------------------------------------------------

  /** <name>, <name attr>, <prefix:name> or <prefix:name attr> */
  function StartSize(t: Node): (size: nat)
    requires t.Element?
    ensures size == |StartTag(t)|
  {
    if t.prefix.Some? && t.attr.Some? then |t.prefix.value| + |t.name| + |t.attr.value| + 4
    else if t.prefix.Some? then |t.prefix.value| + |t.name| + 3
    else if t.attr.Some? then |t.name| + |t.attr.value| + 3
    else |t.name| + 2
  }

  /** </name> or </prefix:name> */
  function EndSize(t: Node): (size: nat)
    requires t.Element?
    ensures size == |EndTag(t)|
  {
    if t.prefix.Some? then |t.prefix.value| + |t.name| + 4 else |t.name| + 3
  }

  lemma NextKid(ks: seq<Node>, i: nat, level: int, space: nat)
    requires i < |ks|
    ensures DumpKids(ks[i..], level, space)
            == Opening(ks[i], level, space) + Dump(ks[i], NextLevel(level), space) + DumpKids(ks[i + 1..], level, space)
  {
    assert ks[i..][1..] == ks[i + 1..];
  }

  lemma SizeParts(t: Node, level: int, space: nat)
    requires t.Element?
    ensures |Dump(t, level, space)| == StartSize(t) + |DumpKids(t.kids, level, space)| + |Closing(t.kids, level, space)| + EndSize(t)
  {
  }
}
