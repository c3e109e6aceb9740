/** Writing the text of a tree into a buffer of the size computed beforehand. */
module XmlDump {
  import opened XmlTree
  import opened Wrappers
  import opened Sequences

  /** All strings of the tree are C strings. */
  predicate Clean(t: Node)
  {
    match t
    case Text(text) => '\0' !in text
    case Element(prefix, name, attr, kids) =>
      && '\0' !in name && (prefix.Some? ==> '\0' !in prefix.value) && (attr.Some? ==> '\0' !in attr.value)
      && forall i :: 0 <= i < |kids| ==> Clean(kids[i])
  }

  /** The buffer holds text t and its terminator. */
  predicate Holds(buffer: seq<char>, t: string)
  {
    t + "\0" <= buffer && '\0' !in t
  }

  lemma HoldsAt(buffer: seq<char>, t: string)
    requires Holds(buffer, t)
    ensures |t| < |buffer| && buffer[|t|] == '\0' && forall i :: 0 <= i < |t| ==> buffer[i] == t[i] && buffer[i] != '\0'
  {
    assert (t + "\0")[|t|] == '\0';
    forall i | 0 <= i < |t| ensures buffer[i] == t[i] && buffer[i] != '\0' {
      assert (t + "\0")[i] == t[i] && t[i] in t;
    }
  }

  /** strcat: finds the end of the text and appends there. */
  method StrCat(buf: array<char>, s: string, ghost t: string)
    requires Holds(buf[..], t) && '\0' !in s && |t| + |s| < buf.Length
    modifies buf
    ensures Holds(buf[..], t + s)
  {
    HoldsAt(buf[..], t);
    var at := 0;
    while buf[at] != '\0'
      invariant 0 <= at <= |t|
      decreases |t| - at
    {
      at := at + 1;
    }
    assert at == |t|;
    Append(buf, at, s, t);
  }

  method Append(buf: array<char>, at: nat, s: string, ghost t: string)
    requires at == |t| && '\0' !in s && '\0' !in t && at + |s| < buf.Length && buf[..at] == t
    modifies buf
    ensures Holds(buf[..], t + s)
  {
    for i := 0 to |s|
      invariant buf[..at + i] == t + s[..i]
    {
      buf[at + i] := s[i];
      assert s[..i + 1] == s[..i] + [s[i]];
    }
    assert s[..|s|] == s;
    buf[at + |s|] := '\0';
    assert buf[..at + |s| + 1] == (t + s) + "\0";
  }

  method PutTagName(t: Node, buf: array<char>, ghost done: string)
    requires t.Element? && Clean(t) && Holds(buf[..], done) && |done| + |TagName(t.prefix, t.name)| < buf.Length
    modifies buf
    ensures Holds(buf[..], done + TagName(t.prefix, t.name))
  {
    if t.prefix.Some? {
      StrCat(buf, t.prefix.value, done);
      StrCat(buf, ":", done + t.prefix.value);
      StrCat(buf, t.name, done + t.prefix.value + ":");
      Assoc(done, t.prefix.value, ":");
      Assoc(done, t.prefix.value + ":", t.name);
    } else {
      StrCat(buf, t.name, done);
    }
  }

  method PutStart(t: Node, buf: array<char>, ghost done: string)
    requires t.Element? && Clean(t) && Holds(buf[..], done) && |done| + |StartTag(t)| < buf.Length
    modifies buf
    ensures Holds(buf[..], done + StartTag(t))
  {
    ghost var name, attr := TagName(t.prefix, t.name), if t.attr.Some? then " " + t.attr.value else "";
    StrCat(buf, "<", done);
    PutTagName(t, buf, done + "<");
    if t.attr.Some? {
      StrCat(buf, " ", done + "<" + name);
      StrCat(buf, t.attr.value, done + "<" + name + " ");
      Assoc(done + "<" + name, " ", t.attr.value);
    } else {
      assert (done + "<" + name) + attr == done + "<" + name;
    }
    StrCat(buf, ">", (done + "<" + name) + attr);
    StartParts(done, name, attr);
  }

  lemma StartParts(done: string, name: string, attr: string)
    ensures done + "<" + name + attr + ">" == done + ("<" + name + attr + ">")
  {
    Assoc(done, "<", name);
    Assoc(done, "<" + name, attr);
    Assoc(done, "<" + name + attr, ">");
  }

  method PutEnd(t: Node, buf: array<char>, ghost done: string)
    requires t.Element? && Clean(t) && Holds(buf[..], done) && |done| + |EndTag(t)| < buf.Length
    modifies buf
    ensures Holds(buf[..], done + EndTag(t))
  {
    ghost var name := TagName(t.prefix, t.name);
    StrCat(buf, "</", done);
    PutTagName(t, buf, done + "</");
    StrCat(buf, ">", done + "</" + name);
    Assoc(done, "</", name);
    Assoc(done, "</" + name, ">");
  }

  /** A new line, and the spacing once for each level. */
  method PutIndent(buf: array<char>, n: nat, space: nat, ghost done: string)
    requires Holds(buf[..], done) && |done| + |Indent(n, space)| < buf.Length && space <= 10
    modifies buf
    ensures Holds(buf[..], done + Indent(n, space))
  {
    StrCat(buf, "\n", done);
    var spaceBuf := Blanks(space);
    ghost var text := done + "\n";
    for i := 0 to n
      invariant Holds(buf[..], text) && text == done + Indent(i, space)
    {
      Fewer(i + 1, n, space);
      Assoc("\n", Repeat(i, space), spaceBuf);
      Assoc(done, Indent(i, space), spaceBuf);
      StrCat(buf, spaceBuf, text);
      text := text + spaceBuf;
    }
  }

  lemma {:induction false} Fewer(i: nat, n: nat, space: nat)
    requires i <= n
    ensures |Indent(i, space)| <= |Indent(n, space)|
    decreases n
  {
    if i < n {
      Fewer(i, n - 1, space);
    }
  }

  lemma Nothing(text: string, ks: seq<Node>, level: int, space: nat)
    requires ks == []
    ensures text + DumpKids(ks, level, space) == text
  {
  }

  lemma KidStep(ks: seq<Node>, i: nat, level: int, space: nat, text: string, line: string)
    requires i < |ks| && line == Opening(ks[i], level, space) + Dump(ks[i], NextLevel(level), space)
    ensures text + DumpKids(ks[i..], level, space) == (text + line) + DumpKids(ks[i + 1..], level, space)
    ensures |text| + |line| <= |text + DumpKids(ks[i..], level, space)|
  {
    NextKid(ks, i, level, space);
    Assoc(text, line, DumpKids(ks[i + 1..], level, space));
  }

  method PutClosing(ghost ks: seq<Node>, isElementChild: bool, buf: array<char>, level: int, space: nat, ghost done: string)
    requires Holds(buf[..], done) && space <= 10
    requires isElementChild <==> ks != [] && ks[|ks| - 1].Element?
    requires |done| + |Closing(ks, level, space)| < buf.Length
    modifies buf
    ensures Holds(buf[..], done + Closing(ks, level, space))
  {
    if isElementChild && level != 0 {
      PutIndent(buf, if level > 1 then level - 1 else 0, space, done);
    } else {
      assert done + Closing(ks, level, space) == done;
    }
  }

  // ---------------------------------------------------------------------------------
  // Levels
  // ---------------------------------------------------------------------------------

  /** The spacing once for every line that formatted output starts within the text of a tree. */
  function Spacing(t: Node, space: nat): nat
  {
    match t
    case Text(_) => 0
    case Element(_, _, _, kids) =>
      KidSpacing(kids, space) + if kids != [] && kids[|kids| - 1].Element? then space else 0
  }

  function KidSpacing(ks: seq<Node>, space: nat): nat
  {
    if ks == [] then 0 else (if ks[0].Element? then space else 0) + Spacing(ks[0], space) + KidSpacing(ks[1..], space)
  }

  /** One level more is one spacing more on every line. */
  lemma {:induction false} LevelUp(t: Node, level: nat, space: nat)
    requires level > 0
    ensures |Dump(t, level + 1, space)| == |Dump(t, level, space)| + Spacing(t, space)
    decreases t
  {
    if t.Element? {
      LevelUpKids(t.kids, level, space);
    }
  }

  lemma {:induction false} LevelUpKids(ks: seq<Node>, level: nat, space: nat)
    requires level > 0
    ensures |DumpKids(ks, level + 1, space)| == |DumpKids(ks, level, space)| + KidSpacing(ks, space)
    decreases ks
  {
    if ks != [] {
      LevelUp(ks[0], level + 1, space);
      LevelUpKids(ks[1..], level, space);
    }
  }

  lemma {:induction false} LevelsUp(t: Node, level: nat, space: nat)
    requires level > 0
    ensures |Dump(t, level, space)| == |Dump(t, 1, space)| + (level - 1) * Spacing(t, space)
    decreases level
  {
    if level > 1 {
      LevelsUp(t, level - 1, space);
      LevelUp(t, level - 1, space);
      OneMore(level - 1, Spacing(t, space));
    }
  }

  lemma OneMore(n: nat, a: nat)
    requires n > 0
    ensures n * a == (n - 1) * a + a
  {
  }

  /** Text from a level below 1 is no longer than formatted text. */
  lemma {:induction false} LowLevels(t: Node, low: int, level: nat, space: nat)
    requires low <= 0 < level
    ensures |Dump(t, low, space)| <= |Dump(t, level, space)|
    decreases t
  {
    if t.Element? {
      SizeParts(t, low, space);
      SizeParts(t, level, space);
      LowKids(t.kids, low, level, space);
    }
  }

  lemma {:induction false} LowKids(ks: seq<Node>, low: int, level: nat, space: nat)
    requires low <= 0 < level
    ensures |DumpKids(ks, low, space)| <= |DumpKids(ks, level, space)|
    decreases ks
  {
    if ks != [] {
      LowLevels(ks[0], NextLevel(low), level + 1, space);
      LowKids(ks[1..], low, level, space);
    }
  }

  predicate HasElementChild(t: Node)
  {
    t.Element? && HasElement(t.kids)
  }

  predicate HasElement(ks: seq<Node>)
  {
    ks != [] && (ks[0].Element? || HasElement(ks[1..]))
  }

  lemma {:induction false} LastElement(ks: seq<Node>)
    requires ks != [] && ks[|ks| - 1].Element?
    ensures HasElement(ks)
  {
    if |ks| > 1 {
      LastElement(ks[1..]);
    }
  }

  lemma {:induction false} KidSpacingExact(ks: seq<Node>, space: nat)
    ensures KidSpacing(ks, space) > 0 <==> space > 0 && HasElement(ks)
    decreases ks
  {
    if ks != [] {
      KidSpacingExact(ks[1..], space);
      if ks[0].Element? {
        KidSpacingExact(ks[0].kids, space);
      }
    }
  }

  lemma SpacingExact(t: Node, space: nat)
    ensures Spacing(t, space) > 0 <==> space > 0 && HasElementChild(t)
  {
    if t.Element? {
      KidSpacingExact(t.kids, space);
      if t.kids != [] && t.kids[|t.kids| - 1].Element? {
        LastElement(t.kids);
      }
    }
  }

  lemma Growth(least: nat, size: nat, a: nat, b: nat)
    requires size == least + a * b
    ensures size <= least <==> a == 0 || b == 0
  {
    if a > 0 && b > 0 {
      OneMore(a, b);
      assert (a - 1) * b >= 0;
    }
  }

  /** Text dumped from some first level on fits into the room computed for level 1 exactly when that level is at
      most 1, or there is no spacing, or no element inside the root. */
  lemma RoomExact(t: Node, level: int, space: nat)
    ensures |Dump(t, level, space)| <= |Dump(t, 1, space)| <==> level <= 1 || space == 0 || !HasElementChild(t)
  {
    if level <= 0 {
      LowLevels(t, level, 1, space);
    } else {
      LevelsUp(t, level, space);
      SpacingExact(t, space);
      Growth(|Dump(t, 1, space)|, |Dump(t, level, space)|, level - 1, Spacing(t, space));
    }
  }
}
