/** Printing an item in memory: the children are followed from pointer to pointer, and every text is put
    together in a buffer whose size was added up before. The texts a call hands back are values; the
    temporary arrays of the source are arrays. */
module JsonPrinter {
  import J = Json
  import JsonStrings
  import opened JsonHeap
  import opened JsonItems
  import opened JsonReaders
  import opened JsonDuplicate
  import opened JsonDocs
  import opened Wrappers
  import opened Sequences
  import opened Shapes

  // ---------------------------------------------------------------------------------
  // Writing into a buffer
  // ---------------------------------------------------------------------------------

  /** strcpy to a position: the text and its terminator. */
  method StrCpy(out: array<char>, at: nat, s: string) returns (ptr: nat)
    requires at + |s| < out.Length
    modifies out
    ensures ptr == at + |s| && out[..ptr] == old(out[..at]) + s
  {
    for i := 0 to |s|
      invariant out[..at + i] == old(out[..at]) + s[..i]
    {
      out[at + i] := s[i];
      assert s[..i + 1] == s[..i] + [s[i]];
    }
    assert s[..|s|] == s;
    ptr := at + |s|;
    out[ptr] := '\0';
  }

  method Put(out: array<char>, at: nat, c: char) returns (ptr: nat)
    requires at < out.Length
    modifies out
    ensures ptr == at + 1 && out[..ptr] == old(out[..at]) + [c]
  {
    out[at] := c;
    ptr := at + 1;
  }

  lemma {:induction false} TabsMore(n: nat)
    ensures J.Tabs(n + 1) == J.Tabs(n) + "\t" && |J.Tabs(n)| == n
    decreases n
  {
    if n == 0 {
      assert J.Tabs(1) == "\t" + J.Tabs(0);
    } else {
      TabsMore(n - 1);
      Assoc("\t", J.Tabs(n - 1), "\t");
    }
  }

  method PutTabs(out: array<char>, at: nat, n: nat) returns (ptr: nat)
    requires at + n <= out.Length
    modifies out
    ensures ptr == at + n && out[..ptr] == old(out[..at]) + J.Tabs(n)
  {
    ptr := at;
    for i := 0 to n
      invariant ptr == at + i && out[..ptr] == old(out[..at]) + J.Tabs(i)
    {
      TabsMore(i);
      Assoc(old(out[..at]), J.Tabs(i), "\t");
      ptr := Put(out, ptr, '\t');
    }
  }

  // ---------------------------------------------------------------------------------
  // Arrays
  // ---------------------------------------------------------------------------------

  function Separator(last: bool, fmt: bool): string
  {
    if last then "" else if fmt then ", " else ","
  }

  /** The entries of an array, joined. */
  function JoinItems(es: seq<string>, fmt: bool): string
  {
    if es == [] then "" else es[0] + Separator(|es| == 1, fmt) + JoinItems(es[1..], fmt)
  }

  /** The room the source adds up: for every entry its length and some more. */
  function Need(es: seq<string>, extra: nat): nat
  {
    if es == [] then 0 else |es[0]| + extra + Need(es[1..], extra)
  }

  lemma {:induction false} NeedMore(es: seq<string>, e: string, extra: nat)
    ensures Need(es + [e], extra) == Need(es, extra) + |e| + extra
  {
    if es == [] {
      assert ([] + [e])[1..] == [];
    } else {
      assert (es + [e])[1..] == es[1..] + [e];
      NeedMore(es[1..], e, extra);
    }
  }

  lemma JoinFrom(es: seq<string>, i: nat, fmt: bool)
    requires i < |es|
    ensures JoinItems(es[i..], fmt) == es[i] + Separator(i == |es| - 1, fmt) + JoinItems(es[i + 1..], fmt)
    ensures Need(es[i..], 2 + if fmt then 1 else 0) == |es[i]| + 2 + (if fmt then 1 else 0) + Need(es[i + 1..], 2 + if fmt then 1 else 0)
  {
    assert es[i..][1..] == es[i + 1..];
  }

  /** One entry and, unless it is the last, a comma. */
  method PutItem(out: array<char>, at: nat, entry: string, last: bool, fmt: bool) returns (ptr: nat)
    requires at + |entry| + 3 + (if fmt then 1 else 0) <= out.Length
    modifies out
    ensures ptr == at + |entry + Separator(last, fmt)| && out[..ptr] == old(out[..at]) + (entry + Separator(last, fmt))
  {
    ptr := StrCpy(out, at, entry);
    if !last {
      ptr := Put(out, ptr, ',');
      if fmt {
        ptr := Put(out, ptr, ' ');
      }
      out[ptr] := '\0';
    }
  }

  /** Composes the output array in a buffer of the length added up. */
  method ComposeArray(entries: array<string>, len: nat, fmt: bool) returns (text: string)
    requires entries.Length > 0 && len == 5 + Need(entries[..], 2 + if fmt then 1 else 0)
    ensures text == "[" + JoinItems(entries[..], fmt) + "]"
  {
    var out := new char[len];
    out[0], out[1] := '[', '\0';
    assert out[..1] == "[";
    var ptr := PutItems(out, 1, entries, fmt);
    out[ptr] := ']';
    out[ptr + 1] := '\0';
    text := out[..ptr + 1];
  }

  /** All entries, one after the other. */
  method PutItems(out: array<char>, at: nat, entries: array<string>, fmt: bool) returns (ptr: nat)
    requires 1 <= at && at + Need(entries[..], 2 + if fmt then 1 else 0) + 4 <= out.Length
    modifies out
    ensures at <= ptr && ptr + 4 <= out.Length && out[..ptr] == old(out[..at]) + JoinItems(entries[..], fmt)
  {
    ghost var es, extra := entries[..], 2 + if fmt then 1 else 0;
    ghost var goal := out[..at] + JoinItems(es, fmt);
    ptr := at;
    assert es[0..] == es;
    for i := 0 to entries.Length
      invariant at <= ptr && ptr + Need(es[i..], extra) + 4 <= out.Length
      invariant out[..ptr] + JoinItems(es[i..], fmt) == goal
    {
      JoinFrom(es, i, fmt);
      Assoc(out[..ptr], es[i] + Separator(i == |es| - 1, fmt), JoinItems(es[i + 1..], fmt));
      ptr := PutItem(out, ptr, entries[i], i == entries.Length - 1, fmt);
    }
    assert out[..ptr] + JoinItems(es[|es|..], fmt) == out[..ptr];
  }

  /** The printed children of an array. */
  ghost predicate PrintedItems(es: seq<string>, c: J.Chain, depth: nat, fmt: bool)
    requires J.PlainItems(c)
  {
    |es| == Size(c)
    && forall i :: 0 <= i < |es| ==> PrintedAt(es[i], c, i, depth, fmt)
  }

  ghost predicate PrintedAt(e: string, c: J.Chain, i: nat, depth: nat, fmt: bool)
    requires i < Size(c) && (J.PlainItems(c) || J.PlainMembers(c))
  {
    PlainAt(c, i);
    e == J.PrintValue(Drop(c, i).item, depth, fmt)
  }

  lemma {:induction false} JoinPrints(es: seq<string>, c: J.Chain, depth: nat, fmt: bool)
    requires J.PlainItems(c) && PrintedItems(es, c, depth, fmt)
    ensures JoinItems(es, fmt) == J.PrintItems(c, depth, fmt)
    decreases es
  {
    if es != [] {
      assert PrintedAt(es[0], c, 0, depth, fmt);
      forall i | 0 <= i < |es[1..]| ensures PrintedAt(es[1..][i], c.next, i, depth, fmt) {
        assert PrintedAt(es[i + 1], c, i + 1, depth, fmt);
      }
      JoinPrints(es[1..], c.next, depth, fmt);
    }
  }

  // ---------------------------------------------------------------------------------
  // Objects
  // ---------------------------------------------------------------------------------

  /** The line of one member. */
  function MemberText(name: string, entry: string, last: bool, depth: nat, fmt: bool): string
  {
    (if fmt then J.Tabs(depth) else "") + name + (if fmt then ":\t" else ":") + entry
    + (if last then "" else ",") + (if fmt then "\n" else "")
  }

  function JoinMembers(ns: seq<string>, es: seq<string>, depth: nat, fmt: bool): string
    requires |ns| == |es|
  {
    if ns == [] then "" else MemberText(ns[0], es[0], |ns| == 1, depth, fmt) + JoinMembers(ns[1..], es[1..], depth, fmt)
  }

  function MemberExtra(depth: nat, fmt: bool): nat
  {
    2 + if fmt then 2 + depth else 0
  }

  lemma MembersFrom(ns: seq<string>, es: seq<string>, i: nat, depth: nat, fmt: bool)
    requires |ns| == |es| && i < |ns|
    ensures JoinMembers(ns[i..], es[i..], depth, fmt)
            == MemberText(ns[i], es[i], i == |ns| - 1, depth, fmt) + JoinMembers(ns[i + 1..], es[i + 1..], depth, fmt)
    ensures Need(ns[i..], 0) == |ns[i]| + Need(ns[i + 1..], 0)
    ensures Need(es[i..], MemberExtra(depth, fmt)) == |es[i]| + MemberExtra(depth, fmt) + Need(es[i + 1..], MemberExtra(depth, fmt))
  {
    assert ns[i..][1..] == ns[i + 1..] && es[i..][1..] == es[i + 1..];
  }

  lemma MemberSize(name: string, entry: string, last: bool, depth: nat, fmt: bool)
    ensures |MemberText(name, entry, last, depth, fmt)| + (if last then 1 else 0) == |name| + |entry| + MemberExtra(depth, fmt)
  {
    TabsMore(depth);
  }

  method PutMember(out: array<char>, at: nat, name: string, entry: string, last: bool, depth: nat, fmt: bool) returns (ptr: nat)
    requires at + |name| + |entry| + MemberExtra(depth, fmt) < out.Length
    modifies out
    ensures ptr == at + |MemberText(name, entry, last, depth, fmt)| < out.Length
    ensures out[..ptr] == old(out[..at]) + MemberText(name, entry, last, depth, fmt)
  {
    ghost var before := out[..at];
    ptr := PutName(out, at, name, depth, fmt);
    ghost var head := (if fmt then J.Tabs(depth) else "") + name + (if fmt then ":\t" else ":");
    MemberSize(name, entry, last, depth, fmt);
    TabsMore(depth);
    ptr := StrCpy(out, ptr, entry);
    Assoc(before, head, entry);
    ghost var body, comma, nl := head + entry, if last then "" else ",", if fmt then "\n" else "";
    if !last {
      ptr := Put(out, ptr, ',');
    }
    assert out[..ptr] == (before + body) + comma;
    Assoc(before, body, comma);
    if fmt {
      ptr := Put(out, ptr, '\n');
    }
    assert out[..ptr] == (before + (body + comma)) + nl;
    Assoc(before, body + comma, nl);
    out[ptr] := '\0';
  }

  /** The indentation, the name and the colon. */
  method PutName(out: array<char>, at: nat, name: string, depth: nat, fmt: bool) returns (ptr: nat)
    requires at + |name| + MemberExtra(depth, fmt) < out.Length
    modifies out
    ensures var head := (if fmt then J.Tabs(depth) else "") + name + (if fmt then ":\t" else ":");
            ptr == at + |head| <= out.Length && out[..ptr] == old(out[..at]) + head
  {
    ghost var before := out[..at];
    ptr := at;
    TabsMore(depth);
    if fmt {
      ptr := PutTabs(out, ptr, depth);
    }
    ghost var tabs := if fmt then J.Tabs(depth) else "";
    assert out[..ptr] == before + tabs;
    ptr := StrCpy(out, ptr, name);
    Assoc(before, tabs, name);
    ptr := Put(out, ptr, ':');
    Assoc(before, tabs + name, ":");
    if fmt {
      ptr := Put(out, ptr, '\t');
      Assoc(before, tabs + name + ":", "\t");
      Assoc(tabs + name, ":", "\t");
    }
  }

  /** Composes the output object; depth is that of the members. */
  method ComposeObject(names: array<string>, entries: array<string>, len: nat, depth: nat, fmt: bool) returns (text: string)
    requires names.Length == entries.Length > 0 && depth > 0
    requires len == 7 + (if fmt then depth else 0) + Need(names[..], 0) + Need(entries[..], MemberExtra(depth, fmt))
    ensures text == "{" + (if fmt then "\n" else "") + JoinMembers(names[..], entries[..], depth, fmt)
                    + (if fmt then J.Tabs(depth - 1) else "") + "}"
  {
    ghost var ns, es, extra := names[..], entries[..], MemberExtra(depth, fmt);
    ghost var open := "{" + if fmt then "\n" else "";
    var out := new char[len];
    var ptr: nat := Put(out, 0, '{');
    if fmt {
      ptr := Put(out, ptr, '\n');
    }
    out[ptr] := '\0';
    assert out[..ptr] == open && ns[0..] == ns && es[0..] == es;
    for i := 0 to entries.Length
      invariant ptr + Need(ns[i..], 0) + Need(es[i..], extra) + 5 + (if fmt then depth else 0) <= len
      invariant out[..ptr] + JoinMembers(ns[i..], es[i..], depth, fmt) == open + JoinMembers(ns, es, depth, fmt)
    {
      MembersFrom(ns, es, i, depth, fmt);
      MemberSize(ns[i], es[i], i == |ns| - 1, depth, fmt);
      Assoc(out[..ptr], MemberText(ns[i], es[i], i == |ns| - 1, depth, fmt), JoinMembers(ns[i + 1..], es[i + 1..], depth, fmt));
      ptr := PutMember(out, ptr, names[i], entries[i], i == entries.Length - 1, depth, fmt);
    }
    assert out[..ptr] + JoinMembers(ns[|ns|..], es[|ns|..], depth, fmt) == out[..ptr];
    text := CloseObject(out, ptr, if fmt then depth - 1 else 0);
  }

  /** The indentation and the closing brace. */
  method CloseObject(out: array<char>, at: nat, tabs: nat) returns (text: string)
    requires at + tabs + 2 <= out.Length
    modifies out
    ensures text == old(out[..at]) + J.Tabs(tabs) + "}"
  {
    var ptr := PutTabs(out, at, tabs);
    ptr := Put(out, ptr, '}');
    out[ptr] := '\0';
    text := out[..ptr];
  }

  /** The braces of an object without members, with a new line between them in formatted output. */
  method EmptyObject(depth: nat, fmt: bool) returns (text: string)
    ensures text == J.PrintValue(J.Object(J.End), depth, fmt)
  {
    var out := new char[if fmt then depth + 4 else 3];
    var ptr := Put(out, 0, '{');
    assert out[..ptr] == "{";
    if fmt {
      ptr := Put(out, ptr, '\n');
      assert out[..ptr] == "{\n";
    }
    text := CloseObject(out, ptr, if fmt && depth > 0 then depth - 1 else 0);
    if fmt {
      Assoc("{", "\n", J.Tabs(depth - 1));
      assert "{\n" == "{" + "\n";
    } else {
      assert text == "{" + "" + "}";
    }
  }

  ghost predicate PrintedMembers(ns: seq<string>, es: seq<string>, c: J.Chain, depth: nat, fmt: bool)
    requires J.PlainMembers(c)
  {
    && |ns| == |es| == Size(c)
    && forall i :: 0 <= i < |es| ==> PrintedAt(es[i], c, i, depth, fmt) && NamedAt(ns[i], c, i)
  }

  ghost predicate NamedAt(n: string, c: J.Chain, i: nat)
    requires i < Size(c) && J.PlainMembers(c)
  {
    PlainAt(c, i);
    n == J.PrintString(Drop(c, i).name.value)
  }

  lemma {:induction false} MembersPrint(ns: seq<string>, es: seq<string>, c: J.Chain, depth: nat, fmt: bool)
    requires J.PlainMembers(c) && PrintedMembers(ns, es, c, depth, fmt)
    ensures JoinMembers(ns, es, depth, fmt) == J.PrintMembers(c, depth, fmt)
    decreases es
  {
    if es != [] {
      assert PrintedAt(es[0], c, 0, depth, fmt) && NamedAt(ns[0], c, 0);
      forall i | 0 <= i < |es[1..]|
        ensures PrintedAt(es[1..][i], c.next, i, depth, fmt) && NamedAt(ns[1..][i], c.next, i)
      {
        assert PrintedAt(es[i + 1], c, i + 1, depth, fmt) && NamedAt(ns[i + 1], c, i + 1);
      }
      MembersPrint(ns[1..], es[1..], c.next, depth, fmt);
    }
  }

  // ---------------------------------------------------------------------------------
  // Items in memory
  // ---------------------------------------------------------------------------------

  /** The item of shape t stands for v. */
  ghost predicate Means(m: Mem, t: Shape, name: Option<string>, v: J.Item)
  {
    Readable(m, t) && View(m, t) == DocOf(name, v)
  }

  /** The children of t stand for the chain c. */
  ghost predicate KidsMean(m: Mem, t: Shape, c: J.Chain)
  {
    Readable(m, t) && Views(m, t.kids) == DocsOf(c)
  }

  lemma KidMeans(m: Mem, t: Shape, c: J.Chain, i: nat)
    requires KidsMean(m, t, c) && i < |t.kids|
    ensures |t.kids| == Size(c) && Drop(c, i).Link?
    ensures NextAt(m, t.kids, i) && Means(m, t.kids[i], Drop(c, i).name, Drop(c, i).item)
  {
    KidsSize(m, t, c);
    DropAt(c, i);
    ViewsAt(m, t.kids, i);
    ReadableEnd(m, t, i);
  }

  lemma KidsSize(m: Mem, t: Shape, c: J.Chain)
    requires KidsMean(m, t, c)
    ensures |t.kids| == Size(c)
  {
  }

  /** Keeps text number i. */
  method Store(texts: array<string>, i: nat, s: string, ghost extra: nat)
    requires i < texts.Length
    modifies texts
    ensures texts[i] == s && forall k :: 0 <= k < i ==> texts[k] == old(texts[k])
    ensures Need(texts[..i + 1], extra) == old(Need(texts[..i], extra)) + |s| + extra
  {
    texts[i] := s;
    NeedMore(texts[..i], s, extra);
    assert texts[..i + 1] == texts[..i] + [s];
  }

  method CountChildren(mem: Memory, item: Ptr, ghost t: Shape) returns (n: nat)
    requires Readable(mem.blocks, t) && item == t.p
    ensures n == |t.kids|
  {
    n := 0;
    var child := mem.blocks[item].child;
    ReadableEnd(mem.blocks, t, 0);
    while child != 0
      invariant n <= |t.kids| && child == At(t.kids, n) && (child == 0 <==> n == |t.kids|)
      decreases |t.kids| - n
    {
      ReadableEnd(mem.blocks, t, n);
      n, child := n + 1, mem.blocks[child].next;
      ReadableEnd(mem.blocks, t, n);
    }
  }

  method PrintText(mem: Memory, item: Ptr, depth: nat, fmt: bool, ghost t: Shape, ghost name: Option<string>, ghost v: J.Item)
    returns (text: string)
    requires item == t.p && Means(mem.blocks, t, name, v) && J.Plain(v)
    ensures text == J.PrintValue(v, depth, fmt)
    decreases t, 5
  {
    var cell := mem.blocks[item];
    match cell.tag
    case 0 => text := "false";
    case 1 => text := "true";
    case 2 => text := "null";
    case 3 => text := J.PrintInt(cell.number.Floor);
    case 4 =>
      var out := JsonStrings.PrintStringPtr(mem.blocks[cell.valuestring].chars);
      text := out[..out.Length - 1];
      assert text == J.PrintString(v.valuestring);
    case 5 => text := PrintArray(mem, item, depth, fmt, t, v.child);
    case _ => text := PrintObject(mem, item, depth, fmt, t, v.child);
  }

  method PrintArray(mem: Memory, item: Ptr, depth: nat, fmt: bool, ghost t: Shape, ghost c: J.Chain) returns (text: string)
    requires item == t.p && KidsMean(mem.blocks, t, c) && J.PlainItems(c)
    ensures text == J.PrintValue(J.Array(c), depth, fmt)
    decreases t, 4
  {
    var n := CountChildren(mem, item, t);
    KidsSize(mem.blocks, t, c);
    if n == 0 {
      return "[]";
    }
    var entries, len := CollectItems(mem, item, n, depth, fmt, t, c);
    text := ComposeArray(entries, len, fmt);
    JoinPrints(entries[..], c, depth + 1, fmt);
  }

  /** The first i entries of an array are there. */
  ghost predicate ItemsSoFar(es: seq<string>, i: nat, c: J.Chain, depth: nat, fmt: bool)
  {
    i <= |es| == Size(c) && J.PlainItems(c) && forall k :: 0 <= k < i ==> PrintedAt(es[k], c, k, depth, fmt)
  }

  /** Keeps entry number i of an array. */
  method StoreItem(entries: array<string>, i: nat, s: string, ghost extra: nat, ghost c: J.Chain, ghost depth: nat, ghost fmt: bool)
    requires i < entries.Length && ItemsSoFar(entries[..], i, c, depth, fmt) && PrintedAt(s, c, i, depth, fmt)
    modifies entries
    ensures ItemsSoFar(entries[..], i + 1, c, depth, fmt)
    ensures Need(entries[..i + 1], extra) == old(Need(entries[..i], extra)) + |s| + extra
  {
    ghost var before := entries[..];
    Store(entries, i, s, extra);
    forall k | 0 <= k <= i ensures PrintedAt(entries[..][k], c, k, depth, fmt) {
      assert k < i ==> entries[k] == before[k];
    }
  }

  /** Prints child i and adds up the room it needs. */
  method CollectItem(mem: Memory, child: Ptr, entries: array<string>, i: nat, len: nat, depth: nat, fmt: bool, ghost t: Shape,
                     ghost c: J.Chain)
    returns (sum: nat)
    requires KidsMean(mem.blocks, t, c) && i < |t.kids| == Size(c) && child == t.kids[i].p
    requires i < entries.Length && ItemsSoFar(entries[..], i, c, depth, fmt)
    requires len == 5 + Need(entries[..i], 2 + if fmt then 1 else 0)
    modifies entries
    ensures ItemsSoFar(entries[..], i + 1, c, depth, fmt) && NextAt(mem.blocks, t.kids, i)
    ensures sum == 5 + Need(entries[..i + 1], 2 + if fmt then 1 else 0)
    decreases t, 2
  {
    var ret := PrintItem(mem, child, depth, fmt, t, c, i);
    StoreItem(entries, i, ret, 2 + if fmt then 1 else 0, c, depth, fmt);
    sum := len + |ret| + 2 + if fmt then 1 else 0;
  }

  /** Prints the children, and adds up the room they need. */
  method CollectItems(mem: Memory, item: Ptr, n: nat, depth: nat, fmt: bool, ghost t: Shape, ghost c: J.Chain)
    returns (entries: array<string>, len: nat)
    requires item == t.p && KidsMean(mem.blocks, t, c) && J.PlainItems(c) && n == |t.kids| == Size(c)
    ensures fresh(entries) && entries.Length == n && PrintedItems(entries[..], c, depth + 1, fmt)
    ensures len == 5 + Need(entries[..], 2 + if fmt then 1 else 0)
    decreases t, 3
  {
    ghost var m := mem.blocks;
    entries := new string[n];
    len := 5;
    var child, i := mem.blocks[item].child, 0;
    ReadableEnd(m, t, 0);
    while child != 0
      invariant i <= n && child == At(t.kids, i) && (child == 0 <==> i == n)
      invariant len == 5 + Need(entries[..i], 2 + if fmt then 1 else 0)
      invariant ItemsSoFar(entries[..], i, c, depth + 1, fmt)
      decreases n - i
    {
      len := CollectItem(mem, child, entries, i, len, depth + 1, fmt, t, c);
      child, i := mem.blocks[child].next, i + 1;
      ReadableEnd(m, t, i);
    }
    assert entries[..i] == entries[..];
  }

  method PrintObject(mem: Memory, item: Ptr, depth: nat, fmt: bool, ghost t: Shape, ghost c: J.Chain) returns (text: string)
    requires item == t.p && KidsMean(mem.blocks, t, c) && J.PlainMembers(c)
    ensures text == J.PrintValue(J.Object(c), depth, fmt)
    decreases t, 4
  {
    var n := CountChildren(mem, item, t);
    KidsSize(mem.blocks, t, c);
    if n == 0 {
      text := EmptyObject(depth, fmt);
      return;
    }
    var names, entries, len := CollectMembers(mem, item, n, depth + 1, fmt, t, c);
    text := ComposeObject(names, entries, len, depth + 1, fmt);
    MembersPrint(names[..], entries[..], c, depth + 1, fmt);
  }

  /** Child i of an array. */
  method PrintItem(mem: Memory, child: Ptr, depth: nat, fmt: bool, ghost t: Shape, ghost c: J.Chain, ghost i: nat)
    returns (text: string)
    requires KidsMean(mem.blocks, t, c) && J.PlainItems(c) && i < |t.kids| == Size(c) && child == t.kids[i].p
    ensures PrintedAt(text, c, i, depth, fmt) && NextAt(mem.blocks, t.kids, i)
    decreases t, 1
  {
    KidMeans(mem.blocks, t, c, i);
    PlainAt(c, i);
    text := PrintText(mem, child, depth, fmt, t.kids[i], Drop(c, i).name, Drop(c, i).item);
  }

  /** Name and value of member i of an object. */
  method PrintMember(mem: Memory, child: Ptr, depth: nat, fmt: bool, ghost t: Shape, ghost c: J.Chain, ghost i: nat)
    returns (name: string, text: string)
    requires KidsMean(mem.blocks, t, c) && J.PlainMembers(c) && i < |t.kids| == Size(c) && child == t.kids[i].p
    ensures PrintedAt(text, c, i, depth, fmt) && NamedAt(name, c, i) && NextAt(mem.blocks, t.kids, i)
    decreases t, 1
  {
    KidMeans(mem.blocks, t, c, i);
    PlainAt(c, i);
    name := PrintName(mem, child, t.kids[i], Drop(c, i).name, Drop(c, i).item);
    text := PrintText(mem, child, depth, fmt, t.kids[i], Drop(c, i).name, Drop(c, i).item);
  }

  /** The first i members are printed, and len is the room for them and for the braces. */
  ghost predicate MembersSoFar(ns: seq<string>, es: seq<string>, i: nat, len: nat, c: J.Chain, depth: nat, fmt: bool)
    requires J.PlainMembers(c)
  {
    && i <= |ns| == |es| == Size(c)
    && len == 7 + (if fmt then depth else 0) + Need(ns[..i], 0) + Need(es[..i], MemberExtra(depth, fmt))
    && forall k :: 0 <= k < i ==> PrintedAt(es[k], c, k, depth, fmt) && NamedAt(ns[k], c, k)
  }

  method CollectMember(mem: Memory, child: Ptr, names: array<string>, entries: array<string>, i: nat, len: nat,
                       depth: nat, fmt: bool, ghost t: Shape, ghost c: J.Chain) returns (sum: nat)
    requires KidsMean(mem.blocks, t, c) && J.PlainMembers(c) && i < |t.kids| == Size(c) && child == t.kids[i].p
    requires names != entries && MembersSoFar(names[..], entries[..], i, len, c, depth, fmt)
    modifies names, entries
    ensures MembersSoFar(names[..], entries[..], i + 1, sum, c, depth, fmt) && NextAt(mem.blocks, t.kids, i)
    decreases t, 2
  {
    var str, ret := PrintMember(mem, child, depth, fmt, t, c, i);
    assert names[..][..i] == names[..i] && entries[..][..i] == entries[..i];
    Store(names, i, str, 0);
    Store(entries, i, ret, MemberExtra(depth, fmt));
    sum := len + |ret| + |str| + 2 + if fmt then 2 + depth else 0;
    assert names[..][..i + 1] == names[..i + 1] && entries[..][..i + 1] == entries[..i + 1];
  }

  /** Prints the members' names and values, and adds up the room they need. */
  method CollectMembers(mem: Memory, item: Ptr, n: nat, depth: nat, fmt: bool, ghost t: Shape, ghost c: J.Chain)
    returns (names: array<string>, entries: array<string>, len: nat)
    requires item == t.p && KidsMean(mem.blocks, t, c) && J.PlainMembers(c) && n == |t.kids| == Size(c)
    ensures fresh(names) && fresh(entries) && names.Length == entries.Length == n
    ensures PrintedMembers(names[..], entries[..], c, depth, fmt)
    ensures len == 7 + (if fmt then depth else 0) + Need(names[..], 0) + Need(entries[..], MemberExtra(depth, fmt))
    decreases t, 3
  {
    names, entries := new string[n], new string[n];
    len := 7 + if fmt then depth else 0;
    var child, i := mem.blocks[item].child, 0;
    ReadableEnd(mem.blocks, t, 0);
    while child != 0
      invariant i <= n && child == At(t.kids, i) && (child == 0 <==> i == n)
      invariant MembersSoFar(names[..], entries[..], i, len, c, depth, fmt)
      decreases n - i
    {
      len := CollectMember(mem, child, names, entries, i, len, depth, fmt, t, c);
      child, i := mem.blocks[child].next, i + 1;
      ReadableEnd(mem.blocks, t, i);
    }
    assert names[..][..i] == names[..] && entries[..][..i] == entries[..];
  }

  /** The printed name of a member. */
  method PrintName(mem: Memory, item: Ptr, ghost t: Shape, ghost name: Option<string>, ghost v: J.Item) returns (text: string)
    requires item == t.p && Means(mem.blocks, t, name, v) && name.Some? && J.NulFree(name.value)
    ensures text == J.PrintString(name.value)
  {
    var str := mem.blocks[item].name;
    assert TextAt(mem.blocks, str) == name;
    var out := JsonStrings.PrintStringPtr(mem.blocks[str].chars);
    text := out[..out.Length - 1];
  }
}
