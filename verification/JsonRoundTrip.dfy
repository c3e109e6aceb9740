/** Parsing what was printed gives back the same tree. */
module JsonRoundTrip {
  import opened Json
  import opened JsonPasses
  import opened Wrappers
  import opened Sequences

  lemma Assoc7(a: string, b: string, c: string, d: string, e: string, f: string, g: string, x: string)
    ensures a + b + c + d + e + f + g + x == a + (b + (c + (d + (e + (f + (g + x))))))
  {
    Assoc(a + b + c + d + e + f, g, x);
    Assoc(a + b + c + d + e, f, g + x);
    Assoc(a + b + c + d, e, f + (g + x));
    Assoc(a + b + c, d, e + (f + (g + x)));
    Assoc(a + b, c, d + (e + (f + (g + x))));
    Assoc(a, b, c + (d + (e + (f + (g + x)))));
  }

  lemma SkipSpaces(sp: string, t: string)
    requires AllSpaces(sp) && !IsSpace(At(t, 0))
    ensures Skip(sp + t) == t
    decreases |sp|
  {
    if sp == "" {
      assert sp + t == t;
    } else {
      assert (sp + t)[1..] == sp[1..] + t;
      SkipSpaces(sp[1..], t);
    }
  }

  lemma {:induction false} TabsAreSpaces(n: int)
    ensures AllSpaces(Tabs(n))
  {
    if n > 0 {
      TabsAreSpaces(n - 1);
    }
  }

  /** Printed values start with a character that is no blank and closes nothing. */
  predicate StartsValue(t: string)
  {
    t != "" && !IsSpace(t[0]) && t[0] != '\0' && t[0] != ']' && t[0] != '}'
  }

  lemma PrintStarts(v: Item, depth: nat, fmt: bool)
    requires Plain(v)
    ensures StartsValue(PrintValue(v, depth, fmt))
  {
  }

  lemma SkipNone(t: string)
    requires !IsSpace(At(t, 0))
    ensures Skip(t) == t
  {
  }

  /** The parser undoes the printer, whatever follows, as long as it does not continue a number. */
  lemma {:induction false} ValueRoundTrip(v: Item, depth: nat, fmt: bool, rest: string)
    requires Plain(v) && EndsNumber(rest)
    ensures ParseValue(PrintValue(v, depth, fmt) + rest) == Read(v, rest)
    decreases v, 0
  {
    var t := PrintValue(v, depth, fmt) + rest;
    match v
    case Null => assert t[..4] == "null" && t[4..] == rest;
    case False => assert t[0] == 'f' && t[..5] == "false" && t[5..] == rest;
    case True => assert t[0] == 't' && t[..4] == "true" && t[4..] == rest;
    case Number(r) => IntRoundTrip(r.Floor, rest);
    case String(s) => StringRoundTrip(s, rest);
    case Array(c) => ArrayRoundTrip(c, depth, fmt, rest);
    case Object(c) => ObjectRoundTrip(c, depth, fmt, rest);
  }

  lemma OpenBracket(body: string, c: Chain, rest: string)
    requires var u := Skip(body);
             if c.End? then u == "]" + rest else At(u, 0) != ']' && ParseItems(u) == Read(c, rest)
    ensures ParseValue("[" + body) == Read(Array(c), rest)
  {
    Peel("[", body);
    Bracket("[" + body, c, rest);
  }

  lemma Bracket(t: string, c: Chain, rest: string)
    requires t != "" && t[0] == '['
    requires var u := Skip(t[1..]);
             if c.End? then u == "]" + rest else At(u, 0) != ']' && ParseItems(u) == Read(c, rest)
    ensures ParseValue(t) == Read(Array(c), rest)
  {
    Peel("]", rest);
  }

  lemma ArrayText(c: Chain, depth: nat, fmt: bool, rest: string)
    requires PlainItems(c)
    ensures PrintValue(Array(c), depth, fmt) + rest
            == "[" + if c.End? then "]" + rest else PrintItems(c, depth + 1, fmt) + ("]" + rest)
  {
    if c.End? {
      Assoc("[", "]", rest);
    } else {
      Assoc4("[", PrintItems(c, depth + 1, fmt), "]", rest);
    }
  }

  lemma {:induction false} ArrayRoundTrip(c: Chain, depth: nat, fmt: bool, rest: string)
    requires PlainItems(c)
    ensures ParseValue(PrintValue(Array(c), depth, fmt) + rest) == Read(Array(c), rest)
    decreases c, 2
  {
    ArrayText(c, depth, fmt, rest);
    if c.End? {
      SkipNone("]" + rest);
      OpenBracket("]" + rest, c, rest);
    } else {
      ItemsRoundTrip(c, depth + 1, fmt, rest);
      ItemsStart(c, depth + 1, fmt, "]" + rest);
      SkipNone(PrintItems(c, depth + 1, fmt) + ("]" + rest));
      OpenBracket(PrintItems(c, depth + 1, fmt) + ("]" + rest), c, rest);
    }
  }

  lemma ItemsText(c: Chain, depth: nat, fmt: bool, t: string)
    requires PlainItems(c) && !c.End?
    ensures PrintItems(c, depth, fmt) + t == PrintValue(c.item, depth, fmt) + ItemTail(c, depth, fmt, t)
  {
    Assoc4(PrintValue(c.item, depth, fmt), Separator(c, fmt), PrintItems(c.next, depth, fmt), t);
  }

  lemma ItemsStart(c: Chain, depth: nat, fmt: bool, t: string)
    requires PlainItems(c) && !c.End?
    ensures StartsValue(PrintItems(c, depth, fmt) + t)
  {
    ItemsText(c, depth, fmt, t);
    PrintStarts(c.item, depth, fmt);
    Peel(PrintValue(c.item, depth, fmt), ItemTail(c, depth, fmt, t));
  }

  /** What follows the value of an array entry. */
  function ItemTail(c: Chain, depth: nat, fmt: bool, t: string): string
    requires PlainItems(c) && !c.End?
  {
    Separator(c, fmt) + (PrintItems(c.next, depth, fmt) + t)
  }

  function Separator(c: Chain, fmt: bool): string
    requires !c.End?
  {
    if c.next.End? then "" else if fmt then ", " else ","
  }

  /** One entry, up to the comma or bracket after it. */
  lemma ReadItem(v: Item, value: string, tail: string, c: Chain, rest: string)
    requires StartsValue(value) && ParseValue(value + tail) == Read(v, tail)
    requires var u := Skip(tail);
             if c.End? then u == "]" + rest else At(u, 0) == ',' && ParseItems(u[1..]) == Read(c, rest)
    ensures ParseItems(value + tail) == Read(Link(None, v, c), rest)
  {
    Peel(value, tail);
    SkipNone(value + tail);
    Peel("]", rest);
  }

  lemma {:induction false} ItemsRoundTrip(c: Chain, depth: nat, fmt: bool, rest: string)
    requires PlainItems(c) && !c.End?
    ensures ParseItems(PrintItems(c, depth, fmt) + ("]" + rest)) == Read(c, rest)
    decreases c, 1
  {
    var tail := ItemTail(c, depth, fmt, "]" + rest);
    if !c.next.End? {
      ItemsRoundTrip(c.next, depth, fmt, rest);
    }
    ItemTailRead(c, depth, fmt, rest);
    PrintStarts(c.item, depth, fmt);
    ValueRoundTrip(c.item, depth, fmt, tail);
    ReadItem(c.item, PrintValue(c.item, depth, fmt), tail, c.next, rest);
    ItemsText(c, depth, fmt, "]" + rest);
  }

  lemma SkipItems(t: string)
    ensures ParseItems(Skip(t)) == ParseItems(t)
  {
    SkipNone(Skip(t));
  }

  lemma ItemTailRead(c: Chain, depth: nat, fmt: bool, rest: string)
    requires PlainItems(c) && !c.End?
    requires !c.next.End? ==> ParseItems(PrintItems(c.next, depth, fmt) + ("]" + rest)) == Read(c.next, rest)
    ensures var tail := ItemTail(c, depth, fmt, "]" + rest);
            var u := Skip(tail);
            && EndsNumber(tail)
            && if c.next.End? then u == "]" + rest else At(u, 0) == ',' && ParseItems(u[1..]) == Read(c.next, rest)
  {
    var close := "]" + rest;
    var tail := ItemTail(c, depth, fmt, close);
    if c.next.End? {
      Empty(close);
      SkipNone(tail);
    } else {
      var items, sep := PrintItems(c.next, depth, fmt) + close, Separator(c, fmt);
      Peel(sep, items);
      SkipNone(tail);
      ItemsStart(c.next, depth, fmt, close);
      SkipSpaces(sep[1..], items);
      SkipItems(sep[1..] + items);
    }
  }

  function Blanks(fmt: bool, t: string): string
  {
    if fmt then t else ""
  }

  predicate AllSpaces(sp: string)
  {
    forall i :: 0 <= i < |sp| ==> IsSpace(sp[i])
  }

  lemma OpenBrace(body: string, c: Chain, rest: string)
    requires var u := Skip(body);
             if c.End? then u == "}" + rest else At(u, 0) != '}' && ParseMembers(u) == Read(c, rest)
    ensures ParseValue("{" + body) == Read(Object(c), rest)
  {
    Peel("{", body);
    Brace("{" + body, c, rest);
  }

  lemma Brace(t: string, c: Chain, rest: string)
    requires t != "" && t[0] == '{'
    requires var u := Skip(t[1..]);
             if c.End? then u == "}" + rest else At(u, 0) != '}' && ParseMembers(u) == Read(c, rest)
    ensures ParseValue(t) == Read(Object(c), rest)
  {
    Peel("}", rest);
  }

  lemma EmptyObjectText(depth: nat, fmt: bool, rest: string)
    ensures PrintValue(Object(End), depth, fmt) + rest == "{" + (Blanks(fmt, "\n" + Tabs(depth - 1)) + ("}" + rest))
  {
    Assoc4("{", Blanks(fmt, "\n" + Tabs(depth - 1)), "}", rest);
  }

  lemma EmptyObjectRoundTrip(depth: nat, fmt: bool, rest: string)
    ensures ParseValue(PrintValue(Object(End), depth, fmt) + rest) == Read(Object(End), rest)
  {
    var sp := Blanks(fmt, "\n" + Tabs(depth - 1));
    TabsAreSpaces(depth - 1);
    EmptyObjectText(depth, fmt, rest);
    SkipSpaces(sp, "}" + rest);
    OpenBrace(sp + ("}" + rest), End, rest);
  }

  lemma ObjectText(c: Chain, depth: nat, fmt: bool, rest: string)
    requires PlainMembers(c) && !c.End?
    ensures PrintValue(Object(c), depth, fmt) + rest
            == "{" + (Blanks(fmt, "\n") + (PrintMembers(c, depth + 1, fmt) + (Blanks(fmt, Tabs(depth)) + ("}" + rest))))
  {
    Assoc6("{", Blanks(fmt, "\n"), PrintMembers(c, depth + 1, fmt), Blanks(fmt, Tabs(depth)), "}", rest);
  }

  lemma {:induction false} ObjectRoundTrip(c: Chain, depth: nat, fmt: bool, rest: string)
    requires PlainMembers(c)
    ensures ParseValue(PrintValue(Object(c), depth, fmt) + rest) == Read(Object(c), rest)
    decreases c, 2
  {
    if c.End? {
      EmptyObjectRoundTrip(depth, fmt, rest);
    } else {
      var sp, close := Blanks(fmt, "\n"), Blanks(fmt, Tabs(depth));
      TabsAreSpaces(depth);
      MembersRoundTrip(c, depth + 1, fmt, close, rest);
      MembersSkip(c, depth + 1, fmt, close, sp, rest);
      ObjectText(c, depth, fmt, rest);
      OpenBrace(sp + (PrintMembers(c, depth + 1, fmt) + (close + ("}" + rest))), c, rest);
    }
  }

  lemma Assoc4(a: string, b: string, c: string, x: string)
    ensures a + b + c + x == a + (b + (c + x))
  {
    Assoc(a + b, c, x);
    Assoc(a, b, c + x);
  }

  lemma Assoc6(a: string, b: string, c: string, d: string, e: string, x: string)
    ensures a + b + c + d + e + x == a + (b + (c + (d + (e + x))))
  {
    Assoc(a + b + c + d, e, x);
    Assoc(a + b + c, d, e + x);
    Assoc4(a, b, c, d + (e + x));
  }

  /** An object entry after its indentation. */
  function Entry(c: Chain, depth: nat, fmt: bool, close: string, rest: string): string
    requires PlainMembers(c) && !c.End?
  {
    PrintString(c.name.value)
    + ((if fmt then ":\t" else ":")
       + (PrintValue(c.item, depth, fmt) + Tail(c, depth, fmt, close, rest)))
  }

  /** What follows the value of an object entry. */
  function Tail(c: Chain, depth: nat, fmt: bool, close: string, rest: string): string
    requires PlainMembers(c) && !c.End?
  {
    (if c.next.End? then "" else ",")
    + (Blanks(fmt, "\n") + (PrintMembers(c.next, depth, fmt) + (close + ("}" + rest))))
  }

  lemma MembersText(c: Chain, depth: nat, fmt: bool, close: string, rest: string)
    requires PlainMembers(c) && !c.End?
    ensures PrintMembers(c, depth, fmt) + (close + ("}" + rest))
            == Blanks(fmt, Tabs(depth)) + Entry(c, depth, fmt, close, rest)
  {
    Assoc7(Blanks(fmt, Tabs(depth)), PrintString(c.name.value), if fmt then ":\t" else ":",
           PrintValue(c.item, depth, fmt), if c.next.End? then "" else ",", Blanks(fmt, "\n"),
           PrintMembers(c.next, depth, fmt), close + ("}" + rest));
  }

  lemma Quoted(s: string, tail: string)
    requires NulFree(s)
    ensures At(PrintString(s) + tail, 0) == '\"'
  {
    Peel(PrintString(s), tail);
  }

  lemma MembersSkip(c: Chain, depth: nat, fmt: bool, close: string, sp: string, rest: string)
    requires PlainMembers(c) && !c.End? && AllSpaces(sp)
    ensures Skip(sp + (PrintMembers(c, depth, fmt) + (close + ("}" + rest)))) == Entry(c, depth, fmt, close, rest)
    ensures At(Entry(c, depth, fmt, close, rest), 0) == '\"'
  {
    var ind, e := Blanks(fmt, Tabs(depth)), Entry(c, depth, fmt, close, rest);
    TabsAreSpaces(depth);
    MembersText(c, depth, fmt, close, rest);
    Assoc(sp, ind, e);
    Quoted(c.name.value, (if fmt then ":\t" else ":") + (PrintValue(c.item, depth, fmt) + Tail(c, depth, fmt, close, rest)));
    SkipSpaces(sp + ind, e);
  }

  lemma SkipMembers(t: string)
    ensures ParseMembers(Skip(t)) == ParseMembers(t)
  {
    SkipNone(Skip(t));
  }

  /** One entry, up to the comma or brace after it. */
  lemma ReadMember(name: string, v: Item, colon: string, value: string, tail: string, c: Chain, rest: string)
    requires NulFree(name) && (colon == ":" || colon == ":\t") && StartsValue(value)
    requires ParseValue(value + tail) == Read(v, tail)
    requires var u := Skip(tail);
             if c.End? then u == "}" + rest else At(u, 0) == ',' && ParseMembers(u[1..]) == Read(c, rest)
    ensures ParseMembers(PrintString(name) + (colon + (value + tail))) == Read(Link(Some(name), v, c), rest)
  {
    var body := value + tail;
    var t := colon + body;
    Peel(value, tail);
    Peel(colon, body);
    Quoted(name, t);
    SkipNone(PrintString(name) + t);
    StringRoundTrip(name, t);
    SkipNone(t);
    SkipSpaces(colon[1..], body);
    Peel("}", rest);
  }

  /** Object entries, after the first one's indentation. */
  lemma {:induction false} MembersRoundTrip(c: Chain, depth: nat, fmt: bool, close: string, rest: string)
    requires PlainMembers(c) && !c.End? && AllSpaces(close)
    ensures ParseMembers(Entry(c, depth, fmt, close, rest)) == Read(c, rest)
    decreases c, 1
  {
    var tail := Tail(c, depth, fmt, close, rest);
    PrintStarts(c.item, depth, fmt);
    TailEndsNumber(c, depth, fmt, close, rest);
    ValueRoundTrip(c.item, depth, fmt, tail);
    if !c.next.End? {
      MembersRoundTrip(c.next, depth, fmt, close, rest);
    }
    TailRead(c, depth, fmt, close, rest);
    ReadMember(c.name.value, c.item, if fmt then ":\t" else ":", PrintValue(c.item, depth, fmt), tail, c.next, rest);
  }

  lemma TailEndsNumber(c: Chain, depth: nat, fmt: bool, close: string, rest: string)
    requires PlainMembers(c) && !c.End? && AllSpaces(close)
    ensures EndsNumber(Tail(c, depth, fmt, close, rest))
  {
    if c.next.End? {
      LastTail(c, depth, fmt, close, rest);
      var sp := Blanks(fmt, "\n") + close;
      assert At(sp + ("}" + rest), 0) == if sp == "" then '}' else sp[0];
    }
  }

  lemma LastTail(c: Chain, depth: nat, fmt: bool, close: string, rest: string)
    requires PlainMembers(c) && !c.End? && c.next.End?
    ensures Tail(c, depth, fmt, close, rest) == (Blanks(fmt, "\n") + close) + ("}" + rest)
  {
  }

  lemma TailRead(c: Chain, depth: nat, fmt: bool, close: string, rest: string)
    requires PlainMembers(c) && !c.End? && AllSpaces(close)
    requires !c.next.End? ==> ParseMembers(Entry(c.next, depth, fmt, close, rest)) == Read(c.next, rest)
    ensures var u := Skip(Tail(c, depth, fmt, close, rest));
            if c.next.End? then u == "}" + rest else At(u, 0) == ',' && ParseMembers(u[1..]) == Read(c.next, rest)
  {
    var nl, tail := Blanks(fmt, "\n"), Tail(c, depth, fmt, close, rest);
    if c.next.End? {
      LastTail(c, depth, fmt, close, rest);
      SkipSpaces(nl + close, "}" + rest);
    } else {
      var u := nl + (PrintMembers(c.next, depth, fmt) + (close + ("}" + rest)));
      Peel(",", u);
      SkipNone(tail);
      MembersSkip(c.next, depth, fmt, close, nl, rest);
      SkipMembers(u);
    }
  }

  /** Parsing the output of either printer, to the end of the text, gives back the same tree. */
  lemma RoundTrip(v: Item)
    requires Plain(v)
    ensures ParseWithOpts(Print(v), true) == Read(v, "")
    ensures ParseWithOpts(PrintUnformatted(v), true) == Read(v, "")
  {
    PrintStarts(v, 0, true);
    PrintStarts(v, 0, false);
    SkipNone(Print(v));
    SkipNone(PrintUnformatted(v));
    ValueRoundTrip(v, 0, true, "");
    ValueRoundTrip(v, 0, false, "");
    assert Print(v) + "" == Print(v) && PrintUnformatted(v) + "" == PrintUnformatted(v);
  }
}
