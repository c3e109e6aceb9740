/** Formatted output, described by what stands between tokens: where lines end and how far they are indented. */
module JsonLayout {
  import opened Json
  import opened JsonMinify
  import opened Wrappers
  import opened Sequences

  function Indent(n: int): string
  {
    seq(if n < 0 then 0 else n, _ => '\t')
  }

  /** Inside which bracket a token stands. */
  predicate Within(open: string, bracket: char)
  {
    open != "" && open[|open| - 1] == bracket
  }

  /** What is written for a token of one character; open holds the brackets not yet closed. A member of an object
      starts a line behind as many tabs as there are open brackets, and so does the closing brace, once its own is
      closed. Array entries are set apart by blanks. */
  function Token(c: char, open: string): string
  {
    if c == '{' then "{\n" + Indent(|open| + 1)
    else if c == '}' then "\n" + Indent(|open| - 1) + "}"
    else if c == ',' then (if Within(open, '{') then ",\n" + Indent(|open|) else ", ")
    else if c == ':' then ":\t"
    else [c]
  }

  /** The brackets that are open then. */
  function Opened(c: char, open: string): string
  {
    if c == '{' || c == '[' then open + [c]
    else if (c == '}' || c == ']') && open != "" then open[..|open| - 1]
    else open
  }

  /** A text without blanks, laid out token by token. In an empty object the brace is one tab too far left. */
  function Pretty(u: string, open: string): string
    decreases |u|
  {
    if u == "" then ""
    else if u[0] == '\"' then
      match CopyString(u[1..])
      case None => u
      case Some((s, rest)) => "\"" + s + Pretty(rest, open)
    else if u[0] == '{' && At(u, 1) == '}' then "{\n" + Indent(|open| - 1) + "}" + Pretty(u[2..], open)
    else Token(u[0], open) + Pretty(u[1..], Opened(u[0], open))
  }

  lemma {:induction false} TabsIndent(n: int)
    ensures Tabs(n) == Indent(n)
  {
    if n > 0 {
      TabsIndent(n - 1);
    }
  }

  predicate Ordinary(s: string)
  {
    forall i :: 0 <= i < |s| ==> s[i] !in "\"{}[],:"
  }

  lemma {:induction false} PrettyOrdinary(s: string, t: string, open: string)
    requires Ordinary(s)
    ensures Pretty(s + t, open) == s + Pretty(t, open)
  {
    if s == "" {
      Empty(t);
      Empty(Pretty(t, open));
    } else {
      Peel(s, t);
      PrettyOrdinary(s[1..], t, open);
      OrdinaryFirst(s[0], s[1..] + t, open);
      Assoc([s[0]], s[1..], Pretty(t, open));
      assert [s[0]] + s[1..] == s && [s[0]] + (s[1..] + t) == s + t;
    }
  }

  lemma OrdinaryFirst(c: char, t: string, open: string)
    requires c !in "\"{}[],:"
    ensures Pretty([c] + t, open) == [c] + Pretty(t, open)
  {
    var a := "\"{}[],:";
    assert a[0] in a && a[1] in a && a[2] in a && a[3] in a && a[4] in a && a[5] in a && a[6] in a;
    TokenStep(c, t, open);
  }

  lemma TokenStep(c: char, t: string, open: string)
    requires c != '\"' && (c == '{' ==> At(t, 0) != '}')
    ensures Pretty([c] + t, open) == Token(c, open) + Pretty(t, Opened(c, open))
  {
    Peel([c], t);
    assert At([c] + t, 1) == At(t, 0);
  }

  lemma {:induction false} DecimalOrdinary(n: nat)
    ensures Ordinary(Decimal(n))
  {
    if n >= 10 {
      DecimalOrdinary(n / 10);
    }
  }

  lemma PrettyString(s: string, t: string, open: string)
    requires NulFree(s)
    ensures Pretty(PrintString(s) + t, open) == PrintString(s) + Pretty(t, open)
  {
    Assoc("\"" + Escape(s), "\"", t);
    Assoc("\"", Escape(s), "\"" + t);
    Peel("\"", Escape(s) + ("\"" + t));
    CopyEscaped(s, t);
    Assoc("\"", Escape(s), "\"");
  }

  // ---------------------------------------------------------------------------------
  // Single tokens
  // ---------------------------------------------------------------------------------

  lemma OpenBracket(t: string, open: string)
    ensures Pretty("[" + t, open) == "[" + Pretty(t, open + "[")
  {
    TokenStep('[', t, open);
  }

  lemma Reopened(open: string, c: char)
    ensures (open + [c])[..|open|] == open && |open + [c]| == |open| + 1
    ensures Within(open + [c], c)
  {
  }

  lemma CloseBracket(t: string, open: string)
    ensures Pretty("]" + t, open + "[") == "]" + Pretty(t, open)
  {
    TokenStep(']', t, open + "[");
    Reopened(open, '[');
  }

  lemma OpenBrace(t: string, open: string)
    requires t != "" && t[0] != '}'
    ensures Pretty("{" + t, open) == "{\n" + Indent(|open| + 1) + Pretty(t, open + "{")
  {
    TokenStep('{', t, open);
  }

  lemma CloseBrace(t: string, open: string)
    ensures Pretty("}" + t, open + "{") == "\n" + Indent(|open|) + "}" + Pretty(t, open)
  {
    TokenStep('}', t, open + "{");
    Reopened(open, '{');
  }

  lemma BothBraces(t: string, open: string)
    ensures Pretty("{}" + t, open) == "{\n" + Indent(|open| - 1) + "}" + Pretty(t, open)
  {
    TwoBraces("{}" + t, t, open);
  }

  lemma TwoBraces(u: string, t: string, open: string)
    requires u == "{}" + t
    ensures Pretty(u, open) == "{\n" + Indent(|open| - 1) + "}" + Pretty(t, open)
  {
    assert u[0] == '{' && At(u, 1) == '}' && u[2..] == t;
  }

  lemma MemberComma(t: string, open: string)
    ensures Pretty("," + t, open + "{") == ",\n" + Indent(|open| + 1) + Pretty(t, open + "{")
  {
    TokenStep(',', t, open + "{");
    CommaToken(open + "{");
  }

  lemma CommaToken(open: string)
    requires Within(open, '{')
    ensures Token(',', open) == ",\n" + Indent(|open|) && Opened(',', open) == open
  {
  }

  lemma ItemComma(t: string, open: string)
    ensures Pretty("," + t, open + "[") == ", " + Pretty(t, open + "[")
  {
    TokenStep(',', t, open + "[");
  }

  lemma Colon(t: string, open: string)
    ensures Pretty(":" + t, open) == ":\t" + Pretty(t, open)
  {
    TokenStep(':', t, open);
  }

  // ---------------------------------------------------------------------------------
  // Values
  // ---------------------------------------------------------------------------------

  lemma {:induction false} PrettyValue(v: Item, t: string, open: string)
    requires Plain(v)
    ensures Pretty(PrintValue(v, |open|, false) + t, open) == PrintValue(v, |open|, true) + Pretty(t, open)
    decreases v, 0
  {
    match v
    case Null => PrettyOrdinary("null", t, open);
    case False => PrettyOrdinary("false", t, open);
    case True => PrettyOrdinary("true", t, open);
    case Number(r) =>
      DecimalOrdinary(if r.Floor < 0 then -r.Floor else r.Floor);
      PrettyOrdinary(PrintInt(r.Floor), t, open);
    case String(s) => PrettyString(s, t, open);
    case Array(c) =>
      if c.End? {
        EmptyArray(t, open);
      } else {
        var items, formatted := PrintItems(c, |open| + 1, false), PrintItems(c, |open| + 1, true);
        Assoc("[" + items, "]", t);
        Assoc("[", items, "]" + t);
        OpenBracket(items + ("]" + t), open);
        PrettyItems(c, t, open);
        Assoc("[" + formatted, "]", Pretty(t, open));
        Assoc("[", formatted, "]" + Pretty(t, open));
      }
    case Object(c) => PrettyObject(c, t, open);
  }

  lemma EmptyArray(t: string, open: string)
    ensures Pretty("[]" + t, open) == "[]" + Pretty(t, open)
  {
    Assoc("[", "]", t);
    OpenBracket("]" + t, open);
    CloseBracket(t, open);
    Assoc("[", "]", Pretty(t, open));
    assert "[" + "]" == "[]";
  }

  lemma {:induction false} PrettyItems(c: Chain, t: string, open: string)
    requires PlainItems(c) && c.Link?
    ensures Pretty(PrintItems(c, |open| + 1, false) + ("]" + t), open + "[")
            == PrintItems(c, |open| + 1, true) + ("]" + Pretty(t, open))
    decreases c
  {
    var inner := open + "[";
    var value, formatted := PrintValue(c.item, |inner|, false), PrintValue(c.item, |inner|, true);
    if c.next.End? {
      OneItem(c, |inner|);
      PrettyValue(c.item, "]" + t, inner);
      CloseBracket(t, open);
    } else {
      var next := PrintItems(c.next, |inner|, false);
      Assoc(value + ",", next, "]" + t);
      Assoc(value, ",", next + ("]" + t));
      PrettyValue(c.item, "," + (next + ("]" + t)), inner);
      ItemComma(next + ("]" + t), open);
      PrettyItems(c.next, t, open);
      Assoc(formatted + ", ", PrintItems(c.next, |inner|, true), "]" + Pretty(t, open));
      Assoc(formatted, ", ", PrintItems(c.next, |inner|, true) + ("]" + Pretty(t, open)));
    }
  }

  lemma OneItem(c: Chain, depth: nat)
    requires PlainItems(c) && c.Link? && c.next.End?
    ensures forall fmt :: PrintItems(c, depth, fmt) == PrintValue(c.item, depth, fmt)
  {
    forall fmt ensures PrintItems(c, depth, fmt) == PrintValue(c.item, depth, fmt) {
      var value := PrintValue(c.item, depth, fmt);
      Empty(value);
    }
  }

  lemma {:induction false} PrettyObject(c: Chain, t: string, open: string)
    requires PlainMembers(c)
    ensures Pretty(PrintValue(Object(c), |open|, false) + t, open) == PrintValue(Object(c), |open|, true) + Pretty(t, open)
    decreases c, 1
  {
    if c.End? {
      BothBraces(t, open);
      TabsIndent(|open| - 1);
      EmptyObject(|open|);
    } else {
      var members, formatted := PrintMembers(c, |open| + 1, false), PrintMembers(c, |open| + 1, true);
      var tail := Pretty(t, open);
      ObjectParts(members, formatted, Tabs(|open|), t, tail);
      FirstMember(c, |open| + 1);
      OpenBrace(members + ("}" + t), open);
      PrettyMembers(c, t, open);
      TabsIndent(|open|);
      Assoc("{\n", Indent(|open| + 1), Pretty(members + ("}" + t), open + "{"));
    }
  }

  lemma EmptyObject(depth: nat)
    ensures PrintValue(Object(End), depth, true) == "{\n" + Tabs(depth - 1) + "}" && PrintValue(Object(End), depth, false) == "{}"
  {
    assert "{" + ("\n" + Tabs(depth - 1)) == "{\n" + Tabs(depth - 1);
    assert "{" + "" + "}" == "{}";
  }

  lemma ObjectParts(members: string, formatted: string, tabs: string, t: string, tail: string)
    ensures "{" + "" + members + "" + "}" + t == "{" + (members + ("}" + t))
    ensures "{" + "\n" + formatted + tabs + "}" + tail == "{\n" + (formatted + (tabs + ("}" + tail)))
  {
    assert "{" + "" + members + "" == "{" + members;
    Assoc("{" + members, "}", t);
    Assoc("{", members, "}" + t);
    assert "{" + "\n" == "{\n";
    Assoc("{\n" + formatted + tabs, "}", tail);
    Assoc("{\n" + formatted, tabs, "}" + tail);
    Assoc("{\n", formatted, tabs + ("}" + tail));
  }

  lemma FirstMember(c: Chain, depth: nat)
    requires PlainMembers(c) && c.Link?
    ensures PrintMembers(c, depth, false) != "" && PrintMembers(c, depth, false)[0] == '\"'
  {
    assert "" + PrintString(c.name.value) == PrintString(c.name.value);
  }

  /** A member, with what stands in front of it and behind it. */
  lemma MemberParts(c: Chain, depth: nat, w: string, tail: string)
    requires PlainMembers(c) && c.Link?
    ensures var name, comma := PrintString(c.name.value), if c.next.End? then "" else ",";
            && PrintMembers(c, depth, false) + w
               == name + (":" + (PrintValue(c.item, depth, false) + (comma + (PrintMembers(c.next, depth, false) + w))))
            && PrintMembers(c, depth, true) + tail
               == Tabs(depth) + (name + (":\t" + (PrintValue(c.item, depth, true)
                  + ((comma + "\n") + (PrintMembers(c.next, depth, true) + tail)))))
  {
    var name, comma := PrintString(c.name.value), if c.next.End? then "" else ",";
    MemberText("", name, ":", PrintValue(c.item, depth, false), comma, "", PrintMembers(c.next, depth, false), w);
    MemberText(Tabs(depth), name, ":\t", PrintValue(c.item, depth, true), comma, "\n", PrintMembers(c.next, depth, true), tail);
    Empty(comma);
    Empty(name + (":" + (PrintValue(c.item, depth, false) + (comma + (PrintMembers(c.next, depth, false) + w)))));
  }

  lemma {:induction false} PrettyMembers(c: Chain, t: string, open: string)
    requires PlainMembers(c) && c.Link?
    ensures Indent(|open| + 1) + Pretty(PrintMembers(c, |open| + 1, false) + ("}" + t), open + "{")
            == PrintMembers(c, |open| + 1, true) + (Indent(|open|) + ("}" + Pretty(t, open)))
    decreases c, 0
  {
    var inner, depth := open + "{", |open| + 1;
    var w, tail := "}" + t, Indent(|open|) + ("}" + Pretty(t, open));
    var value, comma, next := PrintValue(c.item, depth, false), if c.next.End? then "" else ",", PrintMembers(c.next, depth, false);
    var after := (comma + "\n") + (PrintMembers(c.next, depth, true) + tail);
    if c.next.End? {
      LastMember(t, open, tail);
    } else {
      PrettyMembers(c.next, t, open);
      NextMember(next + w, PrintMembers(c.next, depth, true) + tail, open);
    }
    assert Pretty(comma + (next + w), inner) == after;
    PrettyValue(c.item, comma + (next + w), inner);
    PrettyName(c.name.value, value + (comma + (next + w)), PrintValue(c.item, depth, true) + after, inner);
    MemberParts(c, depth, w, tail);
    TabsIndent(depth);
  }

  lemma PrettyName(name: string, t: string, formatted: string, open: string)
    requires NulFree(name) && Pretty(t, open) == formatted
    ensures Pretty(PrintString(name) + (":" + t), open) == PrintString(name) + (":\t" + formatted)
  {
    PrettyString(name, ":" + t, open);
    Colon(t, open);
  }

  lemma NextMember(t: string, formatted: string, open: string)
    requires Indent(|open| + 1) + Pretty(t, open + "{") == formatted
    ensures Pretty("," + t, open + "{") == ("," + "\n") + formatted
  {
    MemberComma(t, open);
    Assoc(",\n", Indent(|open| + 1), Pretty(t, open + "{"));
    assert "," + "\n" == ",\n";
  }

  lemma LastMember(t: string, open: string, tail: string)
    requires tail == Indent(|open|) + ("}" + Pretty(t, open))
    ensures Pretty("" + ("" + ("}" + t)), open + "{") == ("" + "\n") + ("" + tail)
  {
    assert "" + ("" + ("}" + t)) == "}" + t;
    CloseBrace(t, open);
    Assoc("\n" + Indent(|open|), "}", Pretty(t, open));
    Assoc("\n", Indent(|open|), "}" + Pretty(t, open));
    assert "" + "\n" == "\n" && "" + tail == tail;
  }

  /** Formatted output is unformatted output laid out: lines, tabs and blanks stand where the brackets say, and
      nowhere else. */
  lemma PrintIsPretty(v: Item)
    requires Plain(v)
    ensures Print(v) == Pretty(PrintUnformatted(v), "")
  {
    PrettyValue(v, "", "");
    Empty(PrintUnformatted(v));
    Empty(Print(v));
  }
}
