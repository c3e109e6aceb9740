/** cJSON_Minify: removing blanks and comments, in place, turns formatted output into unformatted output. */
module JsonMinify {
  import opened Json
  import opened Wrappers
  import opened Sequences

  predicate IsBlank(c: char) { c == ' ' || c == '\t' || c == '\r' || c == '\n' }

  /** What is left from the end of a line comment. */
  function SkipLine(t: string): (r: string)
    ensures |r| <= |t|
  {
    if t == "" || t[0] == '\n' then t else SkipLine(t[1..])
  }

  /** What is left after a block comment, or None if it does not end. */
  function SkipBlock(t: string): (r: Option<string>)
    ensures r.Some? ==> |r.value| + 2 <= |t|
  {
    if t == "" then None
    else if t[0] == '*' && At(t, 1) == '/' then Some(t[2..])
    else SkipBlock(t[1..])
  }

  /** The rest of a string literal up to and including its closing quote, and the text after it;
      None if it does not end. */
  function CopyString(t: string): (r: Option<(string, string)>)
    ensures r.Some? ==> |r.value.1| < |t| && r.value.0 + r.value.1 == t
  {
    if t == "" then None
    else if t[0] == '\"' then Some(("\"", t[1..]))
    else
      var n := if t[0] == '\\' then 2 else 1;
      if |t| < n then None
      else
        match CopyString(t[n..])
        case None => None
        case Some((s, rest)) => Some((t[..n] + s, rest))
  }

  function Prepend(s: string, o: Option<string>): Option<string>
  {
    match o
    case None => None
    case Some(t) => Some(s + t)
  }

  /** The minified text, or None where the source would step past the end of its buffer. */
  function Minify(t: string): (r: Option<string>)
    decreases |t|
  {
    if t == "" then Some("")
    else if IsBlank(t[0]) then Minify(t[1..])
    else if t[0] == '/' && At(t, 1) == '/' then Minify(SkipLine(t[1..]))
    else if t[0] == '/' && At(t, 1) == '*' then
      (match SkipBlock(t[1..])
       case None => None
       case Some(rest) => Minify(rest))
    else if t[0] == '\"' then
      (match CopyString(t[1..])
       case None => None
       case Some((s, rest)) => Prepend("\"" + s, Minify(rest)))
    else Prepend([t[0]], Minify(t[1..]))
  }

  // ---------------------------------------------------------------------------------
  // Printed text
  // ---------------------------------------------------------------------------------

  lemma PrependTwice(a: string, b: string, o: Option<string>)
    ensures Prepend(a, Prepend(b, o)) == Prepend(a + b, o)
  {
    if o.Some? {
      assert a + (b + o.value) == (a + b) + o.value;
    }
  }

  lemma {:induction false} MinifyBlanks(sp: string, t: string)
    requires forall i :: 0 <= i < |sp| ==> IsBlank(sp[i])
    ensures Minify(sp + t) == Minify(t)
  {
    if sp == "" {
      assert sp + t == t;
    } else {
      assert (sp + t)[1..] == sp[1..] + t;
      MinifyBlanks(sp[1..], t);
    }
  }

  /** Text in which the minifier changes nothing. */
  predicate Inert(s: string)
  {
    forall i :: 0 <= i < |s| ==> !IsBlank(s[i]) && s[i] != '/' && s[i] != '\"'
  }

  lemma {:induction false} MinifyInert(s: string, t: string)
    requires Inert(s)
    ensures Minify(s + t) == Prepend(s, Minify(t))
  {
    if s == "" {
      assert s + t == t;
      if Minify(t).Some? {
        assert "" + Minify(t).value == Minify(t).value;
      }
    } else {
      assert (s + t)[1..] == s[1..] + t;
      MinifyInert(s[1..], t);
      PrependTwice([s[0]], s[1..], Minify(t));
      assert [s[0]] + s[1..] == s;
    }
  }

  lemma {:induction false} DecimalInert(n: nat)
    ensures Inert(Decimal(n))
  {
    if n >= 10 {
      DecimalInert(n / 10);
    }
  }

  /** The copy goes on behind a first part h. */
  predicate CopiesThrough(h: string, t: string)
  {
    CopyString(h + t) == match CopyString(t) case None => None case Some((s, rest)) => Some((h + s, rest))
  }

  lemma CopyPair(e: string, t: string)
    requires |e| == 2 && e[0] == '\\'
    ensures CopiesThrough(e, t)
  {
    var u := e + t;
    assert u[2..] == t && u[..2] == e;
  }

  lemma CopyUnicode(h: string, t: string)
    requires forall i :: 0 <= i < |h| ==> h[i] != '\"' && h[i] != '\\'
    ensures CopiesThrough("\\u" + h, t)
  {
    Assoc("\\u", h, t);
    CopyPlain(h, t);
    CopyPair("\\u", h + t);
    if CopyString(t).Some? {
      Assoc("\\u", h, CopyString(t).value.0);
    }
  }

  /** A printed character does not end the literal. */
  lemma CopyChar(c: char, t: string)
    requires c != '\0'
    ensures CopiesThrough(EscapeChar(c), t)
  {
    var e := EscapeChar(c);
    if |e| == 1 {
      CopyPlain(e, t);
    } else if |e| == 2 {
      CopyPair(e, t);
    } else {
      var h := ['0', '0', HexChar(c as int / 16), HexChar(c as int % 16)];
      CopyUnicode(h, t);
      assert "\\u" + h == e;
    }
  }

  /** Characters other than quotes and backslashes are copied. */
  lemma {:induction false} CopyPlain(h: string, t: string)
    requires forall i :: 0 <= i < |h| ==> h[i] != '\"' && h[i] != '\\'
    ensures CopiesThrough(h, t)
  {
    if h == "" {
      Empty(t);
      if CopyString(t).Some? {
        Empty(CopyString(t).value.0);
      }
    } else {
      var u := h + t;
      assert u[1..] == h[1..] + t && u[..1] == [h[0]];
      CopyPlain(h[1..], t);
      if CopyString(t).Some? {
        Assoc(u[..1], h[1..], CopyString(t).value.0);
        assert u[..1] + h[1..] == h;
      }
    }
  }

  lemma {:induction false} CopyEscaped(s: string, rest: string)
    requires NulFree(s)
    ensures CopyString(Escape(s) + ("\"" + rest)) == Some((Escape(s) + "\"", rest))
  {
    if s == "" {
      Empty("\"" + rest);
      Empty("\"");
      Peel("\"", rest);
    } else {
      CopyEscaped(s[1..], rest);
      CopyChar(s[0], Escape(s[1..]) + ("\"" + rest));
      Assoc(EscapeChar(s[0]), Escape(s[1..]), "\"" + rest);
      Assoc(EscapeChar(s[0]), Escape(s[1..]), "\"");
    }
  }

  lemma MinifyString(s: string, t: string)
    requires NulFree(s)
    ensures Minify(PrintString(s) + t) == Prepend(PrintString(s), Minify(t))
  {
    Assoc("\"" + Escape(s), "\"", t);
    Assoc("\"", Escape(s), "\"" + t);
    Peel("\"", Escape(s) + ("\"" + t));
    CopyEscaped(s, t);
    Assoc("\"", Escape(s), "\"");
  }

  /** Minifying a text in which a value was printed, in either form, leaves the value unformatted. */
  lemma {:induction false} MinifyValue(v: Item, depth: nat, fmt: bool, t: string)
    requires Plain(v)
    ensures Minify(PrintValue(v, depth, fmt) + t) == Prepend(PrintValue(v, depth, false), Minify(t))
    decreases v, 0
  {
    match v
    case Null => MinifyInert("null", t);
    case False => MinifyInert("false", t);
    case True => MinifyInert("true", t);
    case Number(r) =>
      DecimalInert(if r.Floor < 0 then -r.Floor else r.Floor);
      MinifyInert(PrintInt(r.Floor), t);
    case String(s) => MinifyString(s, t);
    case Array(c) =>
      if c.End? {
        MinifyInert("[]", t);
      } else {
        var items := PrintItems(c, depth + 1, fmt);
        Assoc("[" + items, "]", t);
        Assoc("[", items, "]" + t);
        MinifyInert("[", items + ("]" + t));
        MinifyItems(c, depth + 1, fmt, "]" + t);
        MinifyInert("]", t);
        PrependThrice("[", PrintItems(c, depth + 1, false), "]", Minify(t));
      }
    case Object(c) => MinifyObject(c, depth, fmt, t);
  }

  lemma PrependThrice(a: string, b: string, c: string, o: Option<string>)
    ensures Prepend(a, Prepend(b, Prepend(c, o))) == Prepend(a + b + c, o)
  {
    PrependTwice(b, c, o);
    PrependTwice(a, b + c, o);
    Assoc(a, b, c);
  }

  lemma {:induction false} MinifyItems(c: Chain, depth: nat, fmt: bool, t: string)
    requires PlainItems(c)
    ensures Minify(PrintItems(c, depth, fmt) + t) == Prepend(PrintItems(c, depth, false), Minify(t))
    decreases c
  {
    if c.End? {
      MinifyInert("", t);
    } else {
      var value := PrintValue(c.item, depth, fmt);
      var comma := if c.next.End? then "" else ",";
      var sep := if c.next.End? then "" else if fmt then ", " else ",";
      var next := PrintItems(c.next, depth, fmt);
      Assoc(value + sep, next, t);
      Assoc(value, sep, next + t);
      MinifyValue(c.item, depth, fmt, sep + (next + t));
      MinifySeparator(comma, sep[|comma|..], next + t);
      MinifyItems(c.next, depth, fmt, t);
      PrependThrice(PrintValue(c.item, depth, false), comma, PrintItems(c.next, depth, false), Minify(t));
    }
  }

  lemma MinifySeparator(mark: string, sp: string, t: string)
    requires Inert(mark) && forall i :: 0 <= i < |sp| ==> IsBlank(sp[i])
    ensures Minify(mark + sp + t) == Prepend(mark, Minify(t))
  {
    Assoc(mark, sp, t);
    MinifyInert(mark, sp + t);
    MinifyBlanks(sp, t);
  }

  lemma {:induction false} TabsBlank(n: int)
    ensures forall i :: 0 <= i < |Tabs(n)| ==> IsBlank(Tabs(n)[i])
  {
    if n > 0 {
      TabsBlank(n - 1);
    }
  }

  lemma MinifyEmptyObject(sp: string, t: string)
    requires forall i :: 0 <= i < |sp| ==> IsBlank(sp[i])
    ensures Minify("{" + sp + "}" + t) == Prepend("{" + "" + "}", Minify(t))
  {
    Assoc("{" + sp, "}", t);
    MinifySeparator("{", sp, "}" + t);
    MinifyInert("}", t);
    PrependTwice("{", "}", Minify(t));
    assert "{" + "" + "}" == "{" + "}";
  }

  lemma ObjectText(nl: string, members: string, close: string, t: string)
    ensures "{" + nl + members + close + "}" + t == ("{" + nl) + (members + (close + ("}" + t)))
  {
    Assoc("{" + nl + members + close, "}", t);
    Assoc("{" + nl + members, close, "}" + t);
    Assoc("{" + nl, members, close + ("}" + t));
  }

  lemma {:induction false} MinifyObject(c: Chain, depth: nat, fmt: bool, t: string)
    requires PlainMembers(c)
    ensures Minify(PrintValue(Object(c), depth, fmt) + t) == Prepend(PrintValue(Object(c), depth, false), Minify(t))
    decreases c, 1
  {
    if c.End? {
      TabsBlank(depth - 1);
      MinifyEmptyObject(if fmt then "\n" + Tabs(depth - 1) else "", t);
    } else {
      var nl, close := if fmt then "\n" else "", if fmt then Tabs(depth) else "";
      var members, plain := PrintMembers(c, depth + 1, fmt), PrintMembers(c, depth + 1, false);
      TabsBlank(depth);
      ObjectText(nl, members, close, t);
      MinifySeparator("{", nl, members + (close + ("}" + t)));
      MinifyMembers(c, depth + 1, fmt, close + ("}" + t));
      MinifyBlanks(close, "}" + t);
      MinifyInert("}", t);
      PrependThrice("{", plain, "}", Minify(t));
      EmptyParts(plain);
    }
  }

  lemma EmptyParts(plain: string)
    ensures "{" + "" + plain + "" == "{" + plain
  {
  }

  lemma {:induction false} MinifyMembers(c: Chain, depth: nat, fmt: bool, t: string)
    requires PlainMembers(c)
    ensures Minify(PrintMembers(c, depth, fmt) + t) == Prepend(PrintMembers(c, depth, false), Minify(t))
    decreases c, 0
  {
    if c.End? {
      MinifyInert("", t);
    } else {
      var ind, name, tab := if fmt then Tabs(depth) else "", PrintString(c.name.value), if fmt then "\t" else "";
      var value, comma, nl := PrintValue(c.item, depth, fmt), if c.next.End? then "" else ",", if fmt then "\n" else "";
      var next := PrintMembers(c.next, depth, fmt);
      MemberText(ind, name, ":" + tab, value, comma, nl, next, t);
      TabsBlank(depth);
      MinifyBlanks(ind, name + ((":" + tab) + (value + ((comma + nl) + (next + t)))));
      MinifyString(c.name.value, (":" + tab) + (value + ((comma + nl) + (next + t))));
      MinifySeparator(":", tab, value + ((comma + nl) + (next + t)));
      MinifyValue(c.item, depth, fmt, (comma + nl) + (next + t));
      MinifySeparator(comma, nl, next + t);
      MinifyMembers(c.next, depth, fmt, t);
      MemberPrepend(name, PrintValue(c.item, depth, false), comma, PrintMembers(c.next, depth, false), Minify(t));
      assert PrintMembers(c, depth, fmt) == ind + name + (":" + tab) + value + comma + nl + next by {
        assert ":" + tab == if fmt then ":\t" else ":";
      }
    }
  }

  lemma MemberText(ind: string, name: string, colon: string, value: string, comma: string, nl: string,
                   next: string, t: string)
    ensures ind + name + colon + value + comma + nl + next + t
            == ind + (name + (colon + (value + ((comma + nl) + (next + t)))))
  {
    Assoc(ind + name + colon + value + comma + nl, next, t);
    Assoc(ind + name + colon + value, comma, nl);
    Assoc(ind + name + colon + value, comma + nl, next + t);
    Assoc(ind + name + colon, value, (comma + nl) + (next + t));
    Assoc(ind + name, colon, value + ((comma + nl) + (next + t)));
    Assoc(ind, name, colon + (value + ((comma + nl) + (next + t))));
  }

  lemma MemberPrepend(name: string, value: string, comma: string, next: string, o: Option<string>)
    ensures Prepend(name, Prepend(":", Prepend(value, Prepend(comma, Prepend(next, o)))))
            == Prepend(("" + name) + ":" + value + comma + "" + next, o)
  {
    PrependTwice(comma, next, o);
    PrependTwice(value, comma + next, o);
    PrependTwice(":", value + (comma + next), o);
    PrependTwice(name, ":" + (value + (comma + next)), o);
    MemberText("", name, ":", value, comma, "", next, "");
    assert comma + "" == comma && next + "" == next;
    assert "" + name + ":" + value + comma + "" + next + "" == "" + name + ":" + value + comma + "" + next;
    assert "" + (name + (":" + (value + (comma + next)))) == name + (":" + (value + (comma + next)));
  }

  /** Minifying the output of either printer yields the unformatted output. */
  lemma MinifyPrint(v: Item)
    requires Plain(v)
    ensures Minify(Print(v)) == Some(PrintUnformatted(v)) == Minify(PrintUnformatted(v))
  {
    MinifyValue(v, 0, true, "");
    MinifyValue(v, 0, false, "");
    assert Print(v) + "" == Print(v) && PrintUnformatted(v) + "" == PrintUnformatted(v);
  }

  // ---------------------------------------------------------------------------------
  // In place
  // ---------------------------------------------------------------------------------

  /** The buffer still holds the text from position r on, and its terminator. */
  predicate Holds(buffer: seq<char>, text: string, r: nat)
  {
    r <= |text| < |buffer| && buffer[|text|] == '\0' && forall k :: r <= k < |text| ==> buffer[k] == text[k]
  }

  method LineComment(json: array<char>, start: nat, ghost text: string) returns (r: nat)
    requires NulFree(text) && start < |text| && Holds(json[..], text, start) && text[start] != '\n'
    ensures start < r <= |text| && text[r..] == SkipLine(text[start + 1..])
  {
    r := start;
    while json[r] != '\0' && json[r] != '\n'
      invariant start <= r <= |text|
      invariant SkipLine(text[r..]) == SkipLine(text[start..])
      decreases |text| - r
    {
      assert text[r..][1..] == text[r + 1..];
      r := r + 1;
    }
    assert text[start..][1..] == text[start + 1..];
  }

  method BlockComment(json: array<char>, start: nat, ghost text: string) returns (r: nat)
    requires NulFree(text) && start < |text| && Holds(json[..], text, start) && text[start] != '*'
    requires SkipBlock(text[start + 1..]).Some?
    ensures start < r <= |text| && SkipBlock(text[start + 1..]) == Some(text[r..])
  {
    r := start;
    assert text[start..][1..] == text[start + 1..];
    while json[r] != '\0' && !(json[r] == '*' && json[r + 1] == '/')
      invariant start <= r <= |text|
      invariant SkipBlock(text[r..]) == SkipBlock(text[start..])
      decreases |text| - r
    {
      assert text[r..][1..] == text[r + 1..];
      r := r + 1;
    }
    r := r + 2;
    assert text[r - 2..][2..] == text[r..];
  }

  /** Moves one character down. */
  method Move(json: array<char>, r: nat, w: nat, ghost text: string)
    requires w <= r < |text| < json.Length && Holds(json[..], text, r)
    modifies json
    ensures Holds(json[..], text, r + 1)
    ensures json[..w + 1] == old(json[..w]) + [text[r]]
    ensures json[|text|..] == old(json[|text|..])
  {
    json[w] := json[r];
  }

  /** Moves a character of a string literal down, with the one after it if it is a backslash. */
  method LiteralChar(json: array<char>, start: nat, into: nat, ghost text: string) returns (r: nat, w: nat)
    requires NulFree(text) && into <= start < |text| < json.Length && Holds(json[..], text, start)
    requires text[start] == '\\' ==> start + 1 < |text|
    modifies json
    ensures r == start + (if text[start] == '\\' then 2 else 1) && w <= r <= |text| && Holds(json[..], text, r)
    ensures json[..w] == old(json[..into]) + text[start..r]
    ensures json[|text|..] == old(json[|text|..])
  {
    r, w := start, into;
    CharSlice(text, start, json[..into]);
    if json[r] == '\\' {
      Move(json, r, w, text);
      r, w := r + 1, w + 1;
    }
    Move(json, r, w, text);
    r, w := r + 1, w + 1;
  }

  lemma CharSlice(text: string, start: nat, done: string)
    requires start < |text|
    ensures done + [text[start]] == done + text[start..start + 1]
    ensures start + 1 < |text| ==> done + [text[start]] + [text[start + 1]] == done + text[start..start + 2]
  {
    assert text[start..start + 1] == [text[start]];
    if start + 1 < |text| {
      assert text[start..start + 2] == [text[start]] + [text[start + 1]];
      Assoc(done, [text[start]], [text[start + 1]]);
    }
  }

  lemma CopyStep(text: string, r: nat, done: string)
    requires r <= |text| && CopyString(text[r..]).Some?
    ensures r < |text| && text[r..][0] == text[r]
    ensures text[r] == '\"' ==> CopyString(text[r..]) == Some(("\"", text[r + 1..]))
    ensures var n := if text[r] == '\\' then 2 else 1;
            text[r] != '\"' ==>
              && r + n <= |text| && CopyString(text[r + n..]).Some?
              && CopyString(text[r..]).value.1 == CopyString(text[r + n..]).value.1
              && done + CopyString(text[r..]).value.0 == (done + text[r..r + n]) + CopyString(text[r + n..]).value.0
  {
    var n := if text[r] == '\\' then 2 else 1;
    if text[r] == '\"' {
      assert text[r..][1..] == text[r + 1..];
    } else {
      assert text[r..][n..] == text[r + n..] && text[r..][..n] == text[r..r + n];
      Assoc(done, text[r..r + n], CopyString(text[r + n..]).value.0);
    }
  }

  /** One round of the copy. */
  method LiteralStep(json: array<char>, start: nat, into: nat, ghost text: string) returns (r: nat, w: nat)
    requires NulFree(text) && into <= start < |text| < json.Length && Holds(json[..], text, start)
    requires CopyString(text[start..]).Some? && text[start] != '\"'
    modifies json
    ensures start < r < |text| && w <= r && Holds(json[..], text, r)
    ensures CopyString(text[r..]).Some? && CopyString(text[r..]).value.1 == CopyString(text[start..]).value.1
    ensures json[..w] + CopyString(text[r..]).value.0 == old(json[..into]) + CopyString(text[start..]).value.0
    ensures json[|text|..] == old(json[|text|..])
  {
    CopyStep(text, start, json[..into]);
    r, w := LiteralChar(json, start, into, text);
    CopyStep(text, r, json[..w]);
  }

  /** Moves a string literal down, from after its opening quote on, up to its closing quote. */
  method LiteralBody(json: array<char>, start: nat, into: nat, ghost text: string) returns (r: nat, w: nat)
    requires NulFree(text) && into <= start < |text| < json.Length && Holds(json[..], text, start)
    requires CopyString(text[start..]).Some?
    modifies json
    ensures start <= r < |text| && w <= r && Holds(json[..], text, r) && text[r] == '\"'
    ensures var (s, rest) := CopyString(text[start..]).value;
            rest == text[r + 1..] && json[..w] + "\"" == old(json[..into]) + s
    ensures json[|text|..] == old(json[|text|..])
  {
    r, w := start, into;
    ghost var total, rest := json[..w] + CopyString(text[r..]).value.0, CopyString(text[r..]).value.1;
    while json[r] != '\0' && json[r] != '\"'
      invariant start <= r < |text| && w <= r && Holds(json[..], text, r)
      invariant CopyString(text[r..]).Some?
      invariant CopyString(text[r..]).value.1 == rest
      invariant json[..w] + CopyString(text[r..]).value.0 == total
      invariant json[|text|..] == old(json[|text|..])
      decreases |text| - r
    {
      r, w := LiteralStep(json, r, w, text);
    }
    CopyStep(text, r, json[..w]);
  }

  /** Moves a string literal down. */
  method Literal(json: array<char>, start: nat, into: nat, ghost text: string) returns (r: nat, w: nat)
    requires NulFree(text) && into <= start < |text| < json.Length && Holds(json[..], text, start)
    requires text[start] == '\"' && CopyString(text[start + 1..]).Some?
    modifies json
    ensures start < r <= |text| && w <= r && Holds(json[..], text, r)
    ensures var (s, rest) := CopyString(text[start + 1..]).value;
            rest == text[r..] && json[..w] == (old(json[..into]) + "\"") + s
    ensures json[|text|..] == old(json[|text|..])
  {
    CopyThere(text, start + 1);
    ghost var front := json[..into];
    Move(json, start, into, text);
    assert json[..into + 1] == front + "\"";
    r, w := LiteralBody(json, start + 1, into + 1, text);
    ghost var body := json[..w];
    Move(json, r, w, text);
    r, w := r + 1, w + 1;
    assert json[..w] == body + "\"";
  }

  lemma CopyThere(text: string, r: nat)
    requires r <= |text| && CopyString(text[r..]).Some?
    ensures r < |text|
  {
  }

  /** One round of the main loop. */
  lemma MinifyStep(text: string, r: nat, done: string)
    requires r < |text| && Minify(text[r..]).Some?
    ensures IsBlank(text[r]) ==> Minify(text[r..]) == Minify(text[r + 1..])
    ensures !IsBlank(text[r]) && text[r] != '\"' && !(text[r] == '/' && (At(text, r + 1) == '/' || At(text, r + 1) == '*'))
            ==> Minify(text[r + 1..]).Some? && done + Minify(text[r..]).value == (done + [text[r]]) + Minify(text[r + 1..]).value
    ensures text[r] == '\"' ==>
              && CopyString(text[r + 1..]).Some?
              && var (s, rest) := CopyString(text[r + 1..]).value;
                 Minify(rest).Some? && done + Minify(text[r..]).value == ((done + "\"") + s) + Minify(rest).value
  {
    var t := text[r..];
    assert t[1..] == text[r + 1..] && At(t, 1) == At(text, r + 1);
    if t[0] == '\"' {
      var (s, rest) := CopyString(text[r + 1..]).value;
      Assoc(done, "\"", s);
      Assoc(done, "\"" + s, Minify(rest).value);
    } else if Minify(text[r + 1..]).Some? {
      Assoc(done, [text[r]], Minify(text[r + 1..]).value);
    }
  }

  lemma CommentStep(text: string, r: nat)
    requires r < |text| && Minify(text[r..]).Some? && text[r] == '/'
    ensures At(text, r + 1) == '/' ==> Minify(text[r..]) == Minify(SkipLine(text[r + 1..]))
    ensures At(text, r + 1) == '*' ==>
              SkipBlock(text[r + 1..]).Some? && Minify(text[r..]) == Minify(SkipBlock(text[r + 1..]).value)
  {
    var t := text[r..];
    assert t[1..] == text[r + 1..] && At(t, 1) == At(text, r + 1);
  }

  /** What is left to do, after done was written: the rest of the text from r on. */
  predicate Left(text: string, r: nat, done: string, total: string)
  {
    r <= |text| && Minify(text[r..]).Some? && done + Minify(text[r..]).value == total
  }

  /** One round of the main loop. */
  method MinifyRound(json: array<char>, start: nat, into: nat, ghost text: string, ghost total: string)
    returns (r: nat, w: nat)
    requires NulFree(text) && into <= start < |text| < json.Length && Holds(json[..], text, start)
    requires Left(text, start, json[..into], total)
    modifies json
    ensures w <= r && start < r <= |text| && Holds(json[..], text, r) && Left(text, r, json[..w], total)
    ensures json[|text|..] == old(json[|text|..])
  {
    r, w := start, into;
    MinifyStep(text, r, json[..w]);
    if json[r] == ' ' || json[r] == '\t' || json[r] == '\r' || json[r] == '\n' {
      r := r + 1;
    } else if json[r] == '/' && json[r + 1] == '/' {
      CommentStep(text, r);
      r := LineComment(json, r, text);
    } else if json[r] == '/' && json[r + 1] == '*' {
      CommentStep(text, r);
      r := BlockComment(json, r, text);
    } else if json[r] == '\"' {
      r, w := Literal(json, r, w, text);
    } else {
      Move(json, r, w, text);
      r, w := r + 1, w + 1;
    }
  }

  /** The text in the buffer is replaced by its minified form. No write passes the read position, no read or
      write leaves the text and its terminator. */
  method MinifyInPlace(json: array<char>, ghost text: string)
    requires NulFree(text) && |text| < json.Length && Holds(json[..], text, 0) && Minify(text).Some?
    modifies json
    ensures Minify(text).value + "\0" <= json[..]
    ensures json[|text|..] == old(json[|text|..])
  {
    var r: nat, w: nat := 0, 0;
    assert text[0..] == text && json[..0] + Minify(text).value == Minify(text).value;
    while json[r] != '\0'
      invariant w <= r <= |text| && Holds(json[..], text, r)
      invariant Left(text, r, json[..w], Minify(text).value)
      invariant json[|text|..] == old(json[|text|..])
      decreases |text| - r
    {
      r, w := MinifyRound(json, r, w, text, Minify(text).value);
    }
    Terminate(json, r, w, text);
  }

  method Terminate(json: array<char>, r: nat, w: nat, ghost text: string)
    requires w <= r == |text| < json.Length && json[r] == '\0'
    modifies json
    ensures old(json[..w]) + "\0" <= json[..]
    ensures json[|text|..] == old(json[|text|..])
  {
    json[w] := '\0';
    assert json[..w] + "\0" == json[..w + 1];
  }
}
