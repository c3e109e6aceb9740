/** The parser's two passes over a string literal: when they stop at the same place, and when the buffer the first
    one sizes is big enough for the second. */
module JsonPasses {
  import opened Json
  import opened Wrappers
  import opened Sequences

  // ---------------------------------------------------------------------------------
  // Where the passes stop
  // ---------------------------------------------------------------------------------

  /** Where the second pass stops: it takes any four characters after \u, quotes included. */
  function Stop(t: string): (r: Option<string>)
    ensures r.Some? ==> |r.value| <= |t|
    decreases |t|
  {
    if t == "" || t[0] == '\"' then Some(t)
    else if t[0] != '\\' then Stop(t[1..])
    else if |t| < 2 then None
    else if t[1] != 'u' then Stop(t[2..])
    else if |t| < 6 then None
    else Stop(t[6..])
  }

  lemma UnicodeRead(t: string)
    requires |t| >= 6 && t[0] == '\\' && t[1] == 'u'
    ensures ParseEscape(t[1..]) == ParseUnicode(ParseHex4(t[2..]), t[6..])
  {
    assert t[1..][1..] == t[2..] && t[1..][5..] == t[6..];
  }

  /** What follows the digits of an escape \u. */
  lemma UnicodeStops(uc: nat, t: string)
    requires uc < 0x1_0000
    ensures match ParseUnicode(uc, t)
            case None => Stop(t) == None
            case Some((e, u)) => Stop(t) == Stop(u)
  {
  }

  lemma SimpleStops(t: string)
    requires |t| >= 2 && t[0] == '\\' && t[1] != 'u'
    ensures ParseEscape(t[1..]).Some? && ParseEscape(t[1..]).value.1 == t[2..]
  {
    assert t[1..][1..] == t[2..];
  }

  lemma EscapeStops(t: string)
    requires t != "" && t[0] == '\\'
    ensures match ParseEscape(t[1..])
            case None => Stop(t) == None
            case Some((e, u)) => Stop(t) == Stop(u)
  {
    if |t| >= 2 && t[1] != 'u' {
      SimpleStops(t);
    } else if |t| >= 6 {
      UnicodeRead(t);
      UnicodeStops(ParseHex4(t[2..]), t[6..]);
    }
  }

  lemma {:induction false} SecondStops(t: string)
    ensures SecondPass(t).Some? <==> Stop(t).Some?
    ensures SecondPass(t).Some? ==> SecondPass(t).value.1 == Stop(t).value
    decreases |t|
  {
    if t == "" || t[0] == '\"' {
    } else if t[0] != '\\' {
      SecondStops(t[1..]);
    } else {
      EscapeStops(t);
      var r := ParseEscape(t[1..]);
      if r.Some? {
        SecondStops(r.value.1);
      }
    }
  }

  /** How the first pass crosses characters that the second one skips: None if it stops at a quote among them,
      otherwise whether it takes the character behind them too, because it pairs it with a backslash. */
  function Cross(k: string): Option<bool>
    decreases |k|
  {
    if k == "" then Some(false)
    else if k[0] == '\"' then None
    else if k[0] != '\\' then Cross(k[1..])
    else if |k| < 2 then Some(true)
    else Cross(k[2..])
  }

  /** From here the passes stop at the same place; if ahead, the first one has taken a character more. Only the
      characters behind \u can bring the passes out of step, and only backslashes keep them so. */
  predicate Agree(t: string, ahead: bool)
    decreases |t|
  {
    if t == "" || t[0] == '\"' then !ahead
    else if t[0] != '\\' then Agree(t[1..], false)
    else if |t| < 2 then false
    else if t[1] == 'u' then |t| >= 6 && Cross(t[2..6]).Some? && Agree(t[6..], Cross(t[2..6]).value)
    else if !ahead then Agree(t[2..], false)
    else t[1] != '\"' && Agree(t[2..], t[1] == '\\')
  }

  /** The first pass on t, if ahead one character later. */
  function First(t: string, ahead: bool): Option<(nat, string)>
  {
    if !ahead then FirstPass(t) else if t == "" then None else FirstPass(t[1..])
  }

  function More(n: nat, r: Option<(nat, string)>): Option<(nat, string)>
  {
    match r
    case None => None
    case Some((m, stop)) => Some((n + m, stop))
  }

  /** How many steps that takes. */
  function Steps(k: string): (n: nat)
    ensures 2 * n >= |k|
    decreases |k|
  {
    if k == "" then 0 else if k[0] != '\\' || |k| < 2 then 1 + Steps(k[1..]) else 1 + Steps(k[2..])
  }

  lemma CrossOrdinary(k: string, u: string)
    requires k != "" && k[0] != '\"' && k[0] != '\\'
    ensures FirstPass(k + u) == OneMore(FirstPass(k[1..] + u))
  {
    assert (k + u)[1..] == k[1..] + u;
  }

  lemma CrossPair(k: string, u: string)
    requires |k| >= 2 && k[0] == '\\'
    ensures FirstPass(k + u) == OneMore(FirstPass(k[2..] + u))
  {
    assert (k + u)[2..] == k[2..] + u;
  }

  lemma CrossLast(u: string)
    ensures FirstPass("\\" + u) == More(1, First(u, true))
  {
    if u != "" {
      assert ("\\" + u)[2..] == u[1..];
    }
  }

  /** The first pass over k and then u. */
  predicate Crosses(k: string, u: string)
  {
    match Cross(k)
    case None => FirstPass(k + u).Some? && |FirstPass(k + u).value.1| > |u|
    case Some(ahead) => FirstPass(k + u) == More(Steps(k), First(u, ahead))
  }

  lemma CrossEnd(k: string, u: string)
    requires |k| == 1 && k[0] == '\\'
    ensures Crosses(k, u)
  {
    assert k == "\\" && k[1..] == "";
    CrossLast(u);
  }

  lemma CrossQuote(k: string, u: string)
    requires k != "" && k[0] == '\"'
    ensures Crosses(k, u)
  {
    assert (k + u)[0] == '\"';
  }

  lemma CrossOne(k: string, u: string)
    requires k != "" && k[0] != '\"' && k[0] != '\\' && Crosses(k[1..], u)
    ensures Crosses(k, u)
  {
    CrossOrdinary(k, u);
  }

  lemma CrossTwo(k: string, u: string)
    requires |k| >= 2 && k[0] == '\\' && Crosses(k[2..], u)
    ensures Crosses(k, u)
  {
    CrossPair(k, u);
  }

  lemma {:induction false} CrossOver(k: string, u: string)
    ensures Crosses(k, u)
    decreases |k|
  {
    if k == "" {
      assert k + u == u;
    } else if k[0] == '\"' {
      CrossQuote(k, u);
    } else if k[0] != '\\' {
      CrossOver(k[1..], u);
      CrossOne(k, u);
    } else if |k| < 2 {
      CrossEnd(k, u);
    } else {
      CrossOver(k[2..], u);
      CrossTwo(k, u);
    }
  }

  /** Both passes at an escape \u. */
  lemma UnicodeSteps(t: string, ahead: bool)
    requires |t| >= 6 && t[0] == '\\' && t[1] == 'u'
    ensures var k, u := t[2..6], t[6..];
            match Cross(k)
            case None => First(t, ahead).Some? && |First(t, ahead).value.1| > |u|
            case Some(late) => First(t, ahead) == More(1 + Steps(k), First(u, late))
  {
    assert t[2..] == t[2..6] + t[6..];
    assert t[1..][1..] == t[2..];
    CrossOver(t[2..6], t[6..]);
  }

  predicate SameStop(t: string, ahead: bool)
  {
    First(t, ahead).Some? && Stop(t).Some? && First(t, ahead).value.1 == Stop(t).value
  }

  lemma {:induction false} AgreeExact(t: string, ahead: bool)
    ensures SameStop(t, ahead) <==> Agree(t, ahead)
    decreases |t|
  {
    if t == "" || t[0] == '\"' {
    } else if t[0] != '\\' {
      AgreeExact(t[1..], false);
    } else if |t| < 2 {
    } else if t[1] == 'u' {
      if |t| >= 6 {
        UnicodeSteps(t, ahead);
        if Cross(t[2..6]).Some? {
          AgreeExact(t[6..], Cross(t[2..6]).value);
        }
      }
    } else {
      assert t[1..][1..] == t[2..];
      if !ahead {
        AgreeExact(t[2..], false);
      } else if t[1] == '\\' {
        AheadOfPair(t);
        AgreeExact(t[2..], true);
      } else {
        AgreeExact(t[2..], false);
      }
    }
  }

  lemma AheadOfPair(t: string)
    requires |t| >= 2 && t[0] == '\\' && t[1] == '\\'
    ensures First(t, true) == More(1, First(t[2..], true))
  {
    var u := t[1..];
    if |t| >= 3 {
      assert u[2..] == t[2..][1..];
    }
  }

  /** Both passes stay inside the text and stop at the same place exactly when the characters behind each \u let
      them. */
  lemma PassesAgree(t: string)
    ensures FirstPass(t).Some? && SecondPass(t).Some? && FirstPass(t).value.1 == SecondPass(t).value.1
            <==> Agree(t, false)
  {
    AgreeExact(t, false);
    SecondStops(t);
  }

  // ---------------------------------------------------------------------------------
  // Room for what is written
  // ---------------------------------------------------------------------------------

  predicate FourHex(t: string)
  {
    IsHex(At(t, 0)) && IsHex(At(t, 1)) && IsHex(At(t, 2)) && IsHex(At(t, 3))
  }

  /** Hexadecimal digits are ordinary characters to the first pass. */
  lemma {:induction false} HexCross(k: string)
    requires forall i :: 0 <= i < |k| ==> IsHex(k[i])
    ensures Cross(k) == Some(false) && Steps(k) == |k|
    decreases |k|
  {
    if k != "" {
      HexCross(k[1..]);
    }
  }

  /** On the way from t to u the first pass takes n steps. */
  predicate Goes(t: string, ahead: bool, u: string, late: bool, n: nat)
  {
    Agree(u, late) && First(t, ahead) == More(n, First(u, late))
  }

  lemma UnicodeGoes(t: string, ahead: bool)
    requires |t| >= 6 && t[0] == '\\' && t[1] == 'u' && Agree(t, ahead)
    ensures Cross(t[2..6]).Some? && Goes(t, ahead, t[6..], Cross(t[2..6]).value, 1 + Steps(t[2..6]))
  {
    UnicodeSteps(t, ahead);
  }

  lemma GoesTwice(t: string, ahead: bool, u: string, late: bool, n: nat, v: string, later: bool, k: nat)
    requires Goes(t, ahead, u, late, n) && Goes(u, late, v, later, k)
    ensures Goes(t, ahead, v, later, n + k)
  {
    MoreTwice(n, k, First(v, later));
  }

  /** An escape \u for the first half of a pair, with a second escape behind it. */
  predicate Paired(t: string)
    requires |t| >= 6
  {
    0xD800 <= ParseHex4(t[2..]) <= 0xDBFF && At(t[6..], 0) == '\\' && At(t[6..], 1) == 'u'
  }

  lemma WrittenAtMost(uc: nat, v: string)
    requires uc < 0x1_0000 && ParseUnicode(uc, v).Some?
    ensures var (e, u) := ParseUnicode(uc, v).value;
            if 0xD800 <= uc <= 0xDBFF && At(v, 0) == '\\' && At(v, 1) == 'u'
            then |v| >= 6 && u == v[6..] && |e| <= if ParseHex4(v[2..]) == 0 then 0 else 4
            else u == v && |e| <= if uc == 0 then 0 else 3
  {
  }

  /** The steps of the first pass over one or two escapes \u, and what the second one writes for them. */
  lemma UnicodeRoom(t: string, ahead: bool) returns (late: bool, n: nat)
    requires |t| >= 6 && t[0] == '\\' && t[1] == 'u' && Agree(t, ahead)
    ensures ParseEscape(t[1..]).Some?
    ensures var (e, u) := ParseEscape(t[1..]).value;
            Goes(t, ahead, u, late, n) && |e| + (if late then 1 else 0) <= n
  {
    var uc, v := ParseHex4(t[2..]), t[6..];
    UnicodeRead(t);
    UnicodeGoes(t, ahead);
    HexOfCross(t);
    late, n := Cross(t[2..6]).value, 1 + Steps(t[2..6]);
    if Paired(t) {
      UnicodeGoes(v, late);
      HexOfCross(v);
      GoesTwice(t, ahead, v, late, n, v[6..], Cross(v[2..6]).value, 1 + Steps(v[2..6]));
      late, n := Cross(v[2..6]).value, n + (1 + Steps(v[2..6]));
    }
    WrittenAtMost(uc, v);
  }

  lemma MoreTwice(n: nat, m: nat, r: Option<(nat, string)>)
    ensures More(n, More(m, r)) == More(n + m, r)
  {
  }

  /** A code unit other than 0 was spelled with four digits. */
  lemma HexOfCross(t: string)
    requires |t| >= 6
    ensures ParseHex4(t[2..]) != 0 ==> Cross(t[2..6]) == Some(false) && Steps(t[2..6]) == 4
  {
    var k, u := t[2..6], t[2..];
    assert At(k, 0) == At(u, 0) && At(k, 1) == At(u, 1) && At(k, 2) == At(u, 2) && At(k, 3) == At(u, 3);
    if FourHex(k) {
      HexCross(k);
    }
  }

  /** When the passes agree there is room enough. */
  lemma {:induction false} AgreeFits(t: string, ahead: bool)
    requires Agree(t, ahead)
    ensures First(t, ahead).Some? && SecondPass(t).Some?
    ensures |SecondPass(t).value.0| <= First(t, ahead).value.0 + if ahead then 1 else 0
    decreases |t|
  {
    AgreeExact(t, ahead);
    SecondStops(t);
    if t == "" || t[0] == '\"' {
    } else if t[0] != '\\' {
      AgreeFits(t[1..], false);
    } else if t[1] == 'u' {
      var late, n := UnicodeRoom(t, ahead);
      AgreeFits(ParseEscape(t[1..]).value.1, late);
    } else {
      assert t[1..][1..] == t[2..];
      if ahead && t[1] == '\\' {
        AheadOfPair(t);
        AgreeFits(t[2..], true);
      } else {
        AgreeFits(t[2..], false);
      }
    }
  }

  lemma AgreeSafe(t: string)
    requires Agree(t, false)
    ensures Safe(t)
  {
    AgreeFits(t, false);
  }

  /** A body whose escape \u has a quote for its third digit: h, a quote and c are skipped, s is copied. */
  function Torn(h: string, c: char, s: string): string
  {
    "\\u" + h + TornTail(c, s)
  }

  function TornTail(c: char, s: string): string
  {
    "\"" + [c] + (s + "\"")
  }

  predicate Ordinary(s: string)
  {
    forall i :: 0 <= i < |s| ==> s[i] != '\"' && s[i] != '\\'
  }

  /** The quote ends the first pass but not the second one, so the buffer for three characters and a terminator is
      overrun whenever more than three follow. */
  lemma TornOverflows(h: string, c: char, s: string)
    requires |h| == 2 && IsHex(h[0]) && IsHex(h[1]) && Ordinary(s)
    ensures FirstPass(Torn(h, c, s)) == Some((3, TornTail(c, s)))
    ensures SecondPass(Torn(h, c, s)) == Some((s, "\""))
    ensures !Agree(Torn(h, c, s), false)
    ensures Safe(Torn(h, c, s)) <==> |s| <= 3
  {
    HexCross(h);
    FirstUntil(h, TornTail(c, s));
    var k := h + "\"" + [c];
    assert Torn(h, c, s) == "\\u" + k + (s + "\"");
    SkipsFour(k, s + "\"");
    PlainWritten(s, "\"");
    PassesAgree(Torn(h, c, s));
  }

  /** The text of such a literal is an input on which cJSON_Parse leaves its buffer. */
  lemma QuoteOverflows()
    ensures ParseValue("\"" + Torn("12", '3', "456789")) == Unsafe
  {
    TornOverflows("12", '3', "456789");
    Peel("\"", Torn("12", '3', "456789"));
  }

  /** The first pass over the start of an escape and two more characters, up to a quote. */
  lemma FirstUntil(s: string, stop: string)
    requires |s| == 2 && Cross(s) == Some(false) && Steps(s) == 2 && At(stop, 0) == '\"'
    ensures FirstPass("\\u" + s + stop) == Some((3, stop))
  {
    CrossOver(s, stop);
    UnicodeStart("\\u" + s + stop, s + stop);
  }

  lemma UnicodeStart(t: string, u: string)
    requires |t| >= 2 && t[0] == '\\' && t[2..] == u
    ensures FirstPass(t) == OneMore(FirstPass(u))
  {
  }

  /** The second pass leaves out four characters that are no digits. */
  lemma SkipsFour(k: string, u: string)
    requires |k| == 4 && !IsHex(k[2])
    ensures SecondPass("\\u" + k + u) == SecondPass(u)
  {
    var t := "\\u" + k + u;
    assert t[1..][1..] == k + u && t[1..][5..] == u;
    assert ParseHex4(k + u) == 0;
    assert ParseEscape(t[1..]) == Some(("", u));
    match SecondPass(u) case None => case Some((s, stop)) => assert "" + s == s;
  }

  lemma {:induction false} PlainWritten(s: string, stop: string)
    requires Ordinary(s) && At(stop, 0) == '\"'
    ensures SecondPass(s + stop) == Some((s, stop))
  {
    if s == "" {
      assert s + stop == stop;
    } else {
      assert (s + stop)[1..] == s[1..] + stop;
      PlainWritten(s[1..], stop);
      assert [s[0]] + s[1..] == s;
    }
  }

  /** A lone backslash leads both passes out of the text. */
  lemma {:induction false} LoneBackslash(s: string)
    requires Ordinary(s)
    ensures FirstPass(s + "\\") == None && SecondPass(s + "\\") == None
  {
    if s == "" {
      assert s + "\\" == "\\";
    } else {
      assert (s + "\\")[1..] == s[1..] + "\\";
      LoneBackslash(s[1..]);
    }
  }

  // ---------------------------------------------------------------------------------
  // Well escaped text
  // ---------------------------------------------------------------------------------

  /** A string body with four hexadecimal digits after every \u, and with no backslash at the very end. */
  predicate WellEscaped(t: string)
    decreases |t|
  {
    if t == "" || t[0] == '\"' then true
    else if t[0] != '\\' then WellEscaped(t[1..])
    else |t| >= 2 && (t[1] == 'u' ==> FourHex(t[2..])) && WellEscaped(t[2..])
  }

  lemma {:induction false} OrdinaryCut(t: string, n: nat)
    requires n <= |t| && WellEscaped(t) && forall i :: 0 <= i < n ==> t[i] != '\"' && t[i] != '\\'
    ensures WellEscaped(t[n..])
    decreases n
  {
    if n == 0 {
      assert t[0..] == t;
    } else {
      OrdinaryCut(t[1..], n - 1);
      assert t[1..][n - 1..] == t[n..];
    }
  }

  lemma {:induction false} WellEscapedAgree(t: string)
    requires WellEscaped(t)
    ensures Agree(t, false)
    decreases |t|
  {
    if t == "" || t[0] == '\"' {
    } else if t[0] != '\\' {
      WellEscapedAgree(t[1..]);
    } else if t[1] != 'u' {
      WellEscapedAgree(t[2..]);
    } else {
      var u := t[2..];
      assert |t| >= 6;
      OrdinaryCut(u, 4);
      assert u[4..] == t[6..];
      WellEscapedAgree(t[6..]);
      var k := t[2..6];
      assert At(k, 0) == At(u, 0) && At(k, 1) == At(u, 1) && At(k, 2) == At(u, 2) && At(k, 3) == At(u, 3);
      HexCross(k);
    }
  }

  lemma WellEscapedSafe(t: string)
    requires WellEscaped(t)
    ensures Safe(t)
  {
    WellEscapedAgree(t);
    AgreeSafe(t);
  }

  // ---------------------------------------------------------------------------------
  // Printed strings
  // ---------------------------------------------------------------------------------

  /** What the printer writes is well escaped, so it can always be read back into the buffer the parser allocates. */
  lemma {:induction false} PrintedWellEscaped(s: string, rest: string)
    requires NulFree(s)
    ensures WellEscaped(Escape(s) + ("\"" + rest))
    decreases |s|
  {
    if s == "" {
      Empty("\"" + rest);
    } else {
      PrintedWellEscaped(s[1..], rest);
      CharWellEscaped(s[0], Escape(s[1..]) + ("\"" + rest));
      Assoc(EscapeChar(s[0]), Escape(s[1..]), "\"" + rest);
    }
  }

  lemma CharWellEscaped(c: char, tail: string)
    requires c != '\0' && WellEscaped(tail)
    ensures WellEscaped(EscapeChar(c) + tail)
  {
    var e := EscapeChar(c);
    var t := e + tail;
    if |e| == 1 {
      assert t[1..] == tail;
    } else if |e| == 2 {
      assert t[2..] == tail;
    } else {
      var h := ['0', '0', HexChar(c as int / 16), HexChar(c as int % 16)];
      assert t[2..] == h + tail;
      OrdinaryPrefix(h, tail);
      assert FourHex(h + tail);
    }
  }

  lemma {:induction false} OrdinaryPrefix(h: string, tail: string)
    requires WellEscaped(tail) && forall i :: 0 <= i < |h| ==> h[i] != '\"' && h[i] != '\\'
    ensures WellEscaped(h + tail)
  {
    if h == "" {
      assert h + tail == tail;
    } else {
      assert (h + tail)[1..] == h[1..] + tail;
      OrdinaryPrefix(h[1..], tail);
    }
  }

  lemma HexOfByte(c: char, rest: string)
    requires 0 < c as int < 32
    ensures ParseHex4(['0', '0', HexChar(c as int / 16), HexChar(c as int % 16)] + rest) == c as int
  {
  }

  lemma EscapeCharRoundTrip(c: char, rest: string)
    requires c != '\0' && (c as int <= 31 || c == '\"' || c == '\\')
    ensures EscapeChar(c)[0] == '\\'
    ensures ParseEscape(EscapeChar(c)[1..] + rest) == Some(([c], rest))
  {
    var t := EscapeChar(c)[1..] + rest;
    if |EscapeChar(c)| == 2 {
      assert t[1..] == rest;
    } else {
      HexOfByte(c, rest);
      assert t[1..] == ['0', '0', HexChar(c as int / 16), HexChar(c as int % 16)] + rest;
      assert t[5..] == rest;
    }
  }

  /** One printed character is read back, whatever follows it. */
  lemma BodyOfChar(c: char, tail: string)
    requires c != '\0'
    ensures SecondPass(EscapeChar(c) + tail) == Written([c], SecondPass(tail))
  {
    var t := EscapeChar(c) + tail;
    if c as int > 31 && c != '\"' && c != '\\' {
      assert t[1..] == tail;
    } else {
      EscapeCharRoundTrip(c, tail);
      Peel(EscapeChar(c), tail);
      EscapeRead(t, [c], tail);
    }
  }

  lemma EscapeRead(t: string, e: string, u: string)
    requires t != "" && t[0] == '\\' && ParseEscape(t[1..]) == Some((e, u))
    ensures SecondPass(t) == Written(e, SecondPass(u))
  {
  }

  /** The parser undoes the printer on every NUL-free string. */
  lemma {:induction false} BodyRoundTrip(s: string, rest: string)
    requires NulFree(s)
    ensures SecondPass(Escape(s) + ("\"" + rest)) == Some((s, "\"" + rest))
    decreases |s|
  {
    if s == "" {
      Empty("\"" + rest);
      Peel("\"", rest);
    } else {
      BodyRoundTrip(s[1..], rest);
      BodyOfChar(s[0], Escape(s[1..]) + ("\"" + rest));
      Assoc(EscapeChar(s[0]), Escape(s[1..]), "\"" + rest);
      assert [s[0]] + s[1..] == s;
    }
  }

  lemma StringRoundTrip(s: string, rest: string)
    requires NulFree(s)
    ensures ParseString(PrintString(s) + rest) == Read(s, rest)
  {
    var t := Escape(s) + ("\"" + rest);
    BodyRoundTrip(s, rest);
    PrintedWellEscaped(s, rest);
    WellEscapedSafe(t);
    Assoc("\"" + Escape(s), "\"", rest);
    Assoc("\"", Escape(s), "\"" + rest);
    Peel("\"", t);
    Peel("\"", rest);
  }
}
