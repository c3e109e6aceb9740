/** Texts that the parser can read without leaving the text or a string's buffer. */
module JsonSafety {
  import opened Json
  import opened JsonPasses
  import opened Wrappers

  predicate CleanAt(t: string, i: nat)
    requires i < |t|
  {
    t[i] == '\\' ==>
      i + 1 < |t| && (t[i + 1] == 'u' ==> IsHex(At(t, i + 2)) && IsHex(At(t, i + 3)) && IsHex(At(t, i + 4)) && IsHex(At(t, i + 5)))
  }

  /** No backslash ends the text, and behind \u there are always four hexadecimal digits. */
  predicate Clean(t: string)
  {
    forall i :: 0 <= i < |t| ==> CleanAt(t, i)
  }

  lemma CleanCut(t: string, n: nat)
    requires Clean(t) && n <= |t|
    ensures Clean(t[n..])
  {
    forall i | 0 <= i < |t[n..]| ensures CleanAt(t[n..], i) {
      assert CleanAt(t, n + i);
    }
  }

  lemma {:induction false} CleanSkip(t: string)
    requires Clean(t)
    ensures Clean(Skip(t))
    decreases |t|
  {
    if IsSpace(At(t, 0)) {
      CleanCut(t, 1);
      CleanSkip(t[1..]);
    }
  }

  lemma {:induction false} CleanDigits(t: string, n: nat)
    requires Clean(t)
    ensures Clean(ParseDigits(t, n).1)
    decreases |t|
  {
    if IsDigit(At(t, 0)) {
      CleanCut(t, 1);
      CleanDigits(t[1..], 10 * n + DigitValue(t[0]));
    }
  }

  lemma CleanExponent(t: string)
    requires Clean(t)
    ensures Clean(ParseExponent(t).1)
  {
    if At(t, 0) == 'e' || At(t, 0) == 'E' {
      CleanCut(t, 1);
      var u := t[1..];
      if At(u, 0) == '-' || At(u, 0) == '+' {
        CleanCut(u, 1);
        CleanDigits(u[1..], 0);
      } else {
        CleanDigits(u, 0);
      }
    }
  }

  lemma CleanOne(t: string, c: bool)
    requires Clean(t) && (c ==> t != "")
    ensures Clean(if c then t[1..] else t)
  {
    if c {
      CleanCut(t, 1);
    }
  }

  lemma CleanNumber(t: string)
    requires Clean(t)
    ensures Clean(ParseNumber(t).1)
  {
    CleanOne(t, At(t, 0) == '-');
    var t1 := if At(t, 0) == '-' then t[1..] else t;
    CleanOne(t1, At(t1, 0) == '0');
    var t2 := if At(t1, 0) == '0' then t1[1..] else t1;
    CleanDigits(t2, 0);
    var (n, t3) := if '1' <= At(t2, 0) <= '9' then ParseDigits(t2, 0) else (0, t2);
    CleanOne(t3, At(t3, 0) == '.');
    if At(t3, 0) == '.' {
      CleanDigits(t3[1..], n);
    }
    var (m, t4) := if At(t3, 0) == '.' && IsDigit(At(t3, 1)) then ParseDigits(t3[1..], n) else (n, t3);
    CleanExponent(t4);
  }

  lemma {:induction false} CleanEscaped(t: string)
    requires Clean(t)
    ensures WellEscaped(t)
    decreases |t|
  {
    if t != "" && t[0] != '\"' {
      assert CleanAt(t, 0);
      CleanCut(t, 1);
      if t[0] != '\\' {
        CleanEscaped(t[1..]);
      } else {
        CleanCut(t, 2);
        CleanEscaped(t[2..]);
      }
    }
  }

  lemma {:induction false} CleanStop(t: string)
    requires Clean(t) && Stop(t).Some?
    ensures Clean(Stop(t).value)
    decreases |t|
  {
    if t == "" || t[0] == '\"' {
    } else {
      var n := if t[0] != '\\' then 1 else if t[1] != 'u' then 2 else 6;
      CleanCut(t, n);
      CleanStop(t[n..]);
    }
  }

  lemma StringSafe(t: string)
    requires Clean(t)
    ensures !ParseString(t).Unsafe?
    ensures ParseString(t).Read? ==> Clean(ParseString(t).rest)
  {
    if At(t, 0) == '\"' {
      CleanCut(t, 1);
      CleanEscaped(t[1..]);
      WellEscapedSafe(t[1..]);
      SecondStops(t[1..]);
      CleanStop(t[1..]);
      CleanOne(Stop(t[1..]).value, Stop(t[1..]).value != "");
    }
  }

  /** Such a text is read or rejected. */
  lemma {:induction false} ValueSafe(t: string)
    requires Clean(t)
    ensures !ParseValue(t).Unsafe?
    ensures ParseValue(t).Read? ==> Clean(ParseValue(t).rest)
    decreases |t|, 0
  {
    if "null" <= t || "true" <= t {
      CleanCut(t, 4);
    } else if "false" <= t {
      CleanCut(t, 5);
    } else if At(t, 0) == '\"' {
      StringSafe(t);
    } else if At(t, 0) == '-' || IsDigit(At(t, 0)) {
      CleanNumber(t);
    } else if At(t, 0) == '[' || At(t, 0) == '{' {
      CleanCut(t, 1);
      CleanSkip(t[1..]);
      var u := Skip(t[1..]);
      if At(t, 0) == '[' {
        if At(u, 0) == ']' { CleanCut(u, 1); } else { ItemsSafe(u); }
      } else {
        if At(u, 0) == '}' { CleanCut(u, 1); } else { MembersSafe(u); }
      }
    }
  }

  lemma {:induction false} ItemsSafe(t: string)
    requires Clean(t)
    ensures !ParseItems(t).Unsafe?
    ensures ParseItems(t).Read? ==> Clean(ParseItems(t).rest)
    decreases |t|, 1
  {
    CleanSkip(t);
    ValueSafe(Skip(t));
    var r := ParseValue(Skip(t));
    if r.Read? {
      CleanSkip(r.rest);
      var u := Skip(r.rest);
      if u != "" {
        CleanCut(u, 1);
        if u[0] == ',' {
          ItemsSafe(u[1..]);
        }
      }
    }
  }

  lemma {:induction false} MembersSafe(t: string)
    requires Clean(t)
    ensures !ParseMembers(t).Unsafe?
    ensures ParseMembers(t).Read? ==> Clean(ParseMembers(t).rest)
    decreases |t|, 1
  {
    CleanSkip(t);
    StringSafe(Skip(t));
    var n := ParseString(Skip(t));
    if n.Read? {
      CleanSkip(n.rest);
      var colon := Skip(n.rest);
      if At(colon, 0) == ':' {
        CleanCut(colon, 1);
        CleanSkip(colon[1..]);
        ValueSafe(Skip(colon[1..]));
        var r := ParseValue(Skip(colon[1..]));
        if r.Read? {
          CleanSkip(r.rest);
          var u := Skip(r.rest);
          if u != "" {
            CleanCut(u, 1);
            if u[0] == ',' {
              MembersSafe(u[1..]);
            }
          }
        }
      }
    }
  }

  /** Whatever else is in it, a text without unfinished escapes is read or rejected. */
  lemma CleanTextSafe(t: string, terminated: bool)
    requires Clean(t)
    ensures !ParseWithOpts(t, terminated).Unsafe?
  {
    CleanSkip(t);
    ValueSafe(Skip(t));
  }

  // ---------------------------------------------------------------------------------
  // Printed text
  // ---------------------------------------------------------------------------------

  lemma {:induction false} EscapeNulFree(s: string)
    requires NulFree(s)
    ensures NulFree(Escape(s))
  {
    if s != "" {
      EscapeNulFree(s[1..]);
    }
  }

  lemma {:induction false} DecimalNulFree(n: nat)
    ensures NulFree(Decimal(n))
  {
    if n >= 10 {
      DecimalNulFree(n / 10);
    }
  }

  lemma {:induction false} TabsNulFree(n: int)
    ensures NulFree(Tabs(n))
  {
    if n > 0 {
      TabsNulFree(n - 1);
    }
  }

  /** What is printed is a C string. */
  lemma {:induction false} PrintNulFree(v: Item, depth: nat, fmt: bool)
    requires Plain(v)
    ensures NulFree(PrintValue(v, depth, fmt))
    decreases v, 0
  {
    match v
    case Number(r) => DecimalNulFree(if r.Floor < 0 then -r.Floor else r.Floor);
    case String(s) => EscapeNulFree(s);
    case Array(c) => ItemsNulFree(c, depth + 1, fmt);
    case Object(c) =>
      MembersNulFree(c, depth + 1, fmt);
      ObjectNulFree(c, depth, fmt);
    case _ =>
  }

  lemma ObjectNulFree(c: Chain, depth: nat, fmt: bool)
    requires PlainMembers(c) && NulFree(PrintMembers(c, depth + 1, fmt))
    ensures NulFree(PrintValue(Object(c), depth, fmt))
  {
    TabsNulFree(depth - 1);
    TabsNulFree(depth);
  }

  lemma {:induction false} ItemsNulFree(c: Chain, depth: nat, fmt: bool)
    requires PlainItems(c)
    ensures NulFree(PrintItems(c, depth, fmt))
    decreases c, 1
  {
    if c.Link? {
      PrintNulFree(c.item, depth, fmt);
      ItemsNulFree(c.next, depth, fmt);
    }
  }

  lemma {:induction false} MembersNulFree(c: Chain, depth: nat, fmt: bool)
    requires PlainMembers(c)
    ensures NulFree(PrintMembers(c, depth, fmt))
    decreases c, 1
  {
    if c.Link? {
      TabsNulFree(depth);
      EscapeNulFree(c.name.value);
      PrintNulFree(c.item, depth, fmt);
      MembersNulFree(c.next, depth, fmt);
    }
  }
}
