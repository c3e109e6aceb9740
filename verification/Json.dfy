/** JSON trees and their text: what the printers write and what the parser reads. Text is a sequence of
    characters standing for bytes; the terminating NUL is the end of the sequence, so `At` yields NUL there.
    The parser is given on suffixes of its input: it returns what it built and the text that is left. */
module Json {
  import opened Wrappers
  import opened Sequences

  /** An item with its name, and the items after it: the child list of an array or object. */
  datatype Chain = End | Link(name: Option<string>, item: Item, next: Chain)

  datatype Item =
    | Null
    | False
    | True
    | Number(valuedouble: real)
    | String(valuestring: string)
    | Array(child: Chain)
    | Object(child: Chain)

  /** What becomes of a text: a value is read and some text is left, or null is returned, or the source would
      leave the text or the buffer it writes to. */
  datatype Parsed<T> = Read(value: T, rest: string) | Rejected | Unsafe

  function At(t: string, i: nat): char
  {
    if i < |t| then t[i] else '\0'
  }

  /** Taking the first character off a text that starts with a. */
  lemma Peel(a: string, b: string)
    requires a != ""
    ensures (a + b)[0] == a[0] && (a + b)[1..] == a[1..] + b
    ensures |a| == 1 ==> (a + b)[1..] == b
  {
  }

  lemma Empty(a: string)
    ensures "" + a == a && a + "" == a
  {
  }

  const BACKSPACE: char := 8 as char
  const FORMFEED: char := 12 as char

  // ---------------------------------------------------------------------------------
  // Numbers
  // ---------------------------------------------------------------------------------

  predicate IsDigit(c: char) { '0' <= c <= '9' }

  function DigitValue(c: char): nat
    requires IsDigit(c)
  {
    c as int - '0' as int
  }

  function DigitChar(d: nat): (c: char)
    requires d < 10
    ensures IsDigit(c) && DigitValue(c) == d
  {
    ('0' as int + d) as char
  }

  function Decimal(n: nat): (t: string)
    ensures |t| > 0 && IsDigit(t[0]) && (n > 0 ==> t[0] != '0')
  {
    if n < 10 then [DigitChar(n)] else Decimal(n / 10) + [DigitChar(n % 10)]
  }

  /** "%d" */
  function PrintInt(n: int): string
  {
    if n < 0 then "-" + Decimal(-n) else Decimal(n)
  }

  /** Reads digits onto n. */
  function ParseDigits(t: string, n: nat): (r: (nat, string))
    ensures |r.1| <= |t| && !IsDigit(At(r.1, 0))
    ensures IsDigit(At(t, 0)) ==> |r.1| < |t|
    decreases |t|
  {
    if IsDigit(At(t, 0)) then ParseDigits(t[1..], 10 * n + DigitValue(t[0])) else (n, t)
  }

  function Pow10(e: int): real
    decreases if e < 0 then -e else e
  {
    if e == 0 then 1.0 else if e > 0 then 10.0 * Pow10(e - 1) else Pow10(e + 1) / 10.0
  }

  /** The exponent part, if there is one. */
  function ParseExponent(t: string): (r: (int, string))
    ensures |r.1| <= |t|
  {
    if At(t, 0) == 'e' || At(t, 0) == 'E' then
      var u := t[1..];
      var negative := At(u, 0) == '-';
      var (n, rest) := ParseDigits(if negative || At(u, 0) == '+' then u[1..] else u, 0);
      var e := if negative then 0 - n else n;
      (e, rest)
    else (0, t)
  }

  function ParseNumber(t: string): (r: (real, string))
    ensures |r.1| <= |t|
    ensures At(t, 0) == '-' || IsDigit(At(t, 0)) ==> |r.1| < |t|
  {
    var t1 := if At(t, 0) == '-' then t[1..] else t;
    var t2 := if At(t1, 0) == '0' then t1[1..] else t1;
    var (n, t3) := if '1' <= At(t2, 0) <= '9' then ParseDigits(t2, 0) else (0, t2);
    var (m, t4) := if At(t3, 0) == '.' && IsDigit(At(t3, 1)) then ParseDigits(t3[1..], n) else (n, t3);
    var scale := if At(t3, 0) == '.' && IsDigit(At(t3, 1)) then |t4| - |t3| + 1 else 0;
    var (subscale, rest) := ParseExponent(t4);
    (Scaled(At(t, 0) == '-', m, scale + subscale), rest)
  }

  function Scaled(negative: bool, n: nat, e: int): real
  {
    (if negative then -1.0 else 1.0) * (n as real) * Pow10(e)
  }

  /** What cannot continue an integer. */
  predicate EndsNumber(t: string)
  {
    !IsDigit(At(t, 0)) && At(t, 0) != '.' && At(t, 0) != 'e' && At(t, 0) != 'E'
  }

  lemma {:induction false} DigitsOfDecimal(n: nat, rest: string)
    ensures ParseDigits(Decimal(n) + rest, 0) == ParseDigits(rest, n)
    decreases n
  {
    if n < 10 {
      assert (Decimal(n) + rest)[1..] == rest;
    } else {
      var last := [DigitChar(n % 10)];
      assert Decimal(n) + rest == Decimal(n / 10) + (last + rest);
      DigitsOfDecimal(n / 10, last + rest);
      assert (last + rest)[1..] == rest;
    }
  }

  lemma IntRoundTrip(n: int, rest: string)
    requires EndsNumber(rest)
    ensures ParseNumber(PrintInt(n) + rest) == (n as real, rest)
    ensures At(PrintInt(n) + rest, 0) == '-' || IsDigit(At(PrintInt(n) + rest, 0))
  {
    var t := PrintInt(n) + rest;
    var m := if n < 0 then -n else n;
    WholeRead(m, rest);
    if n < 0 {
      assert t[1..] == Decimal(m) + rest;
    }
  }

  /** The digits before the point. */
  lemma WholeRead(m: nat, rest: string)
    requires EndsNumber(rest)
    ensures var t1 := Decimal(m) + rest;
            var t2 := if At(t1, 0) == '0' then t1[1..] else t1;
            && IsDigit(At(t1, 0))
            && (if '1' <= At(t2, 0) <= '9' then ParseDigits(t2, 0) else (0, t2)) == (m, rest)
  {
    var t1 := Decimal(m) + rest;
    DigitsOfDecimal(m, rest);
    assert t1[0] == Decimal(m)[0];
    if m == 0 {
      assert t1[1..] == rest;
    }
  }

  // ---------------------------------------------------------------------------------
  // Strings
  // ---------------------------------------------------------------------------------

  function HexChar(d: nat): (c: char)
    requires d < 16
  {
    if d < 10 then DigitChar(d) else ('a' as int + (d - 10)) as char
  }

  /** One character as the printer writes it. */
  function EscapeChar(c: char): (t: string)
    requires c != '\0'
  {
    if c as int > 31 && c != '\"' && c != '\\' then [c]
    else if c == '\\' then "\\\\"
    else if c == '\"' then "\\\""
    else if c == BACKSPACE then "\\b"
    else if c == FORMFEED then "\\f"
    else if c == '\n' then "\\n"
    else if c == '\r' then "\\r"
    else if c == '\t' then "\\t"
    else "\\u00" + [HexChar(c as int / 16), HexChar(c as int % 16)]
  }

  predicate NulFree(s: string)
  {
    '\0' !in s
  }

  function Escape(s: string): string
    requires NulFree(s)
  {
    if s == "" then "" else EscapeChar(s[0]) + Escape(s[1..])
  }

  function PrintString(s: string): string
    requires NulFree(s)
  {
    "\"" + Escape(s) + "\""
  }

  predicate IsHex(c: char) { '0' <= c <= '9' || 'A' <= c <= 'F' || 'a' <= c <= 'f' }

  function HexValue(c: char): (v: nat)
    requires IsHex(c)
    ensures v < 16
  {
    if '0' <= c <= '9' then c as int - '0' as int
    else if 'A' <= c <= 'F' then 10 + c as int - 'A' as int
    else 10 + c as int - 'a' as int
  }

  /** Four hexadecimal digits, or 0 if one of them is not. */
  function ParseHex4(t: string): (h: nat)
    ensures h < 0x1_0000
  {
    if IsHex(At(t, 0)) && IsHex(At(t, 1)) && IsHex(At(t, 2)) && IsHex(At(t, 3))
    then ((HexValue(t[0]) * 16 + HexValue(t[1])) * 16 + HexValue(t[2])) * 16 + HexValue(t[3])
    else 0
  }

  /** UTF-8 as the parser computes it, last byte first: (uc | 0x80) & 0xBF keeps six bits under 10xxxxxx. */
  function Utf8(uc: nat): (t: string)
    requires uc < 0x11_0000
    ensures 1 <= |t| <= 4 && (uc < 0x1_0000 ==> |t| <= 3)
  {
    if uc < 0x80 then [uc as char]
    else if uc < 0x800 then [(0xC0 + uc / 64) as char, (0x80 + uc % 64) as char]
    else if uc < 0x1_0000 then
      [(0xE0 + uc / 64 / 64) as char, (0x80 + uc / 64 % 64) as char, (0x80 + uc % 64) as char]
    else
      [(0xF0 + uc / 64 / 64 / 64) as char, (0x80 + uc / 64 / 64 % 64) as char,
       (0x80 + uc / 64 % 64) as char, (0x80 + uc % 64) as char]
  }

  /** One escape: t is the text after the backslash. Yields the bytes written and the text after the escape,
      or None if the source would step over the end of the text. */
  function ParseEscape(t: string): (r: Option<(string, string)>)
    ensures r.Some? ==> |r.value.1| < |t|
  {
    if t == "" then None
    else if t[0] == 'b' then Some(([BACKSPACE], t[1..]))
    else if t[0] == 'f' then Some(([FORMFEED], t[1..]))
    else if t[0] == 'n' then Some(("\n", t[1..]))
    else if t[0] == 'r' then Some(("\r", t[1..]))
    else if t[0] == 't' then Some(("\t", t[1..]))
    else if t[0] != 'u' then Some(([t[0]], t[1..]))
    else if |t| < 5 then None
    else ParseUnicode(ParseHex4(t[1..]), t[5..])
  }

  /** The rest of a \u escape with code unit uc; t is the text after its digits. */
  function ParseUnicode(uc: nat, t: string): (r: Option<(string, string)>)
    requires uc < 0x1_0000
    ensures r.Some? ==> |r.value.1| <= |t|
  {
    if uc == 0 || 0xDC00 <= uc <= 0xDFFF then Some(("", t))
    else if !(0xD800 <= uc <= 0xDBFF) then Some((Utf8(uc), t))
    else if At(t, 0) != '\\' || At(t, 1) != 'u' then Some(("", t))
    else if |t| < 6 then None
    else
      var uc2 := ParseHex4(t[2..]);
      if uc2 < 0xDC00 || uc2 > 0xDFFF then Some(("", t[6..]))
      else Some((Utf8(0x1_0000 + uc % 0x400 * 0x400 + uc2 % 0x400), t[6..]))
  }

  /** The first pass over the body of a string: one for each character and for each pair that starts with a
      backslash, and the text where it stops, at a quote or the end. None if it steps over the end. */
  function FirstPass(t: string): (r: Option<(nat, string)>)
    ensures r.Some? ==> |r.value.1| <= |t|
    decreases |t|
  {
    if t == "" || t[0] == '\"' then Some((0, t))
    else if t[0] != '\\' then OneMore(FirstPass(t[1..]))
    else if |t| < 2 then None
    else OneMore(FirstPass(t[2..]))
  }

  function OneMore(r: Option<(nat, string)>): Option<(nat, string)>
  {
    match r
    case None => None
    case Some((n, stop)) => Some((n + 1, stop))
  }

  /** The second pass: the bytes written, and the text where it stops. */
  function SecondPass(t: string): (r: Option<(string, string)>)
    ensures r.Some? ==> |r.value.1| <= |t|
    decreases |t|
  {
    if t == "" || t[0] == '\"' then Some(("", t))
    else if t[0] != '\\' then Written([t[0]], SecondPass(t[1..]))
    else
      match ParseEscape(t[1..])
      case None => None
      case Some((e, u)) => Written(e, SecondPass(u))
  }

  function Written(e: string, r: Option<(string, string)>): Option<(string, string)>
  {
    match r
    case None => None
    case Some((s, stop)) => Some((e + s, stop))
  }

  /** Both passes stay inside the text, and the second one inside the buffer that the first one sized. */
  predicate Safe(t: string)
  {
    FirstPass(t).Some? && SecondPass(t).Some? && |SecondPass(t).value.0| <= FirstPass(t).value.0
  }

  function AfterQuote(stop: string): string
  {
    if stop == "" then "" else stop[1..]
  }

  function ParseString(t: string): (r: Parsed<string>)
    ensures r.Read? ==> |r.rest| < |t|
  {
    if At(t, 0) != '\"' then Rejected
    else if !Safe(t[1..]) then Unsafe
    else
      var (s, stop) := SecondPass(t[1..]).value;
      Read(s, AfterQuote(stop))
  }

  // ---------------------------------------------------------------------------------
  // Printing
  // ---------------------------------------------------------------------------------

  predicate IsInt32(r: real)
  {
    r.Floor as real == r && -0x8000_0000 <= r.Floor <= 0x7FFF_FFFF
  }

  /** Trees the printers are modelled on: int32 numbers, NUL-free strings, names on the members of objects
      and on nothing else. */
  predicate Plain(v: Item)
  {
    match v
    case Number(r) => IsInt32(r)
    case String(s) => NulFree(s)
    case Array(c) => PlainItems(c)
    case Object(c) => PlainMembers(c)
    case _ => true
  }

  predicate PlainItems(c: Chain)
  {
    c.End? || (c.name.None? && Plain(c.item) && PlainItems(c.next))
  }

  predicate PlainMembers(c: Chain)
  {
    c.End? || (c.name.Some? && NulFree(c.name.value) && Plain(c.item) && PlainMembers(c.next))
  }

  function Tabs(n: int): string
  {
    if n <= 0 then "" else "\t" + Tabs(n - 1)
  }

  function PrintValue(v: Item, depth: nat, fmt: bool): string
    requires Plain(v)
  {
    match v
    case Null => "null"
    case False => "false"
    case True => "true"
    case Number(r) => PrintInt(r.Floor)
    case String(s) => PrintString(s)
    case Array(c) => if c.End? then "[]" else "[" + PrintItems(c, depth + 1, fmt) + "]"
    case Object(c) =>
      if c.End? then "{" + (if fmt then "\n" + Tabs(depth - 1) else "") + "}"
      else "{" + (if fmt then "\n" else "") + PrintMembers(c, depth + 1, fmt) + (if fmt then Tabs(depth) else "") + "}"
  }

  /** The entries of an array, with a comma, and in formatted output a blank, after all but the last. */
  function PrintItems(c: Chain, depth: nat, fmt: bool): string
    requires PlainItems(c)
  {
    if c.End? then ""
    else
      PrintValue(c.item, depth, fmt)
      + (if c.next.End? then "" else if fmt then ", " else ",")
      + PrintItems(c.next, depth, fmt)
  }

  /** The entries of an object, in formatted output each on an indented line of its own. */
  function PrintMembers(c: Chain, depth: nat, fmt: bool): string
    requires PlainMembers(c)
  {
    if c.End? then ""
    else
      (if fmt then Tabs(depth) else "")
      + PrintString(c.name.value) + (if fmt then ":\t" else ":")
      + PrintValue(c.item, depth, fmt)
      + (if c.next.End? then "" else ",") + (if fmt then "\n" else "")
      + PrintMembers(c.next, depth, fmt)
  }

  function Print(v: Item): string
    requires Plain(v)
  {
    PrintValue(v, 0, true)
  }

  function PrintUnformatted(v: Item): string
    requires Plain(v)
  {
    PrintValue(v, 0, false)
  }

  // ---------------------------------------------------------------------------------
  // Parsing
  // ---------------------------------------------------------------------------------

  predicate IsSpace(c: char) { 0 < c as int <= 32 }

  function Skip(t: string): (r: string)
    ensures |r| <= |t| && !IsSpace(At(r, 0))
    decreases |t|
  {
    if IsSpace(At(t, 0)) then Skip(t[1..]) else t
  }

  function ParseValue(t: string): (r: Parsed<Item>)
    ensures r.Read? ==> |r.rest| < |t|
    decreases |t|, 0
  {
    if "null" <= t then Read(Null, t[4..])
    else if "false" <= t then Read(False, t[5..])
    else if "true" <= t then Read(True, t[4..])
    else if At(t, 0) == '\"' then
      (match ParseString(t)
       case Read(s, rest) => Read(String(s), rest)
       case Rejected => Rejected
       case Unsafe => Unsafe)
    else if At(t, 0) == '-' || IsDigit(At(t, 0)) then
      var (n, rest) := ParseNumber(t);
      Read(Number(n), rest)
    else if At(t, 0) == '[' then
      var u := Skip(t[1..]);
      if At(u, 0) == ']' then Read(Array(End), u[1..])
      else
        (match ParseItems(u)
         case Read(c, rest) => Read(Array(c), rest)
         case Rejected => Rejected
         case Unsafe => Unsafe)
    else if At(t, 0) == '{' then
      var u := Skip(t[1..]);
      if At(u, 0) == '}' then Read(Object(End), u[1..])
      else
        (match ParseMembers(u)
         case Read(c, rest) => Read(Object(c), rest)
         case Rejected => Rejected
         case Unsafe => Unsafe)
    else Rejected
  }

  /** An entry in front of the others. */
  function Before(name: Option<string>, v: Item, r: Parsed<Chain>): Parsed<Chain>
  {
    match r
    case Read(c, rest) => Read(Link(name, v, c), rest)
    case Rejected => Rejected
    case Unsafe => Unsafe
  }

  /** Array entries up to and including the closing bracket. */
  function ParseItems(t: string): (r: Parsed<Chain>)
    ensures r.Read? ==> |r.rest| < |t|
    decreases |t|, 1
  {
    match ParseValue(Skip(t))
    case Rejected => Rejected
    case Unsafe => Unsafe
    case Read(v, rest) =>
      var u := Skip(rest);
      if At(u, 0) == ',' then Before(None, v, ParseItems(u[1..]))
      else if At(u, 0) == ']' then Read(Link(None, v, End), u[1..])
      else Rejected
  }

  /** Object entries up to and including the closing brace. */
  function ParseMembers(t: string): (r: Parsed<Chain>)
    ensures r.Read? ==> |r.rest| < |t|
    decreases |t|, 1
  {
    match ParseString(Skip(t))
    case Rejected => Rejected
    case Unsafe => Unsafe
    case Read(name, rest) =>
      var colon := Skip(rest);
      if At(colon, 0) != ':' then Rejected
      else
        match ParseValue(Skip(colon[1..]))
        case Rejected => Rejected
        case Unsafe => Unsafe
        case Read(v, rest) =>
          var u := Skip(rest);
          if At(u, 0) == ',' then Before(Some(name), v, ParseMembers(u[1..]))
          else if At(u, 0) == '}' then Read(Link(Some(name), v, End), u[1..])
          else Rejected
  }

  /** The item and the unread text; with `terminated`, only blanks may follow the item. */
  function ParseWithOpts(t: string, terminated: bool): (r: Parsed<Item>)
  {
    match ParseValue(Skip(t))
    case Rejected => Rejected
    case Unsafe => Unsafe
    case Read(v, rest) =>
      if !terminated then Read(v, rest)
      else if Skip(rest) == "" then Read(v, "") else Rejected
  }
}
