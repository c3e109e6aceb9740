/** String literals: the printer's and the parser's two passes over a string, and the UTF-8 the parser writes
    for \u escapes. */
module JsonStrings {
  import opened Json
  import opened JsonPasses
  import opened Wrappers
  import opened Sequences

  // ---------------------------------------------------------------------------------
  // Printing
  // ---------------------------------------------------------------------------------

  lemma EscapeFrom(s: string, i: nat)
    requires NulFree(s) && i < |s|
    ensures NulFree(s[i + 1..]) && s[i] != '\0'
    ensures Escape(s[i..]) == EscapeChar(s[i]) + Escape(s[i + 1..])
  {
    assert s[i..][1..] == s[i + 1..];
  }

  /** The first pass: how many characters the escaped string takes. */
  method CountEscaped(s: string) returns (len: nat)
    requires NulFree(s)
    ensures len == |Escape(s)|
  {
    len := 0;
    var i := 0;
    assert s[0..] == s;
    while i < |s|
      invariant i <= |s| && len + |Escape(s[i..])| == |Escape(s)|
    {
      EscapeFrom(s, i);
      var token := s[i];
      len := len + 1;
      if token in ['\"', '\\', BACKSPACE, FORMFEED, '\n', '\r', '\t'] {
        len := len + 1;
      } else if token as int < 32 {
        len := len + 5;
      }
      i := i + 1;
    }
  }

  /** Writes one character of the string, escaped if it must be. */
  method PutEscaped(out: array<char>, at: nat, c: char) returns (w: nat)
    requires c != '\0' && at + |EscapeChar(c)| < out.Length
    modifies out
    ensures w == at + |EscapeChar(c)| && out[..w] == old(out[..at]) + EscapeChar(c)
  {
    if c as int > 31 && c != '\"' && c != '\\' {
      out[at] := c;
      w := at + 1;
    } else {
      out[at] := '\\';
      w := PutMark(out, at + 1, c);
      Marked(old(out[..at]), c);
    }
  }

  lemma Marked(done: string, c: char)
    requires c != '\0' && (c as int <= 31 || c == '\"' || c == '\\')
    ensures done + "\\" + EscapeChar(c)[1..] == done + EscapeChar(c)
  {
    assert EscapeChar(c) == "\\" + EscapeChar(c)[1..];
    Assoc(done, "\\", EscapeChar(c)[1..]);
  }

  /** What follows the backslash of an escape. */
  method PutMark(out: array<char>, at: nat, c: char) returns (w: nat)
    requires c != '\0' && (c as int <= 31 || c == '\"' || c == '\\') && at + |EscapeChar(c)| - 1 < out.Length
    modifies out
    ensures w == at + |EscapeChar(c)| - 1 && out[..w] == old(out[..at]) + EscapeChar(c)[1..]
  {
    w := at;
    if c == '\\' || c == '\"' {
      out[w] := c;
      w := w + 1;
      assert EscapeChar(c)[1..] == [c];
    } else if c == BACKSPACE || c == FORMFEED || c == '\n' || c == '\r' || c == '\t' {
      var mark := if c == BACKSPACE then 'b' else if c == FORMFEED then 'f' else if c == '\n' then 'n'
                  else if c == '\r' then 'r' else 't';
      out[w] := mark;
      w := w + 1;
      assert EscapeChar(c)[1..] == [mark];
    } else {
      w := PutHex(out, w, c);
    }
  }

  /** sprintf also writes its terminator. */
  method PutHex(out: array<char>, at: nat, c: char) returns (w: nat)
    requires c != '\0' && |EscapeChar(c)| == 6 && at + 5 < out.Length
    modifies out
    ensures w == at + 5 && out[..w] == old(out[..at]) + EscapeChar(c)[1..]
  {
    w := at;
    out[w], out[w + 1], out[w + 2] := 'u', '0', '0';
    out[w + 3], out[w + 4], out[w + 5] := HexChar(c as int / 16), HexChar(c as int % 16), '\0';
    w := w + 5;
    assert EscapeChar(c)[1..] == ['u', '0', '0', HexChar(c as int / 16), HexChar(c as int % 16)];
  }

  /** The buffer sized by the first pass is filled exactly, terminator included, by the second. */
  method PrintStringPtr(s: string) returns (out: array<char>)
    requires NulFree(s)
    ensures fresh(out) && out[..] == PrintString(s) + "\0"
  {
    var len := CountEscaped(s);
    out := new char[len + 3];
    out[0] := '\"';
    var i, w := 0, 1;
    assert s[0..] == s && out[..1] == "\"";
    while i < |s|
      invariant i <= |s| && 1 <= w && w + |Escape(s[i..])| == len + 1
      invariant out[..w] + Escape(s[i..]) == "\"" + Escape(s)
    {
      EscapeFrom(s, i);
      Assoc(out[..w], EscapeChar(s[i]), Escape(s[i + 1..]));
      w := PutEscaped(out, w, s[i]);
      i := i + 1;
    }
    assert Escape(s[i..]) == "" && out[..w] == "\"" + Escape(s);
    out[w] := '\"';
    out[w + 1] := '\0';
    assert out[..] == out[..w] + "\"" + "\0";
  }

  // ---------------------------------------------------------------------------------
  // Parsing
  // ---------------------------------------------------------------------------------

  /** The first pass: the room the string takes, roughly. */
  method CountBody(t: string, start: nat) returns (len: nat)
    requires start <= |t| && NulFree(t) && FirstPass(t[start..]).Some?
    ensures len == FirstPass(t[start..]).value.0
  {
    len := 0;
    var p := start;
    while At(t, p) != '\"' && At(t, p) != '\0'
      invariant start <= p <= |t| && FirstPass(t[p..]).Some?
      invariant len + FirstPass(t[p..]).value.0 == FirstPass(t[start..]).value.0
      decreases |t| - p
    {
      CountStep(t, p);
      len := len + 1;
      p := p + 1;
      if t[p - 1] == '\\' {
        p := p + 1;
      }
    }
  }

  lemma CountStep(t: string, p: nat)
    requires p < |t| && t[p] != '\"' && FirstPass(t[p..]).Some?
    ensures var q := p + if t[p] == '\\' then 2 else 1;
            q <= |t| && FirstPass(t[p..]) == OneMore(FirstPass(t[q..]))
  {
    if t[p] == '\\' {
      assert |t[p..]| >= 2 ==> t[p..][2..] == t[p + 2..];
    } else {
      assert t[p..][1..] == t[p + 1..];
    }
  }

  /** Writes a code point from its last byte back to its first. */
  method PutUtf8(out: array<char>, at: nat, code: nat) returns (w: nat)
    requires code < 0x11_0000 && at + |Utf8(code)| <= out.Length
    modifies out
    ensures w == at + |Utf8(code)| && out[..w] == old(out[..at]) + Utf8(code)
  {
    var len := if code < 0x80 then 1 else if code < 0x800 then 2 else if code < 0x1_0000 then 3 else 4;
    PutBytes(out, at, code, len);
    w := at + len;
    forall i | 0 <= i < w ensures out[..w][i] == (old(out[..at]) + Utf8(code))[i] {
      assert i >= at ==> out[at + (i - at)] == Utf8(code)[i - at];
    }
  }

  method PutBytes(out: array<char>, at: nat, code: nat, len: nat)
    requires code < 0x11_0000 && len == |Utf8(code)| && at + len <= out.Length
    modifies out
    ensures forall i :: 0 <= i < at ==> out[i] == old(out[i])
    ensures forall i :: 0 <= i < len ==> out[at + i] == Utf8(code)[i]
  {
    var uc, w := code, at + len;
    if len >= 4 {
      w := w - 1;
      out[w], uc := (0x80 + uc % 64) as char, uc / 64;
    }
    if len >= 3 {
      w := w - 1;
      out[w], uc := (0x80 + uc % 64) as char, uc / 64;
    }
    if len >= 2 {
      w := w - 1;
      out[w], uc := (0x80 + uc % 64) as char, uc / 64;
    }
    w := w - 1;
    var mark := if len == 1 then 0 else if len == 2 then 0xC0 else if len == 3 then 0xE0 else 0xF0;
    out[w] := (mark + uc) as char;
  }

  method PutUnicode(out: array<char>, at: nat, t: string, start: nat) returns (w: nat, p: nat)
    requires start + 5 <= |t| && ParseEscape(t[start..]).Some? && t[start] == 'u'
    requires at + |ParseEscape(t[start..]).value.0| <= out.Length
    modifies out
    ensures var (e, u) := ParseEscape(t[start..]).value;
            w == at + |e| && out[..w] == old(out[..at]) + e && start < p <= |t| && t[p..] == u
  {
    assert t[start..][5..] == t[start + 5..];
    assert t[start..][1..] == t[start + 1..];
    var uc := ParseHex4(t[start + 1..]);
    p := start + 5;
    w := at;
    assert ParseEscape(t[start..]) == ParseUnicode(uc, t[p..]);
    if 0xDC00 <= uc <= 0xDFFF || uc == 0 {
      return;
    }
    if 0xD800 <= uc <= 0xDBFF {
      if At(t, p) != '\\' || At(t, p + 1) != 'u' {
        return;
      }
      assert t[p..][2..] == t[p + 2..] && t[p..][6..] == t[p + 6..];
      var uc2 := ParseHex4(t[p + 2..]);
      p := p + 6;
      if uc2 < 0xDC00 || uc2 > 0xDFFF {
        return;
      }
      uc := 0x1_0000 + uc % 0x400 * 0x400 + uc2 % 0x400;
    }
    w := PutUtf8(out, at, uc);
  }

  /** Writes what an escape stands for; start is the position after the backslash. */
  method PutEscape(out: array<char>, at: nat, t: string, start: nat) returns (w: nat, p: nat)
    requires start < |t| && ParseEscape(t[start..]).Some?
    requires at + |ParseEscape(t[start..]).value.0| <= out.Length
    modifies out
    ensures var (e, u) := ParseEscape(t[start..]).value;
            w == at + |e| && out[..w] == old(out[..at]) + e && start < p <= |t| && t[p..] == u
  {
    assert t[start..][1..] == t[start + 1..];
    if t[start] == 'u' {
      w, p := PutUnicode(out, at, t, start);
    } else {
      var c := t[start];
      out[at] := if c == 'b' then BACKSPACE else if c == 'f' then FORMFEED else if c == 'n' then '\n'
                 else if c == 'r' then '\r' else if c == 't' then '\t' else c;
      w, p := at + 1, start + 1;
    }
  }

  /** The second pass at the next character or escape, after done was written. */
  lemma BodyStep(t: string, p: nat, done: string)
    requires p < |t| && t[p] != '\"' && SecondPass(t[p..]).Some?
    ensures t[p] != '\\' ==> Continues(t[p..], [t[p]], t[p + 1..], done)
    ensures t[p] == '\\' ==>
              && p + 1 < |t| && ParseEscape(t[p + 1..]).Some?
              && Continues(t[p..], ParseEscape(t[p + 1..]).value.0, ParseEscape(t[p + 1..]).value.1, done)
  {
    var u := t[p..];
    assert u[1..] == t[p + 1..];
    if u[0] == '\\' {
      var (e, v) := ParseEscape(u[1..]).value;
      Assoc(done, e, SecondPass(v).value.0);
    } else {
      Assoc(done, [u[0]], SecondPass(u[1..]).value.0);
    }
  }

  /** Writing e leaves u to be read of t. */
  predicate Continues(t: string, e: string, u: string, done: string)
  {
    && SecondPass(t).Some? && SecondPass(u).Some? && SecondPass(u).value.1 == SecondPass(t).value.1
    && |SecondPass(t).value.0| == |e| + |SecondPass(u).value.0|
    && done + SecondPass(t).value.0 == (done + e) + SecondPass(u).value.0
  }

  /** Writes what the next character or escape stands for. */
  method PutNext(out: array<char>, at: nat, t: string, start: nat) returns (w: nat, p: nat)
    requires start < |t| && t[start] != '\"' && SecondPass(t[start..]).Some?
    requires at + |SecondPass(t[start..]).value.0| < out.Length
    modifies out
    ensures start < p <= |t| && SecondPass(t[p..]).Some?
    ensures SecondPass(t[p..]).value.1 == SecondPass(t[start..]).value.1
    ensures w + |SecondPass(t[p..]).value.0| == at + |SecondPass(t[start..]).value.0|
    ensures out[..w] + SecondPass(t[p..]).value.0 == old(out[..at]) + SecondPass(t[start..]).value.0
  {
    BodyStep(t, start, out[..at]);
    if t[start] != '\\' {
      out[at] := t[start];
      w, p := at + 1, start + 1;
      assert out[..w] == old(out[..at]) + [t[start]];
    } else {
      w, p := PutEscape(out, at, t, start + 1);
    }
  }

  /** The second pass, from after the opening quote to the closing one or the end. */
  method PutBody(out: array<char>, t: string, start: nat) returns (w: nat, p: nat)
    requires start <= |t| && NulFree(t) && SecondPass(t[start..]).Some?
    requires |SecondPass(t[start..]).value.0| < out.Length
    modifies out
    ensures start <= p <= |t| && t[p..] == SecondPass(t[start..]).value.1 && (p < |t| ==> t[p] == '\"')
    ensures w < out.Length && out[..w] == SecondPass(t[start..]).value.0
  {
    w, p := 0, start;
    ghost var (s, stop) := SecondPass(t[start..]).value;
    assert out[..0] + s == s;
    while At(t, p) != '\"' && At(t, p) != '\0'
      invariant start <= p <= |t| && SecondPass(t[p..]).Some? && SecondPass(t[p..]).value.1 == stop
      invariant w + |SecondPass(t[p..]).value.0| == |s|
      invariant out[..w] + SecondPass(t[p..]).value.0 == s
      decreases |t| - p
    {
      w, p := PutNext(out, w, t, p);
    }
    assert p < |t| ==> t[p..][0] == t[p];
    Empty(out[..w]);
  }

  /** The C string in a buffer. */
  function CString(b: string): string
  {
    if b == "" || b[0] == '\0' then "" else [b[0]] + CString(b[1..])
  }

  lemma {:induction false} CStringIs(s: string, b: string)
    requires NulFree(s)
    ensures CString(s + "\0" + b) == s
  {
    if s != "" {
      assert (s + "\0" + b)[1..] == s[1..] + "\0" + b;
      CStringIs(s[1..], b);
    }
  }

  /** No NUL is written. */
  lemma {:induction false} SecondNulFree(t: string)
    requires NulFree(t) && SecondPass(t).Some?
    ensures NulFree(SecondPass(t).value.0)
    decreases |t|
  {
    if t == "" || t[0] == '\"' {
    } else if t[0] != '\\' {
      SecondNulFree(t[1..]);
    } else {
      EscapeNulFree(t[1..]);
      SecondNulFree(ParseEscape(t[1..]).value.1);
    }
  }

  lemma EscapeNulFree(t: string)
    requires NulFree(t) && ParseEscape(t).Some?
    ensures NulFree(ParseEscape(t).value.0) && NulFree(ParseEscape(t).value.1)
  {
  }

  /** parse_string at position start: a buffer of the length counted by the first pass, filled by the second. */
  method ParseStringAt(t: string, start: nat) returns (out: array<char>, p: nat, ok: bool)
    requires start <= |t| && NulFree(t) && !ParseString(t[start..]).Unsafe?
    ensures ok <==> ParseString(t[start..]).Read?
    ensures ok ==> start < p <= |t| && ParseString(t[start..]) == Read(CString(out[..]), t[p..])
    ensures fresh(out)
  {
    ok := At(t, start) == '\"';
    if !ok {
      return new char[0], start, ok;
    }
    assert t[start..][1..] == t[start + 1..];
    var len := CountBody(t, start + 1);
    out := new char[len + 1];
    var w;
    w, p := PutBody(out, t, start + 1);
    ghost var s := out[..w];
    out[w] := '\0';
    assert out[..] == s + "\0" + out[w + 1..];
    SecondNulFree(t[start + 1..]);
    CStringIs(s, out[w + 1..]);
    ghost var stop := t[p..];
    assert t[start..][1..] == t[start + 1..] && ParseString(t[start..]) == Read(CString(out[..]), AfterQuote(stop));
    if At(t, p) == '\"' {
      assert stop[1..] == t[p + 1..];
      p := p + 1;
    }
  }

  // ---------------------------------------------------------------------------------
  // UTF-8
  // ---------------------------------------------------------------------------------

  /** A Unicode scalar value a C string can hold. */
  predicate IsScalar(u: nat)
  {
    0 < u < 0x11_0000 && !(0xD800 <= u < 0xE000)
  }

  predicate IsContinuation(c: char) { 0x80 <= c as int < 0xC0 }

  function Bits(c: char): nat { c as int % 64 }

  /** The first scalar value of a UTF-8 text and the text after it, by section 3 of RFC 3629: shortest forms only,
      no surrogates, nothing above U+10FFFF. */
  function DecodeFirst(b: string): (r: Option<(nat, string)>)
    ensures r.Some? ==> |r.value.1| < |b|
  {
    if b == "" then None
    else if b[0] as int < 0x80 then Some((b[0] as int, b[1..]))
    else if 0xC2 <= b[0] as int < 0xE0 && |b| >= 2 && IsContinuation(b[1]) then
      Some(((b[0] as int - 0xC0) * 64 + Bits(b[1]), b[2..]))
    else if 0xE0 <= b[0] as int < 0xF0 && |b| >= 3 && IsContinuation(b[1]) && IsContinuation(b[2]) then
      var u := (b[0] as int - 0xE0) * 4096 + Bits(b[1]) * 64 + Bits(b[2]);
      if u < 0x800 || 0xD800 <= u < 0xE000 then None else Some((u, b[3..]))
    else if 0xF0 <= b[0] as int < 0xF5 && |b| >= 4 && IsContinuation(b[1]) && IsContinuation(b[2]) && IsContinuation(b[3]) then
      var u := (b[0] as int - 0xF0) * 262144 + Bits(b[1]) * 4096 + Bits(b[2]) * 64 + Bits(b[3]);
      if u < 0x1_0000 || u > 0x10_FFFF then None else Some((u, b[4..]))
    else None
  }

  function Decode(b: string): Option<seq<nat>>
    decreases |b|
  {
    if b == "" then Some([])
    else
      match DecodeFirst(b)
      case None => None
      case Some((u, rest)) =>
        match Decode(rest)
        case None => None
        case Some(us) => Some([u] + us)
  }

  lemma DecodeUtf8(u: nat, rest: string)
    requires IsScalar(u)
    ensures DecodeFirst(Utf8(u) + rest) == Some((u, rest))
  {
    var b := Utf8(u) + rest;
    assert b[|Utf8(u)|..] == rest && b[..|Utf8(u)|] == Utf8(u);
    if u >= 0x1_0000 {
      DecodeFour(u, b);
    } else if u >= 0x800 {
      DecodeThree(u, b);
    } else {
      DecodeShort(u, b);
    }
  }

  lemma DecodeShort(u: nat, b: string)
    requires u < 0x800 && |b| >= |Utf8(u)| && b[..|Utf8(u)|] == Utf8(u)
    ensures DecodeFirst(b) == Some((u, b[|Utf8(u)|..]))
  {
    assert b[0] == b[..|Utf8(u)|][0] && (u >= 0x80 ==> b[1] == b[..2][1]);
  }

  lemma DecodeThree(u: nat, b: string)
    requires 0x800 <= u < 0x1_0000 && !(0xD800 <= u < 0xE000) && |b| >= 3 && b[..3] == Utf8(u)
    ensures DecodeFirst(b) == Some((u, b[3..]))
  {
    var p := u / 64;
    assert b[0] == b[..3][0] && b[1] == b[..3][1] && b[2] == b[..3][2];
    assert Bits(b[2]) == u % 64 && Bits(b[1]) == p % 64;
    assert u == (b[0] as int - 0xE0) * 4096 + Bits(b[1]) * 64 + Bits(b[2]);
  }

  lemma DecodeFour(u: nat, b: string)
    requires 0x1_0000 <= u < 0x11_0000 && |b| >= 4 && b[..4] == Utf8(u)
    ensures DecodeFirst(b) == Some((u, b[4..]))
  {
    var p, q := u / 64, u / 64 / 64;
    assert b[0] == b[..4][0] && b[1] == b[..4][1] && b[2] == b[..4][2] && b[3] == b[..4][3];
    assert Bits(b[3]) == u % 64 && Bits(b[2]) == p % 64 && Bits(b[1]) == q % 64;
    assert u == (b[0] as int - 0xF0) * 262144 + Bits(b[1]) * 4096 + Bits(b[2]) * 64 + Bits(b[3]);
  }

  const LOWER: string := "0123456789abcdef"
  const UPPER: string := "0123456789ABCDEF"

  /** A hexadecimal digit in either case. */
  predicate IsDigitOf(c: char, d: nat)
    requires d < 16
  {
    c == LOWER[d] || c == UPPER[d]
  }

  /** A code unit as a \u escape, most significant digit first. */
  predicate SpellsUnit(t: string, unit: nat)
  {
    && unit < 0x1_0000 && |t| == 6 && t[0] == '\\' && t[1] == 'u'
    && IsDigitOf(t[2], unit / 0x1000) && IsDigitOf(t[3], unit / 0x100 % 16)
    && IsDigitOf(t[4], unit / 0x10 % 16) && IsDigitOf(t[5], unit % 16)
  }

  /** A scalar value as one escape, or above U+FFFF as two, high surrogate first (section 2.1 of RFC 2781). */
  predicate SpellsCode(t: string, u: nat)
    requires IsScalar(u)
  {
    if u < 0x1_0000 then SpellsUnit(t, u)
    else
      && |t| == 12
      && SpellsUnit(t[..6], 0xD800 + (u - 0x1_0000) / 0x400)
      && SpellsUnit(t[6..], 0xDC00 + (u - 0x1_0000) % 0x400)
  }

  /** The characters with an escape of their own (section 7 of RFC 8259), and their code points. */
  const MARKS: string := "\"\\/bfnrt"
  const MARKED: seq<nat> := [0x22, 0x5C, 0x2F, 0x08, 0x0C, 0x0A, 0x0D, 0x09]

  predicate SpellsMark(t: string, u: nat)
  {
    |t| == 2 && t[0] == '\\' && exists i :: 0 <= i < 8 && MARKS[i] == t[1] && MARKED[i] == u
  }

  /** A character as itself, in UTF-8. */
  predicate SpellsItself(t: string, u: nat)
  {
    DecodeFirst(t) == Some((u, "")) && u != 0x22 && u != 0x5C
  }

  predicate SpellsScalar(t: string, u: nat)
    requires IsScalar(u)
  {
    SpellsItself(t, u) || SpellsMark(t, u) || SpellsCode(t, u)
  }

  lemma DigitOf(c: char, d: nat)
    requires d < 16 && IsDigitOf(c, d)
    ensures IsHex(c) && HexValue(c) == d
  {
  }

  lemma FourDigits(unit: nat, a: nat, b: nat, c: nat, d: nat)
    requires unit < 0x1_0000 && a == unit / 0x1000 && b == unit / 0x100 % 16 && c == unit / 0x10 % 16 && d == unit % 16
    ensures ((a * 16 + b) * 16 + c) * 16 + d == unit
  {
  }

  lemma UnitDigits(t: string, unit: nat)
    requires SpellsUnit(t, unit)
    ensures FourHex(t[2..]) && ParseHex4(t[2..]) == unit
  {
    DigitOf(t[2], unit / 0x1000);
    DigitOf(t[3], unit / 0x100 % 16);
    DigitOf(t[4], unit / 0x10 % 16);
    DigitOf(t[5], unit % 16);
    FourDigits(unit, unit / 0x1000, unit / 0x100 % 16, unit / 0x10 % 16, unit % 16);
  }

  /** The text of a list of spelled-out scalar values. */
  function Join(words: seq<string>): string
  {
    if words == [] then "" else words[0] + Join(words[1..])
  }

  lemma ReadUnit(t: string, unit: nat, rest: string)
    requires SpellsUnit(t, unit)
    ensures (t + rest)[6..] == rest && ParseHex4((t + rest)[2..]) == unit && FourHex((t + rest)[2..])
  {
    UnitDigits(t, unit);
    var u, v := (t + rest)[2..], t[2..];
    assert At(u, 0) == At(v, 0) && At(u, 1) == At(v, 1) && At(u, 2) == At(v, 2) && At(u, 3) == At(v, 3);
  }

  /** The two surrogates of a code point above U+FFFF hold its bits. */
  lemma SurrogateBits(u: nat, hi: nat, lo: nat)
    requires 0x1_0000 <= u < 0x11_0000
    requires hi == 0xD800 + (u - 0x1_0000) / 0x400 && lo == 0xDC00 + (u - 0x1_0000) % 0x400
    ensures 0xD800 <= hi <= 0xDBFF && 0xDC00 <= lo <= 0xDFFF
    ensures 0x1_0000 + hi % 0x400 * 0x400 + lo % 0x400 == u
  {
  }

  lemma PairRead(t: string, hi: nat, lo: nat, rest: string)
    requires 0xD800 <= hi <= 0xDBFF && 0xDC00 <= lo <= 0xDFFF && SpellsUnit(t, lo)
    ensures ParseUnicode(hi, t + rest) == Some((Utf8(0x1_0000 + hi % 0x400 * 0x400 + lo % 0x400), rest))
  {
    ReadUnit(t, lo, rest);
  }

  lemma ReadFirst(t: string, unit: nat, rest: string)
    requires unit < 0x1_0000 && SpellsUnit(t, unit)
    ensures (t + rest)[0] == '\\' && ParseEscape((t + rest)[1..]) == ParseUnicode(unit, rest)
  {
    var x := (t + rest)[1..];
    ReadUnit(t, unit, rest);
    assert x[1..] == (t + rest)[2..] && x[5..] == (t + rest)[6..];
  }

  lemma SingleRead(u: nat, rest: string)
    requires IsScalar(u) && u < 0x1_0000
    ensures ParseUnicode(u, rest) == Some((Utf8(u), rest))
  {
  }

  /** A pair of surrogates. */
  lemma ReadPair(a: string, b: string, hi: nat, lo: nat, u: nat, rest: string)
    requires 0xD800 <= hi <= 0xDBFF && 0xDC00 <= lo <= 0xDFFF && SpellsUnit(a, hi) && SpellsUnit(b, lo)
    requires 0x1_0000 + hi % 0x400 * 0x400 + lo % 0x400 == u < 0x11_0000
    ensures (a + (b + rest))[0] == '\\' && ParseEscape((a + (b + rest))[1..]) == Some((Utf8(u), rest))
  {
    ReadFirst(a, hi, b + rest);
    PairRead(b, hi, lo, rest);
  }

  /** An escape is read as the UTF-8 of its scalar value. */
  lemma ReadCode(t: string, u: nat, rest: string)
    requires IsScalar(u) && SpellsCode(t, u)
    ensures (t + rest)[0] == '\\' && ParseEscape((t + rest)[1..]) == Some((Utf8(u), rest))
  {
    if u < 0x1_0000 {
      ReadFirst(t, u, rest);
      SingleRead(u, rest);
    } else {
      var hi, lo := 0xD800 + (u - 0x1_0000) / 0x400, 0xDC00 + (u - 0x1_0000) % 0x400;
      assert t + rest == t[..6] + (t[6..] + rest);
      SurrogateBits(u, hi, lo);
      ReadPair(t[..6], t[6..], hi, lo, u, rest);
    }
  }

  // ---------------------------------------------------------------------------------
  // Units that stand for nothing
  // ---------------------------------------------------------------------------------

  lemma NothingWritten(t: string, rest: string)
    requires t != "" && t[0] == '\\' && ParseEscape(t[1..]) == Some(("", rest))
    ensures SecondPass(t) == SecondPass(rest)
  {
    if SecondPass(rest).Some? {
      Empty(SecondPass(rest).value.0);
    }
  }

  /** A NUL, a low surrogate, and a high surrogate without another escape behind it are dropped. */
  lemma UnitDropped(t: string, unit: nat, rest: string)
    requires SpellsUnit(t, unit)
    requires unit == 0 || 0xDC00 <= unit <= 0xDFFF || (0xD800 <= unit <= 0xDBFF && !("\\u" <= rest))
    ensures SecondPass(t + rest) == SecondPass(rest)
  {
    ReadFirst(t, unit, rest);
    if At(rest, 0) == '\\' && At(rest, 1) == 'u' {
      assert rest[..2] == "\\u";
    }
    NothingWritten(t + rest, rest);
  }

  /** A high surrogate takes the escape behind it along if that is no low one. */
  lemma PairDropped(a: string, hi: nat, b: string, unit: nat, rest: string)
    requires SpellsUnit(a, hi) && 0xD800 <= hi <= 0xDBFF && SpellsUnit(b, unit) && !(0xDC00 <= unit <= 0xDFFF)
    ensures SecondPass(a + (b + rest)) == SecondPass(rest)
  {
    ReadFirst(a, hi, b + rest);
    ReadUnit(b, unit, rest);
    NothingWritten(a + (b + rest), rest);
  }

  /** Four characters of which one is no digit count as a NUL. */
  lemma NotDigits(t: string)
    requires |t| >= 6 && t[0] == '\\' && t[1] == 'u' && !FourHex(t[2..])
    ensures SecondPass(t) == SecondPass(t[6..])
  {
    UnicodeRead(t);
    NothingWritten(t, t[6..]);
  }

  /** The printer writes a character as itself unless it is a control character, a quote or a backslash; it uses the
      escape of its own if there is one, and four digits otherwise. */
  lemma EscapeForm(c: char)
    requires c != '\0'
    ensures EscapeChar(c) == [c] <==> c as int >= 0x20 && c as int != 0x22 && c as int != 0x5C
    ensures EscapeChar(c) == [c] || SpellsMark(EscapeChar(c), c as int)
            || (SpellsUnit(EscapeChar(c), c as int) && c as int !in MARKED)
  {
    var e := EscapeChar(c);
    if e != [c] && |e| == 2 {
      MarkForm(c);
    }
    if |e| == 6 {
      DigitForm(c as int / 16);
      DigitForm(c as int % 16);
    }
  }

  lemma MarkForm(c: char)
    requires c != '\0' && |EscapeChar(c)| == 2
    ensures SpellsMark(EscapeChar(c), c as int)
  {
    var i := if c == '\"' then 0 else if c == '\\' then 1 else if c == BACKSPACE then 3
             else if c == FORMFEED then 4 else if c == '\n' then 5 else if c == '\r' then 6 else 7;
    assert MARKS[i] == EscapeChar(c)[1] && MARKED[i] == c as int;
  }

  lemma DigitForm(d: nat)
    requires d < 16
    ensures IsDigitOf(HexChar(d), d)
  {
  }

  lemma ReadMark(t: string, u: nat, rest: string)
    requires SpellsMark(t, u)
    ensures u < 0x80 && (t + rest)[0] == '\\' && ParseEscape((t + rest)[1..]) == Some((Utf8(u), rest))
  {
    assert (t + rest)[1..][1..] == rest && (t + rest)[1..][0] == t[1];
    var i :| 0 <= i < 8 && MARKS[i] == t[1] && MARKED[i] == u;
  }

  /** A character that stands for itself is copied. */
  lemma {:induction false} CopyItself(t: string, rest: string)
    requires forall i :: 0 <= i < |t| ==> t[i] != '\"' && t[i] != '\\'
    requires SecondPass(rest).Some?
    ensures SecondPass(t + rest) == Some((t + SecondPass(rest).value.0, SecondPass(rest).value.1))
  {
    if t == "" {
      Empty(rest);
      Empty(SecondPass(rest).value.0);
    } else {
      Peel(t, rest);
      CopyItself(t[1..], rest);
      Assoc([t[0]], t[1..], SecondPass(rest).value.0);
      assert [t[0]] + t[1..] == t;
    }
  }

  /** What one of the spelled-out values contributes: its UTF-8, or its own bytes. */
  lemma WordDecodes(t: string, u: nat, rest: string) returns (b: string)
    requires IsScalar(u) && SpellsScalar(t, u) && SecondPass(rest).Some?
    ensures SecondPass(t + rest) == Some((b + SecondPass(rest).value.0, SecondPass(rest).value.1))
    ensures DecodeFirst(b + SecondPass(rest).value.0) == Some((u, SecondPass(rest).value.0))
    ensures b != ""
  {
    var s := SecondPass(rest).value.0;
    if SpellsItself(t, u) {
      b := t;
      Bytes(t, u, s);
      CopyItself(t, rest);
    } else {
      b := Utf8(u);
      if SpellsMark(t, u) {
        ReadMark(t, u, rest);
      } else {
        ReadCode(t, u, rest);
      }
      DecodeUtf8(u, s);
    }
  }

  /** The bytes of a character; none of them is an ASCII character unless it is the only one. */
  lemma Bytes(t: string, u: nat, rest: string)
    requires SpellsItself(t, u)
    ensures DecodeFirst(t + rest) == Some((u, rest)) && forall i :: 0 <= i < |t| ==> t[i] != '\"' && t[i] != '\\'
  {
    assert (t + rest)[|t|..] == rest;
    assert forall i :: 0 <= i < |t| ==> (t + rest)[i] == t[i];
  }

  /** Whatever scalar values a literal holds, each as itself in UTF-8, as an escape of its own or spelled out in
      hexadecimal, the parser stores a text that a UTF-8 decoder reads as exactly those values, in the buffer the first
      pass sized. */
  lemma EscapesDecode(words: seq<string>, us: seq<nat>, rest: string)
    requires |words| == |us| && forall i :: 0 <= i < |us| ==> IsScalar(us[i]) && SpellsScalar(words[i], us[i])
    ensures var r := ParseString("\"" + (Join(words) + ("\"" + rest)));
            r.Read? && r.rest == rest && Decode(r.value) == Some(us)
  {
    var t := Join(words) + ("\"" + rest);
    BodyDecodes(words, us, rest);
    WellEscapedSafe(t);
    Peel("\"", t);
    Peel("\"", rest);
  }

  lemma {:induction false} BodyDecodes(words: seq<string>, us: seq<nat>, rest: string)
    requires |words| == |us| && forall i :: 0 <= i < |us| ==> IsScalar(us[i]) && SpellsScalar(words[i], us[i])
    ensures SecondPass(Join(words) + ("\"" + rest)).Some?
    ensures var (s, stop) := SecondPass(Join(words) + ("\"" + rest)).value;
            stop == "\"" + rest && Decode(s) == Some(us)
    ensures WellEscaped(Join(words) + ("\"" + rest))
  {
    var t := Join(words) + ("\"" + rest);
    if us == [] {
      assert t == "\"" + rest;
    } else {
      var u := Join(words[1..]) + ("\"" + rest);
      assert t == words[0] + u;
      BodyDecodes(words[1..], us[1..], rest);
      var b := WordDecodes(words[0], us[0], u);
      DecodeNext(b + SecondPass(u).value.0, us[0], SecondPass(u).value.0, us[1..]);
      assert [us[0]] + us[1..] == us;
      WordWellEscaped(words[0], us[0], u);
    }
  }

  lemma DecodeNext(b: string, u: nat, rest: string, us: seq<nat>)
    requires b != "" && DecodeFirst(b) == Some((u, rest)) && Decode(rest) == Some(us)
    ensures Decode(b) == Some([u] + us)
  {
  }

  lemma WordWellEscaped(t: string, u: nat, rest: string)
    requires IsScalar(u) && SpellsScalar(t, u) && WellEscaped(rest)
    ensures WellEscaped(t + rest)
  {
    if SpellsItself(t, u) {
      Bytes(t, u, rest);
      OrdinaryPrefix(t, rest);
    } else if SpellsMark(t, u) {
      ReadMark(t, u, rest);
      assert (t + rest)[2..] == rest && (t + rest)[1] == t[1];
      EscapeWellEscaped(t + rest);
    } else {
      CodeWellEscaped(t, u, rest);
    }
  }

  lemma UnitWellEscaped(t: string, unit: nat, rest: string)
    requires SpellsUnit(t, unit) && WellEscaped(rest)
    ensures WellEscaped(t + rest)
  {
    ReadUnit(t, unit, rest);
    UnitDigits(t, unit);
    HexOrdinary(t[2..]);
    OrdinaryPrefix(t[2..], rest);
    assert t[2..] + rest == (t + rest)[2..];
    EscapeWellEscaped(t + rest);
  }

  lemma HexOrdinary(h: string)
    requires |h| == 4 && FourHex(h)
    ensures forall i :: 0 <= i < |h| ==> h[i] != '\"' && h[i] != '\\'
  {
    assert At(h, 0) == h[0] && At(h, 1) == h[1] && At(h, 2) == h[2] && At(h, 3) == h[3];
  }

  lemma EscapeWellEscaped(t: string)
    requires |t| >= 2 && t[0] == '\\' && (t[1] == 'u' ==> FourHex(t[2..])) && WellEscaped(t[2..])
    ensures WellEscaped(t)
  {
  }

  lemma CodeWellEscaped(t: string, u: nat, rest: string)
    requires IsScalar(u) && SpellsCode(t, u) && WellEscaped(rest)
    ensures WellEscaped(t + rest)
  {
    if u < 0x1_0000 {
      UnitWellEscaped(t, u, rest);
    } else {
      assert t + rest == t[..6] + (t[6..] + rest);
      UnitWellEscaped(t[6..], 0xDC00 + (u - 0x1_0000) % 0x400, rest);
      UnitWellEscaped(t[..6], 0xD800 + (u - 0x1_0000) / 0x400, t[6..] + rest);
    }
  }
}
