/** Minified text says the same: what the parser makes of a whole text, it makes of the minified one. */
module JsonMinified {
  import opened Json
  import opened JsonPasses
  import opened JsonSafety
  import opened JsonMinify
  import opened Wrappers
  import opened Sequences

  /** A character that the minifier keeps. */
  lemma FirstKept(t: string, x: string)
    requires t != "" && !IsBlank(t[0]) && t[0] != '/' && t[0] != '\"' && Minify(t[1..]) == Some(x)
    ensures Minify(t) == Some([t[0]] + x) && ([t[0]] + x)[1..] == x
  {
  }

  /** Neither starts nor continues a number. */
  predicate Ends(y: string)
  {
    EndsNumber(y) && At(y, 0) != '+' && At(y, 0) != '-'
  }

  // ---------------------------------------------------------------------------------
  // Blanks
  // ---------------------------------------------------------------------------------

  /** Spaces in front of a text: some of them go, and the parser skips the others. */
  lemma {:induction false} SkipMinified(t: string, w: string) returns (x: string)
    requires Minify(Skip(t)) == Some(w) && !IsSpace(At(w, 0))
    ensures Minify(t) == Some(x) && Skip(x) == w && (Ends(w) ==> Ends(x))
    decreases |t|
  {
    if IsSpace(At(t, 0)) {
      x := SkipMinified(t[1..], w);
      if !IsBlank(t[0]) {
        FirstKept(t, x);
        x := [t[0]] + x;
      }
    } else {
      x := w;
    }
  }

  lemma {:induction false} SkipNothing(t: string)
    requires Minify(Skip(t)) == None
    ensures Minify(t) == None
    decreases |t|
  {
    if IsSpace(At(t, 0)) {
      SkipNothing(t[1..]);
    }
  }

  // ---------------------------------------------------------------------------------
  // Numbers
  // ---------------------------------------------------------------------------------

  /** x is t minified, and up to where reading stops, at rest and y, they start alike. */
  predicate Tracks(t: string, x: string, rest: string, y: string)
  {
    Minify(t) == Some(x) && if t == rest then x == y else t != "" && At(x, 0) == At(t, 0)
  }

  lemma {:induction false} DigitsMinified(t: string, n: nat, y: string) returns (x: string)
    requires Minify(ParseDigits(t, n).1) == Some(y) && !IsDigit(At(y, 0))
    ensures Minify(t) == Some(x) && ParseDigits(x, n) == (ParseDigits(t, n).0, y)
    ensures |x| - |y| == |t| - |ParseDigits(t, n).1|
    ensures if IsDigit(At(t, 0)) then At(x, 0) == At(t, 0) else x == y
    decreases |t|
  {
    if IsDigit(At(t, 0)) {
      x := DigitsMinified(t[1..], 10 * n + DigitValue(t[0]), y);
      FirstKept(t, x);
      x := [t[0]] + x;
    } else {
      x := y;
    }
  }

  predicate Signed(t: string)
  {
    At(t, 0) == '-' || At(t, 0) == '+'
  }

  /** The digits of an exponent, behind its sign. */
  lemma SignedMinified(t: string, y: string) returns (x: string)
    requires Minify(ParseDigits(if Signed(t) then t[1..] else t, 0).1) == Some(y) && Ends(y)
    ensures Minify(t) == Some(x) && (Signed(t) <==> Signed(x)) && (Signed(t) ==> At(x, 0) == At(t, 0))
    ensures ParseDigits(if Signed(t) then x[1..] else x, 0) == (ParseDigits(if Signed(t) then t[1..] else t, 0).0, y)
  {
    if Signed(t) {
      x := DigitsMinified(t[1..], 0, y);
      FirstKept(t, x);
      x := [t[0]] + x;
    } else {
      x := DigitsMinified(t, 0, y);
    }
  }

  lemma ExponentParts(t: string)
    requires At(t, 0) == 'e' || At(t, 0) == 'E'
    ensures var u := t[1..];
            var (n, rest) := ParseDigits(if Signed(u) then u[1..] else u, 0);
            ParseExponent(t) == (if At(u, 0) == '-' then 0 - n else n, rest)
  {
  }

  lemma ExponentMinified(t: string, y: string) returns (x: string)
    requires Minify(ParseExponent(t).1) == Some(y) && Ends(y)
    ensures Tracks(t, x, ParseExponent(t).1, y) && ParseExponent(x) == (ParseExponent(t).0, y)
  {
    if At(t, 0) == 'e' || At(t, 0) == 'E' {
      ExponentParts(t);
      var z := SignedMinified(t[1..], y);
      FirstKept(t, z);
      x := [t[0]] + z;
      ExponentParts(x);
    } else {
      x := y;
    }
  }

  /** The fraction of ParseNumber: the digits read on, and how many there are, negated. */
  function Fraction(t: string, n: nat): (r: (nat, int, string))
    ensures |r.2| <= |t| && (r.2 == t || |r.2| < |t|)
  {
    if At(t, 0) == '.' && IsDigit(At(t, 1)) then
      var (m, u) := ParseDigits(t[1..], n);
      (m, |u| - |t| + 1, u)
    else (n, 0, t)
  }

  lemma FractionMinified(t: string, n: nat, rest: string, y: string, z: string) returns (x: string)
    requires Tracks(Fraction(t, n).2, z, rest, y) && Ends(y) && |rest| <= |Fraction(t, n).2|
    requires At(Fraction(t, n).2, 0) == '.' ==> Fraction(t, n).2 == rest
    ensures Tracks(t, x, rest, y) && Fraction(x, n) == (Fraction(t, n).0, Fraction(t, n).1, z)
  {
    if At(t, 0) == '.' && IsDigit(At(t, 1)) {
      x := DigitsMinified(t[1..], n, z);
      FirstKept(t, x);
      x := [t[0]] + x;
    } else {
      x := z;
    }
  }

  /** The digits before the point. */
  function WholePart(t: string): (r: (nat, string))
    ensures |r.1| <= |t| && (r.1 == t || |r.1| < |t|) && ('1' <= At(t, 0) <= '9' ==> !IsDigit(At(r.1, 0)))
  {
    if '1' <= At(t, 0) <= '9' then ParseDigits(t, 0) else (0, t)
  }

  lemma WholeMinified(t: string, rest: string, y: string, z: string) returns (x: string)
    requires Tracks(WholePart(t).1, z, rest, y) && Ends(y) && |rest| <= |WholePart(t).1|
    ensures Tracks(t, x, rest, y) && WholePart(x) == (WholePart(t).0, z)
  {
    if '1' <= At(t, 0) <= '9' {
      x := DigitsMinified(t, 0, z);
    } else {
      x := z;
    }
  }

  /** A sign or a zero, if it is there. */
  function Drop1(t: string, c: char): (r: string)
    requires c != '\0'
    ensures |r| <= |t| && (r == t || |r| < |t|)
  {
    if At(t, 0) == c then t[1..] else t
  }

  lemma Drop1Minified(t: string, c: char, rest: string, y: string, z: string) returns (x: string)
    requires c == '-' || c == '0'
    requires Tracks(Drop1(t, c), z, rest, y) && Ends(y) && |rest| <= |Drop1(t, c)|
    ensures Tracks(t, x, rest, y) && Drop1(x, c) == z && (At(x, 0) == c <==> At(t, 0) == c)
  {
    if At(t, 0) == c {
      FirstKept(t, z);
      x := [t[0]] + z;
    } else {
      x := z;
    }
  }

  lemma NumberParts(t: string, t1: string, t2: string, n: nat, t3: string, m: nat, scale: int, t4: string, subscale: int, rest: string)
    requires t1 == Drop1(t, '-') && t2 == Drop1(t1, '0') && WholePart(t2) == (n, t3)
    requires Fraction(t3, n) == (m, scale, t4) && ParseExponent(t4) == (subscale, rest)
    ensures ParseNumber(t) == (Scaled(At(t, 0) == '-', m, scale + subscale), rest)
  {
  }

  lemma NumberMinified(t: string, y: string) returns (x: string)
    requires Minify(ParseNumber(t).1) == Some(y) && Ends(y)
    requires At(t, 0) == '-' || IsDigit(At(t, 0))
    ensures Minify(t) == Some(x) && ParseNumber(x) == (ParseNumber(t).0, y) && At(x, 0) == At(t, 0)
  {
    var t1 := Drop1(t, '-');
    var t2 := Drop1(t1, '0');
    var (n, t3) := WholePart(t2);
    var (m, scale, t4) := Fraction(t3, n);
    var (subscale, rest) := ParseExponent(t4);
    NumberParts(t, t1, t2, n, t3, m, scale, t4, subscale, rest);
    var x4 := ExponentMinified(t4, y);
    var x3 := FractionMinified(t3, n, rest, y, x4);
    var x2 := WholeMinified(t2, rest, y, x3);
    var x1 := Drop1Minified(t1, '0', rest, y, x2);
    x := Drop1Minified(t, '-', rest, y, x1);
    NumberParts(x, x1, x2, n, x3, m, scale, x4, subscale, y);
    assert |rest| < |t|;
  }

  // ---------------------------------------------------------------------------------
  // Strings
  // ---------------------------------------------------------------------------------

  /** A literal that the text ends in. */
  predicate Open(t: string)
  {
    At(t, 0) == '\"' && Stop(t[1..]) == Some("")
  }

  /** The minifier's copy ends behind the quote at which the first pass stops. */
  lemma {:induction false} CopyStops(t: string)
    requires FirstPass(t).Some?
    ensures var stop := FirstPass(t).value.1;
            CopyString(t) == if stop == "" then None else Some((t[..|t| - |stop| + 1], stop[1..]))
    ensures FirstPass(t).value.1 != "" ==> FirstPass(t).value.1[0] == '\"'
    decreases |t|
  {
    if t == "" || t[0] == '\"' {
    } else {
      var n := if t[0] == '\\' then 2 else 1;
      CopyStops(t[n..]);
      var stop := FirstPass(t).value.1;
      if stop != "" {
        Front(t, n, |t| - |stop| + 1);
      }
    }
  }

  lemma Front(t: string, n: nat, k: nat)
    requires n <= k <= |t|
    ensures t[..n] + t[n..][..k - n] == t[..k]
  {
  }

  /** Texts that are alike up to the closing quote, at k, are read alike up to there. */
  predicate Alike(t: string, z: string, k: nat)
  {
    k < |t| && k < |z| && t[..k + 1] == z[..k + 1]
  }

  lemma AlikeAt(t: string, z: string, k: nat, i: nat)
    requires Alike(t, z, k) && i <= k
    ensures At(t, i) == At(z, i)
    ensures Alike(t[i..], z[i..], k - i)
  {
    assert t[..k + 1][i] == z[..k + 1][i];
    assert t[i..][..k - i + 1] == t[..k + 1][i..];
    assert z[i..][..k - i + 1] == z[..k + 1][i..];
  }

  lemma HexAlike(t: string, z: string, k: nat)
    requires Alike(t, z, k) && k >= 6 && FourHex(t[2..])
    ensures FourHex(z[2..]) && ParseHex4(z[2..]) == ParseHex4(t[2..])
  {
    AlikeAt(t, z, k, 2);
    AlikeAt(t, z, k, 3);
    AlikeAt(t, z, k, 4);
    AlikeAt(t, z, k, 5);
    assert forall i :: 0 <= i < 4 ==> At(t[2..], i) == At(t, i + 2) && At(z[2..], i) == At(z, i + 2);
  }

  /** The closing quote is not among the digits of an escape \u. */
  lemma QuoteBehind(t: string, k: nat)
    requires WellEscaped(t) && k < |t| && t[k] == '\"' && Stop(t) == Some(t[k..]) && |t| >= 2 && t[0] == '\\' && t[1] == 'u'
    ensures k >= 6 && |t| >= 6 && WellEscaped(t[6..]) && FourHex(t[2..]) && Stop(t[6..]) == Some(t[k..])
  {
    OrdinaryCut(t[2..], 4);
    assert t[2..][4..] == t[6..];
  }

  lemma Later(t: string, i: nat, j: nat)
    requires i + j <= |t|
    ensures t[i..][j..] == t[i + j..]
  {
  }

  /** The code unit uc and a second escape behind it are the halves of a pair. */
  predicate Pairs(uc: nat, t: string)
  {
    0xD800 <= uc <= 0xDBFF && At(t, 0) == '\\' && At(t, 1) == 'u'
  }

  function Single(uc: nat): string
    requires uc < 0x1_0000
  {
    if uc == 0 || 0xD800 <= uc <= 0xDFFF then "" else Utf8(uc)
  }

  function Double(uc: nat, uc2: nat): string
    requires uc < 0x1_0000 && uc2 < 0x1_0000
  {
    if uc2 < 0xDC00 || uc2 > 0xDFFF then "" else Utf8(0x1_0000 + uc % 0x400 * 0x400 + uc2 % 0x400)
  }

  lemma UnicodeSingle(uc: nat, t: string)
    requires uc < 0x1_0000 && !Pairs(uc, t)
    ensures ParseUnicode(uc, t) == Some((Single(uc), t))
  {
  }

  lemma UnicodeDouble(uc: nat, t: string)
    requires uc < 0x1_0000 && Pairs(uc, t) && |t| >= 6
    ensures ParseUnicode(uc, t) == Some((Double(uc, ParseHex4(t[2..])), t[6..]))
  {
  }

  /** What follows the digits of an escape \u, in both texts. */
  lemma UnicodeAlike(uc: nat, t: string, z: string, k: nat) returns (e: string, i: nat)
    requires uc < 0x1_0000 && WellEscaped(t) && Alike(t, z, k) && Stop(t) == Some(t[k..]) && t[k] == '\"'
    ensures i <= k && WellEscaped(t[i..]) && Stop(t[i..]) == Some(t[k..])
    ensures ParseUnicode(uc, t) == Some((e, t[i..])) && ParseUnicode(uc, z) == Some((e, z[i..]))
  {
    AlikeAt(t, z, k, 0);
    if k > 0 {
      AlikeAt(t, z, k, 1);
    }
    if Pairs(uc, t) {
      QuoteBehind(t, k);
      HexAlike(t, z, k);
      UnicodeDouble(uc, t);
      UnicodeDouble(uc, z);
      e, i := Double(uc, ParseHex4(t[2..])), 6;
    } else {
      UnicodeSingle(uc, t);
      UnicodeSingle(uc, z);
      e, i := Single(uc), 0;
      assert t[0..] == t && z[0..] == z;
    }
  }

  function Simple(c: char): string
  {
    if c == 'b' then [BACKSPACE] else if c == 'f' then [FORMFEED] else if c == 'n' then "\n"
    else if c == 'r' then "\r" else if c == 't' then "\t" else [c]
  }

  lemma SimpleEscape(t: string)
    requires |t| >= 2 && t[0] == '\\' && t[1] != 'u'
    ensures ParseEscape(t[1..]) == Some((Simple(t[1]), t[2..]))
  {
    assert t[1..][1..] == t[2..];
  }

  lemma UnicodeJoin(t: string, h: nat, e: string, j: nat)
    requires |t| >= 6 + j && t[0] == '\\' && t[1] == 'u' && h == ParseHex4(t[2..])
    requires ParseUnicode(h, t[6..]) == Some((e, t[6..][j..]))
    ensures ParseEscape(t[1..]) == Some((e, t[6 + j..]))
  {
    UnicodeRead(t);
    Later(t, 6, j);
  }

  lemma AlikeFrom(t: string, z: string, k: nat, i: nat)
    requires Alike(t, z, k) && i <= k
    ensures i <= |z| && Alike(t[i..], z[i..], k - i)
    ensures t[i..][k - i..] == t[k..] && t[i..][k - i] == t[k]
  {
    AlikeAt(t, z, k, i);
    Later(t, i, k - i);
  }

  lemma LongEscapeAlike(t: string, z: string, k: nat) returns (e: string, i: nat)
    requires WellEscaped(t) && Alike(t, z, k) && Stop(t) == Some(t[k..]) && t[k] == '\"'
    requires |t| >= 2 && t[0] == '\\' && t[1] == 'u' && |z| >= 2 && z[0] == '\\' && z[1] == 'u'
    ensures 2 <= i <= k && WellEscaped(t[i..]) && Stop(t[i..]) == Some(t[k..])
    ensures ParseEscape(t[1..]) == Some((e, t[i..])) && ParseEscape(z[1..]) == Some((e, z[i..]))
  {
    QuoteBehind(t, k);
    HexAlike(t, z, k);
    AlikeFrom(t, z, k, 6);
    var h, j := ParseHex4(t[2..]), 0;
    e, j := UnicodeAlike(h, t[6..], z[6..], k - 6);
    UnicodeJoin(t, h, e, j);
    UnicodeJoin(z, h, e, j);
    Later(t, 6, j);
    i := 6 + j;
  }

  /** One escape in both texts. */
  lemma EscapeAlike(t: string, z: string, k: nat) returns (e: string, i: nat)
    requires WellEscaped(t) && Alike(t, z, k) && t[0] == '\\' && Stop(t) == Some(t[k..]) && t[k] == '\"'
    ensures 2 <= i <= k && WellEscaped(t[i..]) && Stop(t[i..]) == Some(t[k..])
    ensures ParseEscape(t[1..]) == Some((e, t[i..])) && ParseEscape(z[1..]) == Some((e, z[i..]))
  {
    AlikeAt(t, z, k, 0);
    QuoteLater(t, k);
    AlikeAt(t, z, k, 1);
    if t[1] != 'u' {
      SimpleEscape(t);
      SimpleEscape(z);
      SimpleStop(t);
      e, i := Simple(t[1]), 2;
    } else {
      e, i := LongEscapeAlike(t, z, k);
    }
  }

  lemma SimpleStop(t: string)
    requires WellEscaped(t) && |t| >= 2 && t[0] == '\\' && t[1] != 'u'
    ensures WellEscaped(t[2..]) && Stop(t) == Stop(t[2..])
  {
  }

  lemma QuoteLater(t: string, k: nat)
    requires WellEscaped(t) && k < |t| && t[0] == '\\' && Stop(t) == Some(t[k..])
    ensures |t| >= 2 && k >= 2
  {
  }

  /** The second pass writes the same for both texts and stops at the quote. */
  predicate ReadAlike(t: string, z: string, k: nat)
    requires k <= |z|
  {
    SecondPass(t).Some? && SecondPass(z) == Some((SecondPass(t).value.0, z[k..]))
  }

  lemma PlainAlike(t: string, z: string, k: nat)
    requires t != "" && t[0] != '\"' && t[0] != '\\' && z != "" && z[0] == t[0] && 1 <= k <= |z|
    requires ReadAlike(t[1..], z[1..], k - 1)
    ensures ReadAlike(t, z, k)
  {
    Later(z, 1, k - 1);
  }

  lemma EscapesAlike(t: string, z: string, k: nat, e: string, i: nat)
    requires t != "" && t[0] == '\\' && z != "" && z[0] == '\\' && i <= k <= |z| && i <= |t|
    requires ParseEscape(t[1..]) == Some((e, t[i..])) && ParseEscape(z[1..]) == Some((e, z[i..]))
    requires ReadAlike(t[i..], z[i..], k - i)
    ensures ReadAlike(t, z, k)
  {
    EscapeRead(t, e, t[i..]);
    EscapeRead(z, e, z[i..]);
    Later(z, i, k - i);
  }

  /** Two bodies that are alike up to the closing quote, where the passes over the first one stop. */
  predicate Bodies(t: string, z: string, k: nat)
  {
    WellEscaped(t) && Alike(t, z, k) && Stop(t) == Some(t[k..]) && t[k] == '\"'
  }

  lemma PlainBodies(t: string, z: string, k: nat)
    requires Bodies(t, z, k) && t[0] != '\"' && t[0] != '\\'
    ensures z[0] == t[0] && k >= 1 && Bodies(t[1..], z[1..], k - 1)
  {
    AlikeAt(t, z, k, 0);
    AlikeAt(t, z, k, 1);
    Later(t, 1, k - 1);
  }

  lemma EscapeBodies(t: string, z: string, k: nat) returns (e: string, i: nat)
    requires Bodies(t, z, k) && t[0] == '\\'
    ensures z[0] == t[0] && 2 <= i <= k && Bodies(t[i..], z[i..], k - i)
    ensures ParseEscape(t[1..]) == Some((e, t[i..])) && ParseEscape(z[1..]) == Some((e, z[i..]))
  {
    AlikeAt(t, z, k, 0);
    e, i := EscapeAlike(t, z, k);
    AlikeAt(t, z, k, i);
    Later(t, i, k - i);
  }

  lemma {:induction false} BodyAlike(t: string, z: string, k: nat)
    requires Bodies(t, z, k)
    ensures ReadAlike(t, z, k)
    decreases |t|
  {
    if t[0] == '\"' {
      AlikeAt(t, z, k, 0);
      assert z[0..] == z;
    } else if t[0] != '\\' {
      PlainBodies(t, z, k);
      BodyAlike(t[1..], z[1..], k - 1);
      PlainAlike(t, z, k);
    } else {
      var e, i := EscapeBodies(t, z, k);
      BodyAlike(t[i..], z[i..], k - i);
      EscapesAlike(t, z, k, e, i);
    }
  }

  lemma {:induction false} EscapedAlike(t: string, z: string, k: nat)
    requires WellEscaped(t) && Alike(t, z, k) && Stop(t) == Some(t[k..]) && t[k] == '\"'
    ensures WellEscaped(z)
    decreases |t|
  {
    AlikeAt(t, z, k, 0);
    if t[0] == '\"' {
    } else if t[0] != '\\' {
      AlikeAt(t, z, k, 1);
      EscapedAlike(t[1..], z[1..], k - 1);
    } else if t[1] != 'u' {
      AlikeAt(t, z, k, 1);
      AlikeAt(t, z, k, 2);
      EscapedAlike(t[2..], z[2..], k - 2);
    } else {
      QuoteBehind(t, k);
      AlikeAt(t, z, k, 1);
      HexAlike(t, z, k);
      AlikeAt(t, z, k, 6);
      EscapedAlike(t[6..], z[6..], k - 6);
      HexEscaped(z);
    }
  }

  lemma HexEscaped(z: string)
    requires |z| >= 6 && z[0] == '\\' && z[1] == 'u' && FourHex(z[2..]) && WellEscaped(z[6..])
    ensures WellEscaped(z)
  {
    var h, u := z[2..6], z[6..];
    assert z[2..] == h + u;
    OrdinaryPrefix(h, u);
  }

  /** Reading a literal in a text without unfinished escapes. */
  lemma LiteralRead(t: string)
    requires At(t, 0) == '\"' && WellEscaped(t[1..])
    ensures Stop(t[1..]).Some? && SecondPass(t[1..]).Some? && SecondPass(t[1..]).value.1 == Stop(t[1..]).value
    ensures FirstPass(t[1..]).Some? && FirstPass(t[1..]).value.1 == Stop(t[1..]).value
    ensures ParseString(t) == Read(SecondPass(t[1..]).value.0, AfterQuote(Stop(t[1..]).value))
  {
    WellEscapedAgree(t[1..]);
    WellEscapedSafe(t[1..]);
    PassesAgree(t[1..]);
    SecondStops(t[1..]);
  }

  lemma StringMinified(t: string, y: string) returns (x: string)
    requires Clean(t) && At(t, 0) == '\"' && !Open(t) && ParseString(t).Read? && Minify(ParseString(t).rest) == Some(y)
    ensures Minify(t) == Some(x) && ParseString(x) == Read(ParseString(t).value, y) && At(x, 0) == '\"'
  {
    CleanCut(t, 1);
    CleanEscaped(t[1..]);
    LiteralRead(t);
    CopyStops(t[1..]);
    var b, k := t[1..], |t[1..]| - |Stop(t[1..]).value|;
    SuffixOf(b);
    var z := b[..k + 1] + y;
    x := "\"" + z;
    assert Minify(t) == Prepend("\"" + b[..k + 1], Minify(b[k..][1..]));
    Assoc("\"", b[..k + 1], y);
    LiteralAlike(x, z, b, k, y);
  }

  /** Stopping leaves a suffix. */
  lemma {:induction false} SuffixOf(t: string)
    requires Stop(t).Some?
    ensures t[|t| - |Stop(t).value|..] == Stop(t).value
    ensures Stop(t).value != "" ==> Stop(t).value[0] == '\"'
    decreases |t|
  {
    if t == "" || t[0] == '\"' {
      assert t[0..] == t;
    } else {
      var n := if t[0] != '\\' then 1 else if t[1] != 'u' then 2 else 6;
      SuffixOf(t[n..]);
      Later(t, n, |t| - n - |Stop(t).value|);
    }
  }

  lemma LiteralAlike(x: string, z: string, b: string, k: nat, y: string)
    requires k < |b| && WellEscaped(b) && Stop(b) == Some(b[k..]) && b[k] == '\"' && z == b[..k + 1] + y && x == "\"" + z
    ensures SecondPass(b).Some? && ParseString(x) == Read(SecondPass(b).value.0, y)
  {
    assert z[..k + 1] == b[..k + 1] && z[k..][1..] == y && z[k] == '\"';
    BodyAlike(b, z, k);
    EscapedAlike(b, z, k);
    assert x[1..] == z;
    LiteralRead(x);
  }

  // ---------------------------------------------------------------------------------
  // Values
  // ---------------------------------------------------------------------------------

  /** A word that the parser knows, and what is behind it. */
  lemma WordMinified(word: string, t: string, y: string)
    requires word <= t && Inert(word) && Minify(t[|word|..]) == Some(y)
    ensures Minify(t) == Some(word + y) && (word + y)[|word|..] == y && word <= word + y
  {
    assert t == word + t[|word|..];
    MinifyInert(word, t[|word|..]);
  }

  predicate IsWord(t: string)
  {
    "null" <= t || "false" <= t || "true" <= t
  }

  lemma WordValue(t: string, y: string) returns (x: string)
    requires IsWord(t) && ParseValue(t).Read? && Minify(ParseValue(t).rest) == Some(y)
    ensures Minify(t) == Some(x) && ParseValue(x) == Read(ParseValue(t).value, y) && At(x, 0) == At(t, 0)
  {
    if "null" <= t {
      WordMinified("null", t, y);
      x := "null" + y;
    } else if "false" <= t {
      WordMinified("false", t, y);
      x := "false" + y;
    } else {
      WordMinified("true", t, y);
      x := "true" + y;
    }
  }

  lemma NoWord(t: string)
    requires At(t, 0) != 'n' && At(t, 0) != 'f' && At(t, 0) != 't'
    ensures !IsWord(t)
  {
  }

  /** A literal that something follows is closed. */
  lemma Closed(t: string)
    requires ParseValue(t).Read? && ParseValue(t).rest != "" && Clean(t)
    ensures !Open(t)
  {
    if At(t, 0) == '\"' {
      NoWord(t);
      ClosedName(t);
    }
  }

  lemma ClosedName(t: string)
    requires ParseString(t).Read? && ParseString(t).rest != "" && Clean(t)
    ensures !Open(t)
  {
    CleanCut(t, 1);
    CleanEscaped(t[1..]);
    LiteralRead(t);
  }

  /** The parser reads the minified text as it reads the text, y being what is left of it. */
  lemma {:induction false} ValueMinified(t: string, y: string) returns (x: string)
    requires Clean(t) && ParseValue(t).Read? && !Open(t) && Minify(ParseValue(t).rest) == Some(y) && Ends(y)
    ensures Minify(t) == Some(x) && ParseValue(x) == Read(ParseValue(t).value, y) && At(x, 0) == At(t, 0)
    decreases |t|, 1
  {
    if IsWord(t) {
      x := WordValue(t, y);
    } else if At(t, 0) == '\"' {
      x := StringMinified(t, y);
      NoWord(x);
    } else if At(t, 0) == '-' || IsDigit(At(t, 0)) {
      x := NumberMinified(t, y);
      NoWord(x);
    } else if At(t, 0) == '[' {
      x := ArrayMinified(t, y);
    } else {
      x := ObjectMinified(t, y);
    }
  }

  lemma ArrayValue(t: string)
    requires At(t, 0) == '['
    ensures var u := Skip(t[1..]);
            ParseValue(t) == if At(u, 0) == ']' then Read(Array(End), u[1..])
                             else match ParseItems(u)
                                  case Read(c, rest) => Read(Array(c), rest)
                                  case Rejected => Rejected
                                  case Unsafe => Unsafe
  {
    NoWord(t);
  }

  lemma {:induction false} ArrayMinified(t: string, y: string) returns (x: string)
    requires Clean(t) && At(t, 0) == '[' && ParseValue(t).Read? && Minify(ParseValue(t).rest) == Some(y)
    ensures Minify(t) == Some(x) && ParseValue(x) == Read(ParseValue(t).value, y) && At(x, 0) == '['
    decreases |t|, 0
  {
    ArrayValue(t);
    CleanCut(t, 1);
    CleanSkip(t[1..]);
    var u := Skip(t[1..]);
    var w;
    if At(u, 0) == ']' {
      FirstKept(u, y);
      w := "]" + y;
    } else {
      w := ItemsMinified(u, y);
    }
    var z := SkipMinified(t[1..], w);
    FirstKept(t, z);
    x := "[" + z;
    ArrayValue(x);
  }

  lemma ObjectValue(t: string)
    requires At(t, 0) == '{'
    ensures var u := Skip(t[1..]);
            ParseValue(t) == if At(u, 0) == '}' then Read(Object(End), u[1..])
                             else match ParseMembers(u)
                                  case Read(c, rest) => Read(Object(c), rest)
                                  case Rejected => Rejected
                                  case Unsafe => Unsafe
  {
    NoWord(t);
  }

  lemma {:induction false} ObjectMinified(t: string, y: string) returns (x: string)
    requires Clean(t) && ParseValue(t).Read? && Minify(ParseValue(t).rest) == Some(y)
    requires At(t, 0) == '{'
    ensures Minify(t) == Some(x) && ParseValue(x) == Read(ParseValue(t).value, y) && At(x, 0) == '{'
    decreases |t|, 0
  {
    ObjectValue(t);
    CleanCut(t, 1);
    CleanSkip(t[1..]);
    var u := Skip(t[1..]);
    var w;
    if At(u, 0) == '}' {
      FirstKept(u, y);
      w := "}" + y;
    } else {
      w := MembersMinified(u, y);
    }
    var z := SkipMinified(t[1..], w);
    FirstKept(t, z);
    x := "{" + z;
    ObjectValue(x);
  }

  /** What follows an entry: a comma and more of them, or the closing character. */
  lemma ValueThen(t: string, w: string) returns (x: string, y: string)
    requires Clean(t) && ParseValue(Skip(t)).Read?
    requires Minify(Skip(ParseValue(Skip(t)).rest)) == Some(w) && Ends(w) && !IsSpace(At(w, 0)) && w != ""
    requires ParseValue(Skip(t)).rest != ""
    ensures Minify(t) == Some(x) && Minify(Skip(t)) == Some(Skip(x)) && Skip(y) == w
    ensures ParseValue(Skip(x)) == Read(ParseValue(Skip(t)).value, y)
    ensures At(Skip(x), 0) == At(Skip(t), 0)
    decreases |t|, 2
  {
    CleanSkip(t);
    Closed(Skip(t));
    y := SkipMinified(ParseValue(Skip(t)).rest, w);
    var v := ValueMinified(Skip(t), y);
    x := SkipMinified(t, v);
  }

  lemma {:induction false} ItemsMinified(t: string, y: string) returns (x: string)
    requires Clean(t) && ParseItems(t).Read? && Minify(ParseItems(t).rest) == Some(y) && !IsSpace(At(t, 0))
    ensures Minify(t) == Some(x) && ParseItems(x) == Read(ParseItems(t).value, y) && At(x, 0) == At(t, 0)
    decreases |t|, 3
  {
    var r := ParseValue(t);
    assert Skip(t) == t;
    ValueSafe(t);
    CleanSkip(r.rest);
    var u := Skip(r.rest);
    var w;
    if At(u, 0) == ',' {
      CleanCut(u, 1);
      w := MoreItems(u[1..], y);
      FirstKept(u, w);
      w := "," + w;
    } else {
      FirstKept(u, y);
      w := "]" + y;
    }
    var z;
    x, z := ValueThen(t, w);
    assert Skip(x) == x;
  }

  lemma {:induction false} MoreItems(t: string, y: string) returns (x: string)
    requires Clean(t) && ParseItems(t).Read? && Minify(ParseItems(t).rest) == Some(y)
    ensures Minify(t) == Some(x) && ParseItems(x) == Read(ParseItems(t).value, y)
    decreases |t|, 4
  {
    CleanSkip(t);
    SkippedItems(t);
    var w := ItemsMinified(Skip(t), y);
    x := SkipMinified(t, w);
    SkippedItems(x);
  }

  lemma SkippedItems(t: string)
    ensures ParseItems(Skip(t)) == ParseItems(t)
  {
    assert Skip(Skip(t)) == Skip(t);
  }

  lemma SkippedMembers(t: string)
    ensures ParseMembers(Skip(t)) == ParseMembers(t)
  {
    assert Skip(Skip(t)) == Skip(t);
  }

  lemma MembersParts(t: string, n: Parsed<string>, colon: string, v: Parsed<Item>, u: string)
    requires !IsSpace(At(t, 0)) && n == ParseString(t) && n.Read? && colon == Skip(n.rest) && At(colon, 0) == ':'
    requires v == ParseValue(Skip(colon[1..])) && v.Read? && u == Skip(v.rest)
    ensures ParseMembers(t) == if At(u, 0) == ',' then Before(Some(n.value), v.value, ParseMembers(u[1..]))
                               else if At(u, 0) == '}' then Read(Link(Some(n.value), v.value, End), u[1..])
                               else Rejected
  {
    assert Skip(t) == t;
  }

  /** A name, the colon and the value, x standing for what is left behind the colon. */
  lemma NameThen(t: string, x2: string) returns (x: string, s: string)
    requires Clean(t) && !IsSpace(At(t, 0)) && ParseString(t).Read? && At(Skip(ParseString(t).rest), 0) == ':'
    requires Minify(Skip(ParseString(t).rest)[1..]) == Some(x2)
    ensures Minify(t) == Some(x) && At(x, 0) == At(t, 0) && !IsSpace(At(x, 0))
    ensures ParseString(x) == Read(ParseString(t).value, s) && Skip(s) == ":" + x2
  {
    ClosedName(t);
    FirstKept(Skip(ParseString(t).rest), x2);
    s := SkipMinified(ParseString(t).rest, ":" + x2);
    x := StringMinified(t, s);
  }

  lemma {:induction false} MembersMinified(t: string, y: string) returns (x: string)
    requires Clean(t) && ParseMembers(t).Read? && Minify(ParseMembers(t).rest) == Some(y) && !IsSpace(At(t, 0))
    ensures Minify(t) == Some(x) && ParseMembers(x) == Read(ParseMembers(t).value, y) && At(x, 0) == At(t, 0)
    decreases |t|, 3
  {
    assert Skip(t) == t;
    var n := ParseString(t);
    StringSafe(t);
    CleanSkip(n.rest);
    var colon := Skip(n.rest);
    CleanCut(colon, 1);
    CleanSkip(colon[1..]);
    var v := ParseValue(Skip(colon[1..]));
    ValueSafe(Skip(colon[1..]));
    CleanSkip(v.rest);
    var u := Skip(v.rest);
    MembersParts(t, n, colon, v, u);
    var w;
    if At(u, 0) == ',' {
      CleanCut(u, 1);
      w := MoreMembers(u[1..], y);
      FirstKept(u, w);
      w := "," + w;
    } else {
      FirstKept(u, y);
      w := "}" + y;
    }
    var x2, z := ValueThen(colon[1..], w);
    var s;
    x, s := NameThen(t, x2);
    MembersParts(x, ParseString(x), ":" + x2, ParseValue(Skip(x2)), w);
  }

  lemma {:induction false} MoreMembers(t: string, y: string) returns (x: string)
    requires Clean(t) && ParseMembers(t).Read? && Minify(ParseMembers(t).rest) == Some(y)
    ensures Minify(t) == Some(x) && ParseMembers(x) == Read(ParseMembers(t).value, y)
    decreases |t|, 4
  {
    CleanSkip(t);
    SkippedMembers(t);
    var w := MembersMinified(Skip(t), y);
    x := SkipMinified(t, w);
    SkippedMembers(x);
  }

  // ---------------------------------------------------------------------------------
  // Whole texts
  // ---------------------------------------------------------------------------------

  /** The parser forgives a literal that the text ends in, but the minifier runs on. */
  lemma OpenNotMinified(t: string)
    requires Clean(t) && Open(Skip(t))
    ensures Minify(t) == None
  {
    var u := Skip(t);
    CleanSkip(t);
    CleanCut(u, 1);
    CleanEscaped(u[1..]);
    LiteralRead(u);
    CopyStops(u[1..]);
    SkipNothing(t);
  }

  /** For every text without unfinished escapes from which the parser reads a value, whatever its layout: minifying it
      is possible exactly when it does not end inside a string, and then the same value is read. */
  lemma MinifyReads(t: string)
    requires Clean(t) && ParseWithOpts(t, true).Read?
    ensures Minify(t).Some? <==> !Open(Skip(t))
    ensures Minify(t).Some? ==> ParseWithOpts(Minify(t).value, true) == ParseWithOpts(t, true)
  {
    if Open(Skip(t)) {
      OpenNotMinified(t);
    } else {
      CleanSkip(t);
      var r := ParseValue(Skip(t));
      var y := SkipMinified(r.rest, "");
      var w := ValueMinified(Skip(t), y);
      var x := SkipMinified(t, w);
    }
  }
}
