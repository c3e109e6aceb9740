/** Numbers as they are written, and what they are worth. */
module JsonNumbers {
  import opened Json
  import opened JsonMinified
  import opened Wrappers
  import opened Sequences

  // ---------------------------------------------------------------------------------
  // Decimal notation
  // ---------------------------------------------------------------------------------

  /** What a digit counts; -1 if the character is none. */
  function Figure(c: char): int
  {
    match c
    case '0' => 0
    case '1' => 1
    case '2' => 2
    case '3' => 3
    case '4' => 4
    case '5' => 5
    case '6' => 6
    case '7' => 7
    case '8' => 8
    case '9' => 9
    case _ => -1
  }

  predicate Digits(s: string)
  {
    forall i :: 0 <= i < |s| ==> Figure(s[i]) >= 0
  }

  function TenTo(n: nat): (p: nat)
    ensures p > 0
  {
    if n == 0 then 1 else 10 * TenTo(n - 1)
  }

  /** Every digit counts by its place. */
  function Positional(s: string): nat
    requires Digits(s)
  {
    if s == "" then 0 else Figure(s[0]) * TenTo(|s| - 1) + Positional(s[1..])
  }

  /** The source takes one leading zero, then digits that start with another one, a fraction and an exponent. */
  datatype Numeral = Numeral(negative: bool, zero: bool, whole: string, fraction: string, exponent: Option<Exponent>)

  datatype Exponent = Exponent(mark: char, sign: string, digits: string)

  predicate Good(n: Numeral)
  {
    && (n.negative || n.zero || n.whole != "")
    && Digits(n.whole) && (n.whole != "" ==> n.whole[0] != '0') && Digits(n.fraction)
    && (n.exponent.Some? ==>
          var e := n.exponent.value;
          (e.mark == 'e' || e.mark == 'E') && (e.sign == "" || e.sign == "+" || e.sign == "-") && Digits(e.digits))
  }

  function ExponentText(e: Option<Exponent>): string
  {
    match e
    case None => ""
    case Some(x) => [x.mark] + (x.sign + x.digits)
  }

  function PointText(fraction: string): string
  {
    if fraction == "" then "" else "." + fraction
  }

  function Text(n: Numeral): string
  {
    (if n.negative then "-" else "") + ((if n.zero then "0" else "")
    + (n.whole + (PointText(n.fraction) + ExponentText(n.exponent))))
  }

  /** By how many places the exponent moves the point to the right and to the left. */
  function Right(e: Option<Exponent>): nat
    requires e.Some? ==> Digits(e.value.digits)
  {
    if e.Some? && e.value.sign != "-" then Positional(e.value.digits) else 0
  }

  function LeftBy(e: Option<Exponent>): nat
    requires e.Some? ==> Digits(e.value.digits)
  {
    if e.Some? && e.value.sign == "-" then Positional(e.value.digits) else 0
  }

  function Ratio(m: real, p: real, q: real): real
    requires q != 0.0
  {
    m * p / q
  }

  /** m with the point moved a places to the right and b to the left. */
  function Moved(m: int, a: nat, b: nat): real
  {
    Ratio(m as real, TenTo(a) as real, TenTo(b) as real)
  }

  function Amount(n: Numeral): real
    requires Good(n)
  {
    var digits: int := Positional(n.whole + n.fraction);
    Moved(if n.negative then 0 - digits else digits, Right(n.exponent), |n.fraction| + LeftBy(n.exponent))
  }

  // ---------------------------------------------------------------------------------
  // Digits
  // ---------------------------------------------------------------------------------

  lemma DigitIs(c: char)
    ensures IsDigit(c) <==> Figure(c) >= 0
    ensures IsDigit(c) ==> DigitValue(c) == Figure(c)
  {
  }

  lemma Move(n: nat, d: nat, p: nat, rest: nat)
    ensures (10 * n + d) * p + rest == n * (10 * p) + (d * p + rest)
  {
  }

  /** Reading the digits in front of something else. */
  lemma {:induction false} DigitsRead(s: string, rest: string, n: nat)
    requires Digits(s) && !IsDigit(At(rest, 0))
    ensures ParseDigits(s + rest, n) == (n * TenTo(|s|) + Positional(s), rest)
  {
    if s == "" {
      Empty(rest);
    } else {
      Peel(s, rest);
      DigitIs(s[0]);
      var d, u := Figure(s[0]), s[1..];
      DigitsRead(u, rest, 10 * n + d);
      NextDigit(s + rest, n, d, u + rest);
      Move(n, d, TenTo(|u|), Positional(u));
    }
  }

  lemma NextDigit(t: string, n: nat, d: nat, u: string)
    requires t != "" && IsDigit(t[0]) && DigitValue(t[0]) == d && t[1..] == u
    ensures ParseDigits(t, n) == ParseDigits(u, 10 * n + d)
  {
  }

  /** The digits a text starts with. */
  lemma {:induction false} DigitsFound(t: string, n: nat) returns (s: string)
    ensures Digits(s) && t == s + ParseDigits(t, n).1
    ensures ParseDigits(t, n).0 == n * TenTo(|s|) + Positional(s)
    ensures s == "" ==> !IsDigit(At(t, 0))
    ensures s != "" ==> s[0] == At(t, 0)
  {
    s := "";
    DigitIs(At(t, 0));
    if IsDigit(At(t, 0)) {
      var u := DigitsFound(t[1..], 10 * n + DigitValue(t[0]));
      Move(n, Figure(t[0]), TenTo(|u|), Positional(u));
      s := [t[0]] + u;
      Assoc([t[0]], u, ParseDigits(t, n).1);
      FirstDigit(t[0], u);
    }
  }

  lemma FirstDigit(c: char, s: string)
    requires Figure(c) >= 0 && Digits(s)
    ensures Digits([c] + s) && Positional([c] + s) == Figure(c) * TenTo(|s|) + Positional(s)
  {
    assert ([c] + s)[1..] == s;
  }

  lemma {:induction false} PositionalConcat(a: string, b: string)
    requires Digits(a) && Digits(b)
    ensures Positional(a + b) == Positional(a) * TenTo(|b|) + Positional(b)
  {
    if a == "" {
      Empty(b);
    } else {
      assert (a + b)[1..] == a[1..] + b;
      PositionalConcat(a[1..], b);
      TenToSum(|a| - 1, |b|);
      Spread(Figure(a[0]), TenTo(|a| - 1), TenTo(|b|), Positional(a[1..]));
    }
  }

  lemma Spread(d: nat, p: nat, q: nat, r: nat)
    ensures d * (p * q) + r * q == (d * p + r) * q
  {
  }

  lemma {:induction false} TenToSum(a: nat, b: nat)
    ensures TenTo(a + b) == TenTo(a) * TenTo(b)
  {
    if a > 0 {
      TenToSum(a - 1, b);
      Tens(TenTo(a - 1), TenTo(b));
    }
  }

  lemma Tens(p: nat, q: nat)
    ensures 10 * (p * q) == (10 * p) * q
  {
  }

  // ---------------------------------------------------------------------------------
  // Powers of ten
  // ---------------------------------------------------------------------------------

  /** Moving the point by one place. */
  lemma OneUp(e: int)
    ensures Pow10(e + 1) == 10.0 * Pow10(e)
  {
    if e < 0 {
      TenTimes(Pow10(e + 1), Pow10(e));
    }
  }

  lemma TenTimes(a: real, b: real)
    requires b == a / 10.0
    ensures a == 10.0 * b
  {
  }

  lemma {:induction false} PowerUp(a: nat)
    ensures Pow10(a) == TenTo(a) as real
  {
    if a > 0 {
      PowerUp(a - 1);
    }
  }

  lemma {:induction false} PowerRatio(a: nat, b: nat)
    ensures Pow10(a - b) * TenTo(b) as real == TenTo(a) as real
    decreases b
  {
    if b == 0 {
      PowerUp(a);
    } else {
      PowerRatio(a, b - 1);
      OneUp(a - b);
      Regroup(Pow10(a - b), TenTo(b - 1) as real);
    }
  }

  lemma Regroup(x: real, y: real)
    ensures (10.0 * x) * y == x * (10.0 * y)
  {
  }

  lemma Quotient(x: real, y: real, z: real, m: real)
    requires x * y == z && y != 0.0
    ensures m * x == Ratio(m, z, y)
  {
    assert m * z == (m * x) * y;
  }

  lemma ScaledIs(negative: bool, m: nat, e: int)
    ensures Scaled(negative, m, e) == (if negative then 0.0 - m as real else m as real) * Pow10(e)
  {
    SignedReal(m as real);
  }

  lemma SignedReal(m: real)
    ensures -1.0 * m == 0.0 - m && 1.0 * m == m
  {
  }

  lemma MovedIs(m: real, x: real, p: real, q: real)
    requires x * q == p && q != 0.0
    ensures m * x == Ratio(m, p, q)
  {
    Quotient(x, q, p, m);
  }

  lemma ScaledRatio(negative: bool, m: nat, signed: int, a: nat, b: nat, e: int)
    requires signed == (if negative then 0 - m else m) && e == a - b
    ensures Scaled(negative, m, e) == Moved(signed, a, b)
  {
    ScaledIs(negative, m, e);
    PowerMoved(signed as real, e, a, b);
  }

  lemma PowerMoved(m: real, e: int, a: nat, b: nat)
    requires e == a - b
    ensures m * Pow10(e) == Ratio(m, TenTo(a) as real, TenTo(b) as real)
  {
    var x, p, q := Pow10(e), TenTo(a) as real, TenTo(b) as real;
    assert x * q == p by {
      PowerRatio(a, b);
    }
    assert q != 0.0;
    assert m * x == Ratio(m, p, q) by {
      MovedIs(m, x, p, q);
    }
  }

  lemma AmountIs(n: Numeral, m: nat, scale: int, subscale: int)
    requires Good(n) && m == Positional(n.whole + n.fraction) && scale == -|n.fraction|
    requires subscale == Right(n.exponent) - LeftBy(n.exponent)
    ensures Scaled(n.negative, m, scale + subscale) == Amount(n)
  {
    ScaledRatio(n.negative, m, if n.negative then 0 - m else m, Right(n.exponent), |n.fraction| + LeftBy(n.exponent), scale + subscale);
  }

  // ---------------------------------------------------------------------------------
  // Reading what is written
  // ---------------------------------------------------------------------------------

  lemma ExponentRead(e: Option<Exponent>, rest: string)
    requires Good(Numeral(true, true, "", "", e)) && Ends(rest)
    ensures ParseExponent(ExponentText(e) + rest) == (Right(e) - LeftBy(e), rest)
  {
    if e.None? {
      Empty(rest);
    } else {
      var x := e.value;
      Assoc(x.sign, x.digits, rest);
      Assoc([x.mark], x.sign + x.digits, rest);
      DigitsRead(x.digits, rest, 0);
      SignRead(x.sign, x.digits, rest);
      Peel([x.mark], x.sign + (x.digits + rest));
      MarkRead([x.mark] + (x.sign + (x.digits + rest)), x.sign + (x.digits + rest));
    }
  }

  lemma MarkRead(t: string, u: string)
    requires t != "" && (t[0] == 'e' || t[0] == 'E') && u == t[1..]
    ensures var (n, rest) := ParseDigits(if Signed(u) then u[1..] else u, 0);
            ParseExponent(t) == (if At(u, 0) == '-' then 0 - n else n, rest)
  {
    ExponentParts(t);
  }

  lemma SignRead(sign: string, digits: string, rest: string)
    requires (sign == "" || sign == "+" || sign == "-") && Digits(digits) && Ends(rest)
    ensures var u := sign + (digits + rest);
            && (At(u, 0) == '-' <==> sign == "-")
            && (if Signed(u) then u[1..] else u) == digits + rest
  {
    var u := sign + (digits + rest);
    if sign == "" {
      Empty(digits + rest);
      Empty(rest);
      if digits != "" {
        DigitIs(digits[0]);
      }
    } else {
      Peel(sign, digits + rest);
    }
  }

  lemma FractionRead(fraction: string, t4: string, n: nat, m: nat)
    requires Digits(fraction) && At(t4, 0) != '.' && ParseDigits(fraction + t4, n) == (m, t4)
    ensures Fraction(PointText(fraction) + t4, n) == (m, -|fraction|, t4)
  {
    if fraction == "" {
      Empty(t4);
      NoPoint(t4, n);
    } else {
      FirstFigure(fraction, t4);
      Assoc(".", fraction, t4);
      PointRead(PointText(fraction) + t4, fraction + t4, n, m, t4);
    }
  }

  lemma FirstFigure(s: string, t: string)
    requires s != "" && Digits(s)
    ensures IsDigit(At(s + t, 0))
  {
    DigitIs(s[0]);
  }

  lemma NoPoint(t: string, n: nat)
    requires At(t, 0) != '.'
    ensures Fraction(t, n) == (n, 0, t)
  {
  }

  lemma PointRead(t: string, u: string, n: nat, m: nat, rest: string)
    requires t == "." + u && IsDigit(At(u, 0)) && ParseDigits(u, n) == (m, rest)
    ensures Fraction(t, n) == (m, |rest| - |u|, rest)
  {
    Peel(".", u);
    assert At(t, 1) == At(u, 0);
  }

  lemma WholeRead(whole: string, t3: string)
    requires Digits(whole) && (whole != "" ==> whole[0] != '0') && !IsDigit(At(t3, 0))
    ensures WholePart(whole + t3) == (Positional(whole), t3)
    ensures At(whole + t3, 0) != '0'
  {
    if whole == "" {
      Empty(t3);
    } else {
      DigitIs(whole[0]);
      DigitsRead(whole, t3, 0);
    }
  }

  lemma Drop1Read(present: bool, c: char, t: string)
    requires c != '\0' && (!present ==> At(t, 0) != c)
    ensures Drop1((if present then [c] else "") + t, c) == t
    ensures At((if present then [c] else "") + t, 0) == c <==> present
  {
    if present {
      Peel([c], t);
    } else {
      Empty(t);
    }
  }

  lemma TextParts(n: Numeral, rest: string)
    ensures Text(n) + rest == (if n.negative then "-" else "") + ((if n.zero then "0" else "")
                              + (n.whole + (PointText(n.fraction) + (ExponentText(n.exponent) + rest))))
  {
    var a, b, c, d, e := if n.negative then "-" else "", if n.zero then "0" else "", n.whole,
                         PointText(n.fraction), ExponentText(n.exponent);
    Assoc(a, b + (c + (d + e)), rest);
    Assoc(b, c + (d + e), rest);
    Assoc(c, d + e, rest);
    Assoc(d, e, rest);
  }

  lemma ExponentFirst(e: Option<Exponent>, rest: string)
    requires Good(Numeral(true, true, "", "", e)) && Ends(rest)
    ensures var t := ExponentText(e) + rest;
            !IsDigit(At(t, 0)) && At(t, 0) != '.' && At(t, 0) != '-'
  {
    if e.None? {
      Empty(rest);
    }
  }

  lemma PointFirst(fraction: string, t4: string)
    requires !IsDigit(At(t4, 0)) && At(t4, 0) != '-'
    ensures var t := PointText(fraction) + t4;
            !IsDigit(At(t, 0)) && At(t, 0) != '-'
  {
    if fraction == "" {
      Empty(t4);
    }
  }

  /** A numeral is read as the amount it stands for, and reading stops behind it. */
  lemma NumeralRead(n: Numeral, rest: string)
    requires Good(n) && Ends(rest)
    ensures ParseNumber(Text(n) + rest) == (Amount(n), rest)
    ensures At(Text(n) + rest, 0) == '-' || IsDigit(At(Text(n) + rest, 0))
  {
    var t4 := ExponentText(n.exponent) + rest;
    var t3 := PointText(n.fraction) + t4;
    var t2 := n.whole + t3;
    var t1 := (if n.zero then "0" else "") + t2;
    ExponentFirst(n.exponent, rest);
    ExponentRead(n.exponent, rest);
    DigitsBoth(n, t4, t3);
    DigitFirst(n, t1, t2, t3);
    FrontRead(n, t1, t2);
    TextParts(n, rest);
    PartsRead(n, Text(n) + rest, t1, t2, t3, t4, rest);
  }

  lemma PartsRead(n: Numeral, t: string, t1: string, t2: string, t3: string, t4: string, rest: string)
    requires Good(n) && (At(t, 0) == '-' <==> n.negative) && Drop1(t, '-') == t1 && Drop1(t1, '0') == t2
    requires WholePart(t2) == (Positional(n.whole), t3)
    requires Fraction(t3, Positional(n.whole)) == (Positional(n.whole + n.fraction), -|n.fraction|, t4)
    requires ParseExponent(t4) == (Right(n.exponent) - LeftBy(n.exponent), rest)
    ensures ParseNumber(t) == (Amount(n), rest)
  {
    var m, subscale := Positional(n.whole + n.fraction), Right(n.exponent) - LeftBy(n.exponent);
    NumberParts(t, t1, t2, Positional(n.whole), t3, m, -|n.fraction|, t4, subscale, rest);
    AmountIs(n, m, -|n.fraction|, subscale);
  }

  /** The digits before and behind the point. */
  lemma DigitsBoth(n: Numeral, t4: string, t3: string)
    requires Good(n) && t3 == PointText(n.fraction) + t4
    requires !IsDigit(At(t4, 0)) && At(t4, 0) != '-' && At(t4, 0) != '.'
    ensures WholePart(n.whole + t3) == (Positional(n.whole), t3) && At(n.whole + t3, 0) != '0' && At(t3, 0) != '-'
    ensures Fraction(t3, Positional(n.whole)) == (Positional(n.whole + n.fraction), -|n.fraction|, t4)
  {
    PointFirst(n.fraction, t4);
    DigitsRead(n.fraction, t4, Positional(n.whole));
    PositionalConcat(n.whole, n.fraction);
    FractionRead(n.fraction, t4, Positional(n.whole), Positional(n.whole + n.fraction));
    WholeRead(n.whole, t3);
  }

  /** The sign and the leading zero. */
  lemma FrontRead(n: Numeral, t1: string, t2: string)
    requires t1 == (if n.zero then "0" else "") + t2 && At(t2, 0) != '0' && At(t1, 0) != '-'
    requires !n.negative ==> IsDigit(At(t1, 0))
    ensures var t := (if n.negative then "-" else "") + t1;
            && Drop1(t, '-') == t1 && Drop1(t1, '0') == t2
            && (At(t, 0) == '-' <==> n.negative) && (At(t, 0) == '-' || IsDigit(At(t, 0)))
  {
    Drop1Read(n.zero, '0', t2);
    Drop1Read(n.negative, '-', t1);
    if !n.negative {
      Empty(t1);
    }
  }

  lemma DigitFirst(n: Numeral, t1: string, t2: string, t3: string)
    requires Good(n) && t2 == n.whole + t3 && t1 == (if n.zero then "0" else "") + t2 && At(t3, 0) != '-'
    ensures At(t1, 0) != '-' && (!n.negative ==> IsDigit(At(t1, 0)))
  {
    if n.whole != "" {
      DigitIs(n.whole[0]);
    } else {
      Empty(t3);
    }
    if !n.zero {
      Empty(t2);
    }
  }

  // ---------------------------------------------------------------------------------
  // What was read was written
  // ---------------------------------------------------------------------------------

  lemma ExponentFound(t: string) returns (e: Option<Exponent>)
    ensures Good(Numeral(true, true, "", "", e))
    ensures t == ExponentText(e) + ParseExponent(t).1 && ParseExponent(t).0 == Right(e) - LeftBy(e)
  {
    if At(t, 0) == 'e' || At(t, 0) == 'E' {
      ExponentParts(t);
      var u := t[1..];
      assert t == [t[0]] + u;
      MarkRead(t, u);
      var sign, digits := SignFound(u);
      e := Some(Exponent(t[0], sign, digits));
      Assoc(sign, digits, ParseExponent(t).1);
      Assoc([t[0]], sign + digits, ParseExponent(t).1);
    } else {
      e := None;
      Empty(t);
    }
  }

  lemma SignFound(u: string) returns (sign: string, digits: string)
    ensures Digits(digits) && (sign == "" || sign == "+" || sign == "-") && (sign == "-" <==> At(u, 0) == '-')
    ensures var (n, rest) := ParseDigits(if Signed(u) then u[1..] else u, 0);
            n == Positional(digits) && u == sign + (digits + rest)
  {
    sign := if Signed(u) then [u[0]] else "";
    digits := DigitsFound(if Signed(u) then u[1..] else u, 0);
    if Signed(u) {
      assert u == [u[0]] + u[1..];
    } else {
      Empty(u);
    }
  }

  lemma FractionFound(t: string, n: nat) returns (fraction: string)
    ensures Digits(fraction) && t == PointText(fraction) + Fraction(t, n).2
    ensures Fraction(t, n).0 == n * TenTo(|fraction|) + Positional(fraction) && Fraction(t, n).1 == -|fraction|
  {
    if At(t, 0) == '.' && IsDigit(At(t, 1)) {
      fraction := DigitsFound(t[1..], n);
      Assoc(".", fraction, Fraction(t, n).2);
      assert t == "." + t[1..];
    } else {
      fraction := "";
      Empty(t);
    }
  }

  lemma WholeFound(t: string) returns (whole: string)
    ensures Digits(whole) && (whole != "" ==> whole[0] != '0') && t == whole + WholePart(t).1
    ensures WholePart(t).0 == Positional(whole) && (IsDigit(At(t, 0)) && At(t, 0) != '0' ==> whole != "")
  {
    if '1' <= At(t, 0) <= '9' {
      whole := DigitsFound(t, 0);
    } else {
      whole := "";
      Empty(t);
    }
  }

  lemma Drop1Found(t: string, c: char)
    requires c != '\0'
    ensures t == (if At(t, 0) == c then [c] else "") + Drop1(t, c)
  {
    if At(t, 0) == c {
      assert t == [t[0]] + t[1..];
    } else {
      Empty(t);
    }
  }

  /** What is read as a number is a numeral, worth what was read. */
  lemma NumeralFound(t: string) returns (n: Numeral)
    requires At(t, 0) == '-' || IsDigit(At(t, 0))
    ensures Good(n) && t == Text(n) + ParseNumber(t).1 && Amount(n) == ParseNumber(t).0
  {
    var t1 := Drop1(t, '-');
    var t2 := Drop1(t1, '0');
    var (w, t3) := WholePart(t2);
    var (m, scale, t4) := Fraction(t3, w);
    var (subscale, rest) := ParseExponent(t4);
    NumberParts(t, t1, t2, w, t3, m, scale, t4, subscale, rest);
    Drop1Found(t, '-');
    Drop1Found(t1, '0');
    var whole := WholeFound(t2);
    var fraction := FractionFound(t3, w);
    var e := ExponentFound(t4);
    n := Numeral(At(t, 0) == '-', At(t1, 0) == '0', whole, fraction, e);
    TextParts(n, rest);
    PositionalConcat(whole, fraction);
    AmountIs(n, m, scale, subscale);
  }
}
