/** The block check of the YMODEM receiver: a bitwise CRC-16 (section 8.1, CRC Calculation, of the
    XMODEM/YMODEM Protocol Reference: generator x^16 + x^12 + x^5 + 1, initial value 0). */
module YmodemCrc {

  // ---------------------------------------------------------------------------------
  // Polynomials over GF(2), highest coefficient first
  // ---------------------------------------------------------------------------------

  const N: nat := 16

  /** A remainder: 16 coefficients. */
  type Reg = r: seq<bool> | |r| == N witness seq(N, _ => false)

  const ZERO: Reg := Zeros(N)

  function Zeros(n: nat): seq<bool>
  {
    seq(n, _ => false)
  }

  /** Polynomials of degree 16. */
  type Divisor = g: seq<bool> | |g| == N + 1 && g[0] witness [true] + Zeros(N)

  /** x^16 + x^12 + x^5 + 1 */
  const GENERATOR: Divisor :=
    [true, false, false, false, true, false, false, false, false, false, false, true, false, false, false, false, true]

  /** x^12 + x^5 + 1, the generator without its leading term. */
  predicate Poly(i: int)
  {
    i == 3 || i == 10 || i == 15
  }

  function Xor(a: seq<bool>, b: seq<bool>): (r: seq<bool>)
    requires |a| == |b|
    ensures |r| == |a| && forall i :: 0 <= i < |r| ==> r[i] == (a[i] != b[i])
  {
    if a == [] then [] else [a[0] != b[0]] + Xor(a[1..], b[1..])
  }

  /** Multiplication by x modulo the generator. */
  function Shift(s: Reg): (r: Reg)
    ensures forall i: nat :: i < N ==> r[i] == ((i + 1 < N && s[i + 1]) != (s[0] && Poly(i)))
  {
    seq(N, i requires 0 <= i < N => (i + 1 < N && s[i + 1]) != (s[0] && Poly(i)))
  }

  /** The register with a message bit added to its top coefficient. */
  function AddTop(s: Reg, b: bool): (r: Reg)
  {
    s[0 := s[0] != b]
  }

  /** The register after a message, most significant bit first. */
  function Crc(s: Reg, bits: seq<bool>): Reg
    decreases |bits|
  {
    if bits == [] then s else Crc(Shift(AddTop(s, bits[0])), bits[1..])
  }

  function ShiftN(s: Reg, n: nat): Reg
    decreases n
  {
    if n == 0 then s else ShiftN(Shift(s), n - 1)
  }

  lemma ShiftZero(s: Reg)
    ensures Shift(s) == ZERO <==> s == ZERO
  {
    if s != ZERO {
      var i :| 0 <= i < N && s[i];
      assert Shift(s)[15] == s[0];
      if !s[0] {
        assert Shift(s)[i - 1];
      }
    }
  }

  lemma {:induction false} ShiftNZero(s: Reg, n: nat)
    ensures ShiftN(s, n) == ZERO <==> s == ZERO
    decreases n
  {
    if n > 0 {
      ShiftZero(s);
      ShiftNZero(Shift(s), n - 1);
    }
  }

  // ---------------------------------------------------------------------------------
  // Linearity
  // ---------------------------------------------------------------------------------

  lemma ShiftLinear(a: Reg, b: Reg)
    ensures Shift(Xor(a, b)) == Xor(Shift(a), Shift(b))
  {
  }

  /** The remainder is XOR-linear in register and message together. */
  lemma {:induction false} CrcLinear(s: Reg, a: seq<bool>, t: Reg, b: seq<bool>)
    requires |a| == |b|
    ensures Crc(Xor(s, t), Xor(a, b)) == Xor(Crc(s, a), Crc(t, b))
    decreases |a|
  {
    if a != [] {
      var p, q := AddTop(s, a[0]), AddTop(t, b[0]);
      assert AddTop(Xor(s, t), a[0] != b[0]) == Xor(p, q);
      ShiftLinear(p, q);
      CrcLinear(Shift(p), a[1..], Shift(q), b[1..]);
      assert Xor(a, b)[1..] == Xor(a[1..], b[1..]);
    }
  }

  lemma {:induction false} CrcConcat(s: Reg, a: seq<bool>, b: seq<bool>)
    ensures Crc(s, a + b) == Crc(Crc(s, a), b)
    decreases |a|
  {
    if a == [] {
      assert a + b == b;
    } else {
      assert (a + b)[1..] == a[1..] + b;
      CrcConcat(Shift(AddTop(s, a[0])), a[1..], b);
    }
  }

  // ---------------------------------------------------------------------------------
  // Feeding up to 16 bits at once
  // ---------------------------------------------------------------------------------

  /** Up to 16 bits as the leading coefficients of a register. */
  function Word(bits: seq<bool>): Reg
    requires |bits| <= N
  {
    bits + Zeros(N - |bits|)
  }

  /** Feeding up to 16 bits is adding them to the leading coefficients and shifting as often. */
  lemma {:induction false} FeedWord(s: Reg, bits: seq<bool>)
    requires |bits| <= N
    ensures Crc(s, bits) == ShiftN(Xor(s, Word(bits)), |bits|)
    decreases |bits|
  {
    if bits == [] {
      assert Xor(s, Word(bits)) == s;
    } else {
      FeedFirst(s, bits);
      FeedWord(Shift(AddTop(s, bits[0])), bits[1..]);
    }
  }

  lemma FeedFirst(s: Reg, bits: seq<bool>)
    requires 0 < |bits| <= N
    ensures Shift(Xor(s, Word(bits))) == Xor(Shift(AddTop(s, bits[0])), Word(bits[1..]))
  {
    var w, v := Word(bits), Word(bits[1..]);
    assert w[0] == bits[0] && forall i :: 0 <= i < N - 1 ==> w[i + 1] == v[i];
    assert !v[N - 1];
  }

  // ---------------------------------------------------------------------------------
  // Error detection
  // ---------------------------------------------------------------------------------

  lemma {:induction false} CrcZeros(s: Reg, n: nat)
    ensures Crc(s, Zeros(n)) == ShiftN(s, n)
    decreases n
  {
    if n > 0 {
      assert Zeros(n)[1..] == Zeros(n - 1);
      assert AddTop(s, false) == s;
      CrcZeros(Shift(s), n - 1);
    }
  }

  /** A message followed by any 16 bits leaves remainder 0 exactly when those bits are its CRC. */
  lemma CodewordExact(message: seq<bool>, check: Reg)
    ensures Crc(ZERO, message + check) == ZERO <==> check == Crc(ZERO, message)
  {
    var c := Crc(ZERO, message);
    CrcConcat(ZERO, message, check);
    FeedWord(c, check);
    assert Word(check) == check;
    ShiftNZero(Xor(c, check), N);
    if Xor(c, check) == ZERO {
      assert forall i :: 0 <= i < N ==> Xor(c, check)[i] == (c[i] != check[i]);
    }
  }

  /** All wrong bits lie within 16 consecutive positions, and there is at least one. */
  ghost predicate IsBurst(e: seq<bool>, p: nat)
  {
    && (exists i :: 0 <= i < |e| && e[i])
    && (forall i :: 0 <= i < |e| && e[i] ==> p <= i < p + N)
  }

  /** No burst of at most 16 bits has remainder 0. */
  lemma BurstNonzero(e: seq<bool>, p: nat)
    requires IsBurst(e, p)
    ensures Crc(ZERO, e) != ZERO
  {
    var end := if p + N < |e| then p + N else |e|;
    var burst, q := e[p..end], |e| - end;
    assert e == Zeros(p) + burst + Zeros(q);
    CrcConcat(ZERO, Zeros(p) + burst, Zeros(q));
    CrcConcat(ZERO, Zeros(p), burst);
    CrcZeros(ZERO, p);
    ShiftNZero(ZERO, p);
    FeedWord(ZERO, burst);
    var i :| 0 <= i < |e| && e[i];
    assert Xor(ZERO, Word(burst))[i - p];
    ShiftNZero(Xor(ZERO, Word(burst)), |burst|);
    CrcZeros(Crc(ZERO, burst), q);
    ShiftNZero(Crc(ZERO, burst), q);
  }

  /** A codeword hit by a burst is no longer a codeword. */
  lemma BurstDetected(codeword: seq<bool>, e: seq<bool>, p: nat)
    requires |codeword| == |e| && Crc(ZERO, codeword) == ZERO && IsBurst(e, p)
    ensures Crc(ZERO, Xor(codeword, e)) != ZERO
  {
    assert Xor(ZERO, ZERO) == ZERO;
    CrcLinear(ZERO, codeword, ZERO, e);
    BurstNonzero(e, p);
    assert Xor(ZERO, Crc(ZERO, e)) == Crc(ZERO, e);
  }

  // ---------------------------------------------------------------------------------
  // The remainder is the remainder of polynomial long division
  // ---------------------------------------------------------------------------------

  /** Subtracts the divisor, aligned with the leading term, if that term is present. */
  function Reduce(p: seq<bool>, g: Divisor): (r: seq<bool>)
    requires |p| > N
    ensures |r| == |p| - 1
    ensures forall i :: 0 <= i < |r| ==> r[i] == (p[i + 1] != (p[0] && i < N && g[i + 1]))
  {
    if p[0] then Xor(p, g + Zeros(|p| - N - 1))[1..] else p[1..]
  }

  /** Schoolbook long division: what is left when 16 coefficients remain. */
  function Remainder(p: seq<bool>, g: Divisor): Reg
    requires |p| >= N
    decreases |p|
  {
    if |p| == N then p else Remainder(Reduce(p, g), g)
  }

  /** The register is shifted by this divisor. */
  predicate Divides(g: Divisor)
  {
    forall i :: 0 <= i < N ==> g[i + 1] == Poly(i)
  }

  lemma GeneratorDivides()
    ensures Divides(GENERATOR)
  {
  }

  lemma {:induction false} CrcDivides(s: Reg, message: seq<bool>, g: Divisor)
    requires Divides(g)
    ensures Crc(s, message) == Remainder(Dividend(s, message), g)
    decreases |message|
  {
    if message == [] {
      assert Dividend(s, message) == s;
    } else {
      ReduceDividend(s, message, g);
      CrcDivides(Shift(AddTop(s, message[0])), message[1..], g);
    }
  }

  /** The message with 16 zeros behind it, and the register added to its leading terms. */
  function Dividend(s: Reg, message: seq<bool>): (p: seq<bool>)
    ensures |p| == |message| + N
    ensures forall i :: 0 <= i < |p| ==> p[i] == ((i < |message| && message[i]) != (i < N && s[i]))
  {
    Xor(message + Zeros(N), s + Zeros(|message|))
  }

  lemma ReduceDividend(s: Reg, message: seq<bool>, g: Divisor)
    requires message != [] && Divides(g)
    ensures Reduce(Dividend(s, message), g) == Dividend(Shift(AddTop(s, message[0])), message[1..])
  {
    var p, t := Dividend(s, message), Shift(AddTop(s, message[0]));
    forall i | 0 <= i < |p| - 1 ensures Reduce(p, g)[i] == Dividend(t, message[1..])[i] {
      assert i + 1 < |message| ==> message[1..][i] == message[i + 1];
      assert i < N ==> t[i] == ((i + 1 < N && s[i + 1]) != (p[0] && Poly(i)));
    }
  }

  /** The register holds message * x^16 modulo x^16 + x^12 + x^5 + 1. */
  lemma CrcIsRemainder(message: seq<bool>)
    ensures Crc(ZERO, message) == Remainder(message + Zeros(N), GENERATOR)
  {
    GeneratorDivides();
    MessageRemainder(message, GENERATOR);
  }

  lemma MessageRemainder(message: seq<bool>, g: Divisor)
    requires Divides(g)
    ensures Crc(ZERO, message) == Remainder(message + Zeros(N), g)
  {
    CrcDivides(ZERO, message, g);
    assert Dividend(ZERO, message) == message + Zeros(N);
  }

  // ---------------------------------------------------------------------------------
  // Multiples of the generator
  // ---------------------------------------------------------------------------------

  /** b times one term: n positions further up, or nothing. */
  function Scaled(present: bool, b: seq<bool>, n: nat): (r: seq<bool>)
    ensures |r| == |b| + n
  {
    (if present then b else Zeros(|b|)) + Zeros(n)
  }

  /** The product of polynomials: a shifted copy of b for every term of a. */
  function Times(a: seq<bool>, b: seq<bool>): (r: seq<bool>)
    requires b != []
    ensures |r| == |a| + |b| - 1
  {
    if a == [] then Zeros(|b| - 1)
    else Xor(Scaled(a[0], b, |a| - 1), [false] + Times(a[1..], b))
  }

  ghost predicate IsMultiple(p: seq<bool>, g: Divisor)
  {
    exists q :: p == Times(q, g)
  }

  lemma TimesFirst(b: bool, q: seq<bool>, g: seq<bool>)
    requires g != []
    ensures Times([b] + q, g) == Xor(Scaled(b, g, |q|), [false] + Times(q, g))
  {
    assert ([b] + q)[1..] == q;
  }

  lemma XorShifted(a: seq<bool>, c: seq<bool>, i: nat)
    requires |a| == |c| + 1 && i < |c|
    ensures Xor(a, [false] + c)[0] == a[0] && Xor(a, [false] + c)[i + 1] == (a[i + 1] != c[i])
  {
    assert ([false] + c)[i + 1] == c[i];
  }

  lemma TimesAt(b: bool, q: seq<bool>, g: Divisor, i: nat)
    requires i < |q| + N
    ensures Times([b] + q, g)[0] == b
    ensures Times([b] + q, g)[i + 1] == (Times(q, g)[i] != (b && i < N && g[i + 1]))
  {
    TimesFirst(b, q, g);
    XorShifted(Scaled(b, g, |q|), Times(q, g), i);
  }

  /** Adding the leading term of a quotient is undoing a step of the division. */
  lemma ReduceTimes(p: seq<bool>, q: seq<bool>, g: Divisor)
    requires |p| > N && Reduce(p, g) == Times(q, g)
    ensures p == Times([p[0]] + q, g)
  {
    var r := Times([p[0]] + q, g);
    forall i | 0 <= i < |p| ensures p[i] == r[i] {
      TimesAt(p[0], q, g, if i > 0 then i - 1 else 0);
    }
  }

  lemma TimesReduce(b: bool, q: seq<bool>, g: Divisor)
    ensures |Times([b] + q, g)| > N && Reduce(Times([b] + q, g), g) == Times(q, g)
  {
    var p := Times([b] + q, g);
    forall i | 0 <= i < |p| - 1 ensures Reduce(p, g)[i] == Times(q, g)[i] {
      TimesAt(b, q, g, i);
    }
  }

  lemma {:induction false} QuotientFound(p: seq<bool>, g: Divisor) returns (q: seq<bool>)
    requires |p| >= N && Remainder(p, g) == ZERO
    ensures p == Times(q, g)
    decreases |p|
  {
    if |p| == N {
      q := [];
    } else {
      q := QuotientFound(Reduce(p, g), g);
      ReduceTimes(p, q, g);
      q := [p[0]] + q;
    }
  }

  lemma {:induction false} ProductReduces(q: seq<bool>, g: Divisor)
    ensures Remainder(Times(q, g), g) == ZERO
  {
    if q != [] {
      ProductReduces(q[1..], g);
      TimesReduce(q[0], q[1..], g);
      assert [q[0]] + q[1..] == q;
    }
  }

  /** Division leaves nothing exactly when the dividend is a multiple of the divisor. */
  lemma MultipleExact(p: seq<bool>, g: Divisor)
    requires |p| >= N
    ensures Remainder(p, g) == ZERO <==> IsMultiple(p, g)
  {
    if Remainder(p, g) == ZERO {
      var q := QuotientFound(p, g);
    }
    if IsMultiple(p, g) {
      var q :| p == Times(q, g);
      ProductReduces(q, g);
    }
  }

  lemma ReduceLinear(p: seq<bool>, c: seq<bool>, g: Divisor)
    requires |p| == |c| > N && !c[0]
    ensures Reduce(Xor(p, c), g) == Xor(Reduce(p, g), c[1..])
  {
    XorIs(Reduce(p, g), c[1..], Reduce(Xor(p, c), g));
  }

  /** What is added below x^16 is added to the remainder. */
  lemma {:induction false} RemainderAdd(p: seq<bool>, z: seq<bool>, c: Reg, g: Divisor)
    requires |p| >= N && z == Zeros(|p| - N) + c
    ensures Remainder(Xor(p, z), g) == Xor(Remainder(p, g), c)
    decreases |p|
  {
    if |p| == N {
      assert z == c;
    } else {
      ReduceLinear(p, z, g);
      assert z[1..] == Zeros(|p| - 1 - N) + c;
      RemainderAdd(Reduce(p, g), z[1..], c, g);
    }
  }

  /** The register is empty after a message exactly when the message is a multiple of x^16 + x^12 + x^5 + 1. */
  lemma CrcMultiple(message: seq<bool>)
    requires |message| >= N
    ensures Crc(ZERO, message) == ZERO <==> IsMultiple(message, GENERATOR)
  {
    GeneratorDivides();
    MessageMultiple(message, GENERATOR);
  }

  lemma MessageMultiple(message: seq<bool>, g: Divisor)
    requires |message| >= N && Divides(g)
    ensures Crc(ZERO, message) == ZERO <==> IsMultiple(message, g)
  {
    var front, check := message[..|message| - N], message[|message| - N..];
    assert message == front + check;
    CodewordRemainder(front, check, g);
    MultipleExact(message, g);
  }

  lemma CodewordRemainder(front: seq<bool>, check: Reg, g: Divisor)
    requires Divides(g)
    ensures Crc(ZERO, front + check) == ZERO <==> Remainder(front + check, g) == ZERO
  {
    CodewordExact(front, check);
    MessageRemainder(front, g);
    XorIs(front + Zeros(N), Zeros(|front|) + check, front + check);
    RemainderAdd(front + Zeros(N), Zeros(|front|) + check, check, g);
    XorZero(Remainder(front + Zeros(N), g), check);
  }

  lemma XorIs(a: seq<bool>, b: seq<bool>, r: seq<bool>)
    requires |a| == |b| == |r| && forall i :: 0 <= i < |a| ==> r[i] == (a[i] != b[i])
    ensures Xor(a, b) == r
  {
    assert forall i :: 0 <= i < |r| ==> Xor(a, b)[i] == r[i];
  }

  lemma XorZero(a: Reg, b: Reg)
    ensures Xor(a, b) == ZERO <==> a == b
  {
    if Xor(a, b) == ZERO {
      assert forall i :: 0 <= i < N ==> Xor(a, b)[i] == (a[i] != b[i]);
    }
  }

  // ---------------------------------------------------------------------------------
  // Machine words, as their bits, most significant first
  // ---------------------------------------------------------------------------------

  type Byte = b: seq<bool> | |b| == 8 witness seq(8, _ => false)
  type u32 = w: seq<bool> | |w| == 32 witness seq(32, _ => false)

  /** w << 1 */
  function Left(w: u32): u32
  {
    w[1..] + [false]
  }

  /** 0x1021 */
  const POLY: u32 := Zeros(16) + seq(N, i => Poly(i))

  /** w & 0xffff */
  function LowHalf(w: u32): u32
  {
    Zeros(16) + w[16..]
  }

  /** h << 8 | l */
  function CheckWord(h: Byte, l: Byte): u32
  {
    Zeros(16) + h + l
  }

  /** b << 8 */
  function Widen(b: Byte): u32
  {
    Zeros(16) + b + Zeros(8)
  }

  /** The low half of the 32-bit accumulator; the high half collects bits that are masked off at the end. */
  function Low(c: u32): Reg
  {
    c[16..]
  }

  function MessageBits(data: seq<Byte>): seq<bool>
  {
    if data == [] then [] else data[0] + MessageBits(data[1..])
  }

  function Pow2(n: nat): nat
  {
    if n == 0 then 1 else 2 * Pow2(n - 1)
  }

  lemma {:induction false} ValueConcat(a: seq<bool>, b: seq<bool>)
    ensures Value(a + b) == Value(a) * Pow2(|b|) + Value(b)
    decreases |b|
  {
    if b == [] {
      assert a + b == a;
    } else {
      var front := b[..|b| - 1];
      assert (a + b)[..|a + b| - 1] == a + front;
      ValueConcat(a, front);
      Double(Value(a), Pow2(|front|), Value(front), Value(a + front));
    }
  }

  lemma Double(a: nat, b: nat, c: nat, d: nat)
    requires d == a * b + c
    ensures 2 * d == a * (2 * b) + 2 * c
  {
  }

  lemma {:induction false} ValueBelow(bits: seq<bool>)
    ensures Value(bits) < Pow2(|bits|)
  {
    if bits != [] {
      ValueBelow(bits[..|bits| - 1]);
    }
  }

  lemma ZerosFront(n: nat, bits: seq<bool>)
    ensures Value(Zeros(n) + bits) == Value(bits)
  {
    ValueConcat(Zeros(n), bits);
    ValueZero(Zeros(n));
  }

  /** What the bit strings stand for as numbers. */
  lemma WordValues(w: u32, h: Byte, l: Byte)
    ensures Value(w) < 0x1_0000_0000 && Value(h) < 256
    ensures Value(Left(w)) == 2 * Value(w) % 0x1_0000_0000
    ensures Value(LowHalf(w)) == Value(w) % 0x1_0000
    ensures Value(CheckWord(h, l)) == 256 * Value(h) + Value(l)
    ensures Value(Widen(h)) == 256 * Value(h)
  {
    Powers();
    ValueBelow(w);
    ValueBelow(h);
    LeftValue(w);
    HalfValue(w);
    ZerosFront(16, h + l);
    assert Zeros(16) + (h + l) == CheckWord(h, l);
    ValueConcat(h, l);
    assert Zeros(16) + (h + Zeros(8)) == Widen(h);
    ZerosFront(16, h + Zeros(8));
    ValueConcat(h, Zeros(8));
    ValueZero(Zeros(8));
  }

  lemma Powers()
    ensures Pow2(1) == 2 && Pow2(8) == 256 && Pow2(16) == 0x1_0000 && Pow2(31) == 0x8000_0000 && Pow2(32) == 0x1_0000_0000
  {
    assert Pow2(4) == 16 && Pow2(12) == 4096 && Pow2(20) == 0x10_0000 && Pow2(24) == 0x100_0000 && Pow2(28) == 0x1000_0000;
  }

  lemma LeftValue(w: u32)
    ensures Value(Left(w)) == 2 * Value(w) % 0x1_0000_0000
  {
    Powers();
    assert [w[0]] + w[1..] == w;
    ValueConcat([w[0]], w[1..]);
    ValueConcat(w[1..], [false]);
    ValueBelow(w[1..]);
    assert Value([w[0]]) == if w[0] then 1 else 0;
    assert Value([false]) == 0;
  }

  lemma HalfValue(w: u32)
    ensures Value(LowHalf(w)) == Value(w) % 0x1_0000
  {
    Powers();
    var a, b := w[..16], w[16..];
    assert a + b == w;
    ValueConcat(a, b);
    ValueBelow(b);
    ZerosFront(16, b);
    Below(Value(a), Value(b));
  }

  lemma Below(a: nat, b: nat)
    requires b < 0x1_0000
    ensures (a * 0x1_0000 + b) % 0x1_0000 == b
  {
  }

  /** The polynomial as a number. */
  lemma PolyValue()
    ensures Value(POLY) == 0x1021
  {
    var low := [false, false, false, true, false, false, false, false, false, false, true, false, false, false, false, true];
    assert POLY == Zeros(16) + low;
    ZerosFront(16, low);
    assert low == Zeros(3) + ([true] + (Zeros(6) + ([true] + (Zeros(4) + [true]))));
    OneThen(3, Zeros(6) + ([true] + (Zeros(4) + [true])));
    OneThen(6, Zeros(4) + [true]);
    OneThen(4, []);
    assert [true] + [] == [true];
    assert Pow2(12) == 0x1000 && Pow2(5) == 0x20;
  }

  lemma OneThen(n: nat, bits: seq<bool>)
    ensures Value(Zeros(n) + ([true] + bits)) == Pow2(|bits|) + Value(bits)
  {
    ZerosFront(n, [true] + bits);
    ValueConcat([true], bits);
    ValueOne();
  }

  lemma ValueOne()
    ensures Value([true]) == 1
  {
  }

  lemma LowTurn(c: u32)
    ensures Low(if c[16] then Xor(Left(c), POLY) else Left(c)) == Shift(Low(c))
  {
    assert forall i :: 0 <= i < N ==> POLY[16 + i] == Poly(i);
  }

  lemma LowAdd(c: u32, b: Byte)
    ensures Low(Xor(c, Widen(b))) == Xor(Low(c), Word(b))
  {
  }

  /** The comparison with the received check bytes compares registers. */
  lemma LowEqual(c: u32, h: Byte, l: Byte)
    ensures LowHalf(c) == CheckWord(h, l) <==> Low(c) == h + l
  {
    assert LowHalf(c)[16..] == Low(c) && CheckWord(h, l)[16..] == h + l;
    assert Zeros(16) + (h + l) == CheckWord(h, l);
  }

  // ---------------------------------------------------------------------------------
  // The block check
  // ---------------------------------------------------------------------------------

  /** The number a bit string stands for. */
  function Value(bits: seq<bool>): nat
  {
    if bits == [] then 0 else 2 * Value(bits[..|bits| - 1]) + (if bits[|bits| - 1] then 1 else 0)
  }

  lemma {:induction false} ValueZero(bits: seq<bool>)
    ensures Value(bits) == 0 <==> bits == Zeros(|bits|)
  {
    if bits != [] {
      var front := bits[..|bits| - 1];
      ValueZero(front);
      assert bits == front + [bits[|bits| - 1]];
      assert Zeros(|bits|)[..|bits| - 1] == Zeros(|front|);
    }
  }

  function Sum(data: seq<Byte>): nat
  {
    if data == [] then 0 else Sum(data[..|data| - 1]) + Value(data[|data| - 1])
  }

  predicate AllZero(data: seq<Byte>)
  {
    forall i :: 0 <= i < |data| ==> data[i] == Zeros(8)
  }

  lemma {:induction false} SumZero(data: seq<Byte>)
    ensures Sum(data) == 0 <==> AllZero(data)
  {
    if data != [] {
      SumZero(data[..|data| - 1]);
      LastZero(data[|data| - 1]);
      AllZeroLast(data);
    }
  }

  lemma LastZero(b: Byte)
    ensures Value(b) == 0 <==> b == Zeros(8)
  {
    ValueZero(b);
  }

  lemma AllZeroLast(data: seq<Byte>)
    requires data != []
    ensures AllZero(data) <==> AllZero(data[..|data| - 1]) && data[|data| - 1] == Zeros(8)
  {
    if AllZero(data[..|data| - 1]) && data[|data| - 1] == Zeros(8) {
      forall i | 0 <= i < |data| ensures data[i] == Zeros(8) {
        assert i < |data| - 1 ==> data[i] == data[..|data| - 1][i];
      }
    }
  }

  function Codeword(data: seq<Byte>, h: Byte, l: Byte): seq<bool>
  {
    MessageBits(data) + (h + l)
  }

  /** 2: all data bytes are zero; 0: the check bytes fit; 1: they do not. In checksum mode the source adds
      the data to the sum it already has, so twice the sum is compared. */
  function Verdict(data: seq<Byte>, crcMode: bool, h: Byte, l: Byte): int
  {
    if AllZero(data) then 2
    else if crcMode then (if h + l == Crc(ZERO, MessageBits(data)) then 0 else 1)
    else if 2 * Sum(data) % 256 == Value(h) then 0
    else 1
  }

  /** late tells whether receiving a check byte timed out; the bytes are then what the variables held. */
  method CrcCheck(buf: array<Byte>, len: nat, crcMode: bool, crch: Byte, crcl: Byte, late: bool) returns (ret: int, recErr: bool)
    requires len <= buf.Length && len <= 1024    // so the 32-bit sums cannot wrap
    ensures var verdict := Verdict(buf[..len], crcMode, crch, crcl);
            ret == (if late && verdict != 2 then 1 else verdict) && recErr == (verdict == 1)
  {
    ret, recErr := if late then 1 else 0, false;
    var sum := SumFrom(buf, len, 0);
    SumZero(buf[..len]);
    if sum == 0 {
      return 2, false;
    }
    if crcMode {
      var cksum := CrcLoop(buf, len);
      LowEqual(cksum, crch, crcl);
      if LowHalf(cksum) != CheckWord(crch, crcl) {
        ret, recErr := 1, true;
      }
    } else {
      sum := SumFrom(buf, len, sum);
      if sum % 256 != Value(crch) {
        ret, recErr := 1, true;
      }
    }
  }

  /** Adds the bytes to what the accumulator holds. */
  method SumFrom(buf: array<Byte>, len: nat, start: nat) returns (sum: nat)
    requires len <= buf.Length
    ensures sum == start + Sum(buf[..len])
  {
    sum := start;
    for i := 0 to len
      invariant sum == start + Sum(buf[..i])
    {
      assert buf[..i + 1][..i] == buf[..i];
      sum := sum + Value(buf[i]);
    }
  }

  /** The nested loops of the CRC. */
  method CrcLoop(buf: array<Byte>, len: nat) returns (cksum: u32)
    requires len <= buf.Length
    ensures Low(cksum) == Crc(ZERO, MessageBits(buf[..len]))
  {
    cksum := Zeros(32);
    assert Low(cksum) == ZERO;
    var at := 0;
    for stat := len downto 0
      invariant at == len - stat
      invariant Low(cksum) == Crc(ZERO, MessageBits(buf[..at]))
    {
      var b := buf[at];
      MessageBitsAppend(buf[..at], b);
      CrcConcat(ZERO, MessageBits(buf[..at]), b);
      assert buf[..at + 1] == buf[..at] + [b];
      cksum := FeedByte(cksum, b);
      at := at + 1;
    }
  }

  /** One byte: added to the top of the low half, then eight turns. */
  method FeedByte(c: u32, b: Byte) returns (cksum: u32)
    ensures Low(cksum) == Crc(Low(c), b)
  {
    cksum := Xor(c, Widen(b));
    LowAdd(c, b);
    ghost var fed := Low(cksum);
    for i := 8 downto 0
      invariant ShiftN(fed, 8) == ShiftN(Low(cksum), i)
    {
      cksum := FeedBit(cksum);
    }
    FeedWord(Low(c), b);
  }

  /** The body of the inner loop. */
  method FeedBit(c: u32) returns (cksum: u32)
    ensures Low(cksum) == Shift(Low(c))
  {
    LowTurn(c);
    if c[16] {
      cksum := Xor(Left(c), POLY);
    } else {
      cksum := Left(c);
    }
  }

  lemma {:induction false} MessageBitsAppend(data: seq<Byte>, b: Byte)
    ensures MessageBits(data + [b]) == MessageBits(data) + b
  {
    if data == [] {
      assert MessageBits([b]) == b + MessageBits([]);
    } else {
      assert (data + [b])[1..] == data[1..] + [b];
      MessageBitsAppend(data[1..], b);
    }
  }

  /** In CRC mode a block is accepted exactly when it is not all zero and data and check bytes together
      are a multiple of x^16 + x^12 + x^5 + 1. */
  lemma AcceptExact(data: seq<Byte>, h: Byte, l: Byte)
    ensures Verdict(data, true, h, l) == 0 <==> !AllZero(data) && IsMultiple(Codeword(data, h, l), GENERATOR)
  {
    CodewordExact(MessageBits(data), h + l);
    CrcMultiple(Codeword(data, h, l));
  }

  lemma {:induction false} XorTwice(a: seq<bool>, b: seq<bool>)
    requires |a| == |b|
    ensures Xor(a, Xor(a, b)) == b
  {
    assert forall i :: 0 <= i < |a| ==> Xor(a, Xor(a, b))[i] == b[i];
  }

  /** A sent block hit, in its data or check bytes, by one error burst spanning at most 16 bits is never
      accepted. It is rejected unless its data became all zero, which the receiver reports as 2. */
  lemma BurstRejected(data: seq<Byte>, h: Byte, l: Byte, data': seq<Byte>, h': Byte, l': Byte, p: nat)
    requires |data| == |data'| && h + l == Crc(ZERO, MessageBits(data))
    requires |Codeword(data, h, l)| == |Codeword(data', h', l')|
    requires IsBurst(Xor(Codeword(data, h, l), Codeword(data', h', l')), p)
    ensures Verdict(data', true, h', l') == if AllZero(data') then 2 else 1
  {
    var c, c' := Codeword(data, h, l), Codeword(data', h', l');
    CodewordExact(MessageBits(data), h + l);
    BurstDetected(c, Xor(c, c'), p);
    XorTwice(c, c');
    CodewordExact(MessageBits(data'), h' + l');
  }

  /** In checksum mode the sender's checksum is accepted exactly when it is itself 0 modulo 256: the
      source does not clear the sum before adding the data again. */
  lemma ChecksumModeExact(data: seq<Byte>, h: Byte, l: Byte)
    requires !AllZero(data) && Value(h) == Sum(data) % 256
    ensures Verdict(data, false, h, l) == 0 <==> h == Zeros(8)
  {
    DoubleMod(Sum(data));
    ValueZero(h);
  }

  lemma DoubleMod(s: nat)
    ensures 2 * s % 256 == s % 256 <==> s % 256 == 0
  {
    var k, r := s / 256, s % 256;
    assert 2 * s == 256 * (2 * k) + 2 * r;
  }
}
