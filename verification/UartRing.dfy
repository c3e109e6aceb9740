/** The UART socket's receive ring: the interrupt handler overwrites unread bytes when the reader
    falls behind. Interrupt and read are taken as atomic steps. */
module UartRing {
  import opened Sequences

  const LEN: nat := 1024       // UART_RECV_BUFFER_LEN
  type byte = x: int | 0 <= x < 256

  /** Buffer contents, the two indices and the overlap flag. */
  datatype Ring = Ring(buf: seq<byte>, read: nat, write: nat, overlap: bool) {

    predicate Valid()
    {
      && |buf| == LEN && read < LEN && write < LEN
      && (if overlap then write <= read else read <= write)
    }

    /** The unread bytes, oldest first. */
    function Window(): (w: seq<byte>)
      requires Valid()
      ensures |w| == if overlap then LEN - read + write else write - read
    {
      if overlap then buf[read..] + buf[..write] else buf[read..write]
    }
  }

  // ---------------------------------------------------------------------------------
  // One step
  // ---------------------------------------------------------------------------------

  /** The ring after byte c arrives. */
  function Arrive(r: Ring, c: byte): Ring
    requires r.Valid()
  {
    var wraps := r.write + 1 == LEN;
    var write := if wraps then 0 else r.write + 1;
    var overlap := r.overlap || wraps;
    Ring(r.buf[r.write := c], if overlap && write >= r.read then write else r.read, write, overlap)
  }

  /** A ring with room keeps every unread byte. A full ring drops its oldest byte, except that a full ring
      whose read index is the last slot drops all 1024 of them. */
  lemma ArriveWindow(r: Ring, c: byte)
    requires r.Valid()
    ensures Arrive(r, c).Valid()
    ensures Arrive(r, c).Window()
            == if |r.Window()| < LEN then r.Window() + [c]
               else if r.read == LEN - 1 then [c]
               else r.Window()[1..] + [c]
  {
    if !r.overlap {
      ArriveLinear(r, c);
    } else if r.write < r.read {
      ArriveWrapped(r, c);
    } else {
      ArriveFull(r, c);
    }
  }

  lemma ArriveLinear(r: Ring, c: byte)
    requires r.Valid() && !r.overlap
    ensures Arrive(r, c).Valid() && Arrive(r, c).Window() == r.Window() + [c]
  {
    var buf := Arrive(r, c).buf;
    assert buf[r.read..r.write + 1] == r.buf[r.read..r.write] + [c];
    if r.write + 1 == LEN {
      assert buf[r.read..] == buf[r.read..r.write + 1];
    }
  }

  lemma ArriveWrapped(r: Ring, c: byte)
    requires r.Valid() && r.overlap && r.write < r.read
    ensures Arrive(r, c).Valid() && Arrive(r, c).Window() == r.Window() + [c]
  {
    var buf := Arrive(r, c).buf;
    assert buf[r.read..] == r.buf[r.read..];
    assert buf[..r.write + 1] == r.buf[..r.write] + [c];
  }

  lemma ArriveFull(r: Ring, c: byte)
    requires r.Valid() && r.overlap && r.write == r.read
    ensures Arrive(r, c).Valid()
    ensures Arrive(r, c).Window() == if r.read == LEN - 1 then [c] else r.Window()[1..] + [c]
  {
    var buf := Arrive(r, c).buf;
    if r.read == LEN - 1 {
      assert buf[r.read..] + buf[..0] == [c];
    } else {
      assert r.Window()[1..] == r.buf[r.read + 1..] + r.buf[..r.write];
      assert buf[r.read + 1..] == r.buf[r.read + 1..];
      assert buf[..r.write + 1] == r.buf[..r.write] + [c];
    }
  }

  function Min(a: nat, b: nat): nat { if a < b then a else b }

  /** The ring after n unread bytes are taken. */
  function Taken(r: Ring, n: nat): Ring
    requires r.Valid() && n <= |r.Window()|
  {
    if r.read + n >= LEN then r.(read := r.read + n - LEN, overlap := false) else r.(read := r.read + n)
  }

  lemma TakenWindow(r: Ring, n: nat)
    requires r.Valid() && n <= |r.Window()|
    ensures Taken(r, n).Valid() && Taken(r, n).Window() == r.Window()[n..]
  {
    if !r.overlap {
      TakenLinear(r, n);
    } else if r.read + n < LEN {
      TakenUpper(r, n);
    } else {
      TakenAround(r, n);
    }
  }

  lemma TakenLinear(r: Ring, n: nat)
    requires r.Valid() && n <= |r.Window()| && !r.overlap
    ensures Taken(r, n).Valid() && Taken(r, n).Window() == r.Window()[n..]
  {
    SliceOfEnd(r.buf, r.read, r.write, n);
  }

  lemma TakenUpper(r: Ring, n: nat)
    requires r.Valid() && n <= |r.Window()| && r.overlap && r.read + n < LEN
    ensures Taken(r, n).Valid() && Taken(r, n).Window() == r.Window()[n..]
  {
    DropFront(r.buf[r.read..], r.buf[..r.write], n);
    FromThere(r.buf, r.read, n);
  }

  lemma FromThere(b: seq<byte>, i: nat, n: nat)
    requires i + n <= |b|
    ensures b[i..][n..] == b[i + n..]
  {
  }

  lemma TakenAround(r: Ring, n: nat)
    requires r.Valid() && n <= |r.Window()| && r.overlap && r.read + n >= LEN
    ensures Taken(r, n).Valid() && Taken(r, n).Window() == r.Window()[n..]
  {
    DropFront(r.buf[r.read..], r.buf[..r.write], n);
    SliceOfEnd(r.buf, 0, r.write, r.read + n - LEN);
    assert r.buf[0..r.write] == r.buf[..r.write];
  }

  lemma SliceOfEnd(b: seq<byte>, i: nat, j: nat, n: nat)
    requires i + n <= j <= |b|
    ensures b[i..j][n..] == b[i + n..j]
  {
  }

  lemma DropFront(a: seq<byte>, b: seq<byte>, n: nat)
    requires n <= |a| + |b|
    ensures (a + b)[n..] == if n < |a| then a[n..] + b else b[n - |a|..]
  {
  }

  lemma TakeFront(a: seq<byte>, b: seq<byte>, n: nat)
    requires n <= |a| + |b|
    ensures (a + b)[..n] == if n <= |a| then a[..n] else a + b[..n - |a|]
  {
  }

  /** The oldest unread bytes, by their places in the buffer. */
  lemma WindowFront(r: Ring, n: nat)
    requires r.Valid() && n <= |r.Window()|
    ensures r.Window()[..n] == if r.read + n <= LEN then r.buf[r.read..r.read + n]
                               else r.buf[r.read..LEN] + r.buf[..n - (LEN - r.read)]
  {
    if r.overlap {
      TakeFront(r.buf[r.read..], r.buf[..r.write], n);
      assert r.buf[r.read..LEN] == r.buf[r.read..];
    }
    if r.read + n <= LEN {
      SliceOf(r.buf, r.read, if r.overlap then LEN else r.write, n);
    } else {
      SliceOf(r.buf, 0, r.write, n - (LEN - r.read));
      assert r.buf[0..r.write] == r.buf[..r.write];
    }
  }

  lemma SliceOf(b: seq<byte>, i: nat, j: nat, n: nat)
    requires i + n <= j <= |b|
    ensures b[i..j][..n] == b[i..i + n]
  {
  }

  // ---------------------------------------------------------------------------------
  // Whole runs
  // ---------------------------------------------------------------------------------

  datatype Event = Rx(c: byte) | Read(size: nat)

  /** The ring with the history of bytes received and bytes handed to the application. */
  datatype State = State(ring: Ring, received: seq<byte>, delivered: seq<byte>)

  const INITIAL: State := State(Ring(seq(LEN, _ => 0), 0, 0, false), [], [])

  function Step(s: State, e: Event): State
    requires s.ring.Valid()
  {
    match e
    case Rx(c) => State(Arrive(s.ring, c), s.received + [c], s.delivered)
    case Read(size) =>
      var n := Min(size, |s.ring.Window()|);
      State(Taken(s.ring, n), s.received, s.delivered + s.ring.Window()[..n])
  }

  predicate IsSuffix(w: seq<byte>, t: seq<byte>)
  {
    |w| <= |t| && t[|t| - |w|..] == w
  }

  /** a is b with some bytes left out. */
  predicate Subsequence(a: seq<byte>, b: seq<byte>)
    decreases |b|
  {
    a == [] ||
    (b != [] &&
     (Subsequence(a, b[..|b| - 1]) ||
      (a[|a| - 1] == b[|b| - 1] && Subsequence(a[..|a| - 1], b[..|b| - 1]))))
  }

  lemma OneLeftOut(a: seq<byte>, b: seq<byte>, c: byte)
    requires Subsequence(a, b)
    ensures Subsequence(a, b + [c]) && Subsequence(a + [c], b + [c])
  {
    assert (b + [c])[..|b|] == b && (a + [c])[..|a|] == a;
  }

  lemma {:induction false} MoreLeftOut(a: seq<byte>, b: seq<byte>, w: seq<byte>)
    requires Subsequence(a, b)
    ensures Subsequence(a, b + w)
    decreases |w|
  {
    if w == [] {
      assert b + w == b;
    } else {
      assert b + [w[0]] + w[1..] == b + w;
      OneLeftOut(a, b, w[0]);
      MoreLeftOut(a, b + [w[0]], w[1..]);
    }
  }

  lemma {:induction false} BothGoOn(a: seq<byte>, b: seq<byte>, w: seq<byte>)
    requires Subsequence(a, b)
    ensures Subsequence(a + w, b + w)
    decreases |w|
  {
    if w == [] {
      assert b + w == b && a + w == a;
    } else {
      assert b + [w[0]] + w[1..] == b + w && a + [w[0]] + w[1..] == a + w;
      OneLeftOut(a, b, w[0]);
      BothGoOn(a + [w[0]], b + [w[0]], w[1..]);
    }
  }

  /** What was received before the unread bytes. */
  function Earlier(t: seq<byte>, w: seq<byte>): seq<byte>
    requires |w| <= |t|
  {
    t[..|t| - |w|]
  }

  /** The unread window is a suffix of all bytes received, and what was delivered is, in order, among the bytes
      received before it. */
  ghost predicate Inv(s: State)
  {
    && s.ring.Valid()
    && IsSuffix(s.ring.Window(), s.received)
    && |s.delivered| + |s.ring.Window()| <= |s.received|
    && Subsequence(s.delivered, Earlier(s.received, s.ring.Window()))
  }

  ghost predicate Complete(s: State)
    requires s.ring.Valid()
  {
    s.received == s.delivered + s.ring.Window()
  }

  lemma SuffixAppend(w: seq<byte>, t: seq<byte>, c: byte)
    requires IsSuffix(w, t)
    ensures IsSuffix(w + [c], t + [c]) && IsSuffix([c], t + [c])
  {
  }

  lemma SuffixDrop(w: seq<byte>, t: seq<byte>, n: nat)
    requires IsSuffix(w, t) && n <= |w|
    ensures IsSuffix(w[n..], t)
  {
  }

  /** Bytes handed out move from the window to what was delivered. */
  lemma OrderAfterRead(d: seq<byte>, t: seq<byte>, w: seq<byte>, n: nat)
    requires IsSuffix(w, t) && n <= |w| && Subsequence(d, Earlier(t, w))
    ensures Subsequence(d + w[..n], Earlier(t, w[n..]))
  {
    BothGoOn(d, Earlier(t, w), w[..n]);
    assert Earlier(t, w[n..]) == Earlier(t, w) + w[..n];
  }

  /** The new window v and what came before it, after c arrived. */
  lemma OrderAfterArrival(d: seq<byte>, t: seq<byte>, w: seq<byte>, c: byte, v: seq<byte>)
    requires |v| <= |w| + 1 && |w| <= |t| && Subsequence(d, Earlier(t, w))
    ensures Subsequence(d, Earlier(t + [c], v))
  {
    var n := |t| - |w|;
    MoreLeftOut(d, Earlier(t, w), (t + [c])[n..|t| + 1 - |v|]);
    assert Earlier(t + [c], v) == Earlier(t, w) + (t + [c])[n..|t| + 1 - |v|];
  }

  lemma StepKeepsInv(s: State, e: Event)
    requires Inv(s)
    ensures Inv(Step(s, e))
  {
    match e
    case Rx(c) => ArriveKeepsInv(s, c);
    case Read(size) => ReadKeepsInv(s, size);
  }

  lemma ArriveKeepsInv(s: State, c: byte)
    requires Inv(s)
    ensures Inv(Step(s, Rx(c)))
  {
    var w, t := s.ring.Window(), s.received;
    ArriveWindow(s.ring, c);
    SuffixAppend(w, t, c);
    if |w| == LEN {
      SuffixDrop(w, t, 1);
      SuffixAppend(w[1..], t, c);
    }
    OrderAfterArrival(s.delivered, t, w, c, Arrive(s.ring, c).Window());
  }

  lemma ReadKeepsInv(s: State, size: nat)
    requires Inv(s)
    ensures Inv(Step(s, Read(size)))
  {
    var w, n := s.ring.Window(), Min(size, |s.ring.Window()|);
    TakenWindow(s.ring, n);
    SuffixDrop(w, s.received, n);
    OrderAfterRead(s.delivered, s.received, w, n);
  }

  /** A byte arrives while 1024 bytes are unread. */
  predicate Overruns(s: State, e: Event)
    requires s.ring.Valid()
  {
    e.Rx? && |s.ring.Window()| == LEN
  }

  /** What was received and is neither delivered nor unread. */
  ghost function Lost(s: State): int
    requires s.ring.Valid()
  {
    |s.received| - |s.delivered| - |s.ring.Window()|
  }

  lemma ArriveComplete(s: State, c: byte)
    requires Inv(s)
    ensures Arrive(s.ring, c).Valid()
    ensures Complete(s) && !Overruns(s, Rx(c)) ==> Complete(Step(s, Rx(c)))
    ensures Lost(s) > 0 || Overruns(s, Rx(c)) ==> Lost(Step(s, Rx(c))) > 0
  {
    ArriveWindow(s.ring, c);
    if |s.ring.Window()| < LEN {
      Assoc(s.delivered, s.ring.Window(), [c]);
    }
  }

  lemma ReadComplete(s: State, size: nat)
    requires Inv(s)
    ensures Step(s, Read(size)).ring.Valid()
    ensures Complete(s) ==> Complete(Step(s, Read(size)))
    ensures Lost(Step(s, Read(size))) == Lost(s)
  {
    var w, n := s.ring.Window(), Min(size, |s.ring.Window()|);
    TakenWindow(s.ring, n);
    Regroup(s.delivered, w, n);
  }

  lemma Regroup(d: seq<byte>, w: seq<byte>, n: nat)
    requires n <= |w|
    ensures d + w == (d + w[..n]) + w[n..] && |d + w[..n]| == |d| + n && |w[n..]| == |w| - n
  {
    assert w == w[..n] + w[n..];
    Assoc(d, w[..n], w[n..]);
  }

  lemma StepComplete(s: State, e: Event)
    requires Inv(s)
    ensures Step(s, e).ring.Valid()
    ensures Complete(s) && !Overruns(s, e) ==> Complete(Step(s, e))
    ensures Lost(s) > 0 || Overruns(s, e) ==> Lost(Step(s, e)) > 0
  {
    match e
    case Rx(c) => ArriveComplete(s, c);
    case Read(size) => ReadComplete(s, size);
  }

  function Run(s: State, es: seq<Event>): State
    requires s.ring.Valid()
    decreases |es|
  {
    if es == [] then s
    else
      StepValid(s, es[0]);
      Run(Step(s, es[0]), es[1..])
  }

  lemma StepValid(s: State, e: Event)
    requires s.ring.Valid()
    ensures Step(s, e).ring.Valid()
  {
    match e
    case Rx(c) => ArriveWindow(s.ring, c);
    case Read(size) => TakenWindow(s.ring, Min(size, |s.ring.Window()|));
  }

  predicate NeverOverruns(s: State, es: seq<Event>)
    requires s.ring.Valid()
    decreases |es|
  {
    es == [] ||
    (StepValid(s, es[0]);
     !Overruns(s, es[0]) && NeverOverruns(Step(s, es[0]), es[1..]))
  }

  /** In every run the unread bytes are, in order, the last bytes received. */
  lemma {:induction false} RunKeepsInv(s: State, es: seq<Event>)
    requires Inv(s)
    ensures Inv(Run(s, es))
    decreases |es|
  {
    if es != [] {
      StepKeepsInv(s, es[0]);
      RunKeepsInv(Step(s, es[0]), es[1..]);
    }
  }

  /** In every run the bytes delivered, followed by those unread, are the bytes received with some left out: none
      is repeated, changed or out of order. */
  lemma RunInOrder(s: State, es: seq<Event>)
    requires Inv(s)
    ensures var z := Run(s, es);
            z.ring.Valid() && Subsequence(z.delivered + z.ring.Window(), z.received)
  {
    RunKeepsInv(s, es);
    InOrder(Run(s, es));
  }

  lemma InOrder(s: State)
    requires Inv(s)
    ensures Subsequence(s.delivered + s.ring.Window(), s.received)
  {
    var w := s.ring.Window();
    BothGoOn(s.delivered, Earlier(s.received, w), w);
    assert Earlier(s.received, w) + w == s.received;
  }

  lemma {:induction false} LostStaysLost(s: State, es: seq<Event>)
    requires Inv(s) && Lost(s) > 0
    ensures Run(s, es).ring.Valid() && !Complete(Run(s, es))
    decreases |es|
  {
    if es != [] {
      StepKeepsInv(s, es[0]);
      StepComplete(s, es[0]);
      LostStaysLost(Step(s, es[0]), es[1..]);
    }
  }

  /** All bytes delivered, followed by those unread, are the whole received history exactly when no byte
      arrived while 1024 were unread. */
  lemma {:induction false} CompleteExact(s: State, es: seq<Event>)
    requires Inv(s) && Complete(s)
    ensures Run(s, es).ring.Valid()
    ensures Complete(Run(s, es)) <==> NeverOverruns(s, es)
    decreases |es|
  {
    if es != [] {
      StepKeepsInv(s, es[0]);
      StepComplete(s, es[0]);
      if Overruns(s, es[0]) {
        LostStaysLost(Step(s, es[0]), es[1..]);
      } else {
        CompleteExact(Step(s, es[0]), es[1..]);
      }
    }
  }

  // ---------------------------------------------------------------------------------
  // The socket
  // ---------------------------------------------------------------------------------

  /** A read takes the oldest unread bytes; one of size zero changes nothing. */
  lemma ReadStep(s: State, size: nat)
    requires Inv(s)
    ensures var n := Min(size, |s.ring.Window()|);
            Step(s, Read(size)) == State(Taken(s.ring, n), s.received, s.delivered + s.ring.Window()[..n])
    ensures size == 0 ==> Step(s, Read(size)) == s
  {
  }

  class UartSocket {
    const recv_buf: array<byte>
    var prxread: nat
    var prxwrite: nat
    var rxoverlap: bool
    ghost var received: seq<byte>     // every byte the interrupt handler stored
    ghost var delivered: seq<byte>    // every byte handed to the application

    ghost function Value(): State
      reads this, recv_buf
    {
      State(Ring(recv_buf[..], prxread, prxwrite, rxoverlap), received, delivered)
    }

    ghost predicate Valid()
      reads this, recv_buf
    {
      Inv(Value())
    }

    constructor ()
      ensures Valid() && Value() == INITIAL && fresh(recv_buf)
    {
      recv_buf := new byte[LEN](_ => 0);
      prxread, prxwrite, rxoverlap := 0, 0, false;
      received, delivered := [], [];
      new;
      assert recv_buf[..] == seq(LEN, _ => 0);
    }

    /** The receive branch of the interrupt handler. */
    method Irq(c: byte)
      requires Valid()
      modifies this, recv_buf
      ensures Valid() && Value() == Step(old(Value()), Rx(c))
    {
      StepKeepsInv(Value(), Rx(c));
      recv_buf[prxwrite] := c;
      Advance();
      received := received + [c];
    }

    /** The indices after a byte was stored. */
    method Advance()
      requires prxread < LEN && prxwrite < LEN
      modifies this`prxread, this`prxwrite, this`rxoverlap
      ensures var wraps := old(prxwrite) + 1 == LEN;
              && prxwrite == (if wraps then 0 else old(prxwrite) + 1)
              && rxoverlap == (old(rxoverlap) || wraps)
              && prxread == if rxoverlap && prxwrite >= old(prxread) then prxwrite else old(prxread)
    {
      prxwrite := prxwrite + 1;
      if prxwrite > LEN - 1 {
        prxwrite := 0;
        rxoverlap := true;
      }
      if rxoverlap && prxwrite + 1 > prxread {
        prxread := prxwrite;
      }
    }

    /** A zero size is rejected with -1; otherwise out holds the bytes copied to the caller. */
    method ReadInto(size: nat) returns (n: int, out: seq<byte>)
      requires Valid()
      modifies this
      ensures Valid() && Value() == Step(old(Value()), Read(size))
      ensures delivered == old(delivered) + out
      ensures n == if size == 0 then -1 else |out|
    {
      StepKeepsInv(Value(), Read(size));
      ReadStep(Value(), size);
      if size == 0 {
        return -1, [];
      }
      n, out := TakeOldest(size);
    }

    /** As many of the oldest unread bytes as are there, up to size. */
    method TakeOldest(size: nat) returns (n: nat, out: seq<byte>)
      requires Value().ring.Valid()
      modifies this
      ensures n == Min(size, |old(Value()).ring.Window()|) && out == old(Value()).ring.Window()[..n]
      ensures Value() == State(Taken(old(Value()).ring, n), old(received), old(delivered) + out)
    {
      var pread := prxread;
      n := Unread();
      if size < n {
        n := size;
      }
      out := CopyOut(pread, n);
      Consume(pread, n);
      delivered := delivered + out;
    }

    method Unread() returns (n: nat)
      requires Value().ring.Valid()
      ensures n == |Value().ring.Window()|
    {
      var pread, pwrite := prxread, prxwrite;
      n := if !rxoverlap then pwrite - pread else LEN - pread + pwrite;
    }

    /** The read index after n bytes were taken from pread on. */
    method Consume(pread: nat, n: nat)
      modifies this`prxread, this`rxoverlap
      ensures prxread == (if pread + n >= LEN then pread + n - LEN else pread + n)
      ensures rxoverlap == (old(rxoverlap) && pread + n < LEN)
    {
      if pread + n >= LEN {
        prxread := pread + n - LEN;
        rxoverlap := false;
      } else {
        prxread := pread + n;
      }
    }

    /** The one or two block copies into the caller's buffer. */
    method CopyOut(pread: nat, n: nat) returns (out: seq<byte>)
      requires Value().ring.Valid() && pread == prxread && n <= |Value().ring.Window()|
      ensures out == Value().ring.Window()[..n]
    {
      WindowFront(Value().ring, n);
      if !rxoverlap {
        out := recv_buf[pread..pread + n];
      } else if pread + n > LEN {
        out := recv_buf[pread..pread + (LEN - pread)] + recv_buf[..n - (LEN - pread)];
      } else {
        out := recv_buf[pread..pread + n];
      }
    }
  }
}
