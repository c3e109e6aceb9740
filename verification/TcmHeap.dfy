/** The TCM heap: a first-fit allocator over an address-ordered free list kept
    inside the memory it manages.

    The buffer is the array the source declares, one `MemChunk` for each 8-byte granule.
    A pointer is the index of a granule and `NULL` is -1, which keeps the source's pointer
    order (NULL below every chunk). Chunk headers hold sizes in bytes; the specification
    counts in granules. */
module TcmHeap {
  import opened Wrappers

  const GRANULE: int := 8                 // sizeof(MemChunk) on the 32-bit target
  const TWO_TO_THE_32: int := 0x1_0000_0000
  const INT_MAX: int := 0x7FFF_FFFF
  const NULL: int := -1

  datatype MemChunk = MemChunk(next: int, size: int)

  // ---------------------------------------------------------------------------------
  // Request sizes
  // ---------------------------------------------------------------------------------

  function ToInt32(u: int): int
  {
    if u > INT_MAX then u - TWO_TO_THE_32 else u
  }

  /** ROUND_UP2(size, sizeof(MemChunk)), computed in unsigned 32-bit arithmetic and stored
      back into an int, followed by the promotion of 0 to one granule. */
  function Request(size: int): int
  {
    var u := (size + (GRANULE - 1)) % TWO_TO_THE_32;
    var r := ToInt32(u - u % GRANULE);
    if r == 0 then GRANULE else r
  }

  predicate Requestable(size: int)
  {
    -(GRANULE - 1) <= size <= INT_MAX - (GRANULE - 1)
  }

  /** A request is rounded to a positive whole number of granules that holds it exactly when it is
      in the requestable range; every other int rounds to a negative size. */
  lemma RequestExact(size: int)
    requires -INT_MAX - 1 <= size <= INT_MAX
    ensures Request(size) > 0 <==> Requestable(size)
    ensures Requestable(size) ==>
              && Request(size) % GRANULE == 0
              && size <= Request(size)
              && (size >= 1 ==> Request(size) < size + GRANULE)
              && (size <= 0 ==> Request(size) == GRANULE)
    ensures !Requestable(size) ==> Request(size) < 0 && Request(size) % GRANULE == 0 && Request(size) >= -INT_MAX - 1
  {
    var u := (size + (GRANULE - 1)) % TWO_TO_THE_32;
    if size + (GRANULE - 1) >= 0 {
      assert u == size + (GRANULE - 1);
    } else {
      assert u == size + (GRANULE - 1) + TWO_TO_THE_32;
    }
  }

  /** Subtraction on 32-bit ints. */
  function Minus32(a: int, b: int): int
  {
    ToInt32((a - b) % TWO_TO_THE_32)
  }

  lemma Minus32Exact(a: int, b: int)
    requires 0 <= a <= INT_MAX && -INT_MAX - 1 <= b <= a
    ensures b >= 0 ==> Minus32(a, b) == a - b
    ensures b < 0 ==> Minus32(a, b) != a
  {
    assert b >= 0 ==> (a - b) % TWO_TO_THE_32 == a - b;
    assert b < 0 ==> (a - b) % TWO_TO_THE_32 == a - b;
  }

  function Granules(size: int): nat
    requires Requestable(size)
  {
    RequestExact(size);
    Request(size) / GRANULE
  }

  // ---------------------------------------------------------------------------------
  // Free lists and the cells they cover
  // ---------------------------------------------------------------------------------

  /** A run of granules. */
  datatype Chunk = Chunk(start: nat, len: nat) {
    function End(): nat { start + len }
    predicate Has(c: int) { start <= c < End() }
  }

  /** Address-sorted, disjoint, non-empty chunks within granules lo..n, no two of which touch. */
  predicate Canonical(fs: seq<Chunk>, lo: nat, n: nat)
  {
    fs == [] ||
    (lo <= fs[0].start && fs[0].len > 0 && fs[0].End() <= n && Canonical(fs[1..], fs[0].End() + 1, n))
  }

  /** Granule c is free. */
  predicate Free(fs: seq<Chunk>, c: int)
  {
    fs != [] && (fs[0].Has(c) || Free(fs[1..], c))
  }

  /** Every granule of the run is free. */
  ghost predicate AllFree(fs: seq<Chunk>, run: Chunk)
  {
    forall c :: run.Has(c) ==> Free(fs, c)
  }

  ghost predicate NoneFree(fs: seq<Chunk>, run: Chunk)
  {
    forall c :: run.Has(c) ==> !Free(fs, c)
  }

  ghost predicate SameCells(a: seq<Chunk>, b: seq<Chunk>)
  {
    forall c :: Free(a, c) == Free(b, c)
  }

  function TotalLen(fs: seq<Chunk>): nat
  {
    if fs == [] then 0 else fs[0].len + TotalLen(fs[1..])
  }

  lemma {:induction false} FreeBounded(fs: seq<Chunk>, lo: nat, n: nat, c: int)
    requires Canonical(fs, lo, n) && Free(fs, c)
    ensures lo <= c < n
  {
    if !fs[0].Has(c) {
      FreeBounded(fs[1..], fs[0].End() + 1, n, c);
    }
  }

  /** What lies below the second chunk is free exactly when it is in the first. */
  lemma HeadOnly(fs: seq<Chunk>, lo: nat, n: nat, c: int)
    requires Canonical(fs, lo, n) && fs != [] && c <= fs[0].End()
    ensures Free(fs, c) <==> fs[0].Has(c)
  {
    if Free(fs[1..], c) {
      FreeBounded(fs[1..], fs[0].End() + 1, n, c);
    }
  }

  lemma LowerBound(fs: seq<Chunk>, lo: nat, lo': nat, n: nat)
    requires Canonical(fs, lo, n) && lo' <= lo
    ensures Canonical(fs, lo', n)
  {
  }

  /** The free list is determined by which granules are free. */
  lemma {:induction false} CanonicalUnique(a: seq<Chunk>, b: seq<Chunk>, lo: nat, n: nat)
    requires Canonical(a, lo, n) && Canonical(b, lo, n)
    requires SameCells(a, b)
    ensures a == b
  {
    assert a != [] ==> Free(a, a[0].start);
    assert b != [] ==> Free(b, b[0].start);
    if a != [] {
      HeadWithin(a, b, lo, n);
      HeadWithin(b, a, lo, n);
      forall c ensures Free(a[1..], c) == Free(b[1..], c) {
        TailFree(a, lo, n, c);
        TailFree(b, lo, n, c);
      }
      CanonicalUnique(a[1..], b[1..], a[0].End() + 1, n);
      assert a == [a[0]] + a[1..] && b == [b[0]] + b[1..];
    }
  }

  lemma TailFree(fs: seq<Chunk>, lo: nat, n: nat, c: int)
    requires Canonical(fs, lo, n) && fs != []
    ensures Free(fs[1..], c) <==> Free(fs, c) && !fs[0].Has(c)
  {
    if fs[0].Has(c) {
      if Free(fs[1..], c) {
        FreeBounded(fs[1..], fs[0].End() + 1, n, c);
      }
    }
  }

  lemma HeadWithin(a: seq<Chunk>, b: seq<Chunk>, lo: nat, n: nat)
    requires Canonical(a, lo, n) && Canonical(b, lo, n) && a != [] && b != []
    requires SameCells(a, b)
    ensures b[0].start <= a[0].start && (a[0].start == b[0].start ==> a[0].End() <= b[0].End())
  {
    assert Free(a, a[0].start) && Free(b, a[0].start);
    FreeBounded(b, b[0].start, n, a[0].start);
    HeadOnly(b, lo, n, b[0].End());
    assert !Free(a, b[0].End());
  }

  /** A contiguous run of free granules lies inside one chunk of a canonical list. */
  lemma {:induction false} RunInOneChunk(fs: seq<Chunk>, lo: nat, n: nat, run: Chunk) returns (i: nat)
    requires Canonical(fs, lo, n) && run.len > 0 && AllFree(fs, run)
    ensures i < |fs| && fs[i].start <= run.start && run.End() <= fs[i].End()
  {
    assert run.Has(run.start);
    FreeBounded(fs, fs[0].start, n, run.start);
    HeadOnly(fs, lo, n, fs[0].End());
    assert !run.Has(fs[0].End());
    if run.start < fs[0].End() {
      i := 0;
    } else {
      var j := RunInOneChunk(fs[1..], fs[0].End() + 1, n, run);
      i := j + 1;
    }
  }

  // ---------------------------------------------------------------------------------
  // Allocation: first fit, cut from the END of the chunk
  // ---------------------------------------------------------------------------------

  /** The block handed out for k granules: the end of the first chunk that holds them. */
  function FirstFit(fs: seq<Chunk>, k: nat): Option<Chunk>
  {
    if fs == [] then None
    else if fs[0].len >= k then Some(Chunk(fs[0].End() - k, k))
    else FirstFit(fs[1..], k)
  }

  /** The list after that block is cut off. */
  function Cut(fs: seq<Chunk>, k: nat): seq<Chunk>
  {
    if fs == [] then []
    else if fs[0].len == k then fs[1..]
    else if fs[0].len > k then [Chunk(fs[0].start, fs[0].len - k)] + fs[1..]
    else [fs[0]] + Cut(fs[1..], k)
  }

  lemma {:induction false} CutCanonical(fs: seq<Chunk>, lo: nat, n: nat, k: nat)
    requires Canonical(fs, lo, n) && k > 0
    ensures Canonical(Cut(fs, k), lo, n)
    ensures TotalLen(fs) == TotalLen(Cut(fs, k)) + (if FirstFit(fs, k).Some? then k else 0)
  {
    if fs != [] {
      var hi := fs[0].End() + 1;
      LowerBound(fs[1..], hi, if fs[0].len <= k then lo else hi - k, n);
      CutCanonical(fs[1..], hi, n, k);
      assert fs[0].len > k ==> Cut(fs, k)[1..] == fs[1..];
      assert fs[0].len < k ==> Cut(fs, k)[1..] == Cut(fs[1..], k);
    }
  }

  /** A block handed out was free, and exactly its granules stop being free. */
  lemma {:induction false} CutFree(fs: seq<Chunk>, lo: nat, n: nat, k: nat, c: int)
    requires Canonical(fs, lo, n) && k > 0
    ensures match FirstFit(fs, k)
            case None => Cut(fs, k) == fs
            case Some(b) => && b.len == k && lo <= b.start && b.End() <= n
                            && (b.Has(c) ==> Free(fs, c))
                            && (Free(Cut(fs, k), c) <==> Free(fs, c) && !b.Has(c))
  {
    if fs != [] {
      TailFree(fs, lo, n, c);
      if fs[0].len < k {
        CutFree(fs[1..], fs[0].End() + 1, n, k, c);
        assert Cut(fs, k)[1..] == Cut(fs[1..], k);
      } else if fs[0].len > k {
        assert Cut(fs, k)[1..] == fs[1..];
      }
    }
  }

  /** Completeness: nothing fits exactly when no k contiguous granules are all free. */
  lemma {:induction false} NoFitNoRun(fs: seq<Chunk>, lo: nat, n: nat, k: nat)
    requires Canonical(fs, lo, n) && k > 0
    ensures FirstFit(fs, k).None? <==> forall a: nat :: !AllFree(fs, Chunk(a, k))
  {
    if FirstFit(fs, k).Some? {
      var b := FirstFit(fs, k).value;
      forall c ensures b.Has(c) ==> Free(fs, c) {
        CutFree(fs, lo, n, k, c);
      }
      CutFree(fs, lo, n, k, 0);
      assert AllFree(fs, Chunk(b.start, k));
    } else {
      forall a: nat ensures !AllFree(fs, Chunk(a, k)) {
        if AllFree(fs, Chunk(a, k)) {
          var i := RunInOneChunk(fs, lo, n, Chunk(a, k));
          NoFitShort(fs, k, i);
        }
      }
    }
  }

  lemma {:induction false} NoFitShort(fs: seq<Chunk>, k: nat, i: nat)
    requires FirstFit(fs, k).None? && i < |fs|
    ensures fs[i].len < k
  {
    if i > 0 {
      NoFitShort(fs[1..], k, i - 1);
    }
  }

  /** A place for so many granules, at the end of a free stretch, and no stretch below is as long. */
  ghost predicate FirstEnd(fs: seq<Chunk>, b: Chunk)
  {
    && AllFree(fs, b) && !Free(fs, b.End())
    && forall a: nat :: a < b.start && AllFree(fs, Chunk(a, b.len)) ==> AllFree(fs, Chunk(a, b.End() - a))
  }

  lemma SubRun(fs: seq<Chunk>, run: Chunk, part: Chunk)
    requires AllFree(fs, run) && run.start <= part.start && part.End() <= run.End()
    ensures AllFree(fs, part)
  {
    forall c | part.Has(c) ensures Free(fs, c) {
      assert run.Has(c);
    }
  }

  lemma ChunkFree(fs: seq<Chunk>, i: nat)
    requires i < |fs|
    ensures AllFree(fs, fs[i])
  {
    forall c | fs[i].Has(c) ensures Free(fs, c) {
      FreeAt(fs, i, c);
    }
  }

  /** A run that does not fit the first chunk is free in the others. */
  lemma RunInTail(fs: seq<Chunk>, lo: nat, n: nat, run: Chunk)
    requires Canonical(fs, lo, n) && fs != [] && run.len > fs[0].len
    ensures AllFree(fs, run) <==> AllFree(fs[1..], run)
  {
    if AllFree(fs, run) {
      var i := RunInOneChunk(fs, lo, n, run);
      assert i > 0 && fs[i] == fs[1..][i - 1];
      ChunkFree(fs[1..], i - 1);
      SubRun(fs[1..], fs[i], run);
    }
    if AllFree(fs[1..], run) {
      forall c | run.Has(c) ensures Free(fs, c) {
        TailFree(fs, lo, n, c);
      }
    }
  }

  lemma {:induction false} FirstFitPlace(fs: seq<Chunk>, lo: nat, n: nat, k: nat)
    requires Canonical(fs, lo, n) && k > 0 && FirstFit(fs, k).Some?
    ensures FirstFit(fs, k).value.len == k && FirstEnd(fs, FirstFit(fs, k).value)
  {
    var b := FirstFit(fs, k).value;
    if fs[0].len >= k {
      HeadOnly(fs, lo, n, fs[0].End());
      ChunkFree(fs, 0);
      SubRun(fs, fs[0], b);
      forall a: nat | a < b.start && AllFree(fs, Chunk(a, k)) ensures AllFree(fs, Chunk(a, b.End() - a)) {
        assert Chunk(a, k).Has(a);
        FreeBounded(fs, fs[0].start, n, a);
        SubRun(fs, fs[0], Chunk(a, b.End() - a));
      }
    } else {
      FirstFitPlace(fs[1..], fs[0].End() + 1, n, k);
      LaterPlace(fs, lo, n, b);
    }
  }

  lemma LaterPlace(fs: seq<Chunk>, lo: nat, n: nat, b: Chunk)
    requires Canonical(fs, lo, n) && fs != [] && b.len > fs[0].len && FirstEnd(fs[1..], b)
    ensures FirstEnd(fs, b)
  {
    RunInTail(fs, lo, n, b);
    assert b.Has(b.End() - 1);
    FreeBounded(fs[1..], fs[0].End() + 1, n, b.End() - 1);
    TailFree(fs, lo, n, b.End());
    forall a: nat | a < b.start && AllFree(fs, Chunk(a, b.len)) ensures AllFree(fs, Chunk(a, b.End() - a)) {
      RunInTail(fs, lo, n, Chunk(a, b.len));
      RunInTail(fs, lo, n, Chunk(a, b.End() - a));
    }
  }

  /** Below the place the stretch goes on. */
  lemma GoesOn(fs: seq<Chunk>, a: Chunk, b: Chunk)
    requires AllFree(fs, a) && FirstEnd(fs, b) && a.len == b.len > 0 && a.start < b.start
    ensures Free(fs, a.End())
  {
    SubRun(fs, a, Chunk(a.start, b.len));
    assert Chunk(a.start, b.End() - a.start).Has(a.End());
  }

  lemma OnePlace(fs: seq<Chunk>, a: Chunk, b: Chunk)
    requires FirstEnd(fs, a) && FirstEnd(fs, b) && a.len == b.len > 0
    ensures a.start >= b.start
  {
    if a.start < b.start {
      GoesOn(fs, a, b);
    }
  }

  /** The block is the end of the lowest stretch of free granules that is long enough, and no other. */
  lemma FirstFitExact(fs: seq<Chunk>, lo: nat, n: nat, k: nat, b: Chunk)
    requires Canonical(fs, lo, n) && k > 0
    ensures FirstFit(fs, k) == Some(b) <==> b.len == k && FirstEnd(fs, b)
  {
    if b.len == k && FirstEnd(fs, b) {
      NoFitNoRun(fs, lo, n, k);
      assert AllFree(fs, Chunk(b.start, k)) by {
        SubRun(fs, b, Chunk(b.start, k));
      }
    }
    if FirstFit(fs, k).Some? {
      FirstFitPlace(fs, lo, n, k);
      if b.len == k && FirstEnd(fs, b) {
        OnePlace(fs, b, FirstFit(fs, k).value);
        OnePlace(fs, FirstFit(fs, k).value, b);
      }
    }
  }

  // ---------------------------------------------------------------------------------
  // Release: insert by address and join with what the block touches
  // ---------------------------------------------------------------------------------

  function JoinRight(b: Chunk, right: seq<Chunk>): seq<Chunk>
  {
    if right != [] && b.End() == right[0].start
    then [Chunk(b.start, b.len + right[0].len)] + right[1..]
    else [b] + right
  }

  /** The list after block b is returned. */
  function Insert(fs: seq<Chunk>, b: Chunk): seq<Chunk>
  {
    if fs == [] || b.start < fs[0].start then JoinRight(b, fs)
    else if fs[0].End() == b.start then JoinRight(Chunk(fs[0].start, fs[0].len + b.len), fs[1..])
    else [fs[0]] + Insert(fs[1..], b)
  }

  lemma JoinRightCanonical(b: Chunk, right: seq<Chunk>, lo: nat, n: nat)
    requires Canonical(right, b.End(), n) && lo <= b.start && b.len > 0 && b.End() <= n
    ensures Canonical(JoinRight(b, right), lo, n)
    ensures TotalLen(JoinRight(b, right)) == b.len + TotalLen(right)
  {
    if right != [] && b.End() == right[0].start {
      assert JoinRight(b, right)[1..] == right[1..];
    } else {
      assert JoinRight(b, right)[1..] == right;
    }
  }

  lemma JoinRightFree(b: Chunk, right: seq<Chunk>, c: int)
    ensures Free(JoinRight(b, right), c) <==> b.Has(c) || Free(right, c)
  {
    if right != [] && b.End() == right[0].start {
      assert JoinRight(b, right)[1..] == right[1..];
    } else {
      assert JoinRight(b, right)[1..] == right;
    }
  }

  lemma {:induction false} InsertFree(fs: seq<Chunk>, b: Chunk, c: int)
    ensures Free(Insert(fs, b), c) <==> Free(fs, c) || b.Has(c)
  {
    if fs == [] || b.start < fs[0].start {
      JoinRightFree(b, fs, c);
    } else if fs[0].End() == b.start {
      JoinRightFree(Chunk(fs[0].start, fs[0].len + b.len), fs[1..], c);
    } else {
      InsertFree(fs[1..], b, c);
      assert Insert(fs, b)[1..] == Insert(fs[1..], b);
    }
  }

  lemma AfterGap(fs: seq<Chunk>, lo: nat, n: nat, b: Chunk)
    requires Canonical(fs, lo, n) && b.start < lo && NoneFree(fs, b)
    ensures Canonical(fs, b.End(), n)
  {
    if fs != [] {
      assert Free(fs, fs[0].start);
      assert !b.Has(fs[0].start);
    }
  }

  lemma {:induction false} InsertCanonical(fs: seq<Chunk>, lo: nat, n: nat, b: Chunk)
    requires Canonical(fs, lo, n) && lo <= b.start && b.len > 0 && b.End() <= n
    requires NoneFree(fs, b)
    ensures Canonical(Insert(fs, b), lo, n)
    ensures TotalLen(Insert(fs, b)) == TotalLen(fs) + b.len
  {
    if fs == [] {
      JoinRightCanonical(b, fs, lo, n);
    } else if b.start < fs[0].start {
      LowerBound(fs, fs[0].start, b.start + 1, n);
      AfterGap(fs, fs[0].start, n, b);
      JoinRightCanonical(b, fs, lo, n);
    } else {
      assert b.Has(b.start) && !fs[0].Has(b.start);
      if fs[0].End() == b.start {
        MergeCanonical(fs, lo, n, b);
      } else {
        InsertCanonical(fs[1..], fs[0].End() + 1, n, b);
        assert Insert(fs, b)[1..] == Insert(fs[1..], b);
      }
    }
  }

  lemma MergeCanonical(fs: seq<Chunk>, lo: nat, n: nat, b: Chunk)
    requires Canonical(fs, lo, n) && fs != [] && fs[0].End() == b.start && b.len > 0 && b.End() <= n && NoneFree(fs, b)
    ensures Canonical(Insert(fs, b), lo, n) && TotalLen(Insert(fs, b)) == TotalLen(fs) + b.len
  {
    AfterGap(fs[1..], fs[0].End() + 1, n, b);
    JoinRightCanonical(Chunk(fs[0].start, fs[0].len + b.len), fs[1..], lo, n);
  }

  // ---------------------------------------------------------------------------------
  // Whole runs
  // ---------------------------------------------------------------------------------

  /** The free list and the blocks handed out and not yet returned. */
  datatype State = State(free: seq<Chunk>, live: seq<Chunk>)

  datatype Op = Alloc(granules: nat) | Release(index: nat)

  function Initial(n: nat): State
  {
    State([Chunk(0, n)], [])
  }

  function Without(live: seq<Chunk>, i: nat): seq<Chunk>
    requires i < |live|
  {
    live[..i] + live[i + 1..]
  }

  /** Only a live block may be released. */
  predicate Legal(s: State, op: Op)
  {
    match op
    case Alloc(k) => k > 0
    case Release(i) => i < |s.live|
  }

  function Step(s: State, op: Op): State
    requires Legal(s, op)
  {
    match op
    case Alloc(k) =>
      State(Cut(s.free, k), match FirstFit(s.free, k) case None => s.live case Some(b) => s.live + [b])
    case Release(i) => State(Insert(s.free, s.live[i]), Without(s.live, i))
  }

  predicate LegalRun(s: State, ops: seq<Op>)
    decreases |ops|
  {
    ops == [] || (Legal(s, ops[0]) && LegalRun(Step(s, ops[0]), ops[1..]))
  }

  function Run(s: State, ops: seq<Op>): State
    requires LegalRun(s, ops)
    decreases |ops|
  {
    if ops == [] then s else Run(Step(s, ops[0]), ops[1..])
  }

  predicate Disjoint(a: Chunk, b: Chunk)
  {
    a.End() <= b.start || b.End() <= a.start
  }

  /** The free list is canonical, live blocks lie in the heap and do not overlap, a granule is free
      exactly when no live block holds it, and sizes add up. */
  ghost predicate Inv(s: State, n: nat)
  {
    && Canonical(s.free, 0, n)
    && (forall i :: 0 <= i < |s.live| ==> s.live[i].len > 0 && s.live[i].End() <= n)
    && (forall i, j :: 0 <= i < j < |s.live| ==> Disjoint(s.live[i], s.live[j]))
    && (forall c :: Free(s.free, c) <==> 0 <= c < n && !Free(s.live, c))
    && TotalLen(s.free) + TotalLen(s.live) == n
  }

  lemma {:induction false} FreeAppend(a: seq<Chunk>, b: seq<Chunk>, c: int)
    ensures Free(a + b, c) <==> Free(a, c) || Free(b, c)
    ensures TotalLen(a + b) == TotalLen(a) + TotalLen(b)
  {
    if a == [] {
      assert a + b == b;
    } else {
      FreeAppend(a[1..], b, c);
      assert (a + b)[1..] == a[1..] + b;
    }
  }

  lemma {:induction false} FreeAt(fs: seq<Chunk>, i: nat, c: int)
    requires i < |fs| && fs[i].Has(c)
    ensures Free(fs, c)
  {
    if i > 0 {
      FreeAt(fs[1..], i - 1, c);
    }
  }

  lemma {:induction false} FreeFind(fs: seq<Chunk>, c: int) returns (i: nat)
    requires Free(fs, c)
    ensures i < |fs| && fs[i].Has(c)
  {
    if fs[0].Has(c) {
      i := 0;
    } else {
      var j := FreeFind(fs[1..], c);
      i := j + 1;
    }
  }

  lemma WithoutMember(live: seq<Chunk>, i: nat, c: int)
    requires i < |live|
    requires forall a, b :: 0 <= a < b < |live| ==> Disjoint(live[a], live[b])
    ensures Free(Without(live, i), c) <==> Free(live, c) && !live[i].Has(c)
    ensures TotalLen(live) == TotalLen(Without(live, i)) + live[i].len
  {
    var rest := Without(live, i);
    assert live == live[..i] + ([live[i]] + live[i + 1..]);
    FreeAppend(live[..i], [live[i]] + live[i + 1..], c);
    FreeAppend([live[i]], live[i + 1..], c);
    FreeAppend(live[..i], live[i + 1..], c);
    if Free(rest, c) {
      var j := FreeFind(rest, c);
      assert rest[j] == live[if j < i then j else j + 1];
    }
  }

  lemma LiveNotFree(s: State, n: nat, i: nat)
    requires Inv(s, n) && i < |s.live|
    ensures NoneFree(s.free, s.live[i])
  {
    forall c | s.live[i].Has(c) ensures !Free(s.free, c) {
      FreeAt(s.live, i, c);
    }
  }

  lemma AllocKeepsInv(s: State, n: nat, k: nat)
    requires Inv(s, n) && k > 0
    ensures Inv(Step(s, Alloc(k)), n)
  {
    CutCanonical(s.free, 0, n, k);
    CutFree(s.free, 0, n, k, 0);
    if FirstFit(s.free, k).Some? {
      var b := FirstFit(s.free, k).value;
      var t := Step(s, Alloc(k));
      forall c ensures Free(t.free, c) <==> 0 <= c < n && !Free(t.live, c) {
        CutFree(s.free, 0, n, k, c);
        FreeAppend(s.live, [b], c);
      }
      FreeAppend(s.live, [b], 0);
      forall i | 0 <= i < |s.live| ensures Disjoint(s.live[i], b) {
        FreshBlock(s, n, k, i);
      }
    }
  }

  /** A block handed out overlaps no live block. */
  lemma FreshBlock(s: State, n: nat, k: nat, i: nat)
    requires Inv(s, n) && k > 0 && FirstFit(s.free, k).Some? && i < |s.live|
    ensures Disjoint(s.live[i], FirstFit(s.free, k).value)
  {
    var b := FirstFit(s.free, k).value;
    LiveNotFree(s, n, i);
    CutFree(s.free, 0, n, k, b.start);
    CutFree(s.free, 0, n, k, s.live[i].start);
    assert b.Has(b.start) && s.live[i].Has(s.live[i].start);
  }

  lemma ReleaseKeepsInv(s: State, n: nat, i: nat)
    requires Inv(s, n) && i < |s.live|
    ensures Inv(Step(s, Release(i)), n)
  {
    var t := Step(s, Release(i));
    LiveNotFree(s, n, i);
    InsertCanonical(s.free, 0, n, s.live[i]);
    forall c ensures Free(t.free, c) <==> 0 <= c < n && !Free(t.live, c) {
      InsertFree(s.free, s.live[i], c);
      WithoutMember(s.live, i, c);
    }
    WithoutMember(s.live, i, 0);
  }

  lemma StepKeepsInv(s: State, n: nat, op: Op)
    requires Inv(s, n) && Legal(s, op)
    ensures Inv(Step(s, op), n)
  {
    match op
    case Alloc(k) => AllocKeepsInv(s, n, k);
    case Release(i) => ReleaseKeepsInv(s, n, i);
  }

  /** Safety over whole runs. */
  lemma {:induction false} RunKeepsInv(s: State, n: nat, ops: seq<Op>)
    requires Inv(s, n) && LegalRun(s, ops)
    ensures Inv(Run(s, ops), n)
    decreases |ops|
  {
    if ops != [] {
      StepKeepsInv(s, n, ops[0]);
      RunKeepsInv(Step(s, ops[0]), n, ops[1..]);
    }
  }

  lemma InitialInv(n: nat)
    requires n > 0
    ensures Inv(Initial(n), n)
  {
    assert TotalLen(Initial(n).free) == n + TotalLen(Initial(n).free[1..]);
  }

  /** k contiguous granules from a on lie in the heap and no live block holds any of them. */
  ghost predicate Available(live: seq<Chunk>, n: nat, a: nat, k: nat)
  {
    a + k <= n && forall c :: a <= c < a + k ==> !Free(live, c)
  }

  /** In every reachable state an allocation fails exactly when no contiguous run of k granules is free
      of live blocks, and the free granules plus the live ones make up the heap. */
  lemma ReachableComplete(n: nat, ops: seq<Op>, k: nat)
    requires n > 0 && k > 0 && LegalRun(Initial(n), ops)
    ensures var s := Run(Initial(n), ops);
            && TotalLen(s.free) + TotalLen(s.live) == n
            && (FirstFit(s.free, k).None? <==> forall a: nat :: !Available(s.live, n, a, k))
  {
    var s := Run(Initial(n), ops);
    InitialInv(n);
    RunKeepsInv(Initial(n), n, ops);
    NoFitNoRun(s.free, 0, n, k);
    forall a: nat ensures AllFree(s.free, Chunk(a, k)) <==> Available(s.live, n, a, k) {
      AvailableIsFree(s, n, a, k);
    }
  }

  lemma AvailableIsFree(s: State, n: nat, a: nat, k: nat)
    requires Inv(s, n) && k > 0
    ensures AllFree(s.free, Chunk(a, k)) <==> Available(s.live, n, a, k)
  {
    var run := Chunk(a, k);
    assert run.Has(a + k - 1);
    if AllFree(s.free, run) {
      forall c | a <= c < a + k ensures !Free(s.live, c) {
        assert run.Has(c);
      }
      assert Free(s.free, a + k - 1);
    }
  }

  /** The free list depends only on which granules are live, not on the history that led there. */
  lemma HistoryIndependent(s: State, t: State, n: nat)
    requires Inv(s, n) && Inv(t, n)
    requires SameCells(s.live, t.live)
    ensures s.free == t.free
  {
    CanonicalUnique(s.free, t.free, 0, n);
  }

  /** Whatever order blocks were returned in, once none is live the list is the single initial chunk. */
  lemma AllReturned(n: nat, ops: seq<Op>)
    requires n > 0 && LegalRun(Initial(n), ops)
    requires Run(Initial(n), ops).live == []
    ensures Run(Initial(n), ops) == Initial(n)
  {
    InitialInv(n);
    RunKeepsInv(Initial(n), n, ops);
    HistoryIndependent(Run(Initial(n), ops), Initial(n), n);
  }

  /** Allocating and then releasing the same block restores the identical free list. */
  lemma AllocReleaseRestores(s: State, n: nat, k: nat)
    requires Inv(s, n) && k > 0 && FirstFit(s.free, k).Some?
    ensures Step(Step(s, Alloc(k)), Release(|s.live|)) == s
  {
    var t := Step(s, Alloc(k));
    AllocKeepsInv(s, n, k);
    ReleaseKeepsInv(t, n, |s.live|);
    assert Without(t.live, |s.live|) == s.live;
    HistoryIndependent(Step(t, Release(|s.live|)), s, n);
  }

  /** Two releases commute. */
  lemma ReleasesCommute(s: State, n: nat, i: nat, j: nat)
    requires Inv(s, n) && i < j < |s.live|
    ensures Step(Step(s, Release(i)), Release(j - 1)) == Step(Step(s, Release(j)), Release(i))
  {
    var a := TwoReleases(s, n, i, j - 1);
    var b := TwoReleases(s, n, j, i);
    WithoutCommutes(s.live, i, j);
    HistoryIndependent(a, b, n);
  }

  lemma WithoutCommutes(live: seq<Chunk>, i: nat, j: nat)
    requires i < j < |live|
    ensures Without(Without(live, i), j - 1) == Without(Without(live, j), i)
  {
    var a, b := Without(Without(live, i), j - 1), Without(Without(live, j), i);
    assert |a| == |b|;
    forall x | 0 <= x < |a| ensures a[x] == b[x] == live[if x < i then x else if x < j - 1 then x + 1 else x + 2] {
    }
  }

  lemma TwoReleases(s: State, n: nat, i: nat, j: nat) returns (t: State)
    requires Inv(s, n) && i < |s.live| && j + 1 < |s.live|
    ensures t == Step(Step(s, Release(i)), Release(j)) && Inv(t, n)
  {
    ReleaseKeepsInv(s, n, i);
    ReleaseKeepsInv(Step(s, Release(i)), n, j);
    t := Step(Step(s, Release(i)), Release(j));
  }

  // ---------------------------------------------------------------------------------
  // The allocator in memory
  // ---------------------------------------------------------------------------------

  lemma {:induction false} Sorted(fs: seq<Chunk>, lo: nat, n: nat)
    requires Canonical(fs, lo, n)
    ensures forall i :: 0 <= i < |fs| ==> lo <= fs[i].start && fs[i].len > 0 && fs[i].End() <= n
    ensures forall i, j :: 0 <= i < j < |fs| ==> fs[i].End() < fs[j].start
  {
    if fs != [] {
      Sorted(fs[1..], fs[0].End() + 1, n);
      assert forall i :: 0 < i < |fs| ==> fs[i] == fs[1..][i - 1];
    }
  }

  /** The chunk headers in memory spell out the free list fs, starting from pointer p. */
  ghost predicate Linked(p: int, mem: seq<MemChunk>, fs: seq<Chunk>)
    decreases |fs|
  {
    if fs == [] then p == NULL
    else
      && p == fs[0].start && p < |mem|
      && mem[p].size == GRANULE * fs[0].len
      && Linked(mem[p].next, mem, fs[1..])
  }

  /** Strictly ascending chunks inside a heap of n granules. */
  predicate Ascending(fs: seq<Chunk>, lo: nat, n: nat)
  {
    fs == [] || (lo <= fs[0].start < n && Ascending(fs[1..], fs[0].start + 1, n))
  }

  lemma {:induction false} CanonicalAscending(fs: seq<Chunk>, lo: nat, lo': nat, n: nat)
    requires Canonical(fs, lo, n) && lo' <= lo
    ensures Ascending(fs, lo', n)
  {
    if fs != [] {
      CanonicalAscending(fs[1..], fs[0].End() + 1, fs[0].start + 1, n);
    }
  }

  lemma {:induction false} AscendingAt(fs: seq<Chunk>, lo: nat, n: nat, i: nat)
    requires Ascending(fs, lo, n) && i < |fs|
    ensures lo <= fs[i].start < n
    ensures i > 0 ==> fs[0].start < fs[i].start
  {
    if i > 0 {
      AscendingAt(fs[1..], fs[0].start + 1, n, i - 1);
    }
  }

  lemma {:induction false} LinkedAt(p: int, mem: seq<MemChunk>, fs: seq<Chunk>, i: nat)
    requires Linked(p, mem, fs) && i < |fs|
    ensures fs[i].start < |mem| && mem[fs[i].start].size == GRANULE * fs[i].len
    ensures Linked(fs[i].start, mem, fs[i..])
    ensures Linked(mem[fs[i].start].next, mem, fs[i + 1..])
    decreases |fs|
  {
    if i > 0 {
      LinkedAt(mem[p].next, mem, fs[1..], i - 1);
      assert fs[1..][i - 1..] == fs[i..] && fs[1..][i..] == fs[i + 1..];
    }
  }

  /** The two memories differ at most at a. */
  predicate Changed(mem: seq<MemChunk>, mem': seq<MemChunk>, a: int)
  {
    |mem| == |mem'| && forall c :: 0 <= c < |mem| && c != a ==> mem'[c] == mem[c]
  }

  lemma {:induction false} LinkedFrame(p: int, mem: seq<MemChunk>, mem': seq<MemChunk>, fs: seq<Chunk>, lo: nat)
    requires Linked(p, mem, fs) && Ascending(fs, lo, |mem|)
    requires |mem| == |mem'| && forall c :: lo <= c < |mem| ==> mem'[c] == mem[c]
    ensures Linked(p, mem', fs)
    decreases |fs|
  {
    if fs != [] {
      LinkedFrame(mem[p].next, mem, mem', fs[1..], fs[0].start + 1);
    }
  }

  /** Pointing chunk i - 1 past chunk i, the first that fits, and exactly, takes it off the list. */
  lemma {:induction false} LinkedUnlink(p: int, mem: seq<MemChunk>, fs: seq<Chunk>, i: nat, k: nat,
                                        mem': seq<MemChunk>, lo: nat)
    requires Linked(p, mem, fs) && Ascending(fs, lo, |mem|) && 0 < i < |fs|
    requires fs[i].len == k && forall j :: 0 <= j < i ==> fs[j].len < k
    requires fs[i - 1].start < |mem| && fs[i].start < |mem| && Changed(mem, mem', fs[i - 1].start)
    requires mem'[fs[i - 1].start] == mem[fs[i - 1].start].(next := mem[fs[i].start].next)
    ensures Linked(p, mem', Cut(fs, k))
    decreases |fs|
  {
    assert fs[0].len < k && Cut(fs, k)[1..] == Cut(fs[1..], k);
    if i == 1 {
      assert fs[1..][0] == fs[1] && Cut(fs[1..], k) == fs[1..][1..];
      LinkedFrame(mem[fs[1].start].next, mem, mem', fs[1..][1..], fs[1].start + 1);
    } else {
      AscendingAt(fs, lo, |mem|, i - 1);
      LinkedUnlink(mem[p].next, mem, fs[1..], i - 1, k, mem', fs[0].start + 1);
    }
  }

  /** Shrinking the first chunk that is too big cuts the block from its end. */
  lemma {:induction false} LinkedShrink(p: int, mem: seq<MemChunk>, fs: seq<Chunk>, i: nat, k: nat,
                                        mem': seq<MemChunk>, lo: nat)
    requires Linked(p, mem, fs) && Ascending(fs, lo, |mem|) && i < |fs|
    requires fs[i].len > k && forall j :: 0 <= j < i ==> fs[j].len < k
    requires fs[i].start < |mem| && Changed(mem, mem', fs[i].start)
    requires mem'[fs[i].start] == mem[fs[i].start].(size := GRANULE * (fs[i].len - k))
    ensures Linked(p, mem', Cut(fs, k))
    decreases |fs|
  {
    if i == 0 {
      LinkedFrame(mem[p].next, mem, mem', fs[1..], fs[0].start + 1);
      assert Cut(fs, k)[1..] == fs[1..];
    } else {
      AscendingAt(fs, lo, |mem|, i);
      LinkedShrink(mem[p].next, mem, fs[1..], i - 1, k, mem', fs[0].start + 1);
      assert Cut(fs, k)[1..] == Cut(fs[1..], k);
    }
  }

  lemma {:induction false} FirstFitAt(fs: seq<Chunk>, i: nat, k: nat)
    requires i <= |fs| && (i < |fs| ==> fs[i].len >= k) && forall j :: 0 <= j < i ==> fs[j].len < k
    ensures FirstFit(fs, k) == if i == |fs| then None else Some(Chunk(fs[i].End() - k, k))
    ensures i == |fs| ==> Cut(fs, k) == fs
    ensures i == 0 < |fs| && fs[i].len == k ==> Cut(fs, k) == fs[1..]
  {
    if 0 < i {
      FirstFitAt(fs[1..], i - 1, k);
    }
  }

  /** The list after chunk i swallows the next chunk, if the two touch. */
  function JoinAt(fs: seq<Chunk>, i: nat): seq<Chunk>
    requires i < |fs|
  {
    if i == 0 then JoinRight(fs[0], fs[1..]) else [fs[0]] + JoinAt(fs[1..], i - 1)
  }

  /** The list with b merged into chunk i. */
  function MergedAt(fs: seq<Chunk>, b: Chunk, i: nat): (r: seq<Chunk>)
    requires i < |fs|
    ensures i < |r| && r[i].start == fs[i].start
  {
    if i == 0 then [Chunk(fs[0].start, fs[0].len + b.len)] + fs[1..]
    else [fs[0]] + MergedAt(fs[1..], b, i - 1)
  }

  /** The list with b placed after chunk i. */
  function PlacedAt(fs: seq<Chunk>, b: Chunk, i: nat): (r: seq<Chunk>)
    requires i < |fs|
    ensures i + 1 < |r| && r[i + 1].start == b.start
  {
    if i == 0 then [fs[0]] + ([b] + fs[1..]) else [fs[0]] + PlacedAt(fs[1..], b, i - 1)
  }

  /** Releasing is merging or placing at the last chunk below the block, then joining to the right. */
  lemma {:induction false} InsertAt(fs: seq<Chunk>, b: Chunk, i: nat, n: nat, lo: nat)
    requires i < |fs| && Canonical(fs, lo, n)
    requires fs[i].start < b.start && (i + 1 < |fs| ==> b.start < fs[i + 1].start)
    ensures fs[0].start < b.start
    ensures fs[i].End() == b.start ==> Insert(fs, b) == JoinAt(MergedAt(fs, b, i), i)
    ensures fs[i].End() != b.start ==> Insert(fs, b) == JoinAt(PlacedAt(fs, b, i), i + 1)
  {
    if i > 0 {
      InsertAt(fs[1..], b, i - 1, n, fs[0].End() + 1);
      assert MergedAt(fs, b, i)[1..] == MergedAt(fs[1..], b, i - 1);
      assert PlacedAt(fs, b, i)[1..] == PlacedAt(fs[1..], b, i - 1);
    } else if fs[0].End() == b.start {
      assert MergedAt(fs, b, 0)[1..] == fs[1..];
    } else {
      assert PlacedAt(fs, b, 0)[1..] == [b] + fs[1..];
      assert ([b] + fs[1..])[1..] == fs[1..];
    }
  }

  /** Growing the size in the header of chunk i merges the block into it. */
  lemma {:induction false} LinkedMerge(p: int, mem: seq<MemChunk>, fs: seq<Chunk>, b: Chunk, i: nat,
                                       mem': seq<MemChunk>, lo: nat)
    requires Linked(p, mem, fs) && Ascending(fs, lo, |mem|) && i < |fs|
    requires fs[i].start < |mem| && Changed(mem, mem', fs[i].start)
    requires mem'[fs[i].start] == mem[fs[i].start].(size := GRANULE * (fs[i].len + b.len))
    ensures Linked(p, mem', MergedAt(fs, b, i)) && Ascending(MergedAt(fs, b, i), lo, |mem|)
    decreases |fs|
  {
    if i == 0 {
      LinkedFrame(mem[p].next, mem, mem', fs[1..], fs[0].start + 1);
      assert MergedAt(fs, b, 0)[1..] == fs[1..];
    } else {
      AscendingAt(fs, lo, |mem|, i);
      LinkedMerge(mem[p].next, mem, fs[1..], b, i - 1, mem', fs[0].start + 1);
      assert MergedAt(fs, b, i)[1..] == MergedAt(fs[1..], b, i - 1);
    }
  }

  /** Writing the block's header and pointing chunk i at it places the block after chunk i. */
  lemma {:induction false} LinkedPlace(p: int, mem: seq<MemChunk>, fs: seq<Chunk>, b: Chunk, i: nat,
                                       mem': seq<MemChunk>, lo: nat)
    requires Linked(p, mem, fs) && Ascending(fs, lo, |mem|) && i < |fs|
    requires fs[i].start < b.start < |mem| && (i + 1 < |fs| ==> b.start < fs[i + 1].start)
    requires mem' == mem[b.start := MemChunk(mem[fs[i].start].next, GRANULE * b.len)]
                        [fs[i].start := mem[fs[i].start].(next := b.start)]
    ensures Linked(p, mem', PlacedAt(fs, b, i)) && Ascending(PlacedAt(fs, b, i), lo, |mem|)
    decreases |fs|
  {
    if i == 0 {
      assert Ascending(fs[1..], b.start + 1, |mem|);
      LinkedFrame(mem[p].next, mem, mem', fs[1..], b.start + 1);
      assert ([b] + fs[1..])[1..] == fs[1..];
      assert PlacedAt(fs, b, 0)[1..] == [b] + fs[1..];
    } else {
      AscendingAt(fs, lo, |mem|, i);
      LinkedPlace(mem[p].next, mem, fs[1..], b, i - 1, mem', fs[0].start + 1);
      assert PlacedAt(fs, b, i)[1..] == PlacedAt(fs[1..], b, i - 1);
    }
  }

  /** Chunk i swallows the next chunk by taking over its pointer and adding its size. */
  lemma {:induction false} LinkedJoin(p: int, mem: seq<MemChunk>, fs: seq<Chunk>, i: nat,
                                      mem': seq<MemChunk>, lo: nat)
    requires Linked(p, mem, fs) && Ascending(fs, lo, |mem|)
    requires i + 1 < |fs| && fs[i].End() == fs[i + 1].start < |mem|
    requires fs[i].start < |mem| && Changed(mem, mem', fs[i].start)
    requires mem'[fs[i].start] == MemChunk(mem[fs[i + 1].start].next,
                                           mem[fs[i].start].size + mem[fs[i + 1].start].size)
    ensures Linked(p, mem', JoinAt(fs, i))
    decreases |fs|
  {
    if i == 0 {
      LinkedFrame(mem[fs[1].start].next, mem, mem', fs[1..][1..], fs[1].start + 1);
      assert JoinAt(fs, 0)[1..] == fs[1..][1..];
    } else {
      AscendingAt(fs, lo, |mem|, i);
      LinkedJoin(mem[p].next, mem, fs[1..], i - 1, mem', fs[0].start + 1);
      assert JoinAt(fs, i)[1..] == JoinAt(fs[1..], i - 1);
    }
  }

  lemma {:induction false} NoJoin(fs: seq<Chunk>, i: nat)
    requires i < |fs| && (i + 1 < |fs| ==> fs[i].End() != fs[i + 1].start)
    ensures JoinAt(fs, i) == fs
  {
    if i > 0 {
      NoJoin(fs[1..], i - 1);
    }
  }

  lemma {:induction false} LenFits(fs: seq<Chunk>, lo: nat, n: nat, i: nat)
    requires Canonical(fs, lo, n) && i < |fs|
    ensures 0 < fs[i].len <= n
  {
    if i > 0 {
      LenFits(fs[1..], fs[0].End() + 1, n, i - 1);
    }
  }

  lemma {:induction false} StartFree(fs: seq<Chunk>, lo: nat, n: nat, i: nat)
    requires Canonical(fs, lo, n) && i < |fs|
    ensures Free(fs, fs[i].start)
  {
    if i > 0 {
      StartFree(fs[1..], fs[0].End() + 1, n, i - 1);
    }
  }

  /** What a client writes into granules that are not free leaves the list alone. */
  lemma {:induction false} LinkedAway(p: int, mem: seq<MemChunk>, mem': seq<MemChunk>, fs: seq<Chunk>,
                                      lo: nat, n: nat, a: int)
    requires Linked(p, mem, fs) && Canonical(fs, lo, n) && Changed(mem, mem', a) && !Free(fs, a)
    ensures Linked(p, mem', fs)
    decreases |fs|
  {
    if fs != [] {
      LinkedAway(mem[p].next, mem, mem', fs[1..], fs[0].End() + 1, n, a);
    }
  }

  /** The first granule of a new block is live, and was not before. */
  lemma BlockLive(s: State, n: nat, k: nat)
    requires Inv(s, n) && k > 0 && FirstFit(s.free, k).Some?
    ensures var b := FirstFit(s.free, k).value.start;
            b < n && !Free(s.live, b) && Free(Step(s, Alloc(k)).live, b)
  {
    var b := FirstFit(s.free, k).value.start;
    CutFree(s.free, 0, n, k, b);
    FreeAppend(s.live, [Chunk(b, k)], b);
  }

  class Heap {
    const tcm_heap: array<MemChunk>
    var FreeList: int
    var g_heap_inited: bool
    ghost var state: State

    ghost predicate Valid()
      reads this, tcm_heap
    {
      && 0 < tcm_heap.Length && GRANULE * tcm_heap.Length <= INT_MAX
      && Inv(state, tcm_heap.Length)
      && (if g_heap_inited then Linked(FreeList, tcm_heap[..], state.free) else state == Initial(tcm_heap.Length))
    }

    constructor (size: nat)
      requires 0 < size <= INT_MAX - (GRANULE - 1)
      ensures Valid() && fresh(tcm_heap)
      ensures tcm_heap.Length == (size + GRANULE - 1) / GRANULE && state == Initial(tcm_heap.Length)
    {
      tcm_heap := new MemChunk[(size + GRANULE - 1) / GRANULE](_ => MemChunk(NULL, 0));
      FreeList := NULL;
      g_heap_inited := false;
      state := Initial((size + GRANULE - 1) / GRANULE);
      new;
      InitialInv(tcm_heap.Length);
    }

    method Init()
      requires 0 < tcm_heap.Length && GRANULE * tcm_heap.Length <= INT_MAX
      modifies this, tcm_heap
      ensures Valid() && g_heap_inited && state == Initial(tcm_heap.Length)
      ensures forall i :: 0 < i < tcm_heap.Length ==> tcm_heap[i] == old(tcm_heap[i])
    {
      FreeList := 0;
      tcm_heap[0] := MemChunk(NULL, GRANULE * tcm_heap.Length);
      g_heap_inited := true;
      state := Initial(tcm_heap.Length);
      InitialInv(tcm_heap.Length);
    }

    /** A requestable size takes the first fitting block. Any other size is rounded to a negative one, for which
        every chunk is too big: the first chunk grows, into granules that are not free. */
    method AllocMem(size: int) returns (mem: int)
      requires Valid() && -INT_MAX - 1 <= size <= INT_MAX
      modifies this, tcm_heap
      ensures g_heap_inited && (Valid() <==> Requestable(size) || old(state).free == [])
      ensures Requestable(size) ==>
                && state == Step(old(state), Alloc(Granules(size)))
                && (mem == match FirstFit(old(state).free, Granules(size))
                           case None => NULL
                           case Some(b) => b.start)
                && forall c :: 0 <= c < tcm_heap.Length && Free(old(state).live, c) ==> tcm_heap[c] == old(tcm_heap[c])
      ensures !Requestable(size) ==> state == old(state) && if state.free == [] then mem == NULL else Overgrown(Request(size), mem)
    {
      if !g_heap_inited { Init(); }
      RequestExact(size);
      var bytes := Request(size);
      if Requestable(size) {
        AllocKeepsInv(state, tcm_heap.Length, Granules(size));
      }
      mem := Walk(bytes);
      if Requestable(size) {
        state := Step(state, Alloc(Granules(size)));
      }
    }

    /** The first chunk has grown by a negative size, and a place behind it was handed out. */
    ghost predicate Overgrown(bytes: int, mem: int)
      requires state.free != []
      reads this, tcm_heap
    {
      var a := state.free[0];
      && a.start < tcm_heap.Length && tcm_heap[a.start].size == Minus32(GRANULE * a.len, bytes)
      && mem == a.start + tcm_heap[a.start].size / GRANULE
    }

    /** The walk over the free list: stops at the first chunk big enough and takes the block from it. */
    method Walk(bytes: int) returns (mem: int)
      requires bytes != 0 && bytes % GRANULE == 0 && bytes >= -INT_MAX - 1 && GRANULE * tcm_heap.Length <= INT_MAX
      requires Canonical(state.free, 0, tcm_heap.Length) && Linked(FreeList, tcm_heap[..], state.free)
      modifies `FreeList, tcm_heap
      ensures bytes > 0 ==>
                && Linked(FreeList, tcm_heap[..], Cut(state.free, bytes / GRANULE))
                && (mem == match FirstFit(state.free, bytes / GRANULE)
                           case None => NULL
                           case Some(b) => b.start)
                && forall c :: 0 <= c < tcm_heap.Length && !Free(state.free, c) ==> tcm_heap[c] == old(tcm_heap[c])
      ensures bytes < 0 ==> (Linked(FreeList, tcm_heap[..], state.free) <==> state.free == [])
      ensures bytes < 0 ==> if state.free == [] then mem == NULL else Overgrown(bytes, mem)
    {
      var prev, chunk;
      ghost var i;
      prev, chunk, i := Seek(bytes);
      if chunk == NULL {
        return NULL;
      }
      LinkedAt(FreeList, tcm_heap[..], state.free, i);
      if tcm_heap[chunk].size == bytes {
        Remove(prev, chunk, i, bytes);
        mem := chunk;
      } else {
        mem := Shrink(chunk, i, bytes);
      }
    }

    /** The first chunk of at least so many bytes, and the one before it. */
    method Seek(bytes: int) returns (prev: int, chunk: int, ghost i: nat)
      requires bytes % GRANULE == 0
      requires Canonical(state.free, 0, tcm_heap.Length) && Linked(FreeList, tcm_heap[..], state.free)
      ensures i <= |state.free| && (chunk == NULL <==> i == |state.free|)
      ensures i < |state.free| ==> chunk == state.free[i].start && GRANULE * state.free[i].len >= bytes
      ensures prev == if i == 0 then NULL else state.free[i - 1].start
      ensures forall j :: 0 <= j < i ==> GRANULE * state.free[j].len < bytes
      ensures bytes > 0 ==>
                && FirstFit(state.free, bytes / GRANULE)
                   == (if i == |state.free| then None
                       else Some(Chunk(state.free[i].End() - bytes / GRANULE, bytes / GRANULE)))
                && (i == |state.free| ==> Cut(state.free, bytes / GRANULE) == state.free)
    {
      ghost var fs := state.free;
      prev, chunk, i := NULL, FreeList, 0;
      while chunk != NULL && tcm_heap[chunk].size < bytes
        invariant i <= |fs| && prev == (if i == 0 then NULL else fs[i - 1].start)
        invariant Linked(chunk, tcm_heap[..], fs[i..])
        invariant forall j :: 0 <= j < i ==> GRANULE * fs[j].len < bytes
        decreases |fs| - i
      {
        assert fs[i..][1..] == fs[i + 1..];
        prev, chunk := chunk, tcm_heap[chunk].next;
        i := i + 1;
      }
      if bytes > 0 {
        FirstFitAt(fs, i, bytes / GRANULE);
      }
    }

    /** Takes chunk i off the list. */
    method Remove(prev: int, chunk: int, ghost i: nat, ghost bytes: int)
      requires Canonical(state.free, 0, tcm_heap.Length) && Linked(FreeList, tcm_heap[..], state.free)
      requires i < |state.free| && chunk == state.free[i].start < tcm_heap.Length && GRANULE * state.free[i].len == bytes
      requires prev == if i == 0 then NULL else state.free[i - 1].start
      requires forall j :: 0 <= j < i ==> GRANULE * state.free[j].len < bytes
      modifies `FreeList, tcm_heap
      ensures bytes > 0 && Linked(FreeList, tcm_heap[..], Cut(state.free, bytes / GRANULE))
      ensures forall c :: 0 <= c < tcm_heap.Length && !Free(state.free, c) ==> tcm_heap[c] == old(tcm_heap[c])
    {
      ghost var fs, k, before := state.free, bytes / GRANULE, tcm_heap[..];
      CanonicalAscending(fs, 0, 0, tcm_heap.Length);
      StartFree(fs, 0, tcm_heap.Length, i);
      FirstFitAt(fs, i, k);
      if prev == NULL {
        FreeList := tcm_heap[chunk].next;
      } else {
        LinkedAt(FreeList, before, fs, i - 1);
        StartFree(fs, 0, tcm_heap.Length, i - 1);
        tcm_heap[prev] := tcm_heap[prev].(next := tcm_heap[chunk].next);
        LinkedUnlink(FreeList, before, fs, i, k, tcm_heap[..], 0);
      }
    }

    /** Takes the block from the end of chunk i; a negative size makes the chunk grow. */
    method Shrink(chunk: int, ghost i: nat, bytes: int) returns (mem: int)
      requires Canonical(state.free, 0, tcm_heap.Length) && Linked(FreeList, tcm_heap[..], state.free)
      requires GRANULE * tcm_heap.Length <= INT_MAX && bytes != 0 && bytes % GRANULE == 0 && bytes >= -INT_MAX - 1
      requires i < |state.free| && chunk == state.free[i].start < tcm_heap.Length && GRANULE * state.free[i].len > bytes
      requires tcm_heap[chunk].size == GRANULE * state.free[i].len
      requires forall j :: 0 <= j < i ==> GRANULE * state.free[j].len < bytes
      modifies tcm_heap
      ensures bytes > 0 ==>
                && Linked(FreeList, tcm_heap[..], Cut(state.free, bytes / GRANULE))
                && mem == state.free[i].End() - bytes / GRANULE
      ensures forall c :: 0 <= c < tcm_heap.Length && c != chunk ==> tcm_heap[c] == old(tcm_heap[c])
      ensures Free(state.free, chunk)
      ensures bytes < 0 ==> !Linked(FreeList, tcm_heap[..], state.free) && Overgrown(bytes, mem)
    {
      ghost var fs, before := state.free, tcm_heap[..];
      CanonicalAscending(fs, 0, 0, tcm_heap.Length);
      StartFree(fs, 0, tcm_heap.Length, i);
      LenFits(fs, 0, tcm_heap.Length, i);
      assert i == 0 || GRANULE * fs[0].len < bytes;
      Minus32Exact(tcm_heap[chunk].size, bytes);
      tcm_heap[chunk] := tcm_heap[chunk].(size := Minus32(tcm_heap[chunk].size, bytes));
      if bytes > 0 {
        LinkedShrink(FreeList, before, fs, i, bytes / GRANULE, tcm_heap[..], 0);
      }
      mem := chunk + tcm_heap[chunk].size / GRANULE;
    }

    /** Returns the live block at the given index. The source's lazy initialisation is not repeated here:
        a block is live only once the heap is initialised. */
    method FreeMem(mem: nat, size: int, ghost index: nat)
      requires Valid() && Requestable(size)
      requires index < |state.live| && state.live[index] == Chunk(mem, Granules(size))
      modifies this, tcm_heap
      ensures Valid() && g_heap_inited
      ensures state == Step(old(state), Release(index))
      ensures forall c :: 0 <= c < tcm_heap.Length && Free(state.live, c) ==> tcm_heap[c] == old(tcm_heap[c])
    {
      RequestExact(size);
      LiveNotFree(state, tcm_heap.Length, index);
      ReleaseKeepsInv(state, tcm_heap.Length, index);
      ghost var placed, at;
      var prev;
      prev, placed, at := Place(mem, Request(size));
      JoinNext(prev, placed, at);
      forall c | Free(Without(state.live, index), c) ensures c != mem && !Free(state.free, c) {
        WithoutMember(state.live, index, c);
        assert state.live[index].Has(mem);
      }
      state := Step(state, Release(index));
    }

    /** Puts the block on the list before the chunks above it, merged into the chunk below if that one
        ends where the block starts; prev is the chunk that now holds it. */
    method Place(mem: nat, bytes: int) returns (prev: int, ghost placed: seq<Chunk>, ghost at: nat)
      requires mem < tcm_heap.Length && bytes > 0 && bytes % GRANULE == 0
      requires Canonical(state.free, 0, tcm_heap.Length) && Linked(FreeList, tcm_heap[..], state.free)
      requires NoneFree(state.free, Chunk(mem, bytes / GRANULE))
      modifies `FreeList, tcm_heap
      ensures at < |placed| && Ascending(placed, 0, tcm_heap.Length)
      ensures Linked(FreeList, tcm_heap[..], placed) && prev == placed[at].start
      ensures Insert(state.free, Chunk(mem, bytes / GRANULE)) == JoinAt(placed, at)
      ensures prev == mem || Free(state.free, prev)
      ensures forall c :: 0 <= c < tcm_heap.Length && c != mem && !Free(state.free, c) ==>
                            tcm_heap[c] == old(tcm_heap[c])
    {
      ghost var fs, b := state.free, Chunk(mem, bytes / GRANULE);
      assert b.Has(mem) && (fs != [] ==> Free(fs, fs[0].start));
      if mem < FreeList || FreeList == NULL {
        placed := PlaceFirst(mem, bytes);
        prev, at := mem, 0;
      } else {
        ghost var i;
        prev, i := Below(mem);
        InsertAt(fs, b, i, tcm_heap.Length, 0);
        prev, placed, at := PlaceAfter(prev, mem, bytes, i);
      }
    }

    /** The block becomes the first of the list. */
    method PlaceFirst(mem: nat, bytes: int) returns (ghost placed: seq<Chunk>)
      requires mem < tcm_heap.Length && bytes > 0 && bytes % GRANULE == 0
      requires Canonical(state.free, 0, tcm_heap.Length) && Linked(FreeList, tcm_heap[..], state.free)
      requires state.free != [] ==> mem < state.free[0].start
      modifies `FreeList, tcm_heap
      ensures placed == [Chunk(mem, bytes / GRANULE)] + state.free
      ensures Ascending(placed, 0, tcm_heap.Length) && Linked(FreeList, tcm_heap[..], placed)
      ensures Insert(state.free, Chunk(mem, bytes / GRANULE)) == JoinAt(placed, 0)
      ensures forall c :: 0 <= c < tcm_heap.Length && c != mem ==> tcm_heap[c] == old(tcm_heap[c])
    {
      ghost var fs, before, head := state.free, tcm_heap[..], FreeList;
      CanonicalAscending(fs, 0, 0, tcm_heap.Length);
      tcm_heap[mem] := MemChunk(FreeList, bytes);
      FreeList := mem;
      LinkedFrame(head, before, tcm_heap[..], fs, mem + 1);
      placed := [Chunk(mem, bytes / GRANULE)] + fs;
      assert placed[1..] == fs;
    }

    /** The block goes behind chunk i, or into it. */
    method PlaceAfter(below: int, mem: nat, bytes: int, ghost i: nat) returns (prev: int, ghost placed: seq<Chunk>, ghost at: nat)
      requires mem < tcm_heap.Length && bytes > 0 && bytes % GRANULE == 0
      requires Canonical(state.free, 0, tcm_heap.Length) && Linked(FreeList, tcm_heap[..], state.free)
      requires i < |state.free| && below == state.free[i].start < mem
      requires i + 1 < |state.free| ==> mem < state.free[i + 1].start
      modifies tcm_heap
      ensures at < |placed| && Ascending(placed, 0, tcm_heap.Length)
      ensures Linked(FreeList, tcm_heap[..], placed) && prev == placed[at].start
      ensures var fs, b := state.free, Chunk(mem, bytes / GRANULE);
              if fs[i].End() == mem then placed == MergedAt(fs, b, i) && at == i else placed == PlacedAt(fs, b, i) && at == i + 1
      ensures prev == mem || Free(state.free, prev)
      ensures forall c :: 0 <= c < tcm_heap.Length && c != mem && !Free(state.free, c) ==>
                            tcm_heap[c] == old(tcm_heap[c])
    {
      ghost var fs, b, before, head := state.free, Chunk(mem, bytes / GRANULE), tcm_heap[..], FreeList;
      prev := below;
      CanonicalAscending(fs, 0, 0, tcm_heap.Length);
      StartFree(fs, 0, tcm_heap.Length, i);
      LinkedAt(head, before, fs, i);
      if prev + tcm_heap[prev].size / GRANULE == mem {
        tcm_heap[prev] := tcm_heap[prev].(size := tcm_heap[prev].size + bytes);
        LinkedMerge(head, before, fs, b, i, tcm_heap[..], 0);
        placed, at := MergedAt(fs, b, i), i;
      } else {
        tcm_heap[mem] := MemChunk(tcm_heap[prev].next, bytes);
        tcm_heap[prev] := tcm_heap[prev].(next := mem);
        LinkedPlace(head, before, fs, b, i, tcm_heap[..], 0);
        prev, placed, at := mem, PlacedAt(fs, b, i), i + 1;
      }
    }

    /** Walks to the last chunk that starts below the block. */
    method Below(mem: int) returns (prev: int, ghost i: nat)
      requires Linked(FreeList, tcm_heap[..], state.free)
      requires FreeList != NULL && FreeList < mem
      requires !Free(state.free, mem) && Canonical(state.free, 0, tcm_heap.Length)
      ensures i < |state.free| && prev == state.free[i].start < mem
      ensures i + 1 < |state.free| ==> mem < state.free[i + 1].start
    {
      prev, i := FreeList, 0;
      Sorted(state.free, 0, tcm_heap.Length);
      while tcm_heap[prev].next < mem && tcm_heap[prev].next != NULL
        invariant i < |state.free| && prev == state.free[i].start < mem
        invariant Linked(prev, tcm_heap[..], state.free[i..])
        decreases |state.free| - i
      {
        assert state.free[i..][1..] == state.free[i + 1..];
        prev, i := tcm_heap[prev].next, i + 1;
      }
      assert state.free[i..][1..] == state.free[i + 1..];
      if i + 1 < |state.free| && state.free[i + 1].Has(mem) {
        FreeAt(state.free, i + 1, mem);
      }
    }

    /** Merges the chunk at prev with the next one if they touch. */
    method JoinNext(prev: int, ghost placed: seq<Chunk>, ghost at: nat)
      requires at < |placed| && Ascending(placed, 0, tcm_heap.Length) && Linked(FreeList, tcm_heap[..], placed)
      requires prev == placed[at].start
      modifies tcm_heap
      ensures Linked(FreeList, tcm_heap[..], JoinAt(placed, at))
      ensures forall c :: 0 <= c < tcm_heap.Length && c != prev ==> tcm_heap[c] == old(tcm_heap[c])
    {
      ghost var before := tcm_heap[..];
      LinkedAt(FreeList, before, placed, at);
      var next := tcm_heap[prev].next;
      if prev + tcm_heap[prev].size / GRANULE == next {
        tcm_heap[prev] := MemChunk(tcm_heap[next].next, tcm_heap[prev].size + tcm_heap[next].size);
        LinkedJoin(FreeList, before, placed, at, tcm_heap[..], 0);
      } else {
        NoJoin(placed, at);
      }
    }

    /** Total free bytes. */
    method FreeSpace() returns (free_mem: int)
      requires Valid()
      modifies this, tcm_heap
      ensures Valid() && g_heap_inited && state == old(state)
      ensures free_mem == GRANULE * TotalLen(state.free)
      ensures free_mem + GRANULE * TotalLen(state.live) == GRANULE * tcm_heap.Length
    {
      if !g_heap_inited { Init(); }
      free_mem := 0;
      var chunk := FreeList;
      ghost var rest := state.free;
      while chunk != NULL
        invariant Linked(chunk, tcm_heap[..], rest)
        invariant free_mem + GRANULE * TotalLen(rest) == GRANULE * TotalLen(state.free)
        decreases |rest|
      {
        free_mem := free_mem + tcm_heap[chunk].size;
        chunk := tcm_heap[chunk].next;
        rest := rest[1..];
      }
    }
  
    /** A client may write anything into a granule of a live block. */
    method ClientWrite(a: nat, v: MemChunk)
      requires Valid() && a < tcm_heap.Length && Free(state.live, a)
      modifies tcm_heap
      ensures Valid() && state == old(state)
      ensures tcm_heap[..] == old(tcm_heap[..])[a := v]
    {
      if g_heap_inited {
        LinkedAway(FreeList, tcm_heap[..], tcm_heap[..][a := v], state.free, 0, tcm_heap.Length, a);
      }
      tcm_heap[a] := v;
      assert tcm_heap[..] == old(tcm_heap[..])[a := v];
    }

    /** Keeps the size of a live block in its first granule. */
    method StoreSize(a: nat, size: int)
      requires Valid() && a < tcm_heap.Length && Free(state.live, a)
      modifies tcm_heap
      ensures Valid() && state == old(state) && tcm_heap[a].next == size
      ensures forall c :: 0 <= c < tcm_heap.Length && c != a ==> tcm_heap[c] == old(tcm_heap[c])
    {
      ClientWrite(a, tcm_heap[a].(next := size));
    }

    /** Pointers of the malloc interface count 4-byte words: granule g starts at word 2 * g, the requested
        size is kept in that word (it overlays `next`), and the caller gets the word after it. */
    method Malloc(size: int) returns (mem: int)
      requires Valid() && -INT_MAX - 1 <= size && size + 4 <= INT_MAX && (Requestable(size + 4) || state.free == [])
      modifies this, tcm_heap
      ensures Valid()
      ensures !Requestable(size + 4) ==> mem == NULL && state == old(state)
      ensures Requestable(size + 4) ==>
                && state == Step(old(state), Alloc(Granules(size + 4)))
                && match FirstFit(old(state).free, Granules(size + 4))
                   case None => mem == NULL
                   case Some(b) => b.start < tcm_heap.Length && mem == 2 * b.start + 1
                                   && tcm_heap[b.start].next == size + 4
      ensures Requestable(size + 4) ==>
                forall c :: 0 <= c < tcm_heap.Length && Free(old(state).live, c) ==> tcm_heap[c] == old(tcm_heap[c])
    {
      ghost var s, n := state, tcm_heap.Length;
      assert Requestable(size + 4) ==> Granules(size + 4) > 0 by {
        RequestExact(size + 4);
      }
      mem := AllocMem(size + 4);
      if mem != NULL {
        BlockLive(s, n, Granules(size + 4));
        StoreSize(mem, size + 4);
        mem := 2 * mem + 1;
      }
    }

    /** Releases a block by the size stored in front of it; NULL is ignored. */
    method FreePtr(mem: int, ghost index: nat)
      requires Valid()
      requires mem != NULL ==>
                 && 0 < mem && mem % 2 == 1 && mem / 2 < tcm_heap.Length && index < |state.live|
                 && Requestable(tcm_heap[mem / 2].next)
                 && state.live[index] == Chunk(mem / 2, Granules(tcm_heap[mem / 2].next))
      modifies this, tcm_heap
      ensures Valid()
      ensures state == if mem == NULL then old(state) else Step(old(state), Release(index))
      ensures forall c :: 0 <= c < tcm_heap.Length && Free(state.live, c) ==> tcm_heap[c] == old(tcm_heap[c])
    {
      if mem != NULL {
        FreeMem(mem / 2, tcm_heap[mem / 2].next, index);
      }
    }
  }
}
