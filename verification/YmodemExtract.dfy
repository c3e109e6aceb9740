/** The 8711B YMODEM receiver's data path: cuts an OTA image out of a file that arrives in blocks,
    keeping the image's first 8 bytes (the signature) apart and writing the rest to flash. */
module YmodemExtract {
  import opened YmodemBlocks
  import opened Wrappers
  import opened Sequences

  type byte = x: int | 0 <= x < 256

  const TWO_TO_THE_32: int := 0x1_0000_0000
  const SIG: nat := 8

  /** Offset and ImgLen of the target image, as the file header gives them. */
  datatype ImgHdr = ImgHdr(offset: nat, len: nat) {
    function End(): nat { offset + len }
  }

  /** The statics of the data path. Flash cells are relative to the image address; a cell is in the map
      once it has been programmed. */
  datatype Extractor = Extractor(
    fileOffset: nat, flashOffset: nat, writeLen: nat,
    sigFlag: bool, sigCnt: nat, signature: seq<byte>, flash: map<int, byte>)

  const RESET: Extractor := Extractor(0, 0, 0, false, 0, seq(SIG + 1, _ => 0), map[])

  /** dst with src copied over it from position at on. */
  function CopyAt(dst: seq<byte>, at: nat, src: seq<byte>): (r: seq<byte>)
    requires at + |src| <= |dst|
    ensures |r| == |dst|
  {
    dst[..at] + src + dst[at + |src|..]
  }

  /** Flash after data is programmed from cell at on. */
  function Program(flash: map<int, byte>, at: nat, data: seq<byte>): (r: map<int, byte>)
    ensures forall i :: i in r <==> i in flash || at <= i < at + |data|
    ensures forall i :: i in r ==> r[i] == if at <= i < at + |data| then data[i - at] else flash[i]
    decreases |data|
  {
    if data == [] then flash else Program(flash[at := data[0]], at + 1, data[1..])
  }

  predicate WellFormed(x: Extractor)
  {
    && |x.signature| == SIG + 1
    && x.sigCnt <= SIG
    && (forall i :: i in x.flash ==> i < x.flashOffset)
  }

  /** The signature part of a step: the next k bytes of data complete or extend the signature. */
  function TakeSignature(x: Extractor, data: seq<byte>, k: nat): Extractor
    requires WellFormed(x) && k <= |data| && x.sigCnt + k <= SIG
  {
    x.(signature := CopyAt(x.signature, x.sigCnt, data[..k]), flashOffset := x.flashOffset + k)
  }

  function Write(x: Extractor, data: seq<byte>): Extractor
  {
    x.(flash := Program(x.flash, x.flashOffset, data),
       flashOffset := x.flashOffset + |data|, writeLen := x.writeLen + |data|)
  }

  /** What a block comes down to: the state once signature bytes are taken out of it, and where in the
      block the data to write lies. */
  datatype Selection = Selection(x: Extractor, from: nat, len: nat)

  function Select(x: Extractor, h: ImgHdr, block: seq<byte>): (s: Selection)
    requires WellFormed(x) && |block| >= SIG
    ensures s.from + s.len <= |block|
  {
    var fo, next := x.fileOffset, x.(fileOffset := x.fileOffset + |block|);
    if fo <= h.offset < fo + |block| then
      var from := h.offset - fo;
      if x.sigFlag then Selection(next, from, |block| - from)
      else
        var k := if |block| - from < SIG then |block| - from else SIG;
        var y := TakeSignature(next.(sigCnt := 0), block[from..], k);
        Selection(y.(sigCnt := k, sigFlag := |block| - from >= SIG), from + k, |block| - from - k)
    else if h.offset < fo && h.End() >= fo + |block| then
      if x.sigFlag then Selection(next, 0, |block|)
      else
        var k := SIG - x.sigCnt;
        Selection(TakeSignature(next, block, k).(sigCnt := k, sigFlag := true), k, |block| - k)
    else if fo < h.End() < fo + |block| then Selection(next, 0, h.End() - fo)
    else Selection(next, 0, 0)
  }

  /** One block. */
  function Step(x: Extractor, h: ImgHdr, block: seq<byte>): Extractor
    requires WellFormed(x) && |block| >= SIG
  {
    var s := Select(x, h, block);
    Write(s.x, block[s.from..s.from + s.len])
  }

  function Run(x: Extractor, h: ImgHdr, blocks: seq<seq<byte>>): Extractor
    requires WellFormed(x) && AreBlocks(blocks)
    decreases |blocks|
  {
    if blocks == [] then x
    else
      StepWellFormed(x, h, blocks[0]);
      Run(Step(x, h, blocks[0]), h, blocks[1..])
  }

  /** Whatever the header and the blocks, no flash cell is programmed twice: every step writes from
      flashOffset on, and every programmed cell lies below it. */
  lemma StepWellFormed(x: Extractor, h: ImgHdr, block: seq<byte>)
    requires WellFormed(x) && |block| >= SIG
    ensures WellFormed(Step(x, h, block))
    ensures forall i :: i in x.flash ==> i in Step(x, h, block).flash && Step(x, h, block).flash[i] == x.flash[i]
  {
  }

  // ---------------------------------------------------------------------------------
  // What the receiver holds after a file prefix
  // ---------------------------------------------------------------------------------

  /** Number of image bytes inside a file prefix of length p. */
  function Got(h: ImgHdr, p: nat): nat
  {
    if p <= h.offset then 0 else if p < h.End() then p - h.offset else h.len
  }

  /** The image bytes inside a file prefix. */
  function Seen(h: ImgHdr, file: seq<byte>): (r: seq<byte>)
    ensures |r| == Got(h, |file|)
  {
    if |file| <= h.offset then [] else file[h.offset..h.offset + Got(h, |file|)]
  }

  /** The signature buffer and flash hold exactly these image bytes. */
  ghost predicate HoldsBytes(x: Extractor, seen: seq<byte>)
  {
    && WellFormed(x)
    && x.flashOffset == |seen|
    && x.writeLen == (if |seen| < SIG then 0 else |seen| - SIG)
    && (forall i :: 0 <= i < SIG && i < |seen| ==> x.signature[i] == seen[i])
    && x.signature[SIG] == 0
    && (forall i :: i in x.flash <==> SIG <= i < |seen|)
    && (forall i :: SIG <= i < |seen| ==> x.flash[i] == seen[i])
  }

  /** The state after a file prefix of length p that holds these image bytes. */
  ghost predicate HoldsAt(x: Extractor, h: ImgHdr, p: nat, seen: seq<byte>)
  {
    && HoldsBytes(x, seen) && |seen| == Got(h, p)
    && x.fileOffset == p
    && x.sigFlag == (|seen| >= SIG)
    && (|seen| < SIG ==> x.sigCnt == |seen|)
  }

  ghost predicate Holds(x: Extractor, h: ImgHdr, file: seq<byte>)
  {
    HoldsAt(x, h, |file|, Seen(h, file))
  }

  /** The image bytes in a block at position p. */
  function Part(h: ImgHdr, p: nat, block: seq<byte>): seq<byte>
  {
    var from := if h.offset < p then 0 else h.offset - p;
    var to := if h.End() >= p + |block| then |block| else h.End() - p;
    if from < to then block[from..to] else []
  }

  lemma SeenGrows(h: ImgHdr, file: seq<byte>, block: seq<byte>)
    ensures Seen(h, file + block) == Seen(h, file) + Part(h, |file|, block)
  {
  }

  lemma SignatureAdds(x: Extractor, seen: seq<byte>, data: seq<byte>, k: nat)
    requires HoldsBytes(x, seen) && x.sigCnt == |seen|
    requires k <= |data| && |seen| + k <= SIG
    ensures HoldsBytes(TakeSignature(x, data, k), seen + data[..k])
  {
  }

  lemma WriteAdds(x: Extractor, seen: seq<byte>, data: seq<byte>)
    requires HoldsBytes(x, seen) && (|seen| >= SIG || data == [])
    ensures HoldsBytes(Write(x, data), seen + data)
  {
  }

  lemma WriteNothing(x: Extractor)
    requires WellFormed(x)
    ensures Write(x, []) == x
  {
    assert Program(x.flash, x.flashOffset, []) == x.flash;
  }

  /** A block that starts the image, or that still owes signature bytes, lies before the image's end. */
  predicate Suits(h: ImgHdr, p: nat, len: nat)
  {
    p + len <= h.offset || Got(h, p) >= SIG || h.End() >= p + len
  }

  lemma StepHolds(x: Extractor, h: ImgHdr, file: seq<byte>, block: seq<byte>)
    requires Holds(x, h, file) && |block| >= SIG && Suits(h, |file|, |block|)
    ensures Holds(Step(x, h, block), h, file + block)
  {
    var p := |file|;
    SeenGrows(h, file, block);
    if p <= h.offset < p + |block| {
      StepStarts(x, h, p, Seen(h, file), block);
    } else if h.offset < p && h.End() >= p + |block| {
      StepInside(x, h, p, Seen(h, file), block);
    } else {
      StepOutside(x, h, p, Seen(h, file), block);
    }
  }

  lemma Rejoin(a: seq<byte>, b: seq<byte>, k: nat)
    requires k <= |b|
    ensures a + b[..k] + b[k..] == a + b
  {
  }

  lemma Tail(b: seq<byte>, from: nat, k: nat)
    requires from + k <= |b|
    ensures b[from..][k..] == b[from + k..from + k + (|b| - from - k)] && b[from..|b|] == b[from..]
  {
  }

  /** Once the selection is known, the write completes the step. */
  lemma StepWrites(x: Extractor, h: ImgHdr, p: nat, block: seq<byte>, s: Selection, seen: seq<byte>)
    requires WellFormed(x) && |block| >= SIG && Select(x, h, block) == s
    requires HoldsBytes(s.x, seen) && (|seen| >= SIG || s.len == 0)
    requires s.x.fileOffset == p + |block| && s.x.sigFlag == (|seen| >= SIG)
    requires |seen| < SIG ==> s.x.sigCnt == |seen|
    requires |seen| + s.len == Got(h, p + |block|)
    ensures HoldsAt(Step(x, h, block), h, p + |block|, seen + block[s.from..s.from + s.len])
  {
    StepIs(x, h, block, s);
    WriteHolds(s.x, h, p + |block|, seen, block[s.from..s.from + s.len]);
  }

  lemma StepIs(x: Extractor, h: ImgHdr, block: seq<byte>, s: Selection)
    requires WellFormed(x) && |block| >= SIG && Select(x, h, block) == s
    ensures Step(x, h, block) == Write(s.x, block[s.from..s.from + s.len])
  {
  }

  lemma WriteHolds(x: Extractor, h: ImgHdr, q: nat, seen: seq<byte>, data: seq<byte>)
    requires HoldsBytes(x, seen) && (|seen| >= SIG || data == [])
    requires x.fileOffset == q && x.sigFlag == (|seen| >= SIG) && (|seen| < SIG ==> x.sigCnt == |seen|)
    requires |seen| + |data| == Got(h, q)
    ensures HoldsAt(Write(x, data), h, q, seen + data)
  {
    WriteAdds(x, seen, data);
  }

  lemma StepStarts(x: Extractor, h: ImgHdr, p: nat, seen: seq<byte>, block: seq<byte>)
    requires HoldsAt(x, h, p, seen) && |block| >= SIG
    requires p <= h.offset < p + |block| <= h.End()
    ensures HoldsAt(Step(x, h, block), h, p + |block|, seen + Part(h, p, block))
  {
    var from := h.offset - p;
    var k := if |block| - from < SIG then |block| - from else SIG;
    var y := x.(fileOffset := p + |block|);
    assert seen == [] && y.(sigCnt := 0) == y;
    StepFirst(x, h, y, block, from, k);
    PartStarts(h, p, block, seen, from, k);
    WritesFirst(y, h, p, seen, block, from, k, Step(x, h, block), seen + Part(h, p, block));
  }

  lemma FirstGot(h: ImgHdr, p: nat, n: nat, from: nat)
    requires p <= h.offset < p + n <= h.End() && from == h.offset - p
    ensures Got(h, p + n) == n - from
  {
  }

  lemma WritesFirst(y: Extractor, h: ImgHdr, p: nat, seen: seq<byte>, block: seq<byte>, from: nat, k: nat,
                    z: Extractor, bytes: seq<byte>)
    requires HoldsBytes(y, seen) && y.sigCnt == 0 && seen == [] && y.fileOffset == p + |block| && |block| >= SIG
    requires p <= h.offset < p + |block| <= h.End() && from == h.offset - p
    requires k == if |block| - from < SIG then |block| - from else SIG
    requires var data := block[from..];
             var rest := block[from + k..from + k + (|data| - k)];
             && z == Write(TakeSignature(y, data, k).(sigFlag := |data| >= SIG, sigCnt := k), rest)
             && bytes == seen + data[..k] + rest
    ensures HoldsAt(z, h, p + |block|, bytes)
  {
    var data := block[from..];
    var rest := block[from + k..from + k + (|data| - k)];
    FirstGot(h, p, |block|, from);
    SignatureHolds(y, h, p + |block|, seen, data, k, |data| >= SIG, rest);
  }

  /** Some signature bytes taken, and, once there are all 8, the rest of the data written. */
  lemma SignatureHolds(y: Extractor, h: ImgHdr, q: nat, seen: seq<byte>, data: seq<byte>, k: nat, flag: bool, rest: seq<byte>)
    requires HoldsBytes(y, seen) && y.sigCnt == |seen| && y.fileOffset == q
    requires k <= |data| && |seen| + k <= SIG && flag == (|seen| + k >= SIG)
    requires !flag ==> seen == [] && rest == []
    requires |seen| + k + |rest| == Got(h, q)
    ensures HoldsAt(Write(TakeSignature(y, data, k).(sigFlag := flag, sigCnt := k), rest), h, q, seen + data[..k] + rest)
  {
    SignatureAdds(y, seen, data, k);
    FlagsOnly(TakeSignature(y, data, k), seen + data[..k], flag, k);
    WriteHolds(TakeSignature(y, data, k).(sigFlag := flag, sigCnt := k), h, q, seen + data[..k], rest);
  }

  lemma FlagsOnly(x: Extractor, seen: seq<byte>, flag: bool, k: nat)
    requires HoldsBytes(x, seen) && k <= SIG
    ensures HoldsBytes(x.(sigFlag := flag, sigCnt := k), seen)
  {
  }

  lemma StepFirst(x: Extractor, h: ImgHdr, y: Extractor, block: seq<byte>, from: nat, k: nat)
    requires WellFormed(x) && |block| >= SIG && !x.sigFlag && x.sigCnt == 0
    requires x.fileOffset <= h.offset < x.fileOffset + |block| && from == h.offset - x.fileOffset
    requires k == if |block| - from < SIG then |block| - from else SIG
    requires y == x.(fileOffset := x.fileOffset + |block|)
    ensures var data := block[from..];
            Step(x, h, block) == Write(TakeSignature(y, data, k).(sigFlag := |data| >= SIG, sigCnt := k),
                                       block[from + k..from + k + (|data| - k)])
  {
    SelectStarts(x, h, block, from, k);
    StepIs(x, h, block, Select(x, h, block));
  }

  lemma SelectIs(x: Extractor, h: ImgHdr, block: seq<byte>, y: Extractor, from: nat, k: nat)
    requires WellFormed(x) && |block| >= SIG && !x.sigFlag && y == x.(fileOffset := x.fileOffset + |block|)
    requires x.fileOffset <= h.offset < x.fileOffset + |block| && from == h.offset - x.fileOffset
    requires k == if |block[from..]| < SIG then |block[from..]| else SIG
    ensures Select(x, h, block) ==
            Selection(TakeSignature(y.(sigCnt := 0), block[from..], k).(sigCnt := k, sigFlag := |block[from..]| >= SIG),
                      from + k, |block| - from - k)
  {
  }

  lemma SelectStarts(x: Extractor, h: ImgHdr, block: seq<byte>, from: nat, k: nat)
    requires WellFormed(x) && |block| >= SIG && !x.sigFlag && x.sigCnt == 0
    requires x.fileOffset <= h.offset < x.fileOffset + |block| && from == h.offset - x.fileOffset
    requires k == if |block| - from < SIG then |block| - from else SIG
    ensures var y := TakeSignature(x.(fileOffset := x.fileOffset + |block|), block[from..], k);
            Select(x, h, block) == Selection(y.(sigFlag := |block[from..]| >= SIG, sigCnt := k), from + k, |block[from..]| - k)
  {
    assert x.(fileOffset := x.fileOffset + |block|, sigCnt := 0) == x.(fileOffset := x.fileOffset + |block|);
  }

  lemma PartStarts(h: ImgHdr, p: nat, block: seq<byte>, seen: seq<byte>, from: nat, k: nat)
    requires p <= h.offset < p + |block| <= h.End() && from == h.offset - p && from + k <= |block|
    ensures seen + block[from..][..k] + block[from + k..from + k + (|block[from..]| - k)] == seen + Part(h, p, block)
  {
    Tail(block, from, k);
    Rejoin(seen, block[from..], k);
  }

  lemma StepInside(x: Extractor, h: ImgHdr, p: nat, seen: seq<byte>, block: seq<byte>)
    requires HoldsAt(x, h, p, seen) && |block| >= SIG
    requires h.offset < p && p + |block| <= h.End()
    ensures HoldsAt(Step(x, h, block), h, p + |block|, seen + Part(h, p, block))
  {
    var y := x.(fileOffset := p + |block|);
    var k := if |seen| < SIG then SIG - |seen| else 0;
    Tail(block, 0, k);
    Rejoin(seen, block, k);
    if |seen| < SIG {
      StepCompletes(x, h, p, seen, block, k);
    } else {
      StepWrites(x, h, p, block, Selection(y, 0, |block|), seen);
    }
  }

  /** The block that completes the signature. */
  lemma StepCompletes(x: Extractor, h: ImgHdr, p: nat, seen: seq<byte>, block: seq<byte>, k: nat)
    requires HoldsAt(x, h, p, seen) && |block| >= SIG
    requires h.offset < p && p + |block| <= h.End()
    requires |seen| < SIG && k == SIG - |seen|
    requires (seen + block[..k]) + block[k..] == seen + block
    requires block[k..k + (|block| - k)] == block[k..]
    ensures HoldsAt(Step(x, h, block), h, p + |block|, seen + Part(h, p, block))
  {
    var y := x.(fileOffset := p + |block|);
    StepRest(x, h, y, block, k);
    WritesRest(y, h, p, seen, block, k, Step(x, h, block), seen + Part(h, p, block));
  }

  lemma WritesRest(y: Extractor, h: ImgHdr, p: nat, seen: seq<byte>, block: seq<byte>, k: nat, z: Extractor, bytes: seq<byte>)
    requires HoldsBytes(y, seen) && y.sigCnt == |seen| < SIG && y.fileOffset == p + |block| && |block| >= SIG
    requires h.offset < p && p + |block| <= h.End() && k == SIG - |seen| && |seen| == Got(h, p)
    requires z == Write(TakeSignature(y, block, k).(sigFlag := true, sigCnt := k), block[k..])
    requires bytes == seen + block[..k] + block[k..]
    ensures HoldsAt(z, h, p + |block|, bytes)
  {
    SignatureHolds(y, h, p + |block|, seen, block, k, true, block[k..]);
  }

  lemma StepRest(x: Extractor, h: ImgHdr, y: Extractor, block: seq<byte>, k: nat)
    requires WellFormed(x) && |block| >= SIG && !x.sigFlag && k == SIG - x.sigCnt
    requires h.offset < x.fileOffset && x.fileOffset + |block| <= h.End()
    requires y == x.(fileOffset := x.fileOffset + |block|)
    ensures Step(x, h, block) == Write(TakeSignature(y, block, k).(sigFlag := true, sigCnt := k), block[k..k + (|block| - k)])
  {
    StepIs(x, h, block, Selection(TakeSignature(y, block, k).(sigFlag := true, sigCnt := k), k, |block| - k));
  }

  lemma StepOutside(x: Extractor, h: ImgHdr, p: nat, seen: seq<byte>, block: seq<byte>)
    requires HoldsAt(x, h, p, seen) && |block| >= SIG
    requires Suits(h, p, |block|) && !(p <= h.offset < p + |block|) && (p <= h.offset || h.End() < p + |block|)
    ensures HoldsAt(Step(x, h, block), h, p + |block|, seen + Part(h, p, block))
  {
    var s := Select(x, h, block);
    WriteAdds(s.x, seen, block[s.from..s.from + s.len]);
    assert block[s.from..s.from + s.len] == Part(h, p, block);
  }

  // ---------------------------------------------------------------------------------
  // Whole files
  // ---------------------------------------------------------------------------------

  /** Every block of a file that starts at position p suits the image. */
  predicate Suitable(h: ImgHdr, p: nat, blocks: seq<seq<byte>>)
    decreases |blocks|
  {
    blocks == [] || (Suits(h, p, |blocks[0]|) && Suitable(h, p + |blocks[0]|, blocks[1..]))
  }

  /** The length check made before the signature is written. */
  predicate LengthCheck(x: Extractor, h: ImgHdr)
  {
    x.writeLen > 0 && x.writeLen == (h.len - SIG) % TWO_TO_THE_32
  }

  /** Nothing more will be written and the length check fails. */
  ghost predicate Spoiled(x: Extractor, h: ImgHdr)
  {
    WellFormed(x) && h.End() <= x.fileOffset && h.offset < x.fileOffset && !LengthCheck(x, h)
  }

  lemma StepSpoils(x: Extractor, h: ImgHdr, file: seq<byte>, block: seq<byte>)
    requires Holds(x, h, file) && IsBlock(block) && !Suits(h, |file|, |block|)
    requires h.End() < TWO_TO_THE_32
    ensures Spoiled(Step(x, h, block), h)
  {
    assert h.len < SIG ==> (h.len - SIG) % TWO_TO_THE_32 == TWO_TO_THE_32 + h.len - SIG;
    assert h.len >= SIG ==> (h.len - SIG) % TWO_TO_THE_32 == h.len - SIG;
  }

  lemma {:induction false} SpoiledStays(x: Extractor, h: ImgHdr, blocks: seq<seq<byte>>)
    requires Spoiled(x, h) && AreBlocks(blocks)
    ensures Spoiled(Run(x, h, blocks), h)
    decreases |blocks|
  {
    if blocks != [] {
      SpoiledStays(Step(x, h, blocks[0]), h, blocks[1..]);
    }
  }

  lemma {:induction false} RunHolds(x: Extractor, h: ImgHdr, file: seq<byte>, blocks: seq<seq<byte>>)
    requires Holds(x, h, file) && h.End() < TWO_TO_THE_32
    requires AreBlocks(blocks)
    ensures if Suitable(h, |file|, blocks) then Holds(Run(x, h, blocks), h, file + File(blocks))
            else Spoiled(Run(x, h, blocks), h)
    decreases |blocks|
  {
    if blocks == [] {
      assert file + File(blocks) == file;
    } else if Suits(h, |file|, |blocks[0]|) {
      StepHolds(x, h, file, blocks[0]);
      RunHolds(Step(x, h, blocks[0]), h, file + blocks[0], blocks[1..]);
      Assoc(file, blocks[0], File(blocks[1..]));
    } else {
      StepSpoils(x, h, file, blocks[0]);
      SpoiledStays(Step(x, h, blocks[0]), h, blocks[1..]);
    }
  }

  /** The signature buffer and flash as the image demands them: its first 8 bytes, and the others each
      at its own offset. */
  ghost predicate HasImage(x: Extractor, image: seq<byte>)
    requires |image| >= SIG
  {
    && x.signature == image[..SIG] + [0]
    && x.flash == Program(map[], SIG, image[SIG..])
  }

  lemma HoldsAll(x: Extractor, h: ImgHdr, file: seq<byte>)
    requires Holds(x, h, file) && h.End() <= |file| && h.len >= SIG
    ensures HasImage(x, file[h.offset..h.End()])
  {
    assert Seen(h, file) == file[h.offset..h.End()];
  }

  /** The length check passes exactly when the image is longer than its signature, lies within the file,
      and reaches the end of every block that has to supply signature bytes. */
  lemma LengthCheckExact(h: ImgHdr, blocks: seq<seq<byte>>)
    requires h.End() < TWO_TO_THE_32 && AreBlocks(blocks)
    ensures WellFormed(RESET)
    ensures var x, file := Run(RESET, h, blocks), File(blocks);
            && (LengthCheck(x, h) <==> Suitable(h, 0, blocks) && h.End() <= |file| && h.len > SIG)
            && (LengthCheck(x, h) ==> HasImage(x, file[h.offset..h.End()]))
  {
    var x, file := Run(RESET, h, blocks), File(blocks);
    ResetHolds(h);
    RunHolds(RESET, h, [], blocks);
    assert [] + file == file;
    if Suitable(h, 0, blocks) {
      HoldsCheck(x, h, file);
      if h.End() <= |file| && h.len > SIG {
        HoldsAll(x, h, file);
      }
    }
  }

  lemma ResetHolds(h: ImgHdr)
    ensures Holds(RESET, h, [])
  {
  }

  lemma HoldsCheck(x: Extractor, h: ImgHdr, file: seq<byte>)
    requires Holds(x, h, file) && h.End() < TWO_TO_THE_32
    ensures LengthCheck(x, h) <==> h.End() <= |file| && h.len > SIG
  {
    assert h.len < SIG ==> (h.len - SIG) % TWO_TO_THE_32 == TWO_TO_THE_32 + h.len - SIG;
    assert h.len >= SIG ==> (h.len - SIG) % TWO_TO_THE_32 == h.len - SIG;
  }

  /** An image window of 2048 bytes or more suits every block sequence. */
  lemma {:induction false} LongImageSuits(h: ImgHdr, p: nat, blocks: seq<seq<byte>>)
    requires h.len >= 2048 && AreBlocks(blocks)
    requires Got(h, p) >= SIG || p < h.offset + SIG
    requires Got(h, p) >= SIG || p <= h.offset || p + 1024 <= h.End()
    ensures Suitable(h, p, blocks)
    decreases |blocks|
  {
    if blocks != [] {
      LongImageSuits(h, p + |blocks[0]|, blocks[1..]);
    }
  }

  /** For every file that covers an image window of at least 2048 bytes the extraction is exact. */
  lemma ExtractsImage(h: ImgHdr, blocks: seq<seq<byte>>)
    requires 2048 <= h.len && h.End() <= |File(blocks)| < TWO_TO_THE_32
    requires AreBlocks(blocks)
    ensures WellFormed(RESET)
    ensures var x, file := Run(RESET, h, blocks), File(blocks);
            && x.writeLen == h.len - SIG
            && HasImage(x, file[h.offset..h.End()])
  {
    LongImageSuits(h, 0, blocks);
    LengthCheckExact(h, blocks);
  }

  // ---------------------------------------------------------------------------------
  // The receiver
  // ---------------------------------------------------------------------------------

  class Receiver {
    const uart_signature: array<byte>
    var flash: map<int, byte>          // cells relative to the image address
    var flash_write_len: nat
    var flash_offset: nat
    var file_offset: nat
    var IMAGE_OFFSET: nat
    var IMAGE_LEN: nat
    var hd_flags: bool
    var sig_flags: bool
    var sig_cnt: nat

    ghost function Value(): Extractor
      reads this, uart_signature
    {
      Extractor(file_offset, flash_offset, flash_write_len, sig_flags, sig_cnt, uart_signature[..], flash)
    }

    constructor ()
      ensures Value() == RESET && !hd_flags && fresh(uart_signature)
    {
      uart_signature := new byte[SIG + 1](_ => 0);
      flash, flash_write_len, flash_offset, file_offset := map[], 0, 0, 0;
      IMAGE_OFFSET, IMAGE_LEN := 0, 0;
      hd_flags, sig_flags, sig_cnt := false, false, 0;
      new;
      assert uart_signature[..] == seq(SIG + 1, _ => 0);
    }

    /** memcpy into the signature buffer. */
    method CopySignature(at: nat, src: seq<byte>)
      requires at + |src| <= uart_signature.Length
      modifies uart_signature
      ensures uart_signature[..] == CopyAt(old(uart_signature[..]), at, src)
    {
      for i := 0 to |src|
        invariant forall j :: 0 <= j < uart_signature.Length ==>
                    uart_signature[j] == if at <= j < at + i then src[j - at] else old(uart_signature[j])
      {
        uart_signature[at + i] := src[i];
      }
      assert uart_signature[..] == CopyAt(old(uart_signature[..]), at, src);
    }

    /** Programs cells that have not been programmed before. */
    method FlashStreamWrite(at: nat, data: seq<byte>)
      requires forall i :: at <= i < at + |data| ==> i !in flash
      modifies `flash
      ensures flash == Program(old(flash), at, data)
    {
      flash := Program(flash, at, data);
    }

    /** header is what the lookup of the target image header in the first block yields (None: not found),
        writeOk whether the flash driver accepts this block. Returns 0 on success, 1 on failure. */
    method DataWriteToFlash(block: seq<byte>, header: Option<ImgHdr>, writeOk: bool) returns (ret: int)
      requires WellFormed(Value()) && IsBlock(block)
      requires hd_flags ==> header == Some(ImgHdr(IMAGE_OFFSET, IMAGE_LEN))
      modifies this, uart_signature
      ensures header.None? ==> ret == 1 && Value() == old(Value())
      ensures header.Some? ==> hd_flags && ImgHdr(IMAGE_OFFSET, IMAGE_LEN) == header.value
      ensures header.Some? && writeOk ==> ret == 0
      ensures header.Some? && ret == 0 ==> Value() == Step(old(Value()), header.value, block)
      ensures header.Some? && ret != 0 ==> ret == 1 && Value() == Select(old(Value()), header.value, block).x
      ensures WellFormed(Value())
    {
      if !hd_flags {
        match header
        case None => return 1;
        case Some(h) =>
          IMAGE_LEN, IMAGE_OFFSET, hd_flags := h.len, h.offset, true;
      }
      ret := Process(block, writeOk);
    }

    /** The part after the header lookup. */
    method Process(block: seq<byte>, writeOk: bool) returns (ret: int)
      requires WellFormed(Value()) && IsBlock(block)
      modifies `flash, `flash_offset, `flash_write_len, `file_offset, `sig_flags, `sig_cnt, uart_signature
      ensures WellFormed(Value())
      ensures ret == 0 || (ret == 1 && !writeOk)
      ensures ret == 1 ==> Value() == Select(old(Value()), ImgHdr(IMAGE_OFFSET, IMAGE_LEN), block).x
      ensures ret == 0 ==> Value() == Step(old(Value()), ImgHdr(IMAGE_OFFSET, IMAGE_LEN), block)
    {
      ghost var x, h := Value(), ImgHdr(IMAGE_OFFSET, IMAGE_LEN);
      var write, buf_offset, write_len := SelectData(block);
      var data := block[buf_offset..buf_offset + write_len];
      StepIs(x, h, block, Selection(Value(), buf_offset, write_len));
      ret := FinishStep(data, write, writeOk, x, h, block);
    }

    /** Writing the selected data completes the step. */
    method FinishStep(data: seq<byte>, write: bool, writeOk: bool, ghost x: Extractor, ghost h: ImgHdr, ghost block: seq<byte>)
      returns (ret: int)
      requires WellFormed(Value()) && (!write ==> data == [])
      requires WellFormed(x) && |block| >= SIG && Step(x, h, block) == Write(Value(), data)
      modifies `flash, `flash_offset, `flash_write_len
      ensures WellFormed(Value()) && ret == (if write && !writeOk then 1 else 0)
      ensures Value() == if ret == 0 then Step(x, h, block) else old(Value())
    {
      ret := Finish(data, write, writeOk);
    }

    /** Writes the selected data, if there is something to write and the driver accepts it. */
    method Finish(data: seq<byte>, write: bool, writeOk: bool) returns (ret: int)
      requires WellFormed(Value()) && (!write ==> data == [])
      modifies `flash, `flash_offset, `flash_write_len
      ensures WellFormed(Value()) && ret == (if write && !writeOk then 1 else 0)
      ensures Value() == if ret == 0 then Write(old(Value()), data) else old(Value())
    {
      WriteNothing(Value());
      if !write {
        return 0;
      }
      if !writeOk {
        return 1;
      }
      WriteOut(data);
      return 0;
    }

    method WriteOut(data: seq<byte>)
      requires WellFormed(Value())
      modifies `flash, `flash_offset, `flash_write_len
      ensures Value() == Write(old(Value()), data) && WellFormed(Value())
    {
      FlashStreamWrite(flash_offset, data);
      flash_offset := flash_offset + |data|;
      flash_write_len := flash_write_len + |data|;
    }

    /** Chooses the part of the block to write, after moving signature bytes to their buffer. */
    method SelectData(block: seq<byte>) returns (write: bool, buf_offset: nat, write_len: nat)
      requires WellFormed(Value()) && IsBlock(block)
      modifies `file_offset, `flash_offset, `sig_flags, `sig_cnt, uart_signature
      ensures WellFormed(Value())
      ensures !write ==> write_len == 0
      ensures Selection(Value(), buf_offset, write_len)
              == Select(old(Value()), ImgHdr(IMAGE_OFFSET, IMAGE_LEN), block)
    {
      buf_offset, write_len := 0, 0;
      var len := |block|;
      if IMAGE_OFFSET >= file_offset && IMAGE_OFFSET < file_offset + len {
        write, buf_offset, write_len := SelectFirst(block);
        return;
      } else if IMAGE_OFFSET < file_offset && IMAGE_OFFSET + IMAGE_LEN >= file_offset + len {
        buf_offset, write_len := SelectInner(block);
      } else if IMAGE_OFFSET + IMAGE_LEN > file_offset && IMAGE_OFFSET + IMAGE_LEN < file_offset + len {
        buf_offset := 0;
        write_len := IMAGE_OFFSET + IMAGE_LEN - file_offset;
        file_offset := file_offset + len;
      } else {
        file_offset := file_offset + len;
        return false, 0, 0;
      }
      return true, buf_offset, write_len;
    }

    /** The block in which the image starts. */
    method SelectFirst(block: seq<byte>) returns (write: bool, buf_offset: nat, write_len: nat)
      requires WellFormed(Value()) && IsBlock(block) && file_offset <= IMAGE_OFFSET < file_offset + |block|
      modifies `file_offset, `flash_offset, `sig_flags, `sig_cnt, uart_signature
      ensures WellFormed(Value()) && (!write ==> write_len == 0)
      ensures Selection(Value(), buf_offset, write_len)
              == Select(old(Value()), ImgHdr(IMAGE_OFFSET, IMAGE_LEN), block)
    {
      ghost var x, h := Value(), ImgHdr(IMAGE_OFFSET, IMAGE_LEN);
      buf_offset := IMAGE_OFFSET - file_offset;
      write_len := |block| - buf_offset;
      file_offset := file_offset + |block|;
      ghost var y := Value();
      assert y == x.(fileOffset := x.fileOffset + |block|);
      if sig_flags {
        return true, buf_offset, write_len;
      }
      var k := FirstSignature(block[buf_offset..]);
      SelectIs(x, h, block, y, buf_offset, k);
      buf_offset := buf_offset + k;
      write_len := write_len - k;
      write := write_len != 0;
    }

    /** A block inside the image. */
    method SelectInner(block: seq<byte>) returns (buf_offset: nat, write_len: nat)
      requires WellFormed(Value()) && IsBlock(block)
      requires IMAGE_OFFSET < file_offset && IMAGE_OFFSET + IMAGE_LEN >= file_offset + |block|
      modifies `file_offset, `flash_offset, `sig_flags, `sig_cnt, uart_signature
      ensures WellFormed(Value())
      ensures Selection(Value(), buf_offset, write_len)
              == Select(old(Value()), ImgHdr(IMAGE_OFFSET, IMAGE_LEN), block)
    {
      buf_offset := 0;
      write_len := |block|;
      file_offset := file_offset + |block|;
      if !sig_flags {
        var k := RestOfSignature(block);
        buf_offset := buf_offset + k;
        write_len := write_len - k;
      }
    }

    /** The block in which the image starts: up to 8 bytes go to the signature buffer. */
    method FirstSignature(data: seq<byte>) returns (k: nat)
      requires WellFormed(Value()) && !sig_flags
      modifies `flash_offset, `sig_flags, `sig_cnt, uart_signature
      ensures k == if |data| < SIG then |data| else SIG
      ensures Value() == TakeSignature(old(Value()).(sigCnt := 0), data, k).(sigCnt := k, sigFlag := |data| >= SIG)
    {
      if |data| < SIG {
        sig_cnt := |data|;
      } else {
        sig_cnt := SIG;
        sig_flags := true;
      }
      CopySignature(0, data[..sig_cnt]);
      flash_offset := flash_offset + sig_cnt;
      k := sig_cnt;
    }

    /** A later block: it supplies the signature bytes still missing. */
    method RestOfSignature(block: seq<byte>) returns (k: nat)
      requires WellFormed(Value()) && !sig_flags && |block| >= SIG
      modifies `flash_offset, `sig_flags, `sig_cnt, uart_signature
      ensures k == SIG - old(sig_cnt)
      ensures Value() == TakeSignature(old(Value()), block, k).(sigCnt := k, sigFlag := true)
    {
      CopySignature(sig_cnt, block[..SIG - sig_cnt]);
      sig_cnt := SIG - sig_cnt;
      flash_offset := flash_offset + sig_cnt;
      sig_flags := true;
      k := sig_cnt;
    }
  }
}
