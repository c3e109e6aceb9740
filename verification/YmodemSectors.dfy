/** The YMODEM data path of the other chips: blocks go straight to flash, and a 4096-byte sector is
    erased when the running offset reaches its start. */
module YmodemSectors {
  import opened YmodemBlocks
  import opened Arithmetic
  import opened Sequences

  const SECTOR: nat := 4096
  const EMPTY_WORD: nat := 0xFFFF_FFFF

  /** A byte, as the set of its bits that are 1. */
  type byte = b: set<nat> | b <= ALL

  const ALL: set<nat> := {0, 1, 2, 3, 4, 5, 6, 7}

  /** In erased flash every bit is 1. */
  const ERASED: byte := ALL

  function Erase(flash: seq<byte>, at: nat): (r: seq<byte>)
    requires at + SECTOR <= |flash|
    ensures |r| == |flash|
    ensures forall i :: 0 <= i < |r| ==> r[i] == if at <= i < at + SECTOR then ERASED else flash[i]
  {
    seq(|flash|, i requires 0 <= i < |flash| => if at <= i < at + SECTOR then ERASED else flash[i])
  }

  /** Programming can only clear bits: those stay set that both the cell and the new byte have. */
  function Program(flash: seq<byte>, at: nat, data: seq<byte>): (r: seq<byte>)
    requires at + |data| <= |flash|
    ensures |r| == |flash|
    ensures forall i :: 0 <= i < |r| ==> r[i] == if at <= i < at + |data| then flash[i] * data[i - at] else flash[i]
  {
    seq(|flash|, i requires 0 <= i < |flash| => if at <= i < at + |data| then flash[i] * data[i - at] else flash[i])
  }

  /** Room for a block at position p, counted in whole sectors. */
  predicate Fits(flash: seq<byte>, p: nat, len: nat)
  {
    |flash| % SECTOR == 0 && p + len <= |flash|
  }

  /** The flash before a block is written at p: its sector is erased when p is the start of one. */
  function Opened(flash: seq<byte>, p: nat): (r: seq<byte>)
    requires |flash| % SECTOR == 0 && p < |flash|
    ensures |r| == |flash|
  {
    if p % SECTOR == 0 then Erase(flash, p) else flash
  }

  function Step(flash: seq<byte>, p: nat, block: seq<byte>): (r: seq<byte>)
    requires IsBlock(block) && Fits(flash, p, |block|)
    ensures |r| == |flash|
  {
    Program(Opened(flash, p), p, block)
  }

  function Run(flash: seq<byte>, p: nat, blocks: seq<seq<byte>>): (r: seq<byte>)
    requires AreBlocks(blocks) && Fits(flash, p, |File(blocks)|)
    ensures |r| == |flash|
    decreases |blocks|
  {
    if blocks == [] then flash else Run(Step(flash, p, blocks[0]), p + |blocks[0]|, blocks[1..])
  }

  /** No block crosses into a sector that it does not start. */
  predicate NoStraddle(p: nat, blocks: seq<seq<byte>>)
    decreases |blocks|
  {
    blocks == [] ||
    (p % SECTOR + |blocks[0]| <= SECTOR && NoStraddle(p + |blocks[0]|, blocks[1..]))
  }

  // ---------------------------------------------------------------------------------
  // What a transfer leaves in flash
  // ---------------------------------------------------------------------------------

  /** Some block starts the sector of cell i, before that cell is written. */
  predicate ErasedFor(p: nat, blocks: seq<seq<byte>>, i: nat)
    decreases |blocks|
  {
    blocks != [] &&
    ((p % SECTOR == 0 && p <= i < p + SECTOR) || ErasedFor(p + |blocks[0]|, blocks[1..], i))
  }

  lemma {:induction false} NotErasedLater(p: nat, blocks: seq<seq<byte>>, i: nat)
    requires i < p
    ensures !ErasedFor(p, blocks, i)
    decreases |blocks|
  {
    if blocks != [] {
      NotErasedLater(p + |blocks[0]|, blocks[1..], i);
    }
  }

  /** A cell below the running offset is never touched again. */
  lemma {:induction false} RunKeeps(flash: seq<byte>, p: nat, blocks: seq<seq<byte>>, i: nat)
    requires AreBlocks(blocks) && Fits(flash, p, |File(blocks)|) && i < p && i < |flash|
    ensures Run(flash, p, blocks)[i] == flash[i]
    decreases |blocks|
  {
    if blocks != [] {
      RunKeeps(Step(flash, p, blocks[0]), p + |blocks[0]|, blocks[1..], i);
    }
  }

  lemma FileAt(blocks: seq<seq<byte>>, k: nat)
    requires blocks != [] && k < |File(blocks)|
    ensures File(blocks)[k] == if k < |blocks[0]| then blocks[0][k] else File(blocks[1..])[k - |blocks[0]|]
  {
  }

  /** What cell i held before its byte was written. */
  function Before(flash: seq<byte>, p: nat, blocks: seq<seq<byte>>, i: nat): byte
    requires i < |flash|
  {
    if ErasedFor(p, blocks, i) then ERASED else flash[i]
  }

  /** A cell within the file is written once, over what it held before, or erased. */
  predicate WrittenOver(flash: seq<byte>, p: nat, blocks: seq<seq<byte>>, i: nat)
    requires AreBlocks(blocks) && Fits(flash, p, |File(blocks)|) && p <= i < p + |File(blocks)|
  {
    Run(flash, p, blocks)[i] == Before(flash, p, blocks, i) * File(blocks)[i - p]
  }

  /** A cell of the first block. */
  lemma FirstCell(flash: seq<byte>, p: nat, blocks: seq<seq<byte>>, i: nat)
    requires AreBlocks(blocks) && Fits(flash, p, |File(blocks)|) && blocks != [] && p <= i < p + |blocks[0]|
    ensures WrittenOver(flash, p, blocks, i)
  {
    FirstBlock(blocks);
    var q, rest := p + |blocks[0]|, blocks[1..];
    NotErasedLater(q, rest, i);
    RunKeeps(Step(flash, p, blocks[0]), q, rest, i);
    FileAt(blocks, i - p);
  }

  lemma LaterBefore(flash: seq<byte>, p: nat, blocks: seq<seq<byte>>, i: nat)
    requires AreBlocks(blocks) && blocks != [] && Fits(flash, p, |blocks[0]|) && p + |blocks[0]| <= i < |flash|
    ensures Before(Step(flash, p, blocks[0]), p + |blocks[0]|, blocks[1..], i) == Before(flash, p, blocks, i)
  {
  }

  /** A cell behind the first block. */
  lemma LaterCell(flash: seq<byte>, p: nat, blocks: seq<seq<byte>>, i: nat)
    requires AreBlocks(blocks) && blocks != [] && AreBlocks(blocks[1..]) && |File(blocks)| == |blocks[0]| + |File(blocks[1..])|
    requires Fits(flash, p, |File(blocks)|) && p + |blocks[0]| <= i < p + |File(blocks)|
    requires WrittenOver(Step(flash, p, blocks[0]), p + |blocks[0]|, blocks[1..], i)
    ensures WrittenOver(flash, p, blocks, i)
  {
    LaterBefore(flash, p, blocks, i);
    FileAt(blocks, i - p);
  }

  lemma StepFits(flash: seq<byte>, p: nat, blocks: seq<seq<byte>>)
    requires AreBlocks(blocks) && blocks != [] && Fits(flash, p, |File(blocks)|)
    ensures IsBlock(blocks[0]) && AreBlocks(blocks[1..]) && |File(blocks)| == |blocks[0]| + |File(blocks[1..])|
    ensures Fits(flash, p, |blocks[0]|) && Fits(Step(flash, p, blocks[0]), p + |blocks[0]|, |File(blocks[1..])|)
  {
    FirstBlock(blocks);
  }

  lemma {:induction false} RunCell(flash: seq<byte>, p: nat, blocks: seq<seq<byte>>, i: nat)
    requires AreBlocks(blocks) && Fits(flash, p, |File(blocks)|) && p <= i < p + |File(blocks)|
    ensures WrittenOver(flash, p, blocks, i)
    decreases |blocks|
  {
    StepFits(flash, p, blocks);
    if i < p + |blocks[0]| {
      FirstCell(flash, p, blocks, i);
    } else {
      RunCell(Step(flash, p, blocks[0]), p + |blocks[0]|, blocks[1..], i);
      LaterCell(flash, p, blocks, i);
    }
  }

  /** Cells start..start + |file| hold the file. */
  ghost predicate Holds(flash: seq<byte>, start: nat, file: seq<byte>)
  {
    && start + |file| <= |flash|
    && forall i :: 0 <= i < |file| ==> flash[start + i] == file[i]
  }

  /** The cell of byte i, erased in time or with its old contents, has all bits of that byte. */
  predicate Survives(flash: seq<byte>, start: nat, blocks: seq<seq<byte>>, i: nat)
    requires i < |File(blocks)| && start + |File(blocks)| <= |flash|
  {
    File(blocks)[i] <= Before(flash, start, blocks, start + i)
  }

  /** Whatever the flash held, the cells written equal the concatenated blocks exactly when every byte in a
      sector that no block starts finds all its bits still set. */
  lemma ImageExact(flash: seq<byte>, start: nat, blocks: seq<seq<byte>>)
    requires AreBlocks(blocks) && Fits(flash, start, |File(blocks)|)
    ensures Holds(Run(flash, start, blocks), start, File(blocks))
            <==> forall i :: 0 <= i < |File(blocks)| ==> Survives(flash, start, blocks, i)
  {
    forall i | 0 <= i < |File(blocks)| ensures CellSurvives(flash, start, blocks, i) {
      OneSurvives(flash, start, blocks, i);
    }
    var file, flash' := File(blocks), Run(flash, start, blocks);
    if Holds(flash', start, file) {
      forall i | 0 <= i < |file| ensures Survives(flash, start, blocks, i) {
        assert CellSurvives(flash, start, blocks, i) && flash'[start + i] == file[i];
      }
    } else {
      var i :| 0 <= i < |file| && flash'[start + i] != file[i];
      assert CellSurvives(flash, start, blocks, i);
    }
  }

  predicate CellSurvives(flash: seq<byte>, start: nat, blocks: seq<seq<byte>>, i: nat)
    requires AreBlocks(blocks) && Fits(flash, start, |File(blocks)|) && i < |File(blocks)|
  {
    Run(flash, start, blocks)[start + i] == File(blocks)[i] <==> Survives(flash, start, blocks, i)
  }

  lemma OneSurvives(flash: seq<byte>, start: nat, blocks: seq<seq<byte>>, i: nat)
    requires AreBlocks(blocks) && Fits(flash, start, |File(blocks)|) && i < |File(blocks)|
    ensures CellSurvives(flash, start, blocks, i)
  {
    RunCell(flash, start, blocks, start + i);
    CellWritten(flash, start, blocks, i, start + i);
    Kept(Before(flash, start, blocks, start + i), File(blocks)[i]);
  }

  lemma CellWritten(flash: seq<byte>, start: nat, blocks: seq<seq<byte>>, i: nat, cell: nat)
    requires AreBlocks(blocks) && Fits(flash, start, |File(blocks)|) && i < |File(blocks)| && cell == start + i
    requires WrittenOver(flash, start, blocks, cell)
    ensures Run(flash, start, blocks)[cell] == Before(flash, start, blocks, cell) * File(blocks)[i]
  {
    assert cell - start == i;
  }

  lemma Kept(cell: byte, b: byte)
    ensures cell * b == b <==> b <= cell
  {
  }

  // ---------------------------------------------------------------------------------
  // Blocks and sectors
  // ---------------------------------------------------------------------------------

  lemma SectorFits(p: nat, size: nat)
    requires size % SECTOR == 0 && p < size
    ensures p - p % SECTOR + SECTOR <= size
  {
  }

  lemma SameSector(p: nat, len: nat)
    requires p % SECTOR + len <= SECTOR
    ensures (p + len) % SECTOR == if p % SECTOR + len == SECTOR then 0 else p % SECTOR + len
  {
  }

  /** Without such a block every sector is erased in time, except the one that was begun before. */
  lemma {:induction false} AllErased(p: nat, blocks: seq<seq<byte>>, i: nat)
    requires NoStraddle(p, blocks) && p <= i < p + |File(blocks)|
    ensures ErasedFor(p, blocks, i) || (p % SECTOR != 0 && i < p - p % SECTOR + SECTOR)
    decreases |blocks|
  {
    var len := |blocks[0]|;
    SameSector(p, len);
    if i >= p + len {
      AllErased(p + len, blocks[1..], i);
    }
  }

  /** A block that crosses into a sector it does not start keeps that sector from being erased. */
  lemma {:induction false} StraddleFound(p: nat, blocks: seq<seq<byte>>) returns (i: nat)
    requires AreBlocks(blocks) && !NoStraddle(p, blocks)
    ensures p < i < p + |File(blocks)| && i % SECTOR == 0 && !ErasedFor(p, blocks, i)
    decreases |blocks|
  {
    FirstBlock(blocks);
    var len := |blocks[0]|;
    if p % SECTOR + len > SECTOR {
      i := NextSector(p);
      NotErasedLater(p + len, blocks[1..], i);
    } else {
      i := StraddleFound(p + len, blocks[1..]);
      if p % SECTOR == 0 {
        Between(p, i);
      }
    }
  }

  lemma NextSector(p: nat) returns (i: nat)
    ensures i == p - p % SECTOR + SECTOR && i % SECTOR == 0
  {
    i := p - p % SECTOR + SECTOR;
  }

  lemma Between(p: nat, i: nat)
    requires p % SECTOR == 0 && i % SECTOR == 0 && p < i
    ensures i >= p + SECTOR
  {
  }

  /** Every sector is erased before it is written exactly when no block crosses into a sector that it does not
      start. */
  lemma ErasedExact(start: nat, blocks: seq<seq<byte>>)
    requires AreBlocks(blocks) && start % SECTOR == 0
    ensures (forall i :: start <= i < start + |File(blocks)| ==> ErasedFor(start, blocks, i)) <==> NoStraddle(start, blocks)
  {
    if NoStraddle(start, blocks) {
      forall i | start <= i < start + |File(blocks)| ensures ErasedFor(start, blocks, i) {
        AllErased(start, blocks, i);
      }
    } else {
      var i := StraddleFound(start, blocks);
    }
  }

  /** So blocks that keep to their sectors are stored correctly over any old contents, */
  lemma AnyContents(flash: seq<byte>, start: nat, blocks: seq<seq<byte>>)
    requires AreBlocks(blocks) && Fits(flash, start, |File(blocks)|) && start % SECTOR == 0 && NoStraddle(start, blocks)
    ensures Holds(Run(flash, start, blocks), start, File(blocks))
  {
    ImageExact(flash, start, blocks);
    forall i | 0 <= i < |File(blocks)| ensures Survives(flash, start, blocks, i) {
      KeptSurvives(flash, start, blocks, i);
    }
  }

  lemma KeptSurvives(flash: seq<byte>, start: nat, blocks: seq<seq<byte>>, i: nat)
    requires start % SECTOR == 0 && NoStraddle(start, blocks)
    requires i < |File(blocks)| && start + |File(blocks)| <= |flash|
    ensures Survives(flash, start, blocks, i)
  {
    AllErased(start, blocks, start + i);
  }

  /** and blocks that do not are spoiled where the first byte of such a sector is written over zero. */
  lemma StraddleSpoils(flash: seq<byte>, start: nat, blocks: seq<seq<byte>>) returns (i: nat)
    requires AreBlocks(blocks) && Fits(flash, start, |File(blocks)|) && !NoStraddle(start, blocks)
    ensures i < |File(blocks)| && (start + i) % SECTOR == 0
    ensures flash[start + i] == {} && File(blocks)[i] != {} ==> !Holds(Run(flash, start, blocks), start, File(blocks))
  {
    i := StraddleFound(start, blocks);
    i := i - start;
    OneSurvives(flash, start, blocks, i);
    assert CellSurvives(flash, start, blocks, i);
  }

  /** Every 1024-byte block starts at a multiple of 1024. */
  predicate Aligned(p: nat, blocks: seq<seq<byte>>)
    decreases |blocks|
  {
    blocks == [] || ((|blocks[0]| == 1024 ==> p % 1024 == 0) && Aligned(p + |blocks[0]|, blocks[1..]))
  }

  /** A place that is a multiple of a block's length leaves room for the block in its sector. */
  lemma Multiples(p: nat, len: nat, n: nat)
    requires len > 0 && n * len == SECTOR && p % len == 0
    ensures p % SECTOR + len <= SECTOR
  {
    var a := p / len;
    assert p == a * len && a == a / n * n + a % n;
    MulAdd(a / n * n, a % n, len);
    Regroup(a / n, n, len);
    MulMonotone(a % n, n - 1, len);
    MulAdd(n - 1, 1, len);
    DivModUnique(p, SECTOR, a / n, a % n * len);
  }

  lemma Regroup(a: nat, n: nat, len: nat)
    ensures a * n * len == a * (n * len)
  {
  }

  lemma {:induction false} AlignedNoStraddle(p: nat, blocks: seq<seq<byte>>)
    requires AreBlocks(blocks) && Aligned(p, blocks) && p % 128 == 0
    ensures NoStraddle(p, blocks)
    decreases |blocks|
  {
    if blocks != [] {
      if |blocks[0]| == 128 {
        Multiples(p, 128, 32);
      } else {
        Multiples(p, 1024, 4);
      }
      AlignedNoStraddle(p + |blocks[0]|, blocks[1..]);
    }
  }

  lemma FirstBlock(blocks: seq<seq<byte>>)
    requires blocks != [] && AreBlocks(blocks)
    ensures IsBlock(blocks[0]) && AreBlocks(blocks[1..])
    ensures |File(blocks)| == |blocks[0]| + |File(blocks[1..])|
  {
  }

  /** The rest of a transfer leads to the same flash and offset as the whole. */
  ghost predicate Remains(flash: seq<byte>, p: nat, rest: seq<seq<byte>>, flash0: seq<byte>, p0: nat, blocks: seq<seq<byte>>)
  {
    && AreBlocks(rest) && Fits(flash, p, |File(rest)|) && AreBlocks(blocks) && Fits(flash0, p0, |File(blocks)|)
    && p + |File(rest)| == p0 + |File(blocks)| && Run(flash, p, rest) == Run(flash0, p0, blocks)
  }

  lemma RemainsLess(flash: seq<byte>, p: nat, rest: seq<seq<byte>>, flash0: seq<byte>, p0: nat, blocks: seq<seq<byte>>)
    requires Remains(flash, p, rest, flash0, p0, blocks) && rest != []
    ensures IsBlock(rest[0]) && Fits(flash, p, |rest[0]|)
    ensures Remains(Step(flash, p, rest[0]), p + |rest[0]|, rest[1..], flash0, p0, blocks)
  {
    StepFits(flash, p, rest);
  }

  lemma NothingRemains(flash: seq<byte>, p: nat, flash0: seq<byte>, p0: nat, blocks: seq<seq<byte>>)
    requires Remains(flash, p, [], flash0, p0, blocks)
    ensures flash == Run(flash0, p0, blocks) && p == p0 + |File(blocks)|
  {
  }

  /** The address of a sector, as images have; IMAGE_TWO, 0x80000, is one. */
  type SectorAddress = a: nat | a % SECTOR == 0

  /** Erasing at an address erases the sector that contains it; cells are counted from the image on. */
  function EraseAt(flash: seq<byte>, image: SectorAddress, address: nat): seq<byte>
    requires |flash| % SECTOR == 0 && image <= address < image + |flash|
  {
    SectorFits(address, image + |flash|);
    Erase(flash, address - address % SECTOR - image)
  }

  lemma EraseAtStart(flash: seq<byte>, image: SectorAddress, p: nat)
    requires |flash| % SECTOR == 0 && p < |flash| && p % SECTOR == 0
    ensures EraseAt(flash, image, image + p) == Opened(flash, p)
  {
    SectorSum(image, p);
    EraseFrom(flash, image, image + p, p);
  }

  lemma SectorSum(a: nat, b: nat)
    requires a % SECTOR == 0 && b % SECTOR == 0
    ensures (a + b) % SECTOR == 0
  {
  }

  lemma EraseFrom(flash: seq<byte>, image: SectorAddress, address: nat, p: nat)
    requires |flash| % SECTOR == 0 && p < |flash| && address == image + p
    requires address % SECTOR == 0 && p % SECTOR == 0
    ensures EraseAt(flash, image, address) == Opened(flash, p)
  {
    assert address - address % SECTOR - image == p;
  }

  class Writer {
    var flash: seq<byte>      // cells from the image address on
    var data: nat             // the word at OFFSET_DATA, outside the image
    var offset: nat           // never reset between transfers
    const image_address: SectorAddress

    constructor (old_flash: seq<byte>, word: nat, address: SectorAddress)
      ensures flash == old_flash && data == word && image_address == address && offset == 0
    {
      flash, data, offset := old_flash, word, 0;
      image_address := address;
    }

    method FlashEraseSector(address: nat)
      requires |flash| % SECTOR == 0 && image_address <= address < image_address + |flash|
      modifies `flash
      ensures flash == EraseAt(old(flash), image_address, address)
    {
      flash := EraseAt(flash, image_address, address);
    }

    method FlashStreamWrite(address: nat, block: seq<byte>)
      requires image_address <= address && address + |block| <= image_address + |flash|
      modifies `flash
      ensures flash == Program(old(flash), address - image_address, block)
    {
      flash := Program(flash, address - image_address, block);
    }

    /** A sector is erased when the running offset reaches it. */
    method EraseReached()
      requires |flash| % SECTOR == 0 && offset < |flash|
      modifies `flash
      ensures flash == Opened(old(flash), offset)
    {
      if offset == 0 || offset % SECTOR == 0 {
        EraseAtStart(flash, image_address, offset);
        FlashEraseSector(image_address + offset);
      }
    }

    method DataWriteToFlash(block: seq<byte>) returns (ret: int)
      requires IsBlock(block) && Fits(flash, offset, |block|)
      modifies this
      ensures ret == 0 && offset == old(offset) + |block|
      ensures flash == Step(old(flash), old(offset), block)
      ensures data == if old(data) == EMPTY_WORD then image_address else old(data)
    {
      if data == EMPTY_WORD {
        data := image_address;
      }
      EraseReached();
      FlashStreamWrite(image_address + offset, block);
      offset := offset + |block|;
      ret := 0;
    }

    /** The next block of a transfer. */
    method ReceiveNext(rest: seq<seq<byte>>, ghost flash0: seq<byte>, ghost p0: nat, ghost blocks: seq<seq<byte>>)
      returns (left: seq<seq<byte>>)
      requires rest != [] && Remains(flash, offset, rest, flash0, p0, blocks)
      modifies this
      ensures left == rest[1..] && Remains(flash, offset, left, flash0, p0, blocks)
      ensures data == if old(data) == EMPTY_WORD then image_address else old(data)
    {
      RemainsLess(flash, offset, rest, flash0, p0, blocks);
      var r := DataWriteToFlash(rest[0]);
      left := rest[1..];
    }

    /** A whole transfer, block by block. */
    method Receive(blocks: seq<seq<byte>>)
      requires AreBlocks(blocks) && Fits(flash, offset, |File(blocks)|)
      modifies this
      ensures offset == old(offset) + |File(blocks)|
      ensures flash == Run(old(flash), old(offset), blocks)
      ensures data == if old(data) == EMPTY_WORD && blocks != [] then image_address else old(data)
    {
      var rest := blocks;
      while rest != []
        invariant Remains(flash, offset, rest, old(flash), old(offset), blocks)
        invariant data == if old(data) == EMPTY_WORD && |rest| < |blocks| then image_address else old(data)
        invariant |rest| <= |blocks| && (|rest| == |blocks| ==> rest == blocks)
        decreases |rest|
      {
        rest := ReceiveNext(rest, old(flash), old(offset), blocks);
      }
      NothingRemains(flash, offset, old(flash), old(offset), blocks);
    }
  }
}
