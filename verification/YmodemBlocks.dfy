/** Files as they arrive over YMODEM: a sequence of blocks of 128 or 1024 bytes, whatever bytes are taken to be. */
module YmodemBlocks {

  predicate IsBlock<T>(b: seq<T>)
  {
    |b| == 128 || |b| == 1024
  }

  predicate AreBlocks<T>(blocks: seq<seq<T>>)
  {
    blocks == [] || (IsBlock(blocks[0]) && AreBlocks(blocks[1..]))
  }

  function File<T>(blocks: seq<seq<T>>): seq<T>
  {
    if blocks == [] then [] else blocks[0] + File(blocks[1..])
  }
}
