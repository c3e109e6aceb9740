# Verified models of the SDK's algorithmic cores

This project models, in Dafny, the self-contained algorithms of the Ameba SDK and proves what they are for:
the TCM heap allocator, the cJSON library, the XML library, the YMODEM receiver's data path and block check,
CMSIS-RTOS pools, mail queues and the thread-signal map, the UART socket's receive ring, and the 64-by-32
division. `dafny verify dfyconfig.toml` checks everything.

Where the C code updates state in place, the model is a class or a method over an array, and the method's
postcondition ties its effect to a specification function; the properties are then proved about that function.

* **TcmHeap** – the free list kept inside the memory it manages, as an array of chunk headers. It refines a
  canonical list of chunks, which in turn is determined by the set of free granules alone.
* **Json, JsonPasses, JsonSafety, JsonRoundTrip, JsonMinify, JsonMinified, JsonStrings** – JSON text: printers, parser,
  the in-place minifier, and the two passes over strings, with an independent UTF-8 decoder.
* **JsonNumbers, JsonGrammar, JsonLayout, JsonComments** – the same text described from outside: what numerals are worth,
  which texts the parser accepts, where formatted output breaks lines, and where comments may stand.
* **JsonHeap, JsonTree, JsonReaders, JsonItems, JsonNames, JsonDuplicate** – cJSON trees in memory. Memory maps addresses
  to blocks, `Free` demands that its block is allocated, and a *shape* lists the blocks a tree owns. A
  reference item owns neither its children nor its string; a reader follows its pointers all the same.
* **JsonDocs, JsonPrinter, JsonFill, JsonParser** – printing from those trees, with buffers of the length the source
  adds up, and parsing into them, where an item is linked first and filled in after.
* **XmlTree, XmlDump, XmlParse, XmlReader, XmlPath** – XML text: size, dump, parser with prefixes and attributes, and
  path queries.
* **XmlText, XmlSearch, XmlSoup, XmlRoundTrip, XmlProlog, XmlLayout** – documents as they may be written, what parsing
  makes of them, and where formatted output breaks lines.
* **XmlNodes, XmlSurgery, XmlGrow, XmlBuild, XmlWrite** – XML trees in memory with parent, child and sibling links:
  adding, deleting, copying, reading a document into nodes, and sizing and dumping it from them.
* **YmodemBlocks, YmodemExtract, YmodemSectors, YmodemCrc** – the two flash writers and the block check.
* **MailQueue, SignalMap, UartRing, Div64** – the rest.
* **Shapes, Sequences, Arithmetic, Wrappers** – what several of the others use.

## What the code does where one might expect otherwise

Each of these is the code's behaviour, kept in the model, with its exact condition proved.

* `_freertos_modular64` truncates its base to 32 bits, so it is n mod base for all n exactly when the base fits
  32 bits (`ModularExact`).
* A size that rounds to a negative one makes every chunk look big enough: `tcm_heap_allocmem` then enlarges the first
  chunk, and the list stays sound exactly for requestable sizes or when nothing is free (`AllocMem`).
* The two passes of `parse_string` treat the characters behind `\u` differently, so a quote among them ends the first
  but not the second, which then writes more than the first has counted (`TornOverflows`). They stop at the same place
  exactly when `Agree` holds (`PassesAgree`), and a text whose escapes are complete never leads out of bounds
  (`CleanTextSafe`). The parser's methods demand a text on which both passes stay in bounds, no more.
* The minifier runs past the end of a text that is one literal without a closing quote, although the parser reads such
  a text. Every other text with complete escapes that the parser reads it handles, without changing its value
  (`MinifyReads`, `OpenNotMinified`).
* `/*/` is a whole comment for the minifier, because the star that opens it also closes it (`BlockGone`).
* In an empty object the formatting printer puts the closing brace one tab too far left (`PrintIsPretty`).
* The parser takes a minus sign alone, digits behind one leading zero, and an exponent without digits (`NumeralRead`).
* A full receive ring whose read index is the last slot drops all 1024 unread bytes on the next byte, not one
  (`ArriveWindow`).
* `osPoolAlloc` retries slot 0 instead of going around, so it can fail with a slot free (`PickFailsExactly`,
  `PickIncomplete`).
* The block check reports an all-zero block as 2 without looking at the check bytes (`BurstRejected`). In checksum
  mode it does not clear the sum, so a correct checksum is accepted exactly when it is 0 (`ChecksumModeExact`).
* The image extractor's length check passes exactly when no block that has to supply signature bytes reaches
  past the image (`LengthCheckExact`); images of 2048 bytes or more always satisfy that (`ExtractsImage`).
* The other chips' writer does not erase a sector that a block crosses into (`ErasedExact`). What is written there is
  stored exactly when every byte finds all its bits still set (`ImageExact`). The writer's offset is never reset.
* A parsed XML element ends at the first end tag of its name, so a tree comes back from its text exactly when no
  element is inside another of the same name and prefix (`DocumentRoundTrip`, `NestedIsLost`).
* An element written short, as `<a/>`, has no end tag, so it may stand inside an element of its own name
  (`WrittenRoundTrip`). A start tag that no end tag follows is passed over (`UnclosedSkipped`).
* `xml_dump_tree_ex` computes the size for level 1 but dumps from level `new_line`; the text fits exactly when
  that level is at most 1, or there is no spacing, or the root has no child element (`RoomExact`).
* Adding or replacing by name gives back the item's old name before it copies the new one, so the new name must not be
  the item's own name string; the model demands exactly that (`AddItemToObject`, `ReplaceItemInObject`).
* A negative position counts as 0 in cJSON's array operations, and replacing at a position that does not exist
  leaves the new item with the caller (`Walk`, `ReplaceItemInArray`).

## Model

| member | source | states |
|---|---|---|
| TcmHeap.RequestExact | component/os/os_dep/tcm_heap.c:17 | rounding in 32-bit arithmetic yields a positive whole number of granules that holds the request exactly for the requests from -7 to INT_MAX - 7; every other int rounds to a negative size |
| TcmHeap.CanonicalUnique | component/os/os_dep/tcm_heap.c:160-212 | two sorted, disjoint, non-touching chunk lists with the same free granules are equal |
| TcmHeap.NoFitNoRun | component/os/os_dep/tcm_heap.c:97-132 | first fit fails exactly when no contiguous run of that many granules is free |
| TcmHeap.FirstFitExact | component/os/os_dep/tcm_heap.c:97-124 | the block handed out is the end of the lowest stretch of free granules that is long enough, and no other block is |
| TcmHeap.CutFree | component/os/os_dep/tcm_heap.c:97-124 | a block handed out was free inside the heap, and exactly its granules stop being free |
| TcmHeap.CutCanonical | component/os/os_dep/tcm_heap.c:97-124 | cutting a block keeps the list canonical and its total smaller by exactly the block |
| TcmHeap.InsertFree | component/os/os_dep/tcm_heap.c:160-212 | returning a block makes exactly its granules free in addition |
| TcmHeap.InsertCanonical | component/os/os_dep/tcm_heap.c:160-212 | returning a block that is not free, with merging on both sides, keeps the list canonical: no two chunks touch |
| TcmHeap.RunKeepsInv | component/os/os_dep/tcm_heap.c:81-219 | over any run of allocations and releases of live blocks the list stays canonical, live blocks stay disjoint, a granule is free exactly when no live block holds it, and sizes add up |
| TcmHeap.ReachableComplete | component/os/os_dep/tcm_heap.c:81-132 | in every reachable state an allocation fails exactly when no contiguous run of granules is clear of live blocks, and free plus live granules make up the heap |
| TcmHeap.HistoryIndependent | component/os/os_dep/tcm_heap.c:134-219 | the free list depends only on which granules are live, not on the history |
| TcmHeap.AllReturned | component/os/os_dep/tcm_heap.c:134-219 | whatever the order of releases, once nothing is live the list is the single initial chunk |
| TcmHeap.AllocReleaseRestores | component/os/os_dep/tcm_heap.c:81-219 | allocating and releasing the same block restores the identical list |
| TcmHeap.ReleasesCommute | component/os/os_dep/tcm_heap.c:134-219 | two releases in either order give the same state |
| TcmHeap.Heap.Init | component/os/os_dep/tcm_heap.c:33-54 | the heap becomes one chunk of the whole buffer |
| TcmHeap.Heap.AllocMem | component/os/os_dep/tcm_heap.c:71-133 | for a requestable size the walk over the headers in memory does the specified allocation step, returns the block's address or NULL, and writes no live granule; any other int enlarges the first chunk, so the list stays sound exactly for requestable sizes or when nothing is free |
| TcmHeap.Heap.FreeMem | component/os/os_dep/tcm_heap.c:136-219 | releasing does the specified step on the headers in memory and writes no granule that stays live |
| TcmHeap.Heap.FreeSpace | component/os/os_dep/tcm_heap.c:221-237 | the sum over the list; with the live blocks it is the heap size |
| TcmHeap.Heap.Malloc | component/os/os_dep/tcm_heap.c:243-253 | a block with room for the size word, which is stored in front of the caller's pointer; NULL when there is none |
| TcmHeap.Heap.FreePtr | component/os/os_dep/tcm_heap.c:281-289 | releases the block the stored size describes; NULL is ignored |
| Div64.DivRem | component/os/freertos/freertos_service.c:37-68 | the exact quotient and remainder for every 64-bit dividend and non-zero 32-bit base, no word overflowing |
| Div64.PreReduction | component/os/freertos/freertos_service.c:44-50 | the product of the reduction fits 32 bits and the dividend left is below base * 2^32 |
| Div64.DoublingFits | component/os/freertos/freertos_service.c:52-55 | the doubled base and bit stay within 64 bits |
| Div64.Modular64 | component/os/freertos/freertos_service.c:503-516 | n modulo the base truncated to 32 bits |
| Div64.ModularExact | component/os/freertos/freertos_service.c:503-516 | that is n mod base for every n exactly when the base fits 32 bits |
| UartRing.ArriveWindow | component/common/utilities/uart_socket.c:46-53 | a ring with room appends the byte; a full one drops its oldest byte, or all of them when the read index is the last slot |
| UartRing.RunKeepsInv | component/common/utilities/uart_socket.c:37-284 | in every run the unread window is, in order, a suffix of all bytes received, and what was delivered is among the bytes before it |
| UartRing.RunInOrder | component/common/utilities/uart_socket.c:37-284 | in every run the bytes delivered followed by the window are, in order, a subsequence of the bytes received |
| UartRing.CompleteExact | component/common/utilities/uart_socket.c:37-284 | bytes delivered followed by the window are the whole history exactly when no byte arrived while 1024 were unread |
| UartRing.UartSocket.Irq | component/common/utilities/uart_socket.c:41-54 | the handler's receive branch does the specified step on buffer and indices |
| UartRing.UartSocket.ReadInto | component/common/utilities/uart_socket.c:239-284 | a read returns the oldest unread bytes, as many as asked for and there, or -1 for size 0 |
| YmodemExtract.StepWellFormed | component/common/utilities/uart_ymodem.c:470-518 | whatever the blocks, no flash cell is programmed twice |
| YmodemExtract.LengthCheckExact | component/common/utilities/uart_ymodem.c:470-530 | the length check passes exactly when the window suits the blocks, lies in the file and is longer than 8; then signature and flash hold the image |
| YmodemExtract.ExtractsImage | component/common/utilities/uart_ymodem.c:470-530 | for every file that covers a window of at least 2048 bytes, in blocks of 128 and 1024, the first 8 image bytes are in the signature buffer, the others at their offsets in flash, and the length written is ImgLen - 8 |
| YmodemExtract.Receiver.DataWriteToFlash | component/common/utilities/uart_ymodem.c:419-519 | one block does the specified step on offsets, flags, signature buffer and flash; without a header nothing changes; when the driver fails, only the selection of the data has happened |
| YmodemSectors.ImageExact | component/common/utilities/uart_ymodem.c:571-585 | with programming that clears bits, over any old contents, the cells written equal the concatenated blocks exactly when every byte's bits are still set in its cell, erased in time or not |
| YmodemSectors.ErasedExact | component/common/utilities/uart_ymodem.c:571-573 | every cell is erased before it is written exactly when no block crosses into a sector it does not start |
| YmodemSectors.AnyContents | component/common/utilities/uart_ymodem.c:571-585 | blocks that do not are stored correctly over any old contents |
| YmodemSectors.StraddleSpoils | component/common/utilities/uart_ymodem.c:571-585 | blocks that do are spoiled at a sector's first cell, if it was zero and a bit of the new byte is not |
| YmodemSectors.AlignedNoStraddle | component/common/utilities/uart_ymodem.c:570-585 | blocks whose 1024-byte members start at multiples of 1024 never do |
| YmodemSectors.Writer.Receive | component/common/utilities/uart_ymodem.c:555-588 | a transfer, block by block, yields the specified flash, advances the offset by the file length, and stores the image address in an empty word at OFFSET_DATA |
| YmodemCrc.CrcIsRemainder | component/common/utilities/uart_ymodem.c:368-380 | the CRC register is the remainder of schoolbook long division of message * x^16 by x^16 + x^12 + x^5 + 1, whose 17 coefficients are written out |
| YmodemCrc.MultipleExact | component/common/utilities/uart_ymodem.c:368-380 | long division leaves nothing exactly for the multiples of the divisor |
| YmodemCrc.CrcMultiple | component/common/utilities/uart_ymodem.c:368-380 | the register is empty after a message exactly when the message is a multiple of x^16 + x^12 + x^5 + 1 |
| YmodemCrc.PolyValue | component/common/utilities/uart_ymodem.c:374 | the polynomial added in the loop is the number 0x1021 |
| YmodemCrc.WordValues | component/common/utilities/uart_ymodem.c:370-386 | the shifts and masks of the loop on bit strings are those of 32-bit numbers |
| YmodemCrc.CrcLinear | component/common/utilities/uart_ymodem.c:368-380 | the remainder is XOR-linear in register and message |
| YmodemCrc.CodewordExact | component/common/utilities/uart_ymodem.c:368-386 | message and check bits leave remainder 0 exactly when the check bits are the CRC |
| YmodemCrc.BurstDetected | component/common/utilities/uart_ymodem.c:368-386 | a codeword hit by an error burst within 16 bits no longer leaves remainder 0 |
| YmodemCrc.CrcCheck | component/common/utilities/uart_ymodem.c:334-402 | the nested loops over 32-bit words compute the verdict: 2 for all-zero data, 0 if the check bytes fit, 1 and the error flag otherwise; a check byte that timed out turns 0 into 1 |
| YmodemCrc.AcceptExact | component/common/utilities/uart_ymodem.c:353-387 | in CRC mode a block is accepted exactly when it is not all zero and data and check bytes together are a multiple of x^16 + x^12 + x^5 + 1 |
| YmodemCrc.BurstRejected | component/common/utilities/uart_ymodem.c:353-387 | a sent block hit by one burst within 16 bits is rejected, unless its data became all zero, which yields 2 |
| YmodemCrc.ChecksumModeExact | component/common/utilities/uart_ymodem.c:388-399 | in checksum mode the sender's checksum is accepted exactly when it is 0 |
| MailQueue.PickFailsExactly | component/os/freertos/cmsis_os.c:996-1008 | an allocation fails exactly when slot 0 and every slot from the current index on are taken |
| MailQueue.PickExact | component/os/freertos/cmsis_os.c:996-1008 | a slot is picked exactly when it is the least free one from the current index on, or it is slot 0 and free and all from the current index on are taken |
| MailQueue.PickIncomplete | component/os/freertos/cmsis_os.c:996-1008 | in a fresh queue of any size, after all slots were allocated and one between the first and the last was freed, the next allocation fails |
| MailQueue.AddressOfSlot | component/os/freertos/cmsis_os.c:1002-1005 | slot 0 is at the start of the area, each slot follows the one before, addresses and slots correspond one to one, and blocks do not overlap |
| MailQueue.Conservation | component/os/freertos/cmsis_os.c:1193-1216 | queued, held and delivered mails are as many as the marked slots, at most queue_sz; so the queue has room while an unposted mail is held |
| MailQueue.PutKeepsInv | component/os/freertos/cmsis_os.c:1300-1309 | posting a held mail finds room and appends it |
| MailQueue.RunSafe | component/os/freertos/cmsis_os.c:1177-1378 | over every correct run mails come out in the order they were posted, no slot is in two places, and counts are conserved |
| MailQueue.OsPool.Alloc | component/os/freertos/cmsis_os.c:982-1018 | marks the picked slot and returns its address, or returns NULL and changes nothing |
| MailQueue.OsPool.Free | component/os/freertos/cmsis_os.c:1040-1083 | unmarks the slot of a block address; null, low, misaligned and high addresses are rejected |
| MailQueue.OsMailQ.Put | component/os/freertos/cmsis_os.c:1288-1313 | posting a held mail succeeds and does the specified step |
| MailQueue.OsMailQ.Get | component/os/freertos/cmsis_os.c:1322-1358 | yields the oldest queued mail as osEventMail, or else no mail and osOK or osEventTimeout as the mode and the wait tell |
| MailQueue.OsMailQ.Free | component/os/freertos/cmsis_os.c:1369-1378 | frees a held or delivered mail's slot; any pointer that is no mail or a free one is accepted and changes nothing |
| SignalMap.AddLookup | component/os/freertos/cmsis_os.c:67-93 | a thread registered without having an entry is found with its event group; other threads are unaffected |
| SignalMap.RemoveLookup | component/os/freertos/cmsis_os.c:191-221 | removing a thread leaves every other thread's lookup alone |
| SignalMap.AddRemove | component/os/freertos/cmsis_os.c:67-243 | adding a new thread and removing it restores the list |
| SignalMap.FirstAt | component/os/freertos/cmsis_os.c:126-243 | with several entries for a thread, lookup and removal concern the first |
| SignalMap.ThreadSignalMap.Add | component/os/freertos/cmsis_os.c:67-93 | the relinked list is the old one with the entry at the end, head and tail included |
| SignalMap.ThreadSignalMap.Find | component/os/freertos/cmsis_os.c:126-174 | the event group of the first entry for the thread, or null |
| SignalMap.ThreadSignalMap.RemoveThread | component/os/freertos/cmsis_os.c:176-243 | takes the first entry for the thread out of the list, at the head, the tail or between, and returns its event group |
| Json.IntRoundTrip | component/common/utilities/cJSON.c:98-118 | reading the decimal text of an integer gives it back, and stops where the text ends; this is about the source for magnitudes up to 2^53, which doubles hold exactly |
| JsonNumbers.NumeralRead | component/common/utilities/cJSON.c:98-118 | sign, digits, fraction and exponent, in every form the source takes, are read as the amount that decimal places and powers of ten give them, and reading stops behind them |
| JsonNumbers.NumeralFound | component/common/utilities/cJSON.c:98-118 | whatever is read as a number is written in one of those forms and worth what was read |
| JsonGrammar.AcceptExact | component/common/utilities/cJSON.c:255-441 | for every text with complete escapes that is no open literal: it is read as a whole exactly when it is a value as it can be written, in words, numerals, literals, brackets, commas, colons and spaces spelled out as a grammar, and what is read is that value |
| JsonGrammar.ValueReads | component/common/utilities/cJSON.c:289-441 | every value so written is read, whatever follows that continues no number |
| JsonPasses.StringRoundTrip | component/common/utilities/cJSON.c:157-250 | reading a printed NUL-free string gives it back, whatever follows, and never leaves the text or the buffer |
| JsonRoundTrip.RoundTrip | component/common/utilities/cJSON.c:266-285 | for every tree of nulls, booleans, int32 numbers, NUL-free strings, arrays and objects with named members, parsing the output of either printer up to the terminator gives the same tree |
| JsonRoundTrip.ValueRoundTrip | component/common/utilities/cJSON.c:289-509 | the same for a value at any depth, inside any text that does not continue a number |
| JsonLayout.PrintIsPretty | component/common/utilities/cJSON.c:350-509 | formatted output is unformatted output laid out token by token: each member and each closing brace on a line of its own behind as many tabs as brackets are open, a tab behind a colon, a blank between array entries, and nothing else |
| JsonMinify.MinifyPrint | component/common/utilities/cJSON.c:583-598 | minifying formatted or unformatted output yields the unformatted output |
| JsonComments.LineGone | component/common/utilities/cJSON.c:592 | a comment from // to the end of its line goes, also at the very end of the text |
| JsonComments.BlockGone | component/common/utilities/cJSON.c:593 | a comment from /* to the first */ goes; one that does not end leads out of the text |
| JsonComments.SlashKept | component/common/utilities/cJSON.c:592-595 | a slash that starts no comment stays |
| JsonComments.CommentsGone | component/common/utilities/cJSON.c:583-598 | whatever blanks and comments stand between the tokens of a text, minifying leaves the tokens |
| JsonComments.ValueCommented | component/common/utilities/cJSON.c:583-598 | so a value printed without blanks is restored from any such text of it |
| JsonMinify.MinifyInPlace | component/common/utilities/cJSON.c:583-598 | the buffer is overwritten with its minified text and a terminator; writes never pass the read position and nothing behind the old text changes |
| JsonMinified.MinifyReads | component/common/utilities/cJSON.c:583-598 | for every text with complete escapes that the parser accepts as a whole, however it is spaced, minifying stays in the text exactly when that is not an unclosed literal, and then the parser reads the same value from what is left |
| JsonMinified.OpenNotMinified | component/common/utilities/cJSON.c:583-598 | the one kind of text that the parser reads and the minifier leaves: a single literal without its closing quote |
| JsonStrings.PrintStringPtr | component/common/utilities/cJSON.c:217-250 | the buffer the counting pass sizes is filled exactly with the quoted, escaped string and its terminator |
| JsonPasses.PassesAgree | component/common/utilities/cJSON.c:162-209 | for every text, both passes stay inside it and stop at the same place exactly when the characters behind each \u let the first pass cross them in step, or fall back into step behind them |
| JsonPasses.AgreeSafe | component/common/utilities/cJSON.c:162-209 | then the second pass writes no more than the first counted |
| JsonPasses.TornOverflows | component/common/utilities/cJSON.c:162-185 | an escape whose third digit is a quote: the first pass counts 3, the second copies all that follows up to the next quote, which is in bounds exactly for three characters or fewer |
| JsonPasses.QuoteOverflows | component/common/utilities/cJSON.c:157-209 | an input of that kind on which parsing leaves the buffer |
| JsonPasses.LoneBackslash | component/common/utilities/cJSON.c:162-209 | a text that ends in a backslash leads both passes over its terminator |
| JsonPasses.WellEscapedSafe | component/common/utilities/cJSON.c:157-209 | with four hexadecimal digits behind every \u and no backslash at the end, all stays in bounds, with a closing quote or without |
| JsonSafety.CleanTextSafe | component/common/utilities/cJSON.c:266-280 | a whole text with complete escapes is read or rejected without leaving the text or a buffer, however malformed it is otherwise |
| JsonPasses.PrintedWellEscaped | component/common/utilities/cJSON.c:217-250 | what the printer writes is well escaped |
| JsonStrings.ParseStringAt | component/common/utilities/cJSON.c:157-214 | on every text on which they stay in bounds, the two passes store the unescaped string, terminated, in the buffer the first one sized, and stop behind the closing quote or at the end; a text that is no string is rejected |
| JsonStrings.EscapesDecode | component/common/utilities/cJSON.c:142-214 | a literal with any non-zero Unicode scalar values, each as itself in UTF-8, as one of the eight escapes with a letter or mark of their own, or as \u and its hexadecimal digits of either case, with surrogate pairs above U+FFFF, is read in bounds, as UTF-8 that a decoder after RFC 3629 reads as exactly those values |
| JsonStrings.EscapeForm | component/common/utilities/cJSON.c:217-250 | a character is printed as itself unless it is a control character, a quote or a backslash, and then by its own escape or by four digits |
| JsonStrings.UnitDropped | component/common/utilities/cJSON.c:180-187 | an escape for NUL or a low surrogate, or for a high one with no other escape behind it, writes nothing |
| JsonStrings.PairDropped | component/common/utilities/cJSON.c:186-191 | a high surrogate goes together with the escape behind it when that is no low surrogate |
| JsonStrings.NotDigits | component/common/utilities/cJSON.c:142-154 | four characters that are not all digits count as NUL |
| JsonTree.UnlinkPtrs | component/common/utilities/cJSON.c:527-528 | unlinking an item leaves next and prev mutually inverse on the list without it |
| JsonTree.SwapPtrs | component/common/utilities/cJSON.c:534-536 | so does putting another item in its place |
| JsonTree.AppendTree | component/common/utilities/cJSON.c:517-522 | appending refines appending to the sequence of children, and what the container owns grows by what the item owns |
| JsonTree.DetachTree | component/common/utilities/cJSON.c:527-528 | detaching refines removing from the sequence of children; container and item then share no block |
| JsonTree.ReplaceTree | component/common/utilities/cJSON.c:534-536 | replacing refines updating the sequence of children |
| JsonItems.Memory.Delete | component/common/utilities/cJSON.c:83-95 | releases each block the chain of items owns exactly once and no other block; what is reached only through a reference stays |
| JsonItems.Memory.AddItemToArray | component/common/utilities/cJSON.c:517-522 | the walk to the last item and the link writes do the append; the null item is ignored |
| JsonItems.Memory.DetachItemFromArray | component/common/utilities/cJSON.c:527-528 | detaches the item at a position, a negative one meaning 0, or returns null and changes nothing |
| JsonItems.Memory.DeleteItemFromArray | component/common/utilities/cJSON.c:529 | removes the item and releases exactly the blocks it owned |
| JsonItems.Memory.ReplaceItemInArray | component/common/utilities/cJSON.c:534-536 | exchanges the item and releases exactly the blocks the old one owned |
| JsonItems.Memory.AddItemReferenceToArray | component/common/utilities/cJSON.c:518-524 | appends a new item that owns nothing but itself, and is read as the borrowed item without its name unless that item contains the container or reads its children |
| JsonItems.Memory.BorrowAndDelete | component/common/utilities/cJSON.h:105 | adding an item by reference and deleting the container gives back all the container's memory and leaves the item and everything it owns as it was |
| JsonNames.StrCaseCmp | component/common/utilities/cJSON.c:41-46 | two strings compare equal exactly when they are as long and each pair of characters is equal or one of the 26 pairs of letters |
| JsonNames.LowerExact | component/common/utilities/cJSON.c:41-46 | tolower identifies those pairs and nothing else |
| JsonNames.Find | component/common/utilities/cJSON.c:514 | the first member whose name is equal in any case of letters |
| JsonNames.DetachItemFromObject | component/common/utilities/cJSON.c:530 | detaches that member and leaves every block outside the container alone, or changes nothing |
| JsonNames.AddItemToObject | component/common/utilities/cJSON.c:523 | gives back the item's old name, stores a copy of the new one, and appends; no block outside container and item changes, and the null item is ignored; the new name is any string but the item's own name |
| JsonNames.ReplaceItemInObject | component/common/utilities/cJSON.c:537 | renames the new item and puts it in the place of the first member with that name, releasing exactly the old item's blocks and the new item's old name, or changes nothing; for every name string but the item's own |
| JsonReaders.OwnedReadable | component/common/utilities/cJSON.c:289-301 | a tree in which no item is a reference is read, along its pointers, as the tree it owns |
| JsonDuplicate.Duplicate | component/common/utilities/cJSON.c:555-581 | a copy in new memory without any reference, so that it owns everything it reaches, also where the original goes through references; it is read as the original was, and existing memory is unchanged |
| JsonPrinter.ComposeArray | component/common/utilities/cJSON.c:381-404 | a buffer of the length added up is never overrun, and ends up holding the entries in brackets, with commas between them |
| JsonPrinter.ComposeObject | component/common/utilities/cJSON.c:481-508 | the same for the members of an object, names, tabs and new lines included |
| JsonPrinter.EmptyObject | component/common/utilities/cJSON.c:453-461 | an empty object fits its buffer at every depth |
| JsonPrinter.PrintText | component/common/utilities/cJSON.c:304-319 | for an item in memory that stands for a value, walking the links yields the text of that value |
| JsonParser.ParseNumber | component/common/utilities/cJSON.c:98-117 | the loops read sign, digits, fraction and exponent as specified, and stop behind them |
| JsonParser.ReadString | component/common/utilities/cJSON.c:157-214 | both passes over a literal; what is kept is the C string in the buffer |
| JsonParser.ParseValue | component/common/utilities/cJSON.c:289-301 | on every text that can be read in bounds: fills in an item that is already linked, without references and touching no other old block; if the text is well-formed the item then stands for its value |
| JsonParser.ParseArray | component/common/utilities/cJSON.c:322-347 | links a new item behind the last one for every entry, and fails exactly when the text does |
| JsonParser.ParseObject | component/common/utilities/cJSON.c:408-441 | the same for members with their names |
| JsonParser.ParseWithOpts | component/common/utilities/cJSON.c:266-280 | on every text that can be read in bounds: when it is rejected all memory is as it was before; otherwise a new tree, with no reference in it, is read along its pointers as the value |
| JsonParser.PrintAndParse | component/common/utilities/cJSON.c:266-285 | printing an item in either format and parsing the text builds a separate tree that is read, along its pointers, as the same value |
| JsonParser.PrintParsePrint | component/common/utilities/cJSON.c:266-286 | printing that tree again, in either format, gives the text the first item has in that format, and the first item still stands for its value |
| JsonFill.KidFilled | component/common/utilities/cJSON.c:331-341 | filling in a linked child leaves the container a well-linked tree whose contents change at that child only |
| XmlWrite.TreeSize | component/common/utilities/xml.c:1036-1090 | walking the links adds up the length of the dumped text, for every tree, spacing and level from 0 on; a negative level does not reach it |
| XmlDump.RoomExact | component/common/utilities/xml.c:1189-1216 | text dumped from any first level, negative ones included, fits the room computed for level 1 exactly when the level is at most 1, or there is no spacing, or no child element |
| XmlParse.FindThere | component/common/utilities/xml.c:19-47 | what the search finds is an occurrence |
| XmlParse.FindFirst | component/common/utilities/xml.c:19-47 | and no occurrence comes before it |
| XmlParse.StrStr | component/common/utilities/xml.c:19-47 | the scanning loops find the first occurrence |
| XmlText.Stripped | component/common/utilities/xml.c:59-90 | stripping takes the blanks at both ends and nothing else |
| XmlText.TagRead | component/common/utilities/xml.c:98-213 | a tag with or without prefix and attributes, and any blanks in front of the attributes and at its end, is read as what it was written for |
| XmlReader.ReadHead | component/common/utilities/xml.c:98-213 | the searches for colon, blank and namespace yield prefix, name and attributes as specified, or stop where the source would follow a null pointer |
| XmlReader.ParseStep | component/common/utilities/xml.c:315-421 | what one round of the parsing loop leaves to be built, for each kind of tag |
| XmlRoundTrip.UnclosedSkipped | component/common/utilities/xml.c:391-393 | a start tag that no end tag of its name follows changes nothing |
| XmlRoundTrip.BlankEnd | component/common/utilities/xml.c:370-375 | an end tag with a blank behind the name counts when there is none without |
| XmlSoup.EndFound | component/common/utilities/xml.c:370-375 | the first end tag without a blank ends an element, also behind one with a blank |
| XmlGrow.GrowsInKid | component/common/utilities/xml.c:386-389 | when a linked child grows in new memory, so does the tree it is in, which says the same but for that child |
| XmlBuild.ParseDoc | component/common/utilities/xml.c:307-427 | the parsing loop, with each element created, linked and then filled, grows the root it is given in new memory, or makes the first element the root; the tree then stands for what the document says |
| XmlBuild.ParseDocument | component/common/utilities/xml.c:498-529 | reading a document builds new nodes that stand for it and changes no other node |
| XmlText.PrefixedTags | component/common/utilities/xml.c:1102-1167 | in a dumped tag the prefix stands between the bracket and the first colon, the name from there to a blank or the end, and the attributes behind the blank |
| XmlText.BareTags | component/common/utilities/xml.c:1119-1174 | without a prefix the name follows the bracket |
| XmlWrite.DumpNode | component/common/utilities/xml.c:1092-1174 | walking the links appends exactly the text of the tree to the buffer, at any level |
| XmlLayout.DumpIsLaid | component/common/utilities/xml.c:1092-1174 | formatted text is unformatted text laid out tag by tag: a start tag below the root on a line of its own, an end tag on one when it follows another end tag, indented by the open elements, and nothing else |
| XmlWrite.DumpTree | component/common/utilities/xml.c:1176-1187 | sizing and dumping the linked nodes fills a new buffer exactly with the text and its terminator |
| XmlWrite.DumpTreeEx | component/common/utilities/xml.c:1189-1219 | the new buffer holds prolog, new line and text, within the size computed over the nodes, for every first level that fits |
| XmlWrite.DumpAndParse | component/common/utilities/xml.c:307-427 | dumping a plain tree in memory, prefixes and attributes included, and parsing what is in the buffer builds a separate tree, with the same contents exactly when no element is inside another of the same name |
| XmlWrite.DumpExAndParse | component/common/utilities/xml.c:1189-1219 | the same for formatted text, at every first level and spacing that fits |
| XmlWrite.ParseWritten | component/common/utilities/xml.c:498-529 | reading a document as it may be written builds a separate tree, which is the one written exactly when no end tag is inside an element of its name |
| XmlSearch.SkipTree | component/common/utilities/xml.c:370-375 | an end tag of a name that a written tree has no end tag for is found behind it |
| XmlSearch.InTree | component/common/utilities/xml.c:370-375 | an end tag of a name that it has one for is found inside it |
| XmlSoup.FewNamed | component/common/utilities/xml.c:307-427 | text without the end tag of a name yields no more elements of that name than are written short in it |
| XmlProlog.WrittenRoundTrip | component/common/utilities/xml.c:307-529 | for every document as it may be written, with instructions and comments in front, other text between elements, blanks in tags, and any elements without content written short, parsing gives back the tree exactly when no end tag is inside an element of its name |
| XmlProlog.DocumentRoundTrip | component/common/utilities/xml.c:498-529 | for every tree of plain elements with prefixes and attributes, dumped at any level and spacing, parsing the text gives back the tree exactly when no element is inside another of the same name |
| XmlProlog.PrologRoundTrip | component/common/utilities/xml.c:498-529 | the same behind any instructions and comments |
| XmlProlog.NestedIsLost | component/common/utilities/xml.c:370-375 | a nested pair of the same name that does not come back |
| XmlPath.QueryExact | component/common/utilities/xml.c:810-1007 | a query yields, in document order and each once, exactly the elements whose chain of prefixes and names from the root is the path |
| XmlPath.PathWritten | component/common/utilities/xml.c:815-870 | a path is taken apart into the prefixes and names it was written for |
| XmlPath.PathCount | component/common/utilities/xml.c:810-902 | the counting pass counts those elements |
| XmlPath.FindInto | component/common/utilities/xml.c:913-1002 | the collecting pass appends them, within the array the count sized |
| XmlPath.FindPath | component/common/utilities/xml.c:1009-1026 | the node set is filled exactly |
| XmlNodes.UnhookPtrs | component/common/utilities/xml.c:685-696 | taking a node out leaves its siblings doubly linked without it, and the parent at the new first child |
| XmlSurgery.HookTree | component/common/utilities/xml.c:701-719 | appending refines appending to the sequence of children; the tree then holds the nodes of both and no other node changes |
| XmlSurgery.HookNew | component/common/utilities/xml.c:634-641 | a new tree hooked to a new tree is a new tree with the same parts |
| XmlSurgery.XmlMemory.AddChild | component/common/utilities/xml.c:701-719 | the walk to the last child and the link writes do the append; a text node takes no child |
| XmlSurgery.XmlMemory.DeleteTree | component/common/utilities/xml.c:665-699 | releases exactly the nodes of the tree, each once; the parent keeps its other children in order, and nothing else changes |
| XmlSurgery.XmlMemory.ClearChild | component/common/utilities/xml.c:721-725 | releases exactly what is below a node, which is left without children |
| XmlSurgery.XmlMemory.CopyTree | component/common/utilities/xml.c:622-663 | a copy in new memory with the same contents; existing nodes are unchanged |

## Left out

- FreeRTOS, lwIP, serial and flash drivers: not part of this model. A bounded FIFO stands for the FreeRTOS queue and
  a map or sequence of cells for flash.
- Critical sections, semaphores, timing and task switches: operations that the source runs in critical sections, and
  the UART interrupt and read, are atomic steps.
- Allocation failure in cJSON, XML and the pools: allocation always succeeds.
- TcmHeap.Heap.Malloc: demands a size that is requestable with the size word, or that nothing is free, because the
  source otherwise writes behind the enlarged chunk.
- TcmHeap.Heap.FreeMem: does not repeat the lazy initialisation, because a block can be live only after it; the
  `_DEBUG` fills and `tcm_heap_calloc`'s memset are left out too.
- YmodemCrc.CrcCheck: takes the check bytes, and whether one timed out, as parameters, because the serial driver is not
  part of this model.
- YmodemExtract.Receiver.DataWriteToFlash: takes the image header as a parameter, because parsing it is a lookup in a
  vendor structure, and starts from erased flash, because the erasing at the first block is a library function too;
  offsets do not wrap at 4 GiB.
- YmodemSectors.Writer.DataWriteToFlash: leaves out the branch under `flags`, which is never taken in the source.
- YmodemSectors.Writer: demands an image address that is a multiple of 4096, as the SDK's is, because erasing at any
  other would reach in front of the image.
- MailQueue.OsMailQ.Free: demands a mail that is not still queued, because freeing one lets two senders share it.
- MailQueue.OsMailQ.Alloc: does one attempt; the source repeats it after a delay.
- MailQueue.OsPool: the pool address area is a number; blocks have no contents.
- JsonRoundTrip.RoundTrip: does not cover numbers outside int32, because their text depends on floating-point
  rounding; doubles are modelled as reals, on which int32 values are exact.
- Json.ParseString: the outcome on text that leads out of bounds is one value, `Unsafe`; what the source does then is
  undefined. `MinifyInPlace` likewise demands a text whose literals and comments end.
- JsonParser.ParseValue: takes a pointer into the text as the text from there on.
- JsonParser.ParseNumber: computes in reals, and its exponent, an int in the source, does not overflow.
- JsonPrinter.PrintText: keeps finished texts as values, so their release is not modelled; numbers are printed by a
  function in place of sprintf.
- JsonItems.Memory.AddItemToArray: demands a container that is not itself a reference, because appending to one would
  change a list somebody else owns.
- JsonDuplicate.Duplicate: allocates an item's strings before the item, not after it.
- XmlParse.ParseTag: does not keep the namespace string, which is the part of the attributes between two quotes; it does
  model where the search for the quotes would follow a null pointer.
- XmlBuild.ParseDoc: says nothing of memory where the source would follow a null pointer, as for a tag without a name.
- XmlProlog.WrittenRoundTrip: demands that a namespace in a tag is quoted, as `NamespaceRead` says, because the source
  otherwise follows a null pointer.
- SignalMap.ThreadSignalMap.RemoveThread: does not model the release of the record.
- XmlSurgery.XmlMemory: a node's strings are part of the node, so their own allocation and release are not modelled;
  the namespace string and `xml_set_text`, which exchanges one string, are left out.
- XmlPath.FindPath: represents node pointers by positions; `xml_find_element`, the same traversal with a simpler test,
  is left out.
- XmlWrite.DumpTreeEx: demands a non-negative spacing, because a negative one indexes before the source's buffer, and a
  first level that fits (`RoomExact`).
- `xml_doc_name`, `xml_parse_doc`, `xml_set_attribute`, `xml_get_attribute`: further substring searches.
