# Verified models of libarchive's hardest routines

libarchive reads and writes archives of many formats. This project models, in Dafny, the routines of it
that carry the most state and arithmetic, and proves what they promise.

| module | component |
|---|---|
| `LookAhead` | the two-level look-ahead buffer of a read filter: copy buffer, client block, volumes |
| `VolumeSeek` | seeking over several volumes through a table of cached positions |
| `SparseRead` | reading an entry's data as contiguous bytes out of sparse blocks |
| `Rar5Window` | the RAR5 decompressor's circular window: symbols, matches, delivery |
| `Rar5Filters` | the x86 and ARM address filters of RAR5 |
| `RangeEncoder` | the PPMd7 range encoder |
| `LzxBits` | the bit cache of the LZX decoder and its bulk refill |
| `ZipSearch` | the skip-table search for the zip central directory |
| `ZipExtra` | the extra field of a zip entry |
| `UstarName` | splitting a pathname over the ustar header, and its checksum |
| `Numbers` | the saturating number parser of tar, and the number printer |
| `Passphrases` | the rotation of passphrases and the retry loop that drives it |
| `PathTable` | the comparator for ISO 9660 path tables |
| `IsoTree` | accepting ISO 9660 directory records, without cycles |
| `Bytes`, `Modular` | bytes, status codes, and lemmas about remainders, shared by the others |

Routines that update an object or a buffer in place are methods of a class with the same fields, each proved
against a function on sequences; the laws are lemmas about those functions. Callbacks, allocation and the
medium are parameters: arbitrary functions, of the number of the call where one may answer differently the next
time, so that every theorem holds for every behaviour of them. In `LookAhead`, switching is a function of the volume
and allocation one of the size, which is no less: each volume is switched to, and each size asked for, at most once.

## What the proofs brought to light

Where the code does less than one would expect, it is modelled as it is; where a condition decides, the exact one is
proved.

- A seek with `SEEK_SET` or `SEEK_CUR` is refused for the last byte before any later volume
  (`VolumeSeek.RefusedExactly`, `VolumeSeek.LastByteRefused`).
- A seek with `SEEK_END` to before the start misses its target by the size of the first volume, and may report
  success (`VolumeSeek.EndTargetExactly`, `VolumeSeek.EndBeforeStart`).
- When `realloc` fails in `archive_read_add_callback_data`, the count of volumes stays one too high
  (`VolumeSeek.Reader.AddCallbackData`).
- A refused seek moves the client, though not the reader's position (`VolumeSeek.Reader.Seek`,
  `VolumeSeek.SameBytesAheadExactly`).
- Data read in small pieces can lose the hole that trailing empty blocks stand for; exactly which lists of blocks
  are safe is `SparseRead.ChunkingIsIrrelevant`.
- Bytes copied by a read that then returns an error code are lost to the caller; exactly when that happens is
  `SparseRead.NothingLostExactly`, with an example in `SparseRead.BytesLostToAnError`.
- RAR5 match distances outside 1 to the window size are taken modulo the window (`Rar5Window.DistanceHonoured`), slots
  62 and 63 give negative ones (`Rar5Window.DistanceExactly`), and a failed repeat length of -1 takes a byte back, which
  leaves the window right only by coincidence (`Rar5Window.Unpacker.Apply`, `Rar5Window.FailedRepeatBreaks`). If that
  byte was delivered already, the rest of the window is delivered a second time
  (`Rar5Window.DeliveredAgain`, `Rar5Window.Unpacker.FailAndDeliver`).
- The range encoder's renormalisation never ends once the 32-bit range is zero. For a slice no larger than its table
  that takes an empty slice or a total above the range, and a larger slice can wrap to it
  (`RangeEncoder.RenormalisesExactly`, `RangeEncoder.OversizedSliceNeverEnds`).
- A negative tar number some prefix of which is exactly 2^63 overflows the accumulator; with wrap-around and an even
  base, the digits up to there are lost (`Numbers.NeverWrapsExactly`, `Numbers.LosesWhatWasBefore`). Exactly which
  fields are parsed right all the same is `Numbers.ParsedRightExactly`.
- Reading an ISO 9660 directory can look past the bytes its look-ahead vouches for, by up to 33 bytes, when its last block is
  crowded or exactly full (`IsoTree.ReadChildren`, `IsoTree.LastBlockDecides`, `IsoTree.ReadsTooFar`).
- The experimental zip field `xl` strips the file type of a read-only MS-DOS entry together with its write
  permissions (`ZipExtra.ModeOf`).
- At most 10002 passphrases are tried, so a stored one behind them is never found (`Passphrases.StoredIsFound`,
  `Passphrases.StoredTooFarBack`).

## Model

| member | source | states |
|---|---|---|
| LookAhead.Filter.Ahead | evaluation/libarchieve/70ee6cb8268a8a52bab7a14e59a3949f05b7d0c3_4b7558e108c17de1417fb427ce0f771049e10ec5_libarchive+archive_read.c+__archive_read_filter_ahead.c:8-169 | A pure peek that ends: for every request, block size and buffer state, the stream ahead of the reader, seen as far as any later read, is unchanged, and what is buffered grows by exactly the bytes read meanwhile; nothing is read once enough is there. A pointer shows exactly the next bytes, at least as many as asked for and all there are in one stretch: all that is buffered if it is into the block of the client, all that is copied otherwise. What was copied already is shown in place, and what the block holds is shown there, without reading; a null pointer means a fatal state (a read error, or no memory for the grown buffer), an empty request on nothing, or less than the request left at the end of the last volume, whose count is reported only by the call that finds out. |
| LookAhead.Filter.SeenFarther | evaluation/libarchieve/70ee6cb8268a8a52bab7a14e59a3949f05b7d0c3_4b7558e108c17de1417fb427ce0f771049e10ec5_libarchive+archive_read.c+__archive_read_filter_ahead.c:95-97 | Bytes that go from the unread input into the buffers leave the stream the same, seen as far as any later read. |
| LookAhead.ReadThrough | evaluation/libarchieve/70ee6cb8268a8a52bab7a14e59a3949f05b7d0c3_4b7558e108c17de1417fb427ce0f771049e10ec5_libarchive+archive_read.c+__archive_read_filter_ahead.c:8-169 | Any run of peeks and consumptions, whatever the sizes, hands out the bytes of the source in order and once each. |
| LookAhead.Filter.Turn | evaluation/libarchieve/70ee6cb8268a8a52bab7a14e59a3949f05b7d0c3_4b7558e108c17de1417fb427ce0f771049e10ec5_libarchive+archive_read.c+__archive_read_filter_ahead.c:25-168 | Every turn of the loop that does not answer moves the measure (volumes left, bytes short, whether the client block is empty), even on an endless source, and keeps stream and invariant. |
| LookAhead.Filter.RollBack | evaluation/libarchieve/70ee6cb8268a8a52bab7a14e59a3949f05b7d0c3_4b7558e108c17de1417fb427ce0f771049e10ec5_libarchive+archive_read.c+__archive_read_filter_ahead.c:35-46 | Giving the copied bytes back to the client block is legal whenever the test allows it: they stand right before the client window, and the stream does not change. |
| LookAhead.ViewAllClient | evaluation/libarchieve/70ee6cb8268a8a52bab7a14e59a3949f05b7d0c3_4b7558e108c17de1417fb427ce0f771049e10ec5_libarchive+archive_read.c+__archive_read_filter_ahead.c:35-38 | The invariant behind the roll-back: if client_total covers the copied bytes, all of them are in the block just before client_next, so the two buffers together are one stretch of the block. |
| LookAhead.ViewAfterCopy | evaluation/libarchieve/70ee6cb8268a8a52bab7a14e59a3949f05b7d0c3_4b7558e108c17de1417fb427ce0f771049e10ec5_libarchive+archive_read.c+__archive_read_filter_ahead.c:161-167 | Copying from the client window keeps that invariant and the buffered bytes. |
| LookAhead.ViewAfterConsume | evaluation/libarchieve/70ee6cb8268a8a52bab7a14e59a3949f05b7d0c3_4b7558e108c17de1417fb427ce0f771049e10ec5_libarchive+archive_read.c+__archive_read_filter_ahead.c:35-43 | Consuming from the front, copied bytes first, keeps it too. |
| LookAhead.Filter.MoveForward | evaluation/libarchieve/70ee6cb8268a8a52bab7a14e59a3949f05b7d0c3_4b7558e108c17de1417fb427ce0f771049e10ec5_libarchive+archive_read.c+__archive_read_filter_ahead.c:49-56 | Sliding the copied bytes forward keeps them and leaves room for the request, or leaves the buffer to grow. |
| LookAhead.Grow | evaluation/libarchieve/70ee6cb8268a8a52bab7a14e59a3949f05b7d0c3_4b7558e108c17de1417fb427ce0f771049e10ec5_libarchive+archive_read.c+__archive_read_filter_ahead.c:112-129 | The doubling loop ends, with the first doubling that reaches the request (or the request itself for an empty buffer), and reports overflow exactly when that does not fit 64 bits. |
| LookAhead.DoubledExactly | evaluation/libarchieve/70ee6cb8268a8a52bab7a14e59a3949f05b7d0c3_4b7558e108c17de1417fb427ce0f771049e10ec5_libarchive+archive_read.c+__archive_read_filter_ahead.c:112-129 | The size is the old one times the smallest power of two that makes it enough. |
| LookAhead.Filter.EnsureCapacity | evaluation/libarchieve/70ee6cb8268a8a52bab7a14e59a3949f05b7d0c3_4b7558e108c17de1417fb427ce0f771049e10ec5_libarchive+archive_read.c+__archive_read_filter_ahead.c:107-148 | Growing to the size the doubling loop gives keeps the copied bytes, and fails exactly for overflow or a refused allocation. |
| LookAhead.Filter.CopyFromClient | evaluation/libarchieve/70ee6cb8268a8a52bab7a14e59a3949f05b7d0c3_4b7558e108c17de1417fb427ce0f771049e10ec5_libarchive+archive_read.c+__archive_read_filter_ahead.c:152-167 | The copy fills the buffer to exactly the request or takes all the client has; no byte is lost, repeated or moved. |
| LookAhead.Filter.ReadMore | evaluation/libarchieve/70ee6cb8268a8a52bab7a14e59a3949f05b7d0c3_4b7558e108c17de1417fb427ce0f771049e10ec5_libarchive+archive_read.c+__archive_read_filter_ahead.c:65-97 | A read error drops the window and is fatal; an end of file goes to the next volume or ends the input; a block is appended to the stream. |
| LookAhead.Filter.Satisfy | evaluation/libarchieve/70ee6cb8268a8a52bab7a14e59a3949f05b7d0c3_4b7558e108c17de1417fb427ce0f771049e10ec5_libarchive+archive_read.c+__archive_read_filter_ahead.c:25-47 | The two ways of answering without reading, exactly when each is taken, and with the count of all that is shown; where neither applies, nothing changes and the copy buffer is short of the request. |
| Rar5Window.RefinesWrite | evaluation/libarchieve/afaaf3ad774e5474099301f139d6bf50e88ace54_03ee2db860a5483a9ddb630256ffae59794b21be_libarchive+archive_read_support_format_rar5.c+do_uncompress_block.c:49-56 | Writing a byte at the write pointer, modulo the window, keeps slot k mod W holding byte k for the last W positions of the longer history. |
| Rar5Window.RefinesRead | evaluation/libarchieve/074152e66432227d94ecdce9bc26080029c7655c_ee645d6bbfa5d1ad769865a262fd95b398919e08_libarchive+archive_read_support_format_rar5.c+copy_string.c:20-22 | Reading `dist` back in the window reads the history `dist` back for 1 to W (W included), and at a distance congruent to it otherwise. |
| Modular.MaskIsMod | evaluation/libarchieve/074152e66432227d94ecdce9bc26080029c7655c_ee645d6bbfa5d1ad769865a262fd95b398919e08_libarchive+archive_read_support_format_rar5.c+copy_string.c:3-20 | Masking the 64-bit representation of any index, negative ones included, with a power of two minus one takes its remainder, which is what the model of the window uses. |
| Rar5Window.DistanceHonoured | evaluation/libarchieve/074152e66432227d94ecdce9bc26080029c7655c_ee645d6bbfa5d1ad769865a262fd95b398919e08_libarchive+archive_read_support_format_rar5.c+copy_string.c:18-25 | A distance is honoured by every window and history if and only if it is from 1 to the window size. |
| Rar5Window.CopyByte | evaluation/libarchieve/074152e66432227d94ecdce9bc26080029c7655c_ee645d6bbfa5d1ad769865a262fd95b398919e08_libarchive+archive_read_support_format_rar5.c+copy_string.c:11-23 | Each byte of a match equals the byte `dist` before it, inside the match as well as before it. |
| Rar5Window.CopyRepeats | evaluation/libarchieve/074152e66432227d94ecdce9bc26080029c7655c_ee645d6bbfa5d1ad769865a262fd95b398919e08_libarchive+archive_read_support_format_rar5.c+copy_string.c:11-23 | A match keeps the history and repeats its last `dist` bytes cyclically, for dist shorter than, equal to or longer than len. |
| Rar5Window.RewindExactly | evaluation/libarchieve/afaaf3ad774e5474099301f139d6bf50e88ace54_03ee2db860a5483a9ddb630256ffae59794b21be_libarchive+archive_read_support_format_rar5.c+do_uncompress_block.c:197-208 | A window stays refined by the history without its last byte if and only if that byte equals the one it was written over. |
| Rar5Window.FailedRepeatExactly | evaluation/libarchieve/afaaf3ad774e5474099301f139d6bf50e88ace54_03ee2db860a5483a9ddb630256ffae59794b21be_libarchive+archive_read_support_format_rar5.c+do_uncompress_block.c:189-208 | In any decoder state with a byte to take back, a repeat whose length could not be decoded takes it back, and the window is still refined if and only if the byte equals the one it was written over. |
| Rar5Window.FailedRepeatBreaks | evaluation/libarchieve/afaaf3ad774e5474099301f139d6bf50e88ace54_03ee2db860a5483a9ddb630256ffae59794b21be_libarchive+archive_read_support_format_rar5.c+do_uncompress_block.c:49-56 | Two symbols after which no window is refined: a literal that is not zero, then a repeat whose length could not be decoded. |
| Rar5Window.Unpacker.CopyString | evaluation/libarchieve/074152e66432227d94ecdce9bc26080029c7655c_ee645d6bbfa5d1ad769865a262fd95b398919e08_libarchive+archive_read_support_format_rar5.c+copy_string.c:1-27 | For every length: the byte-by-byte loop in the circular window is the LZ77 match on the unbounded history and keeps the refinement; a negative length leaves the window alone and moves the write pointer back. |
| Rar5Window.Unpacker.MoveBack | evaluation/libarchieve/074152e66432227d94ecdce9bc26080029c7655c_ee645d6bbfa5d1ad769865a262fd95b398919e08_libarchive+archive_read_support_format_rar5.c+copy_string.c:18-25 | Adding -1 to the write pointer takes back a byte: the window is still refined if and only if that byte equals the one it was written over, and delivery right if and only if it had not been delivered. |
| Rar5Window.Unpacker.ApplyRepeat | evaluation/libarchieve/afaaf3ad774e5474099301f139d6bf50e88ace54_03ee2db860a5483a9ddb630256ffae59794b21be_libarchive+archive_read_support_format_rar5.c+do_uncompress_block.c:189-208 | A repeat of any length, -1 for one that could not be decoded included, changes the state as specified, the last four distances being permuted; after -1 the window is refined if and only if there was a byte to take back that equals the one it was written over, and delivery is right if and only if that byte had not been delivered. |
| Rar5Window.Unpacker.Apply | evaluation/libarchieve/afaaf3ad774e5474099301f139d6bf50e88ace54_03ee2db860a5483a9ddb630256ffae59794b21be_libarchive+archive_read_support_format_rar5.c+do_uncompress_block.c:35-209 | Each kind of symbol, a failed or broken repeat included, changes history, last length and distance cache as the specification of the symbol says, gives its return code, defines a filter at the write pointer plus its offset, and moves the write pointer by the length of the match for its distance, at most one match; all but a failed repeat keep refinement and delivery, and that one exactly if it takes back cleanly and what was not delivered. |
| Rar5Window.SymbolMeans | evaluation/libarchieve/afaaf3ad774e5474099301f139d6bf50e88ace54_03ee2db860a5483a9ddb630256ffae59794b21be_libarchive+archive_read_support_format_rar5.c+do_uncompress_block.c:49-209 | What every symbol does, in terms of history, last length and the last four distances one by one: a match is one byte longer beyond a distance of 0x100, two beyond 0x2000 and three beyond 0x40000, copies from its distance and puts it in front; a repeat moves its distance to the front and those before it back by one; failures leave the rest alone. |
| Rar5Window.CodeMeans | evaluation/libarchieve/afaaf3ad774e5474099301f139d6bf50e88ace54_03ee2db860a5483a9ddb630256ffae59794b21be_libarchive+archive_read_support_format_rar5.c+do_uncompress_block.c:30-209 | Which symbols stop decoding and with which code: a match without a length or with a distance too large, and a repeat without a length slot, are fatal. |
| Rar5Window.RecentFirst | evaluation/libarchieve/afaaf3ad774e5474099301f139d6bf50e88ace54_03ee2db860a5483a9ddb630256ffae59794b21be_libarchive+archive_read_support_format_rar5.c+do_uncompress_block.c:164-203 | After any run the four cached distances are those last used, the most recent first, each as it was when used; and every use is among them, or older than all of them, or was followed by a later use of the same entry. |
| Rar5Window.DistanceComesBack | evaluation/libarchieve/afaaf3ad774e5474099301f139d6bf50e88ace54_03ee2db860a5483a9ddb630256ffae59794b21be_libarchive+archive_read_support_format_rar5.c+do_uncompress_block.c:81-150 | Every distance from 1 to 2^31 - 3, coded by its two highest bits as a slot and the rest as extra bits, is valid and decodes to itself. |
| Rar5Window.CopyComesBack | evaluation/libarchieve/afaaf3ad774e5474099301f139d6bf50e88ace54_03ee2db860a5483a9ddb630256ffae59794b21be_libarchive+archive_read_support_format_rar5.c+do_uncompress_block.c:57-170 | A copy of some length at some distance, coded as a match, decodes to exactly that copy, from any state. |
| Rar5Window.ItemsComeBack | evaluation/libarchieve/afaaf3ad774e5474099301f139d6bf50e88ace54_03ee2db860a5483a9ddb630256ffae59794b21be_libarchive+archive_read_support_format_rar5.c+do_uncompress_block.c:10-214 | So does any list of bytes and copies. |
| Rar5Window.SlotsTile | evaluation/libarchieve/afaaf3ad774e5474099301f139d6bf50e88ace54_03ee2db860a5483a9ddb630256ffae59794b21be_libarchive+archive_read_support_format_rar5.c+do_uncompress_block.c:81-93 | Each distance slot begins where the one before it ends. |
| Rar5Window.CodesAreUnique | evaluation/libarchieve/afaaf3ad774e5474099301f139d6bf50e88ace54_03ee2db860a5483a9ddb630256ffae59794b21be_libarchive+archive_read_support_format_rar5.c+do_uncompress_block.c:81-150 | Two valid codes (slot, high bits, low bits) of the same distance are the same code. |
| Rar5Window.DistanceExactly | evaluation/libarchieve/afaaf3ad774e5474099301f139d6bf50e88ace54_03ee2db860a5483a9ddb630256ffae59794b21be_libarchive+archive_read_support_format_rar5.c+do_uncompress_block.c:81-150 | The distance decoded in 32-bit int arithmetic is the coded one below 2^31 - 2, an overflow just above, and negative, unnoticed, for slots 62 and 63. |
| Rar5Window.Unpacker.DecodeNext | evaluation/libarchieve/afaaf3ad774e5474099301f139d6bf50e88ace54_03ee2db860a5483a9ddb630256ffae59794b21be_libarchive+archive_read_support_format_rar5.c+do_uncompress_block.c:30-209 | Decoding one more symbol keeps everything: the state remains what all symbols so far make of a fresh one, and the undelivered span remains shorter than the window. |
| Rar5Window.Unpacker.UncompressBlock | evaluation/libarchieve/afaaf3ad774e5474099301f139d6bf50e88ace54_03ee2db860a5483a9ddb630256ffae59794b21be_libarchive+archive_read_support_format_rar5.c+do_uncompress_block.c:10-214 | The token loop stops at half a window, at the end of the block or at the failing symbol, with its code, and keeps all invariants; so no undelivered byte is ever written over. |
| Rar5Window.Unpacker.ProcessBlock | evaluation/libarchieve/a4744f65134ed3c38be7f3241e394e75fd28d7e7_39736c43bd7374beedb372aa300ecf36c9fc4733_libarchive+archive_read_support_format_rar5.c+process_block.c:14-137 | A new block is begun only when the last one is finished, and resumed otherwise; blocks come in order. |
| Rar5Window.ProgressBlock | evaluation/libarchieve/a4744f65134ed3c38be7f3241e394e75fd28d7e7_39736c43bd7374beedb372aa300ecf36c9fc4733_libarchive+archive_read_support_format_rar5.c+process_block.c:88-93 | Going on to the next block: the symbols decoded are exactly those of the finished blocks in order. |
| Rar5Window.Unpacker.UncompressFile | evaluation/libarchieve/c9788f9b70ba930797bd114b2149d8c633d2d6cb_313bcd7ac547f7cc25945831f63507420c0874d7_libarchive+archive_read_support_format_rar5.c+do_uncompress_file.c:26-108 | The loop of the driver ends; delivery goes on to the first pending filter or the last byte decoded, what has been delivered is always exactly the history up to there, and "retry" is reported only where a filter is pending or waited for. At the end of the last block the symbols decoded are those of all the blocks, and nothing stays undelivered that was not already. |
| Rar5Window.Unpacker.ProcessBlocks | evaluation/libarchieve/c9788f9b70ba930797bd114b2149d8c633d2d6cb_313bcd7ac547f7cc25945831f63507420c0874d7_libarchive+archive_read_support_format_rar5.c+do_uncompress_file.c:32-47 | The loop over blocks that yield nothing ends: there is something to deliver, or decoding has come to the end of the last block or to a symbol that stops it. |
| Rar5Window.Unpacker.DeliverDecoded | evaluation/libarchieve/c9788f9b70ba930797bd114b2149d8c633d2d6cb_313bcd7ac547f7cc25945831f63507420c0874d7_libarchive+archive_read_support_format_rar5.c+do_uncompress_file.c:52-107 | What is decoded is delivered up to the first filter, and at least a byte of it, or nothing is and the code says why. |
| Rar5Window.Unpacker.UnpackMore | evaluation/libarchieve/c9788f9b70ba930797bd114b2149d8c633d2d6cb_313bcd7ac547f7cc25945831f63507420c0874d7_libarchive+archive_read_support_format_rar5.c+do_uncompress_file.c:26-107 | One call on a file without filters delivers more and uses up symbols, or the data has come to its end with every symbol decoded. |
| Rar5Window.Unpacker.UnpackAll | evaluation/libarchieve/c9788f9b70ba930797bd114b2149d8c633d2d6cb_313bcd7ac547f7cc25945831f63507420c0874d7_libarchive+archive_read_support_format_rar5.c+do_uncompress_file.c:6-108 | End to end: for blocks without filters whose symbols all decode, calling the driver until the end of the data delivers exactly what the symbols of all blocks decode to. |
| Rar5Window.Unpack | evaluation/libarchieve/c9788f9b70ba930797bd114b2149d8c633d2d6cb_313bcd7ac547f7cc25945831f63507420c0874d7_libarchive+archive_read_support_format_rar5.c+do_uncompress_file.c:6-108 | The whole law on a fresh decoder: for any blocks without filters whose symbols all decode, construction and calls until the end of the data deliver what the symbols of all blocks, run on zeros, make. |
| Rar5Window.UnpackItems | evaluation/libarchieve/c9788f9b70ba930797bd114b2149d8c633d2d6cb_313bcd7ac547f7cc25945831f63507420c0874d7_libarchive+archive_read_support_format_rar5.c+do_uncompress_file.c:6-108 | A file made of any bytes and copies that fit the window and the match, encoded and unpacked on a fresh decoder, is delivered byte for byte. |
| Rar5Window.Unpacker.PushData | evaluation/libarchieve/3614747af54e60229a2bf11e8f40e1b975cc9ae6_69bb9bcf6cef43b744e5baa101a8a3a78db0b00d_libarchive+archive_read_support_format_rar5.c+push_data.c:1-40 | Whatever the span that starts where delivery stands, wrapped, unwrapped or backwards, (end - begin) mod W bytes of the window are handed over, in order from its start on, around the end. |
| Rar5Window.Unpacker.PushWindowData | evaluation/libarchieve/c9788f9b70ba930797bd114b2149d8c633d2d6cb_313bcd7ac547f7cc25945831f63507420c0874d7_libarchive+archive_read_support_format_rar5.c+do_uncompress_file.c:102-104 | A span shorter than the window is delivered as exactly that stretch of the history, and delivery then stands at its end. |
| Rar5Window.DeliveredAgain | evaluation/libarchieve/3614747af54e60229a2bf11e8f40e1b975cc9ae6_69bb9bcf6cef43b744e5baa101a8a3a78db0b00d_libarchive+archive_read_support_format_rar5.c+push_data.c:16-38 | After a failed repeat has taken back a byte already delivered, the next delivery hands over the other W - 1 bytes of the window, which have all been delivered, once more. |
| Rar5Window.Unpacker.FailAndDeliver | evaluation/libarchieve/c9788f9b70ba930797bd114b2149d8c633d2d6cb_313bcd7ac547f7cc25945831f63507420c0874d7_libarchive+archive_read_support_format_rar5.c+do_uncompress_file.c:82-104 | In the driver: a failed repeat right after a delivery, with a full window of history, makes it deliver all the other W - 1 bytes of the window a second time. |
| Rar5Window.SpanWraps | evaluation/libarchieve/3614747af54e60229a2bf11e8f40e1b975cc9ae6_69bb9bcf6cef43b744e5baa101a8a3a78db0b00d_libarchive+archive_read_support_format_rar5.c+push_data.c:16-38 | For any span at all the fragment sizes computed by masking add up to (end - begin) mod W, which is the length of the span if and only if it does not run backwards and is shorter than the window. |
| Rar5Window.CircularIsHistory | evaluation/libarchieve/3614747af54e60229a2bf11e8f40e1b975cc9ae6_69bb9bcf6cef43b744e5baa101a8a3a78db0b00d_libarchive+archive_read_support_format_rar5.c+push_data.c:16-38 | Any stretch of the last W positions, around the end of the window if need be, is the same stretch of the history. |
| Rar5Window.Unpacker.InitUnpack | evaluation/libarchieve/84f7fd01b68127454fcee321086b771bdc230630_b52dd6c9e4ef7cf95c2a6ae5ab7ccac7f6d462a1_libarchive+archive_read_support_format_rar5.c+init_unpack.c:14-18 | A zeroed window refines the empty history, no distance or length is remembered, nothing is decoded or delivered and no filter is pending, so that unpacking can begin. |
| Rar5Filters.RotatesRange | evaluation/libarchieve/491386a1273538a355c8aae3aa9a35a1447baf23_b3c3c1b179d947d659b4cac89eea18517dc554a7_libarchive+archive_read_support_format_rar5.c+run_e8e9_filter.c:28-37 | Per operand, as signed numbers, the filter rotates [-offset, 2^24) down by the offset and fixes every other 32-bit value. |
| Rar5Filters.ScansExactly | evaluation/libarchieve/491386a1273538a355c8aae3aa9a35a1447baf23_b3c3c1b179d947d659b4cac89eea18517dc554a7_libarchive+archive_read_support_format_rar5.c+run_e8e9_filter.c:14-41 | For every block and position: where the scan comes to (past one byte, or past a branch and its operand), the byte stays, and behind an E8, or an E9 if extended, the signed little-endian operand from -offset to 2^24 is moved down by the offset, its position in the file modulo 2^24, in a circle; any other stays. |
| Rar5Filters.StandsOrInside | evaluation/libarchieve/491386a1273538a355c8aae3aa9a35a1447baf23_b3c3c1b179d947d659b4cac89eea18517dc554a7_libarchive+archive_read_support_format_rar5.c+run_e8e9_filter.c:14-41 | Every other position is inside an operand, so nothing else changes. |
| Rar5Filters.ToRelativeIsBijective | evaluation/libarchieve/491386a1273538a355c8aae3aa9a35a1447baf23_b3c3c1b179d947d659b4cac89eea18517dc554a7_libarchive+archive_read_support_format_rar5.c+run_e8e9_filter.c:28-37 | The operand transform is a bijection, with an explicit inverse on both sides. |
| Rar5Filters.E8E9RoundTrip | evaluation/libarchieve/491386a1273538a355c8aae3aa9a35a1447baf23_b3c3c1b179d947d659b4cac89eea18517dc554a7_libarchive+archive_read_support_format_rar5.c+run_e8e9_filter.c:14-41 | Filtering with the inverse restores every block, of every length and start, in both directions: the scan meets the same opcodes, operands being skipped. |
| Rar5Filters.Filters.RunE8E9 | evaluation/libarchieve/491386a1273538a355c8aae3aa9a35a1447baf23_b3c3c1b179d947d659b4cac89eea18517dc554a7_libarchive+archive_read_support_format_rar5.c+run_e8e9_filter.c:8-43 | The in-place loop over the circular window computes that filter of the block, and does to each position what is stated above. |
| Rar5Filters.Filters.ScanStep | evaluation/libarchieve/491386a1273538a355c8aae3aa9a35a1447baf23_b3c3c1b179d947d659b4cac89eea18517dc554a7_libarchive+archive_read_support_format_rar5.c+run_e8e9_filter.c:15-40 | One step, with its skip over the operand, produces the filtered bytes up to the new position. |
| Rar5Filters.Filters.FilterOperand | evaluation/libarchieve/491386a1273538a355c8aae3aa9a35a1447baf23_b3c3c1b179d947d659b4cac89eea18517dc554a7_libarchive+archive_read_support_format_rar5.c+run_e8e9_filter.c:22-37 | The branches on the sign bits write the rotated operand, or rightly nothing. |
| Rar5Filters.MoveBranchBack | evaluation/libarchieve/d3ae4163e1d51b1b0c039fd2140e9f3aae4c6559_4c29c07bd709587906459963e44523f067020edc_libarchive+archive_read_support_format_rar5.c+run_arm_filter.c:17-22 | Moving a 24-bit branch offset by the word index and back restores the word, and keeps the opcode byte. |
| Rar5Filters.MovesEachWord | evaluation/libarchieve/d3ae4163e1d51b1b0c039fd2140e9f3aae4c6559_4c29c07bd709587906459963e44523f067020edc_libarchive+archive_read_support_format_rar5.c+run_arm_filter.c:10-25 | For every block, start and whole word: EB on top, and the low 24 bits lose the word index modulo 2^24; any other word stays. |
| Rar5Filters.Filters.BlockIsInWindow | evaluation/libarchieve/d3ae4163e1d51b1b0c039fd2140e9f3aae4c6559_4c29c07bd709587906459963e44523f067020edc_libarchive+archive_read_support_format_rar5.c+run_arm_filter.c:5-14 | Byte i of the block is at its position modulo the window. |
| Rar5Filters.ArmRoundTrip | evaluation/libarchieve/d3ae4163e1d51b1b0c039fd2140e9f3aae4c6559_4c29c07bd709587906459963e44523f067020edc_libarchive+archive_read_support_format_rar5.c+run_arm_filter.c:10-25 | The ARM filter is inverted on every block of every length and start. |
| Rar5Filters.Filters.RunArm | evaluation/libarchieve/d3ae4163e1d51b1b0c039fd2140e9f3aae4c6559_4c29c07bd709587906459963e44523f067020edc_libarchive+archive_read_support_format_rar5.c+run_arm_filter.c:5-27 | The stride-4 loop over the circular window computes the ARM filter of the block: of each whole word with EB on top the low 24 bits written, plus the index of the word in the file, are those read, modulo 2^24, and every other byte is as before. |
| RangeEncoder.EncodedIsNested | evaluation/libarchieve/77d0d190057d0be37215135c276d515ce82b06cd_d5475620534c70cb5b9fc78b97d6206625ca9dc3_libarchive+archive_ppmd7.c+RangeEnc_Encode.c:3-9 | Encoding a valid symbol gives an interval inside the one before, up to powers of 256, with a range from 2^24 to below 2^32. |
| RangeEncoder.NarrowedIsSlice | evaluation/libarchieve/77d0d190057d0be37215135c276d515ce82b06cd_d5475620534c70cb5b9fc78b97d6206625ca9dc3_libarchive+archive_ppmd7.c+RangeEnc_Encode.c:3-4 | A number from low on is in the narrowed interval if and only if (number - low) / (range / total) is in the slice: the interval is that of the slice for any decoder. |
| RangeEncoder.StepDecodes | evaluation/libarchieve/77d0d190057d0be37215135c276d515ce82b06cd_d5475620534c70cb5b9fc78b97d6206625ca9dc3_libarchive+archive_ppmd7.c+RangeEnc_Encode.c:3-9 | With renormalising: a number of any later scale is in the interval after a symbol if and only if it was in the one before and its count is in the slice of that symbol. |
| RangeEncoder.RenormalisesExactly | evaluation/libarchieve/77d0d190057d0be37215135c276d515ce82b06cd_d5475620534c70cb5b9fc78b97d6206625ca9dc3_libarchive+archive_ppmd7.c+RangeEnc_Encode.c:3-9 | In 32 bits, the renormalising loop ends if and only if (range / total) * size is not a multiple of 2^32; for a slice no larger than its table, if and only if the slice is not empty and the total does not exceed the range. |
| RangeEncoder.LoopEndsExactly | evaluation/libarchieve/77d0d190057d0be37215135c276d515ce82b06cd_d5475620534c70cb5b9fc78b97d6206625ca9dc3_libarchive+archive_ppmd7.c+RangeEnc_Encode.c:5-9 | The loop reaches 2^24 from exactly the ranges that are not zero, after at most three turns; a zero range stays zero for ever. |
| RangeEncoder.OversizedSliceNeverEnds | evaluation/libarchieve/77d0d190057d0be37215135c276d515ce82b06cd_d5475620534c70cb5b9fc78b97d6206625ca9dc3_libarchive+archive_ppmd7.c+RangeEnc_Encode.c:3-9 | A slice twice the size of its table wraps a range of 2^31 to zero, and the loop never ends. |
| RangeEncoder.ValidRangeIsExact | evaluation/libarchieve/77d0d190057d0be37215135c276d515ce82b06cd_d5475620534c70cb5b9fc78b97d6206625ca9dc3_libarchive+archive_ppmd7.c+RangeEnc_Encode.c:3-4 | For a valid symbol nothing wraps: the 32-bit range is that of the narrowed interval. |
| RangeEncoder.RenormalisedIsSame | evaluation/libarchieve/77d0d190057d0be37215135c276d515ce82b06cd_d5475620534c70cb5b9fc78b97d6206625ca9dc3_libarchive+archive_ppmd7.c+RangeEnc_Encode.c:5-9 | Renormalising multiplies low and range by the same power of 256 and ends with the range in 32 bits and at least 2^24. |
| RangeEncoder.SlicesAreDisjoint | evaluation/libarchieve/77d0d190057d0be37215135c276d515ce82b06cd_d5475620534c70cb5b9fc78b97d6206625ca9dc3_libarchive+archive_ppmd7.c+RangeEnc_Encode.c:3-9 | Different slices of one table lead to disjoint intervals, in the order of the slices. |
| RangeEncoder.BeforeInherits | evaluation/libarchieve/77d0d190057d0be37215135c276d515ce82b06cd_d5475620534c70cb5b9fc78b97d6206625ca9dc3_libarchive+archive_ppmd7.c+RangeEnc_Encode.c:3-9 | Intervals inside disjoint intervals are disjoint, whatever their scales. |
| RangeEncoder.MessageIsNested | evaluation/libarchieve/77d0d190057d0be37215135c276d515ce82b06cd_d5475620534c70cb5b9fc78b97d6206625ca9dc3_libarchive+archive_ppmd7.c+RangeEnc_Encode.c:3-9 | The interval of any message lies in the interval it started from. |
| RangeEncoder.MessagesAreDisjoint | evaluation/libarchieve/77d0d190057d0be37215135c276d515ce82b06cd_d5475620534c70cb5b9fc78b97d6206625ca9dc3_libarchive+archive_ppmd7.c+RangeEnc_Encode.c:3-9 | Messages that diverge at some symbol have disjoint intervals, whatever follows and however long they are. |
| RangeEncoder.DecodesWhatWasEncoded | evaluation/libarchieve/77d0d190057d0be37215135c276d515ce82b06cd_d5475620534c70cb5b9fc78b97d6206625ca9dc3_libarchive+archive_ppmd7.c+RangeEnc_Encode.c:1-10 | For any tables, each depending on all symbols before: a decoder with the same tables recovers every symbol from any number in the final interval. |
| RangeEncoder.Transmit | evaluation/libarchieve/77d0d190057d0be37215135c276d515ce82b06cd_d5475620534c70cb5b9fc78b97d6206625ca9dc3_libarchive+archive_ppmd7.c+RangeEnc_Encode.c:1-10 | End to end: what a fresh encoder has made of any symbols decodes to them. |
| RangeEncoder.Encoder.Encode | evaluation/libarchieve/77d0d190057d0be37215135c276d515ce82b06cd_d5475620534c70cb5b9fc78b97d6206625ca9dc3_libarchive+archive_ppmd7.c+RangeEnc_Encode.c:1-10 | The in-place encoder, carries included, stands for exactly the interval of the specification after every symbol. |
| VolumeSeek.Reader.Seek | evaluation/libarchieve/7f3f47cba79721604290b4cc515aaac3f3f558fa_4e7a6bd81187629e6f99ef8c5456a96c93be3d94_libarchive+archive_read.c+__archive_read_filter_seek.c:1-129 | SEEK_SET lands on the offset, SEEK_CUR on the position plus the offset, SEEK_END where the walk back leads; the bytes that follow are those of the concatenation from there, and all buffers are dropped. Failure keeps buffers and position. On a client that does not fail, it happens exactly for the refused targets and leaves the client at the end of the volume SEEK_SET settles on, or in the first volume after SEEK_END; otherwise the error is that of the last call of the client. The client may fail at any call, and differently at each. |
| VolumeSeek.SameBytesAheadExactly | evaluation/libarchieve/7f3f47cba79721604290b4cc515aaac3f3f558fa_4e7a6bd81187629e6f99ef8c5456a96c93be3d94_libarchive+archive_read.c+__archive_read_filter_seek.c:34-52 | Two places of the client have the same bytes ahead of them if and only if they are the same global offset: so a refused seek leaves ahead what was there only if the client stood where the walk has brought it. |
| VolumeSeek.RefusedSeekMovesClient | evaluation/libarchieve/7f3f47cba79721604290b4cc515aaac3f3f558fa_4e7a6bd81187629e6f99ef8c5456a96c93be3d94_libarchive+archive_read.c+__archive_read_filter_seek.c:34-52 | After the concrete refusal below, the client is in the last volume (and by the contract of the seek at its end), with nothing left to read. |
| VolumeSeek.Reader.SeekToSet | evaluation/libarchieve/7f3f47cba79721604290b4cc515aaac3f3f558fa_4e7a6bd81187629e6f99ef8c5456a96c93be3d94_libarchive+archive_read.c+__archive_read_filter_seek.c:20-55 | SEEK_SET lands on the requested global offset, and a client that does not fail is refused only the listed targets. |
| VolumeSeek.Reader.SeekToEnd | evaluation/libarchieve/7f3f47cba79721604290b4cc515aaac3f3f558fa_4e7a6bd81187629e6f99ef8c5456a96c93be3d94_libarchive+archive_read.c+__archive_read_filter_seek.c:57-98 | SEEK_END lands on total + offset for every target from the start on; the cache stays true throughout. |
| VolumeSeek.RefusedExactly | evaluation/libarchieve/7f3f47cba79721604290b4cc515aaac3f3f558fa_4e7a6bd81187629e6f99ef8c5456a96c93be3d94_libarchive+archive_read.c+__archive_read_filter_seek.c:41-52 | With the test `begin + size - 1 > offset`, the chosen volume does not hold the target if and only if the target is outside the archive or is the last byte before a later volume. |
| VolumeSeek.TargetsInBytes | evaluation/libarchieve/7f3f47cba79721604290b4cc515aaac3f3f558fa_4e7a6bd81187629e6f99ef8c5456a96c93be3d94_libarchive+archive_read.c+__archive_read_filter_seek.c:34-92 | In bytes alone: SEEK_SET and SEEK_CUR refuse what is before the first byte, behind the last, or is the last byte before a later volume; SEEK_END goes to the end plus the offset, or that plus the first volume if it is before the start. |
| VolumeSeek.LastByteRefused | evaluation/libarchieve/7f3f47cba79721604290b4cc515aaac3f3f558fa_4e7a6bd81187629e6f99ef8c5456a96c93be3d94_libarchive+archive_read.c+__archive_read_filter_seek.c:41-52 | A concrete archive whose existing byte 1 SEEK_SET refuses. |
| VolumeSeek.EndTargetExactly | evaluation/libarchieve/7f3f47cba79721604290b4cc515aaac3f3f558fa_4e7a6bd81187629e6f99ef8c5456a96c93be3d94_libarchive+archive_read.c+__archive_read_filter_seek.c:81-92 | SEEK_END goes to total + offset if and only if that is not before the start or the first volume is empty. |
| VolumeSeek.EndBeforeStart | evaluation/libarchieve/7f3f47cba79721604290b4cc515aaac3f3f558fa_4e7a6bd81187629e6f99ef8c5456a96c93be3d94_libarchive+archive_read.c+__archive_read_filter_seek.c:85-92 | A concrete seek to before the start that reports success at byte 1. |
| VolumeSeek.Reader.WalkBack | evaluation/libarchieve/7f3f47cba79721604290b4cc515aaac3f3f558fa_4e7a6bd81187629e6f99ef8c5456a96c93be3d94_libarchive+archive_read.c+__archive_read_filter_seek.c:81-92 | The walk back keeps position plus offset constant and stops at the volume that holds the target. |
| VolumeSeek.Reader.WalkVolumes | evaluation/libarchieve/7f3f47cba79721604290b4cc515aaac3f3f558fa_4e7a6bd81187629e6f99ef8c5456a96c93be3d94_libarchive+archive_read.c+__archive_read_filter_seek.c:34-48 | The walk asks every volume passed for its size, and settles on the first whose last byte lies beyond the target, or on the last. |
| VolumeSeek.Reader.WalkCache | evaluation/libarchieve/7f3f47cba79721604290b4cc515aaac3f3f558fa_4e7a6bd81187629e6f99ef8c5456a96c93be3d94_libarchive+archive_read.c+__archive_read_filter_seek.c:22-33 | Following cached sizes goes no further than the walk would, and every position it passes on is a prefix sum. |
| VolumeSeek.Landing | evaluation/libarchieve/7f3f47cba79721604290b4cc515aaac3f3f558fa_4e7a6bd81187629e6f99ef8c5456a96c93be3d94_libarchive+archive_read.c+__archive_read_filter_seek.c:49-54 | A local offset of a volume and the global offset at its begin position are followed by the same bytes. |
| VolumeSeek.Reader.AddCallbackData | evaluation/libarchieve/d2ce535f176df750c6dd4eff6ba35f3c5baa9794_9f67e742b55e83b10b3dcf2df263c6bf43970e91_libarchive+archive_read.c+archive_read_add_callback_data.c:11-32 | Insertion puts the volume at its place and leaves every cached position true or unknown; a failed realloc leaves the count one too high. |
| VolumeSeek.Reader.Shift | evaluation/libarchieve/d2ce535f176df750c6dd4eff6ba35f3c5baa9794_9f67e742b55e83b10b3dcf2df263c6bf43970e91_libarchive+archive_read.c+archive_read_add_callback_data.c:24-31 | The volumes behind the new one move up by one, in order, and lose their cached positions and sizes. |
| SparseRead.ChunkingIsIrrelevant | evaluation/libarchieve/a163558c388bb2ccedef683e8031c11193e6875c_aa48bfac0f4ede8a6a4dfa545ad91684b41a9285_libarchive+archive_read.c+archive_read_data.c:14-75 | However reads are cut, they return the zero-filled contents in order, min(asked, left) bytes in all, if and only if the block list is steady: wherever only empty blocks are left, they end no more bytes ahead than there are blocks. |
| SparseRead.FlatByte | evaluation/libarchieve/a163558c388bb2ccedef683e8031c11193e6875c_aa48bfac0f4ede8a6a4dfa545ad91684b41a9285_libarchive+archive_read.c+archive_read_data.c:39-71 | The contents byte by byte: at each position the byte of the block that covers it, and zero where none does. |
| SparseRead.CallIsStopped | evaluation/libarchieve/a163558c388bb2ccedef683e8031c11193e6875c_aa48bfac0f4ede8a6a4dfa545ad91684b41a9285_libarchive+archive_read.c+archive_read_data.c:20-37 | A call is answered with the code of a failure, or with -10 (retry) at a block that begins before the end of those already read, exactly when what is before does not suffice; a failure is passed over, an earlier block kept unless it is empty. |
| SparseRead.NonEmptyIsSteady | evaluation/libarchieve/a163558c388bb2ccedef683e8031c11193e6875c_aa48bfac0f4ede8a6a4dfa545ad91684b41a9285_libarchive+archive_read.c+archive_read_data.c:14-75 | In particular for every ordered list of non-empty blocks. |
| SparseRead.CallIsExact | evaluation/libarchieve/a163558c388bb2ccedef683e8031c11193e6875c_aa48bfac0f4ede8a6a4dfa545ad91684b41a9285_libarchive+archive_read.c+archive_read_data.c:14-75 | One call on a steady list returns the next min(asked, left) bytes and leaves exactly the rest. |
| SparseRead.CallsAreExact | evaluation/libarchieve/a163558c388bb2ccedef683e8031c11193e6875c_aa48bfac0f4ede8a6a4dfa545ad91684b41a9285_libarchive+archive_read.c+archive_read_data.c:14-75 | So does any run of calls. |
| SparseRead.UnsteadyLoses | evaluation/libarchieve/a163558c388bb2ccedef683e8031c11193e6875c_aa48bfac0f4ede8a6a4dfa545ad91684b41a9285_libarchive+archive_read.c+archive_read_data.c:15-66 | For every list that is not steady, sizes of reads that lose bytes. |
| SparseRead.HoleLost | evaluation/libarchieve/a163558c388bb2ccedef683e8031c11193e6875c_aa48bfac0f4ede8a6a4dfa545ad91684b41a9285_libarchive+archive_read.c+archive_read_data.c:15-66 | A concrete hole of five bytes before an empty block, of which a first read of one byte leaves nothing. |
| SparseRead.OneByteEach | evaluation/libarchieve/a163558c388bb2ccedef683e8031c11193e6875c_aa48bfac0f4ede8a6a4dfa545ad91684b41a9285_libarchive+archive_read.c+archive_read_data.c:15-66 | Read byte by byte, empty blocks yield at most one byte of their holes each. |
| SparseRead.Archive.ReadData | evaluation/libarchieve/a163558c388bb2ccedef683e8031c11193e6875c_aa48bfac0f4ede8a6a4dfa545ad91684b41a9285_libarchive+archive_read.c+archive_read_data.c:1-76 | The loop over blocks, padding and copying into the caller's buffer, returns the count or the error code that the specification of one call gives, and leaves the buffer, the position and the queue that it gives, after an error too; of a steady list without failures it copies the next min(asked, left) bytes of the contents. |
| SparseRead.NothingLostExactly | evaluation/libarchieve/a163558c388bb2ccedef683e8031c11193e6875c_aa48bfac0f4ede8a6a4dfa545ad91684b41a9285_libarchive+archive_read.c+archive_read_data.c:14-75 | For blocks with failures between them and any run of reads, errors passed over: what is returned, what failing calls have copied and what is left add up to the contents; nothing is lost, and all is returned in order, if and only if every read that reaches past a failure starts right at it, in terms of the distances between failures and the read sizes. |
| SparseRead.OneRead | evaluation/libarchieve/a163558c388bb2ccedef683e8031c11193e6875c_aa48bfac0f4ede8a6a4dfa545ad91684b41a9285_libarchive+archive_read.c+archive_read_data.c:14-75 | One read of such a list copies what comes next, and fails if and only if it reaches past the next failure, with its code, having copied all that is before it. |
| SparseRead.BytesLostToAnError | evaluation/libarchieve/a163558c388bb2ccedef683e8031c11193e6875c_aa48bfac0f4ede8a6a4dfa545ad91684b41a9285_libarchive+archive_read.c+archive_read_data.c:14-31 | A concrete list of which three bytes are copied by a failing call and returned by none; read with other sizes, it is returned in full. |
| SparseRead.Archive.Emit | evaluation/libarchieve/a163558c388bb2ccedef683e8031c11193e6875c_aa48bfac0f4ede8a6a4dfa545ad91684b41a9285_libarchive+archive_read.c+archive_read_data.c:39-71 | Padding and copying in one turn write the next bytes and account for them. |
| LzxBits.BitReader.Fillup | evaluation/libarchieve/caf9b87de21222aa32c3a9b5c620286b2717e71c_17feb73ffcb0a955c42e1964c47da046976e7734_libarchive+archive_read_support_format_cab.c+lzx_br_fillup.c:1-69 | Bulk and single-word paths together take exactly min(room / 16, input / 2) words, the bits being those of appending 16-bit words one by one; the result is 1 if and only if less than 16 bits of room remain; 0 means all input was taken, with an odd last byte put aside. |
| LzxBits.EightBytesAreFourWords | evaluation/libarchieve/caf9b87de21222aa32c3a9b5c620286b2717e71c_17feb73ffcb0a955c42e1964c47da046976e7734_libarchive+archive_read_support_format_cab.c+lzx_br_fillup.c:12-25 | The 64-bit path puts into an empty cache what four appended words do. |
| LzxBits.SixBytesAreThreeWords | evaluation/libarchieve/caf9b87de21222aa32c3a9b5c620286b2717e71c_17feb73ffcb0a955c42e1964c47da046976e7734_libarchive+archive_read_support_format_cab.c+lzx_br_fillup.c:29-41 | The 48-bit path appends to the cached bits what three words do. |
| LzxBits.ShiftIn | evaluation/libarchieve/caf9b87de21222aa32c3a9b5c620286b2717e71c_17feb73ffcb0a955c42e1964c47da046976e7734_libarchive+archive_read_support_format_cab.c+lzx_br_fillup.c:30-41 | Shifting in a 64-bit cache, bits above falling off, appends to the bits that count. |
| LzxBits.BitReader.TakeWords | evaluation/libarchieve/caf9b87de21222aa32c3a9b5c620286b2717e71c_17feb73ffcb0a955c42e1964c47da046976e7734_libarchive+archive_read_support_format_cab.c+lzx_br_fillup.c:10-67 | One turn takes four words, three, one or none, and the cached bits followed by the unread words denote the same number as before. |
| LzxBits.NothingLost | evaluation/libarchieve/caf9b87de21222aa32c3a9b5c620286b2717e71c_17feb73ffcb0a955c42e1964c47da046976e7734_libarchive+archive_read_support_format_cab.c+lzx_br_fillup.c:61-66 | Taking words from the input into the cache leaves the same words behind the same bits. |
| LzxBits.WordsInOrder | evaluation/libarchieve/caf9b87de21222aa32c3a9b5c620286b2717e71c_17feb73ffcb0a955c42e1964c47da046976e7734_libarchive+archive_read_support_format_cab.c+lzx_br_fillup.c:12-67 | Of k words taken, word j is bytes 2j and 2j + 1 of the input with the second one high, above the words after it; and above all of them are the bits from before. |
| LzxBits.BitReader.StashOdd | evaluation/libarchieve/caf9b87de21222aa32c3a9b5c620286b2717e71c_17feb73ffcb0a955c42e1964c47da046976e7734_libarchive+archive_read_support_format_cab.c+lzx_br_fillup.c:51-59 | A single last byte is put aside, and nothing else changes. |
| ZipSearch.SkipIsSafe | evaluation/libarchieve/bc2e773b7c5ea8628dfd540a471630bf0e2df5ad_f5da47515fdd42153cb0c2da1b2b93fb87f67915_libarchive+archive_read_support_format_zip.c+slurp_central_directory.c:30-53 | For every next byte, no signature starts at a position the table skips. |
| ZipSearch.SkipIsMaximal | evaluation/libarchieve/bc2e773b7c5ea8628dfd540a471630bf0e2df5ad_f5da47515fdd42153cb0c2da1b2b93fb87f67915_libarchive+archive_read_support_format_zip.c+slurp_central_directory.c:30-53 | For every next byte, some stream has a signature right where the table goes on: it could skip no further. |
| ZipSearch.SignatureBytes | evaluation/libarchieve/bc2e773b7c5ea8628dfd540a471630bf0e2df5ad_f5da47515fdd42153cb0c2da1b2b93fb87f67915_libarchive+archive_read_support_format_zip.c+slurp_central_directory.c:39-50 | The signatures are 50 4B 01 02, 50 4B 05 06 and 50 4B 06 06, and no other. |
| ZipSearch.Stream.Step | evaluation/libarchieve/bc2e773b7c5ea8628dfd540a471630bf0e2df5ad_f5da47515fdd42153cb0c2da1b2b93fb87f67915_libarchive+archive_read_support_format_zip.c+slurp_central_directory.c:30-53 | The switch stops if and only if a signature starts here, and otherwise moves on by what the byte three ahead allows. |
| ZipSearch.Stream.ScanWindow | evaluation/libarchieve/bc2e773b7c5ea8628dfd540a471630bf0e2df5ad_f5da47515fdd42153cb0c2da1b2b93fb87f67915_libarchive+archive_read_support_format_zip.c+slurp_central_directory.c:29-54 | A window is left with no signature passed, at one or within four bytes of the end, so those that straddle the end are kept. |
| ZipSearch.Stream.FindRecord | evaluation/libarchieve/bc2e773b7c5ea8628dfd540a471630bf0e2df5ad_f5da47515fdd42153cb0c2da1b2b93fb87f67915_libarchive+archive_read_support_format_zip.c+slurp_central_directory.c:25-56 | For every stream and every choice of window sizes, the search stops at the first PK12, PK56 or PK66, and fails only when none has 20 bytes from it on. |
| ZipExtra.ParsesWhatIsEncoded | evaluation/libarchieve/cf95c9701b18b1fa1f0ea3a6bef4fe72c47dd2db_1582c6f5b0c1234bc6287b32a729acf36ee34481_libarchive+archive_read_support_format_zip.c+process_extra.c:36-426 | Of any records laid out one after another, exactly those are applied, in order, and at most three bytes after them are ignored, whatever a record does. |
| ZipExtra.EveryInputIsRecords | evaluation/libarchieve/cf95c9701b18b1fa1f0ea3a6bef4fe72c47dd2db_1582c6f5b0c1234bc6287b32a729acf36ee34481_libarchive+archive_read_support_format_zip.c+process_extra.c:36-426 | Every input is such records, all applied, followed by at most three bytes if it is accepted, and by the first record that overflows the field or fails by itself if it is not; the entry is as the records before, and that one, have left it. |
| ZipExtra.ZipEntry.ReadRecord | evaluation/libarchieve/cf95c9701b18b1fa1f0ea3a6bef4fe72c47dd2db_1582c6f5b0c1234bc6287b32a729acf36ee34481_libarchive+archive_read_support_format_zip.c+process_extra.c:52-424 | On every branch and at every early break, offset + datasize is still the end of the record; the entry has become what the record's body alone makes of it, or the record fails. |
| ZipExtra.ZipEntry.NextRecord | evaluation/libarchieve/cf95c9701b18b1fa1f0ea3a6bef4fe72c47dd2db_1582c6f5b0c1234bc6287b32a729acf36ee34481_libarchive+archive_read_support_format_zip.c+process_extra.c:36-424 | One turn of the loop, its bounds check included, is one step of parsing from the new offset. |
| ZipExtra.ZipEntry.ProcessExtra | evaluation/libarchieve/cf95c9701b18b1fa1f0ea3a6bef4fe72c47dd2db_1582c6f5b0c1234bc6287b32a729acf36ee34481_libarchive+archive_read_support_format_zip.c+process_extra.c:1-427 | The whole field is accepted if and only if it parses, and the entry is then, or was when it failed, what parsing gives; fewer than four bytes must be zeros. |
| ZipExtra.ZipEntry.ReadZip64 | evaluation/libarchieve/cf95c9701b18b1fa1f0ea3a6bef4fe72c47dd2db_1582c6f5b0c1234bc6287b32a729acf36ee34481_libarchive+archive_read_support_format_zip.c+process_extra.c:53-104 | Each size that is a placeholder, and no other, is replaced by the next eight bytes, in order; a missing or too large one fails. |
| ZipExtra.Zip64Exactly | evaluation/libarchieve/cf95c9701b18b1fa1f0ea3a6bef4fe72c47dd2db_1582c6f5b0c1234bc6287b32a729acf36ee34481_libarchive+archive_read_support_format_zip.c+process_extra.c:53-104 | A zip64 record is accepted if and only if there are eight bytes of at most INT64_MAX for each placeholder, and then the placeholders are replaced by them in order. |
| ZipExtra.Zip64ComesBack | evaluation/libarchieve/cf95c9701b18b1fa1f0ea3a6bef4fe72c47dd2db_1582c6f5b0c1234bc6287b32a729acf36ee34481_libarchive+archive_read_support_format_zip.c+process_extra.c:53-104 | A record 0x0001 of three sizes written as longs is read back. |
| ZipExtra.ZipEntry.ReadTimes | evaluation/libarchieve/cf95c9701b18b1fa1f0ea3a6bef4fe72c47dd2db_1582c6f5b0c1234bc6287b32a729acf36ee34481_libarchive+archive_read_support_format_zip.c+process_extra.c:123-166 | Times are taken in order as flagged, and a missing one ends the record without an error. |
| ZipExtra.TimesComeBack | evaluation/libarchieve/cf95c9701b18b1fa1f0ea3a6bef4fe72c47dd2db_1582c6f5b0c1234bc6287b32a729acf36ee34481_libarchive+archive_read_support_format_zip.c+process_extra.c:132-165 | In a record 0x5455, times written in order, whichever of the three are there, are read back, and the others keep their values. |
| ZipExtra.ZipEntry.ReadXl | evaluation/libarchieve/cf95c9701b18b1fa1f0ea3a6bef4fe72c47dd2db_1582c6f5b0c1234bc6287b32a729acf36ee34481_libarchive+archive_read_support_format_zip.c+process_extra.c:183-299 | The bitmap and its continuation bytes are passed, and the fields flagged are read in order until one is missing. |
| ZipExtra.ZipEntry.PassBitmap | evaluation/libarchieve/cf95c9701b18b1fa1f0ea3a6bef4fe72c47dd2db_1582c6f5b0c1234bc6287b32a729acf36ee34481_libarchive+archive_read_support_format_zip.c+process_extra.c:217-227 | The bitmap ends at the first byte without the continuation bit, or with the record. |
| ZipExtra.ModeOf | evaluation/libarchieve/cf95c9701b18b1fa1f0ea3a6bef4fe72c47dd2db_1582c6f5b0c1234bc6287b32a729acf36ee34481_libarchive+archive_read_support_format_zip.c+process_extra.c:257-278 | An MS-DOS entry keeps a file type in its mode if and only if it is not read-only. |
| ZipExtra.ZipEntry.ReadUnicodePath | evaluation/libarchieve/cf95c9701b18b1fa1f0ea3a6bef4fe72c47dd2db_1582c6f5b0c1234bc6287b32a729acf36ee34481_libarchive+archive_read_support_format_zip.c+process_extra.c:300-352 | The name is replaced only if it converts and the checksum of the present name matches or is not compared. |
| ZipExtra.ZipEntry.ReadNewUnix | evaluation/libarchieve/cf95c9701b18b1fa1f0ea3a6bef4fe72c47dd2db_1582c6f5b0c1234bc6287b32a729acf36ee34481_libarchive+archive_read_support_format_zip.c+process_extra.c:366-401 | User and group are read with the widths the record gives, each only if it fits. |
| ZipExtra.NewUnixComesBack | evaluation/libarchieve/cf95c9701b18b1fa1f0ea3a6bef4fe72c47dd2db_1582c6f5b0c1234bc6287b32a729acf36ee34481_libarchive+archive_read_support_format_zip.c+process_extra.c:366-401 | In a record 0x7875, a user and a group id, of two or four bytes each, are read back. |
| ZipExtra.OldUnixComesBack | evaluation/libarchieve/cf95c9701b18b1fa1f0ea3a6bef4fe72c47dd2db_1582c6f5b0c1234bc6287b32a729acf36ee34481_libarchive+archive_read_support_format_zip.c+process_extra.c:167-182 | In a record 0x5855, access and modification time are read back, and user and group if they are there. |
| ZipExtra.UnixUxComesBack | evaluation/libarchieve/cf95c9701b18b1fa1f0ea3a6bef4fe72c47dd2db_1582c6f5b0c1234bc6287b32a729acf36ee34481_libarchive+archive_read_support_format_zip.c+process_extra.c:353-365 | In a record 0x7855, user and group are read back. |
| ZipExtra.WinZipAesComesBack | evaluation/libarchieve/cf95c9701b18b1fa1f0ea3a6bef4fe72c47dd2db_1582c6f5b0c1234bc6287b32a729acf36ee34481_libarchive+archive_read_support_format_zip.c+process_extra.c:402-420 | In a record 0x9901, vendor, strength and compression are read back if the maker is AE; one of another maker means nothing, and a short one fails. |
| ZipExtra.UnicodePathComesBack | evaluation/libarchieve/cf95c9701b18b1fa1f0ea3a6bef4fe72c47dd2db_1582c6f5b0c1234bc6287b32a729acf36ee34481_libarchive+archive_read_support_format_zip.c+process_extra.c:300-352 | A record 0x7075 gives the converted name if and only if there is an entry and a converter, the name converts, and its checksum is that of the present name or is not compared. |
| ZipExtra.XlComesBack | evaluation/libarchieve/cf95c9701b18b1fa1f0ea3a6bef4fe72c47dd2db_1582c6f5b0c1234bc6287b32a729acf36ee34481_libarchive+archive_read_support_format_zip.c+process_extra.c:183-299 | In a record 0x6c78, behind a bitmap of any length, the system and the mode are read back, whichever fields are there. |
| ZipExtra.ModeMeans | evaluation/libarchieve/cf95c9701b18b1fa1f0ea3a6bef4fe72c47dd2db_1582c6f5b0c1234bc6287b32a729acf36ee34481_libarchive+archive_read_support_format_zip.c+process_extra.c:257-278 | The modes of MS-DOS entries in octal digits, and of Unix entries and others. |
| ZipExtra.OneRecord | evaluation/libarchieve/cf95c9701b18b1fa1f0ea3a6bef4fe72c47dd2db_1582c6f5b0c1234bc6287b32a729acf36ee34481_libarchive+archive_read_support_format_zip.c+process_extra.c:36-52 | A field of one record, byte by byte, means that record. |
| ZipExtra.OtherFieldsStay | evaluation/libarchieve/cf95c9701b18b1fa1f0ea3a6bef4fe72c47dd2db_1582c6f5b0c1234bc6287b32a729acf36ee34481_libarchive+archive_read_support_format_zip.c+process_extra.c:52-423 | Each kind of record changes its own fields alone, also where it fails, and a record of another kind none. |
| IsoTree.ParseFileInfo | evaluation/libarchieve/3da2fb7ee2d929bc8f02bcf3d42def768667c939_2d329073435d36065ce30bfd29428f6a45e41016_libarchive+archive_read_support_format_iso9660.c+parse_file_info.c:17-166 | A record is accepted if and only if it is well formed, its extent lies in the volume, and no directory above it has its offset; the new node and the count of subdirectories are as the record says. An empty file gets an offset of all ones, or one counted down from 2^64 for a negative location. |
| IsoTree.IsAbove | evaluation/libarchieve/3da2fb7ee2d929bc8f02bcf3d42def768667c939_2d329073435d36065ce30bfd29428f6a45e41016_libarchive+archive_read_support_format_iso9660.c+parse_file_info.c:60-67 | The walk up the parents ends, and finds an offset if and only if the parent or one of its ancestors has it. |
| IsoTree.OffsetIsExact | evaluation/libarchieve/3da2fb7ee2d929bc8f02bcf3d42def768667c939_2d329073435d36065ce30bfd29428f6a45e41016_libarchive+archive_read_support_format_iso9660.c+parse_file_info.c:43-60 | For an accepted location, the 64-bit offset is the exact product, below the size of the volume. |
| IsoTree.RecordComesBack | evaluation/libarchieve/3da2fb7ee2d929bc8f02bcf3d42def768667c939_2d329073435d36065ce30bfd29428f6a45e41016_libarchive+archive_read_support_format_iso9660.c+parse_file_info.c:17-36 | A record laid out as in section 9.1 of ECMA-119 gives back its extent as a signed number, its size and its directory flag, and is well formed if and only if its length is at least 34, covers its identifier and does not reach too far. |
| IsoTree.InsideExactly | evaluation/libarchieve/3da2fb7ee2d929bc8f02bcf3d42def768667c939_2d329073435d36065ce30bfd29428f6a45e41016_libarchive+archive_read_support_format_iso9660.c+parse_file_info.c:43-57 | In bytes: the extent of a non-empty file does not lie before the volume, and an extent that does not start in the first block ends in the volume. |
| IsoTree.LocationsAreDistinct | evaluation/libarchieve/3da2fb7ee2d929bc8f02bcf3d42def768667c939_2d329073435d36065ce30bfd29428f6a45e41016_libarchive+archive_read_support_format_iso9660.c+parse_file_info.c:43-67 | Along every chain of accepted directories the locations are pairwise distinct and inside the volume. |
| IsoTree.DepthIsBounded | evaluation/libarchieve/3da2fb7ee2d929bc8f02bcf3d42def768667c939_2d329073435d36065ce30bfd29428f6a45e41016_libarchive+archive_read_support_format_iso9660.c+parse_file_info.c:59-67 | So no file has more ancestors than max(1, volume blocks). |
| IsoTree.ReadBlock | evaluation/libarchieve/cfaa28168a07ea4a53276b63068f94fce37d6aff_9ad5f077491b9536f01dadca1724385c39cd7613_libarchive+archive_read_support_format_iso9660.c+read_children.c:53-112 | The children of a block are, one by one and in order, what its records other than the two dots say; reading stops at the first record that is not accepted. All bytes read are below a limit if every place a record could start is, with the bytes the test for the dots looks at behind each record, and only then if all records are accepted. |
| IsoTree.BlockComesBack | evaluation/libarchieve/cfaa28168a07ea4a53276b63068f94fce37d6aff_9ad5f077491b9536f01dadca1724385c39cd7613_libarchive+archive_read_support_format_iso9660.c+read_children.c:53-71 | Of a block laid out as records one behind another, and then zeros or its end, exactly those records are read, in order, but for the two with the identifiers 0 and 1. |
| IsoTree.ReadChildren | evaluation/libarchieve/cfaa28168a07ea4a53276b63068f94fce37d6aff_9ad5f077491b9536f01dadca1724385c39cd7613_libarchive+archive_read_support_format_iso9660.c+read_children.c:40-113 | The same for all blocks of a directory, the last one rounded up; the limit is the `step` bytes that the look-ahead vouches for. |
| IsoTree.LastBlockDecides | evaluation/libarchieve/cfaa28168a07ea4a53276b63068f94fce37d6aff_9ad5f077491b9536f01dadca1724385c39cd7613_libarchive+archive_read_support_format_iso9660.c+read_children.c:40-71 | For blocks of at least 34 bytes, all reads stay inside the extent if and only if those of its last block do. |
| IsoTree.ReadsTooFar | evaluation/libarchieve/cfaa28168a07ea4a53276b63068f94fce37d6aff_9ad5f077491b9536f01dadca1724385c39cd7613_libarchive+archive_read_support_format_iso9660.c+read_children.c:56-71 | A concrete block of dot records, the last of them eight bytes from the end, for which the loop reads past the extent. |
| IsoTree.ReadTree | evaluation/libarchieve/cfaa28168a07ea4a53276b63068f94fce37d6aff_9ad5f077491b9536f01dadca1724385c39cd7613_libarchive+archive_read_support_format_iso9660.c+read_children.c:40-113 | Reading directories within directories ends whatever the medium holds, no deeper than the volume has blocks; every directory in the result has exactly the children that its records on the medium say, up to the first that is refused. |
| UstarName.Place | evaluation/libarchieve/bcaa4a4d270544dfd5e0f661d7524ab94beda174_328196a29c5091d2358a5efd2a59ab029c2165c5_libarchive+archive_write_set_format_ustar.c+__archive_write_format_header_ustar.c:38-71 | Sound and complete: a split is at a slash, with a prefix and a name that fit and are not empty, the shortest such prefix; "too long" is reported only if no slash gives a valid split. |
| UstarName.WritePathname | evaluation/libarchieve/bcaa4a4d270544dfd5e0f661d7524ab94beda174_328196a29c5091d2358a5efd2a59ab029c2165c5_libarchive+archive_write_set_format_ustar.c+__archive_write_format_header_ustar.c:38-76 | Success if and only if the path fits whole or has a valid split, and then a reader of the header puts the same path together; other fields are left alone. |
| UstarName.FieldHolds | evaluation/libarchieve/bcaa4a4d270544dfd5e0f661d7524ab94beda174_328196a29c5091d2358a5efd2a59ab029c2165c5_libarchive+archive_write_set_format_ustar.c+__archive_write_format_header_ustar.c:21-25 | A string that exactly fills its field, or is followed by NUL, reads back. |
| UstarName.NameLayout | evaluation/libarchieve/bcaa4a4d270544dfd5e0f661d7524ab94beda174_328196a29c5091d2358a5efd2a59ab029c2165c5_libarchive+archive_write_set_format_ustar.c+__archive_write_format_header_ustar.c:38-76 | A reader takes the name from bytes 0 to 99 and the prefix from bytes 345 to 499. |
| UstarName.SplitLayout | evaluation/libarchieve/bcaa4a4d270544dfd5e0f661d7524ab94beda174_328196a29c5091d2358a5efd2a59ab029c2165c5_libarchive+archive_write_set_format_ustar.c+__archive_write_format_header_ustar.c:42-71 | A split is at a slash behind 1 to 155 bytes and before 1 to 100. |
| UstarName.WriteChecksum | evaluation/libarchieve/bcaa4a4d270544dfd5e0f661d7524ab94beda174_328196a29c5091d2358a5efd2a59ab029c2165c5_libarchive+archive_write_set_format_ustar.c+__archive_write_format_header_ustar.c:242-247 | For every header, the octal number written is, read back by the number parser, the sum of the 512 bytes with spaces for the checksum; the rest of the header is left alone. |
| UstarName.ChecksumLayout | evaluation/libarchieve/bcaa4a4d270544dfd5e0f661d7524ab94beda174_328196a29c5091d2358a5efd2a59ab029c2165c5_libarchive+archive_write_set_format_ustar.c+__archive_write_format_header_ustar.c:242-247 | A good checksum is the octal number in bytes 148 to 155, equal to the sum of the bytes before and behind them and of eight spaces. |
| UstarName.FormatOctal | evaluation/libarchieve/bcaa4a4d270544dfd5e0f661d7524ab94beda174_328196a29c5091d2358a5efd2a59ab029c2165c5_libarchive+archive_write_set_format_ustar.c+__archive_write_format_header_ustar.c:247 | The field gets the last octal digits of the number, most significant first, and nothing else changes. |
| UstarName.OctalDenotes | evaluation/libarchieve/bcaa4a4d270544dfd5e0f661d7524ab94beda174_328196a29c5091d2358a5efd2a59ab029c2165c5_libarchive+archive_write_set_format_ustar.c+__archive_write_format_header_ustar.c:247 | The digits written denote the number whenever they suffice. |
| UstarName.OneByteTells | evaluation/libarchieve/bcaa4a4d270544dfd5e0f661d7524ab94beda174_328196a29c5091d2358a5efd2a59ab029c2165c5_libarchive+archive_write_set_format_ustar.c+__archive_write_format_header_ustar.c:242-247 | A header with a good checksum still has one after a byte outside it is changed if and only if the new byte is the old one, as bytes. |
| UstarName.WriteHeader | evaluation/libarchieve/bcaa4a4d270544dfd5e0f661d7524ab94beda174_328196a29c5091d2358a5efd2a59ab029c2165c5_libarchive+archive_write_set_format_ustar.c+__archive_write_format_header_ustar.c:38-77 | Name and checksum together: the header written always has a good checksum, and names the path if and only if it fits. |
| Numbers.TarAtolBaseN | evaluation/libarchieve/5bb998d869979140156bce59c0ff8f9063a25581_f2b582881d622db623ae2700008225fd1a007663_libarchive+archive_read_support_format_tar.c+tar_atol_base_n.c:7-42 | With an unbounded accumulator, for every field and base 2 to 10: the signed value of the digits after the blanks, clamped to 64 bits. |
| Numbers.Accumulate | evaluation/libarchieve/5bb998d869979140156bce59c0ff8f9063a25581_f2b582881d622db623ae2700008225fd1a007663_libarchive+archive_read_support_format_tar.c+tar_atol_base_n.c:30-41 | Unbounded, the accumulator equals the digits read and never exceeds limit * base + last digit; overflow is reported if and only if the number does. |
| Numbers.LimitCheck | evaluation/libarchieve/5bb998d869979140156bce59c0ff8f9063a25581_f2b582881d622db623ae2700008225fd1a007663_libarchive+archive_read_support_format_tar.c+tar_atol_base_n.c:34-36 | The two-part test against limit and last digit is the comparison of the next value with the maximum. |
| Numbers.TarAtolInt64 | evaluation/libarchieve/5bb998d869979140156bce59c0ff8f9063a25581_f2b582881d622db623ae2700008225fd1a007663_libarchive+archive_read_support_format_tar.c+tar_atol_base_n.c:1-43 | The same loop with an int64 accumulator that wraps around. |
| Numbers.NeverWrapsExactly | evaluation/libarchieve/5bb998d869979140156bce59c0ff8f9063a25581_f2b582881d622db623ae2700008225fd1a007663_libarchive+archive_read_support_format_tar.c+tar_atol_base_n.c:20-42 | The int64 accumulator never wraps if and only if the field is not negative or no prefix of its digits is exactly 2^63, and then the result is that of unbounded integers. |
| Numbers.ParsedRightExactly | evaluation/libarchieve/5bb998d869979140156bce59c0ff8f9063a25581_f2b582881d622db623ae2700008225fd1a007663_libarchive+archive_read_support_format_tar.c+tar_atol_base_n.c:20-42 | In any base from 2 to 10, the int64 result is that of unbounded integers if and only if the field is not negative, or the guard of the loop stops it at some digit, or the digits denote at most 2^63 or a number congruent to that modulo 2^64. |
| Numbers.FoldWraps | evaluation/libarchieve/5bb998d869979140156bce59c0ff8f9063a25581_f2b582881d622db623ae2700008225fd1a007663_libarchive+archive_read_support_format_tar.c+tar_atol_base_n.c:33-40 | From any prefix on, the loop is full exactly if its guard stops it somewhere, tested on what 64 bits hold of the prefix, and otherwise the sum is what 64 bits hold of the number. |
| Numbers.ParsedAsLastPiece | evaluation/libarchieve/5bb998d869979140156bce59c0ff8f9063a25581_f2b582881d622db623ae2700008225fd1a007663_libarchive+archive_read_support_format_tar.c+tar_atol_base_n.c:20-42 | In an even base, a negative field is parsed as the digits after its last prefix of 2^63 that has any after it, clamped; so the result is right if and only if the field is not negative, no proper prefix of the digits is 2^63, or the digits after the last such prefix are not below it. |
| Numbers.FoldsAsLastPiece | evaluation/libarchieve/5bb998d869979140156bce59c0ff8f9063a25581_f2b582881d622db623ae2700008225fd1a007663_libarchive+archive_read_support_format_tar.c+tar_atol_base_n.c:33-40 | In an even base, accumulating all the digits ends as accumulating those after the last proper prefix of 2^63 does. |
| Numbers.PieceIsRight | evaluation/libarchieve/5bb998d869979140156bce59c0ff8f9063a25581_f2b582881d622db623ae2700008225fd1a007663_libarchive+archive_read_support_format_tar.c+tar_atol_base_n.c:30-42 | Digits without a proper prefix of 2^63 are parsed right behind a minus sign, 2^63 itself included, although the sum then wraps. |
| Numbers.FoldExactly | evaluation/libarchieve/5bb998d869979140156bce59c0ff8f9063a25581_f2b582881d622db623ae2700008225fd1a007663_libarchive+archive_read_support_format_tar.c+tar_atol_base_n.c:33-40 | From any prefix of the digits that 64 bits hold: the sum wraps exactly if a longer prefix hits 2^63 under a limit that allows it; otherwise sum and limit are those of unbounded integers. |
| Numbers.LosesWhatWasBefore | evaluation/libarchieve/5bb998d869979140156bce59c0ff8f9063a25581_f2b582881d622db623ae2700008225fd1a007663_libarchive+archive_read_support_format_tar.c+tar_atol_base_n.c:20-42 | In an even base, a negative field whose digits hit 2^63 and go on is parsed as the digits after that alone, though it is below the least int64. |
| Numbers.WrappedField | evaluation/libarchieve/5bb998d869979140156bce59c0ff8f9063a25581_f2b582881d622db623ae2700008225fd1a007663_libarchive+archive_read_support_format_tar.c+tar_atol_base_n.c:20-42 | A concrete octal field far below the least int64 that is parsed as -7. |
| Numbers.ArchiveString.AppendUint | evaluation/libarchieve/4fb11600dd38b0b32f16bd4539b32bdc84738736_872a761591806bbbf069e057d9dc0301f338f08d_libarchive+archive_string_sprintf.c+append_uint.c:2-8 | Printing appends the digits of the number to what is there. |
| Numbers.DigitsAreDigits | evaluation/libarchieve/4fb11600dd38b0b32f16bd4539b32bdc84738736_872a761591806bbbf069e057d9dc0301f338f08d_libarchive+archive_string_sprintf.c+append_uint.c:4-7 | What is printed is digits of the base, without a leading zero unless the number is zero. |
| Numbers.DigitsDenote | evaluation/libarchieve/4fb11600dd38b0b32f16bd4539b32bdc84738736_872a761591806bbbf069e057d9dc0301f338f08d_libarchive+archive_string_sprintf.c+append_uint.c:4-7 | The digits printed denote the number. |
| Numbers.PrintedDenotes | evaluation/libarchieve/4fb11600dd38b0b32f16bd4539b32bdc84738736_872a761591806bbbf069e057d9dc0301f338f08d_libarchive+archive_string_sprintf.c+append_uint.c:2-8 | In every base from 2 to 16, a to f being the digits ten to fifteen, what is printed denotes the number. |
| Numbers.PrintThenParse | evaluation/libarchieve/5bb998d869979140156bce59c0ff8f9063a25581_f2b582881d622db623ae2700008225fd1a007663_libarchive+archive_read_support_format_tar.c+tar_atol_base_n.c:7-42 | Parsing what was printed, whatever non-digit follows, gives the number back, or the largest int64 if it does not fit, with either accumulator. |
| Numbers.SignedComesBack | evaluation/libarchieve/5bb998d869979140156bce59c0ff8f9063a25581_f2b582881d622db623ae2700008225fd1a007663_libarchive+archive_read_support_format_tar.c+tar_atol_base_n.c:7-42 | A signed number printed behind any blanks and tabs and in front of anything but a digit is read back, or the nearest int64; by the wrapping accumulator as well, but for numbers below the least int64. |
| Numbers.NoDigitsIsZero | evaluation/libarchieve/5bb998d869979140156bce59c0ff8f9063a25581_f2b582881d622db623ae2700008225fd1a007663_libarchive+archive_read_support_format_tar.c+tar_atol_base_n.c:7-42 | A field without digits is zero. |
| Passphrases.EachInTurn | evaluation/libarchieve/a31edc47153a79920f295b41a8ab9238a7f93cb2_3b30bf540e987f33267bb75d73212db29e99f9d1_libarchive+archive_read_add_passphrase.c+__archive_read_next_passphrase.c:7-21 | From an uncounted state, the stored passphrases come out one after another in list order, each once, by rotation. |
| Passphrases.BackInOrder | evaluation/libarchieve/a31edc47153a79920f295b41a8ab9238a7f93cb2_3b30bf540e987f33267bb75d73212db29e99f9d1_libarchive+archive_read_add_passphrase.c+__archive_read_next_passphrase.c:22-40 | The callback is not asked before that, and when it is the list is in its original order. |
| Passphrases.FailedAtTail | evaluation/libarchieve/a31edc47153a79920f295b41a8ab9238a7f93cb2_3b30bf540e987f33267bb75d73212db29e99f9d1_libarchive+archive_read_add_passphrase.c+__archive_read_next_passphrase.c:22-48 | After any number of failed answers of the callback, they are at the tail of the list in the order they came in, behind the stored ones, with the latest answer in front. |
| Passphrases.NothingKept | evaluation/libarchieve/a31edc47153a79920f295b41a8ab9238a7f93cb2_3b30bf540e987f33267bb75d73212db29e99f9d1_libarchive+archive_read_add_passphrase.c+__archive_read_next_passphrase.c:36-50 | An answer of the callback that does not come, or for which there is no memory, is not returned, and the stored passphrases stay. |
| Passphrases.PassphraseList.NextPassphrase | evaluation/libarchieve/a31edc47153a79920f295b41a8ab9238a7f93cb2_3b30bf540e987f33267bb75d73212db29e99f9d1_libarchive+archive_read_add_passphrase.c+__archive_read_next_passphrase.c:2-53 | The linked list with its tail pointer does what the rotation says on the sequence of passphrases, and stays well linked. |
| Passphrases.PassphraseList.Rotate | evaluation/libarchieve/a31edc47153a79920f295b41a8ab9238a7f93cb2_3b30bf540e987f33267bb75d73212db29e99f9d1_libarchive+archive_read_add_passphrase.c+__archive_read_next_passphrase.c:18-19 | Moving the head to the tail rotates the sequence and keeps the tail pointer on the last node. |
| Passphrases.PassphraseList.InsertToHead | evaluation/libarchieve/00d2d4be6a6eacb271d5e55c9d5da182a31f87b2_35997ddf613702cfef0b026c6a4987dd68918897_libarchive+archive_read_add_passphrase.c+insert_passphrase_to_head.c:5-10 | Insertion puts the passphrase in front, into an empty list too, and keeps the tail pointer on the last node. |
| Passphrases.FindPassphrase | evaluation/libarchieve/ab94a813b0f64cbc1bcb952bf55424a2d9c7f1d9_54027a7ccd7b28dca995ef675b571241ff767c6c_libarchive+archive_read_support_format_zip.c+init_traditional_PKWARE_decryption.c:32-58 | The retry loop ends after at most 10002 attempts; it succeeds with the first passphrase in turn that opens the entry, and fails only after all attempted have failed and none is left or too many were tried. |
| Passphrases.StoredIsFound | evaluation/libarchieve/ab94a813b0f64cbc1bcb952bf55424a2d9c7f1d9_54027a7ccd7b28dca995ef675b571241ff767c6c_libarchive+archive_read_support_format_zip.c+init_traditional_PKWARE_decryption.c:32-58 | However the search ends, it ends with a stored passphrase, the first that opens the entry, if and only if one of the first 10002 opens it; with that many stored, it succeeds in no other way. |
| Passphrases.StoredTooFarBack | evaluation/libarchieve/ab94a813b0f64cbc1bcb952bf55424a2d9c7f1d9_54027a7ccd7b28dca995ef675b571241ff767c6c_libarchive+archive_read_support_format_zip.c+init_traditional_PKWARE_decryption.c:32-58 | A list whose only passphrase that opens the entry is at index 10002: the search fails. |
| PathTable.ComparePathTable | evaluation/libarchieve/d7e5cbde8754a0bb078d683c7906630a76a13832_32959ebca2fb611f98062e5634793eefac34e3c5_libarchive+archive_write_set_format_iso9660.c+_compare_path_table.c:11-40 | The sign is that of comparing parent numbers, then identifiers padded with spaces, as unsigned bytes: negative exactly if the parent number is smaller, or is the same and the first of the padded bytes that differ is smaller. |
| PathTable.TotalPreorder | evaluation/libarchieve/d7e5cbde8754a0bb078d683c7906630a76a13832_32959ebca2fb611f98062e5634793eefac34e3c5_libarchive+archive_write_set_format_iso9660.c+_compare_path_table.c:11-40 | That order is antisymmetric in sign and transitive, strictly so where a step is strict. |
| PathTable.OrderZero | evaluation/libarchieve/d7e5cbde8754a0bb078d683c7906630a76a13832_32959ebca2fb611f98062e5634793eefac34e3c5_libarchive+archive_write_set_format_iso9660.c+_compare_path_table.c:11-40 | Two entries compare equal if and only if they have the same parent number and the same padded identifier. |
| PathTable.PaddedWithSpaces | evaluation/libarchieve/d7e5cbde8754a0bb078d683c7906630a76a13832_32959ebca2fb611f98062e5634793eefac34e3c5_libarchive+archive_write_set_format_iso9660.c+_compare_path_table.c:25-40 | An identifier is padded with spaces from its extension on. |
| PathTable.StrNCmp | evaluation/libarchieve/d7e5cbde8754a0bb078d683c7906630a76a13832_32959ebca2fb611f98062e5634793eefac34e3c5_libarchive+archive_write_set_format_iso9660.c+_compare_path_table.c:22-24 | On identifiers without NUL, strncmp decides at the first difference of the common part. |

## Left out

- LookAhead.Filter.ReadMore: the client's read callback answers by the number of the call, the switch to another volume by the volume and `malloc` by the size, each arbitrarily; a `min` above the 64-bit range and a block longer than `ssize_t` do not occur.
- LookAhead.Filter.Consume: the routine that advances the filter is not part of this model; the contract given it is that it takes copied bytes first, never more than are buffered. Skipping beyond the buffered bytes is left out.
- VolumeSeek.Reader.Seek: offsets are unbounded integers, so int64 overflow of `offset + position` and of position sums is not modelled; the volume sizes reported by the client are taken to be the true ones. Of the buffers a refused seek keeps, only how much they hold is modelled.
- VolumeSeek.Reader.SwitchProxy: the body of `client_switch_proxy` is not part of this model; it is taken to make the volume the current one, also when it reports an error, and to leave the place in it open.
- VolumeSeek.Reader.Open: of opening only the assignment that seeking depends on.
- SparseRead.Archive.ReadData: the hints to the format reader (`read_data_is_posix_read`, `read_data_requested`) are left out; offsets are unbounded; a format reader that fails hands out no block with its error.
- Rar5Window.Unpacker.Apply: a failed helper is a symbol that carries the return code. The low distance bits are taken to be less than 16, the size of their table.
- Rar5Window.Unpacker.DecodeNext: a repeat whose length could not be decoded is excluded, because the invariant does not survive it: `Apply` says exactly when refinement and delivery do, `DeliveredAgain` what comes of it.
- Rar5Window.Unpacker.UncompressBlock: Huffman and bit-level decoding is a list of decoded symbols per block. Blocks with a repeat whose length could not be decoded are excluded from runs, as for `DecodeNext`.
- Rar5Window.Unpacker.UnpackMore: files with filters, and blocks that end in a failing symbol, are outside; `UncompressFile` is about those.
- Rar5Window.Unpacker.UnpackAll: the same.
- Rar5Window.Unpack: the same.
- Rar5Window.UnpackItems: one block, and copies coded as matches; that repeats copy from the last four distances is `RecentFirst` with `SymbolMeans`.
- Rar5Window.Unpacker.InitUnpack: half the window is required to be more than any match (`W / 2 + maxLen < W`), where the smallest window and the longest match are constants that are not part of this model; without that a match could overwrite undelivered bytes. Solid archives start from a window of zeros.
- Rar5Window.Unpacker.ProcessBlock: block headers, Huffman tables (`parse_tables`), blocks split over volumes (`merge_block`) and the reading of the archive are left out; the end of the list of blocks is the end of the data.
- Rar5Window.Unpacker.UncompressFile: `apply_filters` is its return status alone, so filtered blocks are not delivered and pending filters stay pending; the `initialized` and `solid` flags and the guard against a window of size zero are left out.
- Rar5Window.Unpacker.PushData: the span is required to start at the last byte delivered, as its caller guarantees; the fixed-size queue of ready fragments behind `push_data_ready` is left out.
- Rar5Filters.Filters.RunE8E9: `circular_memcpy`, `read_filter_data` and `write_filter_data` are given contracts as little-endian access modulo the window; a block no longer than the window. Other filter types are left out.
- RangeEncoder.Encoder.Encode: a valid symbol is required (`0 < size`, slice within the total, total not above the range), which is what the model that calls it supplies; `RenormalisesExactly` is about all others. `ShiftLow` is modelled by what it does to the exact number sent, not by its cache byte and carry chain, which are not part of this model; so is the flush at the end. The range decoder is not part of this model; `Decoded` is the arithmetic of one.
- LzxBits.BitReader.Fillup: the use of the byte put aside by the next refill is not part of this model.
- ZipSearch.Stream.FindRecord: the look-ahead supplies any window of at least 20 bytes that the stream still has; read errors are left out, and so is the rest of `slurp_central_directory`.
- ZipExtra.ZipEntry.ProcessExtra: bytes are unsigned (a signed `char` would differ only in an AES strength above 127). Name checksums and UTF-8 conversion are parameters, and a failed conversion leaves the name.
- ZipExtra.Apply: the strong-encryption record, which is only printed in debug builds, and the comment of the `xl` record, which is only skipped, mean nothing here.
- IsoTree.ParseFileInfo: names, times, Rock Ridge and Joliet, multiple extents and hard-link numbers are left out; allocation succeeds.
- IsoTree.ReadBlock: what lies in memory beyond the extent is arbitrary; that it can be read at all is taken for granted. Records that continue a file in a further extent, and the queueing of entries, are left out.
- IsoTree.ReadChildren: the position of the medium, out-of-order directories, directories beyond the end of the medium, and a directory that cannot be read in full are left out.
- IsoTree.ReadTree: directories are read depth first, where the code puts those still to be read aside with `add_entry`; Rock Ridge relocation is off.
- UstarName.WritePathname: link names, owners, numbers and type are left out. Conversion to the header's character set has been done, and the path has no NUL.
- UstarName.WriteHeader: of the fields, only the pathname and the checksum; `WriteChecksum` is about any header.
- UstarName.FormatOctal: the body of `format_octal` is not part of this model beyond what the checksum needs, six digits of a number that fits.
- Numbers.TarAtolBaseN: its accumulator is a mathematical integer; `TarAtolInt64` is the same loop in 64 bits, signed overflow taken to wrap around. The code reads one character past the field before it tests the count; the models do not.
- Numbers.Accumulate: unbounded like that; `AccumulateInt64` is the one in 64 bits.
- Passphrases.FindPassphrase: whether a passphrase opens the entry is a parameter; the decryption state and the entry's byte counters are left out.
- Passphrases.PassphraseList.Rotate: `remove_passphrases_from_head` and `add_passphrase_to_tail` are not part of this model beyond what rotation does to the links.
- PathTable.ComparePathTable: identifiers have no NUL before the extension, as their makers guarantee; parent numbers are unbounded, so the difference does not overflow.
- Secondary routines: `parse_tables`, `merge_block`, `peek_at_header` of the gzip filter and `acl_new_entry` are left out; what they would add is smaller than what is here.
- Registration of formats and filters, constructors, getters, disk and process code, and the Python and Java tools around the collection are left out: they hold no algorithm.
