# LZ4 frame reader, modelled in Dafny

This project models the reading side of `lz4tools/lz4file2.py`: `Lz4File` reads
an LZ4 Frame container one decoded byte range at a time, and `Lz4Frame` parses
a frame descriptor. The model has four layers:

- **`Descriptor`** parses the FLG and BD bytes, the optional 64-bit content size
  and the trailing checksum byte into a `Frame`. A writer-side `EncodeDescriptor`
  is its partner.
- **`Scanner`** holds the frame discovery loop of `__readFrame`. It reads a magic
  number, skips skippable sections by their declared size, and rejects the
  legacy and unknown magic numbers. On the frame magic it leaves the cursor on
  that magic number.
- **`Blocks`** covers `__loadBlock` and the block walk of `print_blocks`. A block
  size is the little-endian prefix with bit 31 cleared. A size of 0 is the end
  mark, optionally followed by a content checksum. Anything else is the prefix,
  the block and its optional checksum, handed to the decompressor as one chunk.
- **`Lz4File`** holds the reader state and the loop of `read`. The file is a
  byte sequence with a cursor, and the decompression context is a `Decoder`
  parameter.
  - Each call receives the chunks fed so far and the new chunk, and returns the
    decoded bytes.
  - `Pump` is the loop written as a terminating recursive function. The `Read`
    method is the loop itself, proved equal to `Pump`.
  - Lemmas about `Pump` state:
    - a read of `n` bytes is the first `n` bytes of the decoded stream;
    - reads compose;
    - a short read means the file has ended;
    - the decoder's whole output is delivered, without loss or duplication.

`Scenario` runs the layers together on a file holding any number of skippable
sections, then one frame with one block and no content checksum.

`Bytes`, `Results` and `Engine` hold little-endian helpers, the error type and
the decoder's output bookkeeping.

## Model

| member | source | states |
|---|---|---|
| Descriptor.ParseDescriptor | lz4tools/lz4file2.py:236-271 | an accepted window gives a well-formed frame: version 1, flag bits 5, 4, 3 and 2, the block-size code and its maximum block size, the content size as the LE64 value of bytes 2..9 exactly when bit 3 is set, the last window byte as checksum, a header of 7 or 15 bytes that fits the window, the magic number's offset, and not yet empty |
| Descriptor.ParseOutcomes | lz4tools/lz4file2.py:241-264 | the rejections in order: fewer than 3 bytes, a version other than 1, a block-size code outside 4..7, a content size announced in fewer than 11 bytes; any other window is accepted |
| Descriptor.MaxBlockSize | lz4tools/lz4file2.py:234 | the block-size table maps code 4..7 to 2^(8+2*code), i.e. 64 KiB, 256 KiB, 1 MiB, 4 MiB |
| Descriptor.ContentSizeField | lz4tools/lz4file2.py:266 | the content size is below 2^64 and its 8-byte little-endian encoding is exactly bytes 2..9 of the window, so it is the unsigned value `<Q` reads there |
| Descriptor.FlagByteFields | lz4tools/lz4file2.py:246-250 | the FLG byte a writer builds reads back as version 1 with each flag at its bit |
| Descriptor.ParseEncoded | lz4tools/lz4file2.py:236-271 | parsing a written descriptor, whatever follows it in the 11-byte window, succeeds and recovers every writer field; the checksum is the header checksum only when nothing follows |
| Descriptor.EncodeParsed | lz4tools/lz4file2.py:236-271 | conversely an accepted window of exactly one descriptor with reserved bits clear is re-encoded byte for byte from the parsed fields |
| Descriptor.FlagByteOfBits | lz4tools/lz4file2.py:246-250 | an FLG byte with clear reserved bits is determined by its version and four flag bits |
| Descriptor.EncodedLayout | lz4tools/lz4file2.py:244-268 | where FLG, BD, the content size and the checksum byte sit in a written window |
| Scanner.NextFrame | lz4tools/lz4file2.py:111-154 | a found frame is well formed, not empty, at or after the cursor, has its header inside the file and the frame magic at its offset, and the cursor is moved back onto that magic; the end of the stream is reported at or past the end of the file |
| Scanner.SkippableRange | lz4tools/lz4file2.py:128-131 | the skippable test (`magic & 0xFFFFFFF0 == 0x184D2A50`) accepts exactly the sixteen values 0x184D2A50 to 0x184D2A5F |
| Scanner.FrameAt | lz4tools/lz4file2.py:133-138 | on the frame magic a descriptor the parser accepts is found as that frame with the cursor on the magic, and one the parser rejects makes the parser's own error the scan's error |
| Scanner.SkipSection | lz4tools/lz4file2.py:143-150 | the skippable branch keeps every promise of the scan |
| Scanner.FoundIsParsed | lz4tools/lz4file2.py:133-138 | the frame a scan finds is exactly what the descriptor parser makes of the up to 11 bytes after its magic number |
| Scanner.ScanOutcomes | lz4tools/lz4file2.py:118-154 | no byte left is the end of the stream; one to three bytes, or a skippable section without its size field, is truncation; the legacy magic and any other non-frame, non-skippable magic are errors; on the frame magic an accepted descriptor is found as that frame at the cursor, and a rejected one fails the scan with the descriptor's error (a wrong version is `UnsupportedVersion`, and so on) |
| Scanner.SkipsSection | lz4tools/lz4file2.py:130-150 | on any of the sixteen skippable magic numbers the scan resumes exactly 8 + declared size bytes further on |
| Scanner.SkippableHeader | lz4tools/lz4file2.py:128-131 | a written skippable header reads back as a skippable magic (mask 0xFFFFFFF0) and its size |
| Scanner.SkipOne | lz4tools/lz4file2.py:143-150 | a written skippable section is skipped by exactly its length |
| Scanner.SkipAll | lz4tools/lz4file2.py:116-150 | any number of consecutive written skippable sections are skipped |
| Scanner.SkipPastEnd | lz4tools/lz4file2.py:118-122 | a skippable section whose declared size runs past the end of the file ends the stream, not an error |
| Scanner.FindsFrame | lz4tools/lz4file2.py:133-138 | a written frame header is found with the writer's fields and the cursor left on its magic number |
| Scanner.FindsFrameAfterSkippables | lz4tools/lz4file2.py:116-150 | skippable sections followed by a written frame header: the frame is found at the offset of its magic number |
| Blocks.LoadBlock | lz4tools/lz4file2.py:184-231 | fewer than 4 bytes, a block cut short, output on the end mark, a missing content checksum, output on the content checksum are the errors, each named; an end mark whose session stays silent (on the checksum too, when the frame has one) is consumed, 4 (+4) bytes; a block consumes 4 + size (+4), is fed whole, and the new buffer is the session's output on exactly those bytes |
| Blocks.LoadEndMark | lz4tools/lz4file2.py:199-217 | the end mark and, when the frame has one, the content checksum are fed to the session; output on either is `UnexpectedOutput`, a missing checksum is `ChecksumTruncated`, and otherwise the end mark is consumed, moving the cursor 4 or 8 bytes |
| Blocks.LoadData | lz4tools/lz4file2.py:219-231 | a block is read back from its size prefix as one chunk of 4 + size (+4) bytes; a short chunk is an error; the new buffer is the session's output on exactly that chunk |
| Blocks.BlockSizeMask | lz4tools/lz4file2.py:193-194 | the block size (`LE32 & 0x7fffffff`) is the prefix's value with the top bit of its last byte cleared: below 2^31, the value itself when bit 31 is clear, 2^31 less when it is set |
| Blocks.WrittenBlockSize | lz4tools/lz4file2.py:193-194 | the size prefix of a written block reads back as its payload length, whatever bit 31 says |
| Blocks.LoadsWrittenBlock | lz4tools/lz4file2.py:193-231 | a written block, compressed or stored (bit 31), is loaded as one chunk and moves the cursor past it |
| Blocks.LoadsEndMark | lz4tools/lz4file2.py:199-217 | a zero prefix without content checksum is consumed alone |
| Blocks.BlockWalk | lz4tools/lz4file2.py:316-329 | every listed block lies after the walk's start and has a positive size |
| Blocks.PrintBlocks | lz4tools/lz4file2.py:310-331 | the walk starts after the frame header: every listed block lies past the header and its size prefix and has a positive size, and a frame without room for a first prefix is `BlockTruncated` |
| Blocks.WalkAgreesWithLoad | lz4tools/lz4file2.py:310-331 | the walk of `print_blocks` and the loader apply the same size rule: the walk stops where the loader consumes the end mark, and continues from the loader's cursor after a block |
| Lz4File.Open | lz4tools/lz4file2.py:32-39 | a fresh reader is valid, at position 0, with nothing pending and nothing fed |
| Lz4File.LoadFrame | lz4tools/lz4file2.py:159-182 | a scan error is the step's error; no more frames ends the read at the end of the file with the frames and the session untouched; a found frame whose header makes the session output anything is `UnexpectedOutput`; otherwise the found frame is appended and made current, its header bytes are the one chunk fed, nothing is pending and the file cursor lands after the header |
| Lz4File.LoadsFoundFrame | lz4tools/lz4file2.py:159-182 | when the scan finds a frame and its header decodes to nothing, the frame is appended and made current, the buffer is cleared, the cursor lands just after the header, and the header bytes are the only chunk fed |
| Lz4File.LoadBlockStep | lz4tools/lz4file2.py:184-231 | a loader error is the step's error; the end mark marks exactly the current frame empty and leaves nothing pending; a block leaves the frames alone, resets the buffer cursor to 0 and makes the session's output on the block's bytes the buffer; either way the frame index and frame count stay, and the file cursor advances |
| Lz4File.EndMarkAdvances | lz4tools/lz4file2.py:199-217 | consuming the end mark marks only the current frame empty and leaves the buffer drained |
| Lz4File.MarkEmpty | lz4tools/lz4file2.py:217 | marking the current frame empty changes no other frame and keeps every frame well formed |
| Lz4File.BlockAdvances | lz4tools/lz4file2.py:228-231 | a decoded block replaces the buffer and resets its cursor |
| Lz4File.LoadNext | lz4tools/lz4file2.py:72-80 | the refill branch of `read`: a block of the current frame if it has any left, else the next frame |
| Lz4File.Taken | lz4tools/lz4file2.py:63-67 | one copy out of the buffer takes at least one byte: everything pending for an unbounded read, otherwise `min(size - cpt, pending)` bytes |
| Lz4File.CopySplitsPending | lz4tools/lz4file2.py:63-69 | the bytes copied are a prefix of what was pending, and what was pending is those bytes followed by what is still pending; only the buffer cursor moves, strictly forward, and the state stays valid |
| Lz4File.Pump | lz4tools/lz4file2.py:51-84 | the loop collects at most the requested number of bytes and stops in a valid state on the same file |
| Lz4File.PumpStopsAtEnd | lz4tools/lz4file2.py:58-80 | a read that returns fewer bytes than asked, or an unbounded read, ends with the file exhausted |
| Lz4File.PumpConserves | lz4tools/lz4file2.py:58-80 | pending bytes plus the decoder's output during a read equal the bytes returned plus the bytes left pending |
| Lz4File.PumpAtEnd | lz4tools/lz4file2.py:165-170 | once the file has ended every read returns nothing and stays at the end |
| Lz4File.PumpPrefix | lz4tools/lz4file2.py:58-80 | read(n) returns the first n bytes of what read(None) returns, and read(None) from where it stopped returns the rest |
| Lz4File.PumpComposes | lz4tools/lz4file2.py:58-80 | whenever read(a + b) succeeds, read(a) then read(b) succeed and return the same bytes |
| Lz4File.PumpSplits | lz4tools/lz4file2.py:58-80 | the bytes of a successful bounded read are those of any split of it into two reads, whether or not the rest of the file would read |
| Lz4File.ReadAllDelivers | lz4tools/lz4file2.py:51-84 | reading a whole file from a fresh reader returns exactly the decoder's output on every chunk fed, and ends at the end of the file |
| Lz4File.LoadStep | lz4tools/lz4file2.py:72-80 | one refill of the loop either fails with the read's error, ends the read with what it has, or keeps the loop invariant while advancing the file cursor |
| Lz4File.Read | lz4tools/lz4file2.py:51-84 | the loop of `read` fails exactly when the recursive reference fails, returns its bytes (at most `size`), and advances the logical position by the number of bytes returned |
| Lz4File.PumpLoadsBlock | lz4tools/lz4file2.py:72-75 | with the buffer drained and the current frame not empty, the loop goes on from the state after loading one block |
| Lz4File.PumpLoadsFrame | lz4tools/lz4file2.py:77-80 | with the buffer drained and no current frame to load from, the loop goes on from the state after moving to the next frame |
| Scenario.FindsTheFrame | lz4tools/lz4file2.py:118-154 | in a file written as skippable sections, a header, one block and the end mark, the scan from the start skips the sections and finds the written frame at its magic, with the header length the writer wrote |
| Scenario.FrameStep | lz4tools/lz4file2.py:159-182 | the first refill of such a file appends the found frame and feeds exactly its header |
| Scenario.OpensTheFrame | lz4tools/lz4file2.py:58-80 | reading such a file from the start reads on from the state with the header loaded |
| Scenario.BlockStep | lz4tools/lz4file2.py:219-231 | the next refill feeds the whole written block and puts the session's output on it in the buffer |
| Scenario.BlockAtCursor | lz4tools/lz4file2.py:219-231 | in any file, a written block at the cursor of the current frame is loaded in one step: its decoded output becomes the buffer, the cursor moves past it, and it is the one chunk fed |
| Scenario.DecodesTheBlock | lz4tools/lz4file2.py:72-75 | reading on from the loaded header reads on from the state holding the decoded block |
| Scenario.DrainsTheBlock | lz4tools/lz4file2.py:60-70 | an unbounded read from a full buffer returns the whole buffer followed by what reading on from the drained buffer returns |
| Scenario.EndMarkStep | lz4tools/lz4file2.py:199-217 | after the block, the refill consumes the end mark and marks the frame empty |
| Scenario.EndMarkAtCursor | lz4tools/lz4file2.py:199-217 | in any file, an end mark at the cursor of a frame without content checksum, on which the session is silent, marks only that frame empty, moves the cursor by 4 and feeds the mark |
| Scenario.ClosesTheFrame | lz4tools/lz4file2.py:58-80 | after the drained block, reading on returns nothing and ends at the end of the file |
| Scenario.ReadsOneBlockFile | lz4tools/lz4file2.py:51-84 | `read()` on a file of skippable sections followed by one frame of one block returns exactly the session's output on that block, whatever the sections hold, and ends at the end of the file |
| Bytes.DecodeEncode | lz4tools/lz4file2.py:128 | a written little-endian value reads back as itself |
| Bytes.EncodeDecode | lz4tools/lz4file2.py:266 | a little-endian byte string is rewritten unchanged from its value |

## Left out

- The decompressor: `lz4f.decompressFrame` and the decompression context are a `Decoder` parameter. Its output is only required to be empty where lines 181, 202 and 214 check it.
- File I/O: the file is a byte sequence with a cursor. A seek past the end is a cursor beyond the sequence, and a read there returns nothing.
- Mode parsing and the "not open for reading" check (lines 12-29, 52-53): the model is always a reader opened on a whole file.
- `write`, `seek`, `close`, `__enter__`, `__exit__`, the name, file and pos properties, and `__main__`: they either do nothing or are not part of reading.
- Header, block and content checksum verification: the source does not check them either (line 211 and line 269). `frameChecksum` is kept as the last byte of the window, as line 268 reads it.
- The dictionary ID flag and reserved bits: the source never reads them.
- The `pos` argument of `__readFrame` (lines 112-114, 156-157): every caller passes none.
- Lines 175-176, where an already discovered frame is reused: `Lz4File.Valid` keeps the frame index at or past the last discovered frame, so this branch is unreachable.
- Lz4File.LoadFrame: the `break` at line 170 sits outside any loop, which Python rejects when it compiles the module. The model follows the evident intent: no more frames ends the `read` loop with the bytes collected so far.
- Lz4File.Read: after an error the source has already changed part of the reader, for instance the frame index or the cleared buffer. The model returns only the error, not that partial state.
- Lz4File.Pump: `read(None)` in the source is an unbounded loop. The model ends it when the file is exhausted, so the lemmas speak of reads that end.
- Masks and shifts (`& 0xFFFFFFF0`, `& 0x7fffffff`, `>> k & 1`) are written as integer division and remainder on unsigned values. `Scanner.SkippableRange` and `Blocks.BlockSizeMask` state what the two masks select; no bit-vector form is modelled.
- Printing in `print_blocks` and `__readFrame`: `Blocks.BlockWalk` returns the (position, size) pairs that would be printed.
- Scenario.ReadsOneBlockFile: covers only skippable sections followed by a single frame of one block without content checksum, and assumes the session outputs nothing for the header and the end mark. Files of several frames or blocks have no end-to-end lemma: `Lz4File.ReadAllDelivers` relates the output to the chunks fed, and which chunk each step feeds is stated step by step by `Lz4File.LoadFrame` and `Lz4File.LoadBlockStep`.
- Python 2 string concatenation of the blocks in `read` is sequence concatenation.
