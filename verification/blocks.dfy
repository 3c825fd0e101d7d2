/** Block iteration inside one frame (`Lz4File.__loadBlock` and the walk of
    `Lz4Frame.print_blocks`): a little-endian size prefix whose bit 31 is
    ignored, a size of 0 as the end mark, otherwise the prefix, the block and
    its optional checksum fed to the decompressor as one chunk. */
module Blocks {
  import opened Bytes
  import opened Results
  import opened Descriptor
  import opened Engine

  /** `LE32 & 0x7fffffff`: the block size with bit 31 cleared. */
  function BlockSize(prefix: seq<byte>): nat
    requires |prefix| == 4
  {
    LittleEndian(prefix) % 0x8000_0000
  }

  /** The value of a 4-byte little-endian string, byte by byte. */
  lemma LittleEndian4(s: seq<byte>)
    requires |s| == 4
    ensures LittleEndian(s) == s[0] as nat + 0x100 * s[1] as nat + 0x1_0000 * s[2] as nat + 0x100_0000 * s[3] as nat
  {
    var t3 := LittleEndian(s[3..]);
    assert s[3..][1..] == [] && s[3..][0] == s[3];
    assert LittleEndian(s[3..][1..]) == 0;
    assert t3 == s[3] as nat;
    assert s[2..][1..] == s[3..];
    var t2 := LittleEndian(s[2..]);
    assert t2 == s[2] as nat + 256 * t3;
    assert s[1..][1..] == s[2..];
    var t1 := LittleEndian(s[1..]);
    assert t1 == s[1] as nat + 256 * t2;
  }

  /** Clearing bit 31 is clearing the top bit of the last prefix byte: the
      size is below 2^31, equals the prefix's value when bit 31 is clear, and
      is 2^31 less when it is set. */
  lemma BlockSizeMask(prefix: seq<byte>)
    requires |prefix| == 4
    ensures BlockSize(prefix) < 0x8000_0000
    ensures BlockSize(prefix) == LittleEndian(prefix[..3] + [prefix[3] % 128])
    ensures LittleEndian(prefix) < 0x8000_0000 ==> BlockSize(prefix) == LittleEndian(prefix)
    ensures LittleEndian(prefix) >= 0x8000_0000 ==> BlockSize(prefix) == LittleEndian(prefix) - 0x8000_0000
  {
    var low := prefix[..3] + [prefix[3] % 128];
    LittleEndian4(prefix);
    LittleEndian4(low);
    var d := prefix[3] as nat;
    assert LittleEndian(prefix) == LittleEndian(low) + 0x8000_0000 * (d / 128);
    assert LittleEndian(low) < 0x8000_0000;
  }

  function ChecksumLength(present: bool): nat {
    if present then 4 else 0
  }

  /** The outcome of loading at the cursor: the end mark (with its content
      checksum) was consumed, or a block was decoded to `output`. Both carry the
      new cursor and the chunks fed to the session so far. */
  datatype Loaded =
    | EndMark(cursor: nat, fed: seq<seq<byte>>)
    | Block(output: seq<byte>, cursor: nat, fed: seq<seq<byte>>)

  /** Loads what follows the cursor `pos` in `frame`, feeding it to the session
      that has seen `fed`. */
  function LoadBlock(data: seq<byte>, pos: nat, frame: Frame, fed: seq<seq<byte>>, decode: Decoder): (r: Result<Loaded>)
    ensures pos + 4 > |data| ==> r == Err(BlockTruncated)
    ensures r.Ok? ==>
              && pos + 4 <= |data|
              && pos < r.value.cursor <= |data|
              && |fed| <= |r.value.fed|
              && r.value.fed[..|fed|] == fed
              && Concat(r.value.fed[|fed|..]) == data[pos..r.value.cursor]
              && Outputs(decode, fed, r.value.fed[|fed|..]) == (if r.value.Block? then r.value.output else [])
    ensures r.Ok? && r.value.EndMark? ==>
              && pos + 4 <= |data|
              && BlockSize(data[pos..pos + 4]) == 0
              && r.value.cursor == pos + 4 + ChecksumLength(frame.contentChecksum)
    ensures r.Ok? && r.value.Block? ==>
              && pos + 4 <= |data|
              && BlockSize(data[pos..pos + 4]) > 0
              && r.value.cursor == pos + 4 + BlockSize(data[pos..pos + 4]) + ChecksumLength(frame.blockChecksum)
              && r.value.cursor <= |data|
              && r.value.fed == fed + [data[pos..r.value.cursor]]
    ensures (pos + 4 <= |data| && BlockSize(data[pos..pos + 4]) > 0
             && pos + 4 + BlockSize(data[pos..pos + 4]) + ChecksumLength(frame.blockChecksum) > |data|)
            ==> r == Err(BlockTruncated)
    ensures (pos + 4 <= |data| && BlockSize(data[pos..pos + 4]) == 0 && decode(fed, data[pos..pos + 4]) != [])
            ==> r == Err(UnexpectedOutput)
    ensures (pos + 4 <= |data| && BlockSize(data[pos..pos + 4]) == 0 && decode(fed, data[pos..pos + 4]) == []
             && frame.contentChecksum && pos + 8 > |data|)
            ==> r == Err(ChecksumTruncated)
    ensures (pos + 4 <= |data| && BlockSize(data[pos..pos + 4]) == 0 && decode(fed, data[pos..pos + 4]) == []
             && frame.contentChecksum && pos + 8 <= |data|
             && decode(fed + [data[pos..pos + 4]], data[pos + 4..pos + 8]) != [])
            ==> r == Err(UnexpectedOutput)
    ensures (pos + 4 <= |data| && BlockSize(data[pos..pos + 4]) == 0 && decode(fed, data[pos..pos + 4]) == []
             && (!frame.contentChecksum
                 || (pos + 8 <= |data| && decode(fed + [data[pos..pos + 4]], data[pos + 4..pos + 8]) == [])))
            ==> r.Ok? && r.value.EndMark?
    ensures r.Ok? && r.value.Block? ==> r.value.output == decode(fed, data[pos..r.value.cursor])
  {
    var raw := ReadBytes(data, pos, 4);
    if |raw| != 4 then Err(BlockTruncated)
    else
      assert raw == data[pos..pos + 4];
      if BlockSize(raw) == 0 then LoadEndMark(data, pos, frame, fed, decode)
      else LoadData(data, pos, frame, fed, decode)
  }

  /** A size prefix of 0: push the end mark, and the content checksum if the
      frame has one, into the session, which must output nothing for them. */
  function LoadEndMark(data: seq<byte>, pos: nat, frame: Frame, fed: seq<seq<byte>>, decode: Decoder): (r: Result<Loaded>)
    requires pos + 4 <= |data| && BlockSize(data[pos..pos + 4]) == 0
    ensures r.Ok? ==>
              && r.value.EndMark?
              && r.value.cursor == pos + 4 + ChecksumLength(frame.contentChecksum)
              && r.value.cursor <= |data|
              && |fed| <= |r.value.fed|
              && r.value.fed[..|fed|] == fed
              && Concat(r.value.fed[|fed|..]) == data[pos..r.value.cursor]
              && Outputs(decode, fed, r.value.fed[|fed|..]) == []
    ensures decode(fed, data[pos..pos + 4]) != [] ==> r == Err(UnexpectedOutput)
    ensures (decode(fed, data[pos..pos + 4]) == [] && frame.contentChecksum && pos + 8 > |data|)
            ==> r == Err(ChecksumTruncated)
    ensures (decode(fed, data[pos..pos + 4]) == [] && frame.contentChecksum && pos + 8 <= |data|
             && decode(fed + [data[pos..pos + 4]], data[pos + 4..pos + 8]) != [])
            ==> r == Err(UnexpectedOutput)
    ensures (decode(fed, data[pos..pos + 4]) == []
             && (!frame.contentChecksum
                 || (pos + 8 <= |data| && decode(fed + [data[pos..pos + 4]], data[pos + 4..pos + 8]) == [])))
            ==> r.Ok?
  {
    var raw := data[pos..pos + 4];
    if decode(fed, raw) != [] then Err(UnexpectedOutput)
    else
      var fed1 := fed + [raw];
      OneChunk(decode, fed, raw);
      if frame.contentChecksum then
        var sum := ReadBytes(data, pos + 4, 4);
        assert pos + 8 <= |data| ==> sum == data[pos + 4..pos + 8];
        if |sum| != 4 then Err(ChecksumTruncated)
        else if decode(fed1, sum) != [] then Err(UnexpectedOutput)
        else
          TwoChunks(decode, fed, raw, sum);
          assert raw + sum == data[pos..pos + 8];
          Ok(EndMark(pos + 8, fed1 + [sum]))
      else
        Ok(EndMark(pos + 4, fed1))
  }

  /** A positive size prefix: go back over it and feed the prefix, the block
      and its checksum to the session as one chunk; its output is the block. */
  function LoadData(data: seq<byte>, pos: nat, frame: Frame, fed: seq<seq<byte>>, decode: Decoder): (r: Result<Loaded>)
    requires pos + 4 <= |data| && BlockSize(data[pos..pos + 4]) > 0
    ensures r.Ok? ==>
              && r.value.Block?
              && r.value.cursor == pos + 4 + BlockSize(data[pos..pos + 4]) + ChecksumLength(frame.blockChecksum)
              && r.value.cursor <= |data|
              && r.value.fed == fed + [data[pos..r.value.cursor]]
              && Concat(r.value.fed[|fed|..]) == data[pos..r.value.cursor]
              && Outputs(decode, fed, r.value.fed[|fed|..]) == r.value.output
              && r.value.output == decode(fed, data[pos..r.value.cursor])
    ensures pos + 4 + BlockSize(data[pos..pos + 4]) + ChecksumLength(frame.blockChecksum) > |data|
            ==> r == Err(BlockTruncated)
  {
    var toRead := 4 + BlockSize(data[pos..pos + 4]) + ChecksumLength(frame.blockChecksum);
    // the prefix is read again with the block: seek back to it
    var chunk := ReadBytes(data, pos, toRead);
    if |chunk| != toRead then Err(BlockTruncated)
    else
      OneChunk(decode, fed, chunk);
      Ok(Block(decode(fed, chunk), pos + toRead, fed + [chunk]))
  }

  /** Feeding one chunk: the session's output on it, and the chunk itself. */
  lemma OneChunk(decode: Decoder, fed: seq<seq<byte>>, c: seq<byte>)
    ensures (fed + [c])[|fed|..] == [c]
    ensures Concat([c]) == c
    ensures Outputs(decode, fed, [c]) == decode(fed, c)
  {
    assert (fed + [c])[|fed|..] == [c];
    assert [c][1..] == [];
    assert Concat([c]) == c + Concat([]);
  }

  /** Feeding two chunks: the session's output on each, and the two laid end
      to end. */
  lemma TwoChunks(decode: Decoder, fed: seq<seq<byte>>, a: seq<byte>, b: seq<byte>)
    ensures (fed + [a] + [b])[|fed|..] == [a, b]
    ensures Concat([a, b]) == a + b
    ensures Outputs(decode, fed, [a, b]) == decode(fed, a) + decode(fed + [a], b)
  {
    assert (fed + [a] + [b])[|fed|..] == [a, b];
    assert [a, b][1..] == [b];
    OneChunk(decode, fed + [a], b);
    assert Concat([a, b]) == a + Concat([b]);
    assert Outputs(decode, fed, [a, b]) == decode(fed, a) + Outputs(decode, fed + [a], [b]);
  }

  /** A block as a writer lays it out: the size prefix (bit 31 set for a
      block stored uncompressed), the payload, the block checksum if the frame
      has them. */
  datatype RawBlock = RawBlock(uncompressed: bool, payload: seq<byte>, checksum: seq<byte>)

  ghost predicate EncodableBlock(b: RawBlock, frame: Frame) {
    0 < |b.payload| < 0x8000_0000 && |b.checksum| == ChecksumLength(frame.blockChecksum)
  }

  function EncodeBlock(b: RawBlock): (r: seq<byte>)
    requires |b.payload| < 0x8000_0000
  {
    assert Pow256(4) == 0x1_0000_0000;
    ToLittleEndian(|b.payload| + (if b.uncompressed then 0x8000_0000 else 0), 4) + b.payload + b.checksum
  }

  /** A written block is loaded whole, as one chunk, whatever its bit 31 says. */
  lemma LoadsWrittenBlock(data: seq<byte>, pos: nat, frame: Frame, fed: seq<seq<byte>>, decode: Decoder, b: RawBlock)
    requires EncodableBlock(b, frame)
    requires pos + |EncodeBlock(b)| <= |data|
    requires data[pos..pos + |EncodeBlock(b)|] == EncodeBlock(b)
    ensures var r := LoadBlock(data, pos, frame, fed, decode);
            && r.Ok? && r.value.Block?
            && r.value.output == decode(fed, EncodeBlock(b))
            && r.value.cursor == pos + |EncodeBlock(b)|
            && r.value.fed == fed + [EncodeBlock(b)]
  {
    var e := EncodeBlock(b);
    WrittenBlockSize(data, pos, b);
    assert |e| == 4 + |b.payload| + ChecksumLength(frame.blockChecksum);
    assert ReadBytes(data, pos, |e|) == e;
    assert LoadBlock(data, pos, frame, fed, decode) == LoadData(data, pos, frame, fed, decode);
  }

  /** The size prefix of a written block reads back as its payload length,
      bit 31 dropped. */
  lemma WrittenBlockSize(data: seq<byte>, pos: nat, b: RawBlock)
    requires 0 < |b.payload| < 0x8000_0000
    requires pos + |EncodeBlock(b)| <= |data|
    requires data[pos..pos + |EncodeBlock(b)|] == EncodeBlock(b)
    ensures |EncodeBlock(b)| == 4 + |b.payload| + |b.checksum|
    ensures pos + 4 <= |data| && BlockSize(data[pos..pos + 4]) == |b.payload|
  {
    var e := EncodeBlock(b);
    assert Pow256(4) == 0x1_0000_0000;
    var v := |b.payload| + (if b.uncompressed then 0x8000_0000 else 0);
    var prefix := ToLittleEndian(v, 4);
    assert e[..4] == prefix;
    SliceOfSlice(data, pos, pos + |e|, 0, 4);
    DecodeEncode(v, 4);
  }

  /** The end mark of a frame without content checksum is consumed on its own,
      provided the session outputs nothing for it. */
  lemma LoadsEndMark(data: seq<byte>, pos: nat, frame: Frame, fed: seq<seq<byte>>, decode: Decoder)
    requires !frame.contentChecksum
    requires pos + 4 <= |data| && data[pos..pos + 4] == [0, 0, 0, 0]
    requires decode(fed, [0, 0, 0, 0]) == []
    ensures LoadBlock(data, pos, frame, fed, decode) == Ok(EndMark(pos + 4, fed + [[0, 0, 0, 0]]))
  {
    assert LittleEndian(data[pos..pos + 4]) == 0;
  }

  /** `print_blocks` from the cursor `pos`: for each block up to the end mark,
      the offset just after its size prefix and its size. */
  function BlockWalk(data: seq<byte>, pos: nat, blockChecksum: bool): (r: Result<seq<(nat, nat)>>)
    ensures r.Ok? ==> forall k :: 0 <= k < |r.value| ==> pos + 4 <= r.value[k].0 && r.value[k].1 > 0
    decreases |data| - Min(pos, |data|)
  {
    var raw := ReadBytes(data, pos, 4);
    if |raw| != 4 then Err(BlockTruncated)
    else
      var size := BlockSize(raw);
      if size == 0 then Ok([])
      else
        var rest :- BlockWalk(data, pos + 4 + size + ChecksumLength(blockChecksum), blockChecksum);
        Ok([(pos + 4, size)] + rest)
  }

  /** The blocks `print_blocks` lists for a frame: the walk from the end of
      its header. */
  function PrintBlocks(data: seq<byte>, frame: Frame): (r: Result<seq<(nat, nat)>>)
    ensures r.Ok? ==> forall k :: 0 <= k < |r.value| ==>
              frame.filePos + frame.headerSize + 4 <= r.value[k].0 && r.value[k].1 > 0
    ensures frame.filePos + frame.headerSize + 4 > |data| ==> r == Err(BlockTruncated)
  {
    BlockWalk(data, frame.filePos + frame.headerSize, frame.blockChecksum)
  }

  /** The walk and the loader apply the same size rule: where the loader
      consumes the end mark the walk stops, and where it loads a block the
      walk lists that block and carries on from the loader's new cursor. */
  lemma WalkAgreesWithLoad(data: seq<byte>, pos: nat, frame: Frame, fed: seq<seq<byte>>, decode: Decoder)
    requires LoadBlock(data, pos, frame, fed, decode).Ok?
    ensures var l := LoadBlock(data, pos, frame, fed, decode).value;
            var walk := BlockWalk(data, pos, frame.blockChecksum);
            && (l.EndMark? ==> walk == Ok([]))
            && (l.Block? ==>
                  var rest := BlockWalk(data, l.cursor, frame.blockChecksum);
                  && (rest.Ok? ==> walk == Ok([(pos + 4, BlockSize(data[pos..pos + 4]))] + rest.value))
                  && (rest.Err? ==> walk == rest))
  {
    assert ReadBytes(data, pos, 4) == data[pos..pos + 4];
  }
}
