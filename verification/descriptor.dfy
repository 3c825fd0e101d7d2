/** The frame descriptor (`Lz4Frame.__init__`): FLG and BD bytes, an optional
    64-bit content size and the header checksum byte, turned into typed fields. */
module Descriptor {
  import opened Bytes
  import opened Results

  /** The only FLG version the reader accepts. */
  const SupportedVersion := 1

  /** Maximum block sizes for the block-size codes 4, 5, 6 and 7. */
  const BlockSizeTable: seq<nat> := [64 * 1024, 256 * 1024, 1 * 1024 * 1024, 4 * 1024 * 1024]

  /** A parsed frame. `filePos` is the offset of its magic number; `empty`
      records that its end mark has been consumed. */
  datatype Frame = Frame(
    filePos: nat,
    version: nat,
    blockIndependence: bool,
    blockChecksum: bool,
    contentSizeFlag: bool,
    contentChecksum: bool,
    blockSizeCode: nat,
    blockSizeBytes: nat,
    contentSize: Option<nat>,
    frameChecksum: byte,
    headerSize: nat,
    empty: bool)

  function Pow2(k: nat): (r: nat)
    ensures r >= 1
  {
    if k == 0 then 1 else 2 * Pow2(k - 1)
  }

  /** Bit `k` of `b`, i.e. `((b >> k) & 1) != 0`. */
  function Bit(b: byte, k: nat): bool
    requires k < 8
  {
    (b as int / Pow2(k)) % 2 == 1
  }

  /** `FLG >> 6` */
  function Version(flg: byte): nat {
    flg as int / 64
  }

  /** `(BD >> 4) & 7` */
  function BlockSizeCode(bd: byte): nat {
    (bd as int / 16) % 8
  }

  /** What a parsed frame always satisfies: version 1, a block-size code in
      4..7 whose maximum block size is 2^(8 + 2 * code), a content size exactly
      when the flag says so, and a header of 7 bytes plus 8 for the content size. */
  ghost predicate WellFormed(f: Frame) {
    && f.version == SupportedVersion
    && 4 <= f.blockSizeCode <= 7
    && f.blockSizeBytes == Pow2(8 + 2 * f.blockSizeCode)
    && (f.contentSize.Some? <==> f.contentSizeFlag)
    && (f.contentSize.Some? ==> f.contentSize.value < Pow256(8))
    && f.headerSize == 4 + 3 + (if f.contentSizeFlag then 8 else 0)
  }

  /** `TABBLOCKSIZE[code - 4]`: each code quadruples the maximum block size. */
  function MaxBlockSize(code: nat): (r: nat)
    requires 4 <= code <= 7
    ensures r == Pow2(8 + 2 * code)
  {
    assert Pow2(4) == 16;
    assert Pow2(8) == 256;
    assert Pow2(12) == 4096;
    assert Pow2(16) == 64 * 1024;
    assert Pow2(18) == 256 * 1024;
    assert Pow2(20) == 1024 * 1024;
    assert Pow2(22) == 4 * 1024 * 1024;
    BlockSizeTable[code - 4]
  }

  /** The little-endian 64-bit content size in bytes 2..9 of the window. */
  function ContentSizeField(raw: seq<byte>): (r: nat)
    requires |raw| >= 10
    ensures r < Pow256(8)
    ensures ToLittleEndian(r, 8) == raw[2..10]
  {
    EncodeDecode(raw[2..10]);
    LittleEndian(raw[2..10])
  }

  /** Parses the descriptor window `raw` (the up to 11 bytes after the magic
      number) of the frame whose magic number is at `filePos`. */
  function ParseDescriptor(raw: seq<byte>, filePos: nat): (r: Result<Frame>)
    ensures r.Ok? ==>
              && WellFormed(r.value)
              && r.value.filePos == filePos
              && !r.value.empty
              && r.value.headerSize <= 4 + |raw|
              && r.value.blockIndependence == Bit(raw[0], 5)
              && r.value.blockChecksum == Bit(raw[0], 4)
              && r.value.contentSizeFlag == Bit(raw[0], 3)
              && r.value.contentChecksum == Bit(raw[0], 2)
              && r.value.blockSizeCode == BlockSizeCode(raw[1])
              && (r.value.contentSizeFlag ==> r.value.contentSize == Some(LittleEndian(raw[2..10])))
              && r.value.frameChecksum == raw[|raw| - 1]
  {
    if |raw| < 3 then Err(FrameTruncated)
    else
      var flg := raw[0];
      var bd := raw[1];
      var version := Version(flg);
      var code := BlockSizeCode(bd);
      if version != SupportedVersion then Err(UnsupportedVersion)
      else if code < 4 || code > 7 then Err(InvalidBlockSize)
      else if Bit(flg, 3) && |raw| < 11 then Err(FrameTruncated)
      else
        var contentSize := if Bit(flg, 3) then Some(ContentSizeField(raw)) else None;
        Ok(Frame(
          filePos := filePos,
          version := version,
          blockIndependence := Bit(flg, 5),
          blockChecksum := Bit(flg, 4),
          contentSizeFlag := Bit(flg, 3),
          contentChecksum := Bit(flg, 2),
          blockSizeCode := code,
          blockSizeBytes := MaxBlockSize(code),
          contentSize := contentSize,
          frameChecksum := raw[|raw| - 1],
          headerSize := 4 + 3 + (if Bit(flg, 3) then 8 else 0),
          empty := false))
  }

  /** Which windows the parser rejects, and why: fewer than three bytes, then
      a version other than 1, then a block-size code outside 4..7, then a
      content size announced but cut short. Every other window is accepted. */
  lemma ParseOutcomes(raw: seq<byte>, filePos: nat)
    ensures |raw| < 3 ==> ParseDescriptor(raw, filePos) == Err(FrameTruncated)
    ensures |raw| >= 3 && Version(raw[0]) != SupportedVersion ==> ParseDescriptor(raw, filePos) == Err(UnsupportedVersion)
    ensures (|raw| >= 3 && Version(raw[0]) == SupportedVersion && !(4 <= BlockSizeCode(raw[1]) <= 7))
              ==> ParseDescriptor(raw, filePos) == Err(InvalidBlockSize)
    ensures (|raw| >= 3 && Version(raw[0]) == SupportedVersion && 4 <= BlockSizeCode(raw[1]) <= 7
             && Bit(raw[0], 3) && |raw| < 11)
              ==> ParseDescriptor(raw, filePos) == Err(FrameTruncated)
    ensures ParseDescriptor(raw, filePos).Ok? <==>
              && |raw| >= 3
              && Version(raw[0]) == SupportedVersion
              && 4 <= BlockSizeCode(raw[1]) <= 7
              && (Bit(raw[0], 3) ==> |raw| >= 11)
  {
  }

  /** The fields a writer chooses for a frame descriptor. */
  datatype Descriptor = Descriptor(
    blockIndependence: bool,
    blockChecksum: bool,
    contentChecksum: bool,
    blockSizeCode: nat,
    contentSize: Option<nat>,
    headerChecksum: byte)

  ghost predicate Encodable(d: Descriptor) {
    && 4 <= d.blockSizeCode <= 7
    && (d.contentSize.Some? ==> d.contentSize.value < Pow256(8))
  }

  /** The FLG byte: version 01, then the four flags at bits 5, 4, 3 and 2;
      reserved bits 1 and 0 clear. */
  function FlagByte(d: Descriptor): byte {
    (64
     + (if d.blockIndependence then 32 else 0)
     + (if d.blockChecksum then 16 else 0)
     + (if d.contentSize.Some? then 8 else 0)
     + (if d.contentChecksum then 4 else 0)) as byte
  }

  /** The descriptor as a writer lays it out: FLG, BD, the optional 8-byte
      content size, and the header checksum byte. */
  function EncodeDescriptor(d: Descriptor): (r: seq<byte>)
    requires Encodable(d)
  {
    [FlagByte(d), (d.blockSizeCode * 16) as byte]
    + (if d.contentSize.Some? then ToLittleEndian(d.contentSize.value, 8) else [])
    + [d.headerChecksum]
  }

  /** The FLG byte carries version 1 and each flag at its bit. */
  lemma FlagByteFields(d: Descriptor)
    ensures Version(FlagByte(d)) == SupportedVersion
    ensures Bit(FlagByte(d), 5) == d.blockIndependence
    ensures Bit(FlagByte(d), 4) == d.blockChecksum
    ensures Bit(FlagByte(d), 3) == d.contentSize.Some?
    ensures Bit(FlagByte(d), 2) == d.contentChecksum
  {
  }

  /** `f` carries exactly the choices of `d` for the frame at `filePos`. */
  ghost predicate Describes(f: Frame, d: Descriptor, filePos: nat) {
    && f.filePos == filePos
    && f.blockIndependence == d.blockIndependence
    && f.blockChecksum == d.blockChecksum
    && f.contentChecksum == d.contentChecksum
    && f.blockSizeCode == d.blockSizeCode
    && f.contentSize == d.contentSize
    && !f.empty
  }

  /** Parsing a written descriptor, whatever bytes follow it in the window,
      recovers every field the writer chose. The checksum byte is the last
      byte of the window, so it is the header checksum only when nothing
      follows the descriptor. */
  lemma ParseEncoded(d: Descriptor, following: seq<byte>, filePos: nat)
    requires Encodable(d)
    ensures var r := ParseDescriptor(EncodeDescriptor(d) + following, filePos);
            && r.Ok?
            && Describes(r.value, d, filePos)
            && r.value.headerSize == 4 + |EncodeDescriptor(d)|
            && (following == [] ==> r.value.frameChecksum == d.headerChecksum)
            && (following != [] ==> r.value.frameChecksum == following[|following| - 1])
  {
    var raw := EncodeDescriptor(d) + following;
    EncodedLayout(d, following);
    ParseOutcomes(raw, filePos);
    FlagByteFields(d);
    if d.contentSize.Some? {
      DecodeEncode(d.contentSize.value, 8);
    }
  }

  /** Where each written field sits in a window that starts with a written
      descriptor. */
  lemma EncodedLayout(d: Descriptor, following: seq<byte>)
    requires Encodable(d)
    ensures var raw := EncodeDescriptor(d) + following;
            && |EncodeDescriptor(d)| == 3 + (if d.contentSize.Some? then 8 else 0)
            && raw[0] == FlagByte(d)
            && BlockSizeCode(raw[1]) == d.blockSizeCode
            && (d.contentSize.Some? ==> raw[2..10] == ToLittleEndian(d.contentSize.value, 8))
            && raw[|raw| - 1] == (if following == [] then d.headerChecksum else following[|following| - 1])
  {
    var raw := EncodeDescriptor(d) + following;
    assert raw[1] == (d.blockSizeCode * 16) as byte;
  }

  /** The writer's choices a parsed frame records, its checksum byte taken as
      the header checksum. */
  function DescriptorOf(f: Frame): Descriptor {
    Descriptor(f.blockIndependence, f.blockChecksum, f.contentChecksum,
               f.blockSizeCode, f.contentSize, f.frameChecksum)
  }

  /** FLG bits 1 and 0, BD bit 7 and BD bits 3 to 0 are reserved; the parser
      never looks at them. */
  predicate ReservedBitsClear(raw: seq<byte>) {
    |raw| >= 2 && raw[0] % 4 == 0 && raw[1] % 16 == 0 && raw[1] < 128
  }

  /** The FLG byte is determined by its version and flag bits once the
      reserved bits are clear. */
  lemma FlagByteOfBits(flg: byte, d: Descriptor)
    requires flg % 4 == 0 && Version(flg) == SupportedVersion
    requires Bit(flg, 5) == d.blockIndependence
    requires Bit(flg, 4) == d.blockChecksum
    requires Bit(flg, 3) == d.contentSize.Some?
    requires Bit(flg, 2) == d.contentChecksum
    ensures FlagByte(d) == flg
  {
    assert Pow2(2) == 4 && Pow2(3) == 8 && Pow2(4) == 16 && Pow2(5) == 32;
    FlagDigits(flg as int);
  }

  /** A multiple of four between 64 and 127 is 64 plus its bits 5 to 2. */
  lemma FlagDigits(x: int)
    requires 64 <= x < 128 && x % 4 == 0
    ensures x == 64 + 32 * ((x / 32) % 2) + 16 * ((x / 16) % 2) + 8 * ((x / 8) % 2) + 4 * ((x / 4) % 2)
  {
  }

  /** Conversely, an accepted window that holds exactly one descriptor with
      its reserved bits clear is what the writer of the parsed fields lays out. */
  lemma EncodeParsed(raw: seq<byte>, filePos: nat)
    requires ParseDescriptor(raw, filePos).Ok?
    requires ReservedBitsClear(raw)
    requires |raw| + 4 == ParseDescriptor(raw, filePos).value.headerSize
    ensures Encodable(DescriptorOf(ParseDescriptor(raw, filePos).value))
    ensures EncodeDescriptor(DescriptorOf(ParseDescriptor(raw, filePos).value)) == raw
  {
    var f := ParseDescriptor(raw, filePos).value;
    var d := DescriptorOf(f);
    FlagByteOfBits(raw[0], d);
    assert (d.blockSizeCode * 16) as byte == raw[1];
    var e := EncodeDescriptor(d);
    if f.contentSizeFlag {
      assert f.contentSize == Some(ContentSizeField(raw));
      assert ToLittleEndian(f.contentSize.value, 8) == raw[2..10];
      assert e == [raw[0], raw[1]] + raw[2..10] + [raw[10]];
    } else {
      assert e == [raw[0], raw[1]] + [raw[2]];
    }
  }
}
