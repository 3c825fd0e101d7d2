/** Frame discovery (`Lz4File.__readFrame`): read a magic number, skip any
    number of skippable sections by their declared size, reject the legacy and
    unknown magic numbers, and on the frame magic parse the descriptor and
    leave the cursor at the frame's first byte. */
module Scanner {
  import opened Bytes
  import opened Results
  import opened Descriptor

  const FrameMagic: nat := 0x184D2204
  const SkippableMagic0: nat := 0x184D2A50
  const LegacyMagic: nat := 0x184C2102

  /** `magic & 0xFFFFFFF0 == 0x184D2A50` on a 32-bit value: the sixteen magic
      numbers 0x184D2A50 to 0x184D2A5F. */
  predicate IsSkippable(magic: nat) {
    magic - magic % 16 == SkippableMagic0
  }

  /** The mask keeps all but the low four bits, so exactly the sixteen
      values from 0x184D2A50 on are skippable. */
  lemma SkippableRange(magic: nat)
    ensures IsSkippable(magic) <==> SkippableMagic0 <= magic < SkippableMagic0 + 16
  {
  }

  /** The little-endian 32-bit value at offset `p`. */
  function Word(data: seq<byte>, p: nat): nat
    requires p + 4 <= |data|
  {
    LittleEndian(data[p..p + 4])
  }

  /** The outcome of a scan: the end of the file with the cursor where the
      last read left it, or a frame with the cursor back at its magic number. */
  datatype Scan = EndOfStream(cursor: nat) | Found(frame: Frame, cursor: nat)

  /** What a scan from `pos` promises: the end of the file is reported at or
      past both the cursor and the end; a frame is found at or after the
      cursor, well formed, with its header inside the file and the frame magic
      number at its offset. */
  ghost predicate ScanResult(data: seq<byte>, pos: nat, r: Result<Scan>) {
    && (r.Ok? && r.value.EndOfStream? ==> r.value.cursor >= |data| && r.value.cursor >= pos)
    && (r.Ok? && r.value.Found? ==>
          var f := r.value.frame;
          && WellFormed(f)
          && !f.empty
          && r.value.cursor == f.filePos
          && pos <= f.filePos
          && f.filePos + f.headerSize <= |data|
          && Word(data, f.filePos) == FrameMagic)
  }

  /** The next frame at or after the cursor `pos`: the loop of `__readFrame`. */
  function NextFrame(data: seq<byte>, pos: nat): (r: Result<Scan>)
    ensures ScanResult(data, pos, r)
    decreases |data| - Min(pos, |data|), 1
  {
    var raw := ReadBytes(data, pos, 4);
    if |raw| == 0 then Ok(EndOfStream(pos))
    else if |raw| != 4 then Err(FileTruncated)
    else
      assert raw == data[pos..pos + 4];
      var magic := if IsSkippable(LittleEndian(raw)) then SkippableMagic0 else LittleEndian(raw);
      if magic == FrameMagic then FrameAt(data, pos)
      else if magic == LegacyMagic then Err(LegacyFrame)
      else if magic == SkippableMagic0 then SkipSection(data, pos)
      else Err(NotAFrame)
  }

  /** The frame magic number at `pos`: parse the descriptor window after it. */
  function FrameAt(data: seq<byte>, pos: nat): (r: Result<Scan>)
    requires pos + 4 <= |data| && Word(data, pos) == FrameMagic
    ensures ScanResult(data, pos, r)
    ensures r.Ok? ==> r.value.Found?
    ensures ParseDescriptor(ReadBytes(data, pos + 4, 11), pos).Err?
            ==> r == Err(ParseDescriptor(ReadBytes(data, pos + 4, 11), pos).error)
    ensures ParseDescriptor(ReadBytes(data, pos + 4, 11), pos).Ok?
            ==> r == Ok(Found(ParseDescriptor(ReadBytes(data, pos + 4, 11), pos).value, pos))
  {
    var window := ReadBytes(data, pos + 4, 11);
    // the decompressor reads the header itself, so the cursor seeks back to the magic
    var frame :- ParseDescriptor(window, pos);
    Ok(Found(frame, pos))
  }

  /** A skippable magic number at `pos`: skip the section by its declared
      size and scan on. */
  function SkipSection(data: seq<byte>, pos: nat): (r: Result<Scan>)
    requires pos + 4 <= |data|
    ensures ScanResult(data, pos, r)
    decreases |data| - Min(pos, |data|), 0
  {
    var sizeField := ReadBytes(data, pos + 4, 4);
    if |sizeField| != 4 then Err(FileTruncated)
    else NextFrame(data, pos + 8 + LittleEndian(sizeField))
  }

  /** The frame a scan finds is what the descriptor parser makes of the (up
      to) eleven bytes after its magic number. */
  lemma {:induction false} FoundIsParsed(data: seq<byte>, pos: nat)
    requires NextFrame(data, pos).Ok? && NextFrame(data, pos).value.Found?
    ensures var f := NextFrame(data, pos).value.frame;
            && ParseDescriptor(ReadBytes(data, f.filePos + 4, 11), f.filePos).Ok?
            && ParseDescriptor(ReadBytes(data, f.filePos + 4, 11), f.filePos).value == f
    decreases |data| - Min(pos, |data|)
  {
    var raw := ReadBytes(data, pos, 4);
    assert raw == data[pos..pos + 4];
    if IsSkippable(Word(data, pos)) {
      assert NextFrame(data, pos) == SkipSection(data, pos);
      FoundIsParsed(data, pos + 8 + LittleEndian(ReadBytes(data, pos + 4, 4)));
    } else {
      assert NextFrame(data, pos) == FrameAt(data, pos);
    }
  }

  /** How a scan ends on the magic number at the cursor: the end of the file
      (no byte left), truncation (one to three bytes left, or a skippable
      section without its size field), the legacy magic, an unknown magic. */
  lemma ScanOutcomes(data: seq<byte>, pos: nat)
    ensures pos >= |data| ==> NextFrame(data, pos) == Ok(EndOfStream(pos))
    ensures pos < |data| < pos + 4 ==> NextFrame(data, pos) == Err(FileTruncated)
    ensures pos + 4 <= |data| && Word(data, pos) == LegacyMagic ==> NextFrame(data, pos) == Err(LegacyFrame)
    ensures (pos + 4 <= |data| && !IsSkippable(Word(data, pos))
             && Word(data, pos) != FrameMagic && Word(data, pos) != LegacyMagic)
            ==> NextFrame(data, pos) == Err(NotAFrame)
    ensures (pos + 4 <= |data| && IsSkippable(Word(data, pos)) && pos + 8 > |data|)
            ==> NextFrame(data, pos) == Err(FileTruncated)
    ensures (pos + 4 <= |data| && Word(data, pos) == FrameMagic
             && ParseDescriptor(ReadBytes(data, pos + 4, 11), pos).Err?)
            ==> NextFrame(data, pos) == Err(ParseDescriptor(ReadBytes(data, pos + 4, 11), pos).error)
    ensures (pos + 4 <= |data| && Word(data, pos) == FrameMagic
             && ParseDescriptor(ReadBytes(data, pos + 4, 11), pos).Ok?)
            ==> NextFrame(data, pos) == Ok(Found(ParseDescriptor(ReadBytes(data, pos + 4, 11), pos).value, pos))
  {
    if pos < |data| {
      assert ReadBytes(data, pos, 4) == data[pos..Min(pos + 4, |data|)];
    }
  }

  /** On a skippable magic number with its size field present, the scan
      goes on right after the section's declared payload. */
  lemma SkipsSection(data: seq<byte>, pos: nat)
    requires pos + 8 <= |data|
    requires IsSkippable(Word(data, pos))
    ensures NextFrame(data, pos) == NextFrame(data, pos + 8 + Word(data, pos + 4))
  {
    assert ReadBytes(data, pos, 4) == data[pos..pos + 4];
    assert ReadBytes(data, pos + 4, 4) == data[pos + 4..pos + 8];
  }

  /** A skippable section as a writer lays it out: one of the sixteen
      skippable magic numbers, the payload length, the payload. */
  datatype Skippable = Skippable(variant: nat, payload: seq<byte>)

  ghost predicate EncodableSkippable(s: Skippable) {
    s.variant < 16 && |s.payload| < Pow256(4)
  }

  function EncodeSkippable(s: Skippable): (r: seq<byte>)
    requires EncodableSkippable(s)
    ensures |r| == 8 + |s.payload|
  {
    ToLittleEndian(SkippableMagic0 + s.variant, 4) + ToLittleEndian(|s.payload|, 4) + s.payload
  }

  function EncodeSkippables(ss: seq<Skippable>): (r: seq<byte>)
    requires forall i :: 0 <= i < |ss| ==> EncodableSkippable(ss[i])
  {
    if ss == [] then [] else EncodeSkippable(ss[0]) + EncodeSkippables(ss[1..])
  }

  /** The two words of a written skippable section header read back as
      a skippable magic number and the payload length. */
  lemma SkippableHeader(data: seq<byte>, pos: nat, variant: nat, size: nat)
    requires variant < 16 && size < Pow256(4)
    requires pos + 8 <= |data|
    requires data[pos..pos + 8] == ToLittleEndian(SkippableMagic0 + variant, 4) + ToLittleEndian(size, 4)
    ensures IsSkippable(Word(data, pos)) && Word(data, pos + 4) == size
  {
    SplitSlice(data, pos, ToLittleEndian(SkippableMagic0 + variant, 4), ToLittleEndian(size, 4));
    WordOf(data, pos, SkippableMagic0 + variant);
    WordOf(data, pos + 4, size);
    assert (SkippableMagic0 + variant) % 16 == variant;
  }

  /** A written 32-bit little-endian value reads back as itself. */
  lemma WordOf(data: seq<byte>, p: nat, v: nat)
    requires v < Pow256(4)
    requires p + 4 <= |data| && data[p..p + 4] == ToLittleEndian(v, 4)
    ensures Word(data, p) == v
  {
    DecodeEncode(v, 4);
  }

  /** A skippable section at the cursor is skipped by exactly its declared
      size: the scan continues right after its payload. */
  lemma SkipOne(data: seq<byte>, pos: nat, s: Skippable)
    requires EncodableSkippable(s)
    requires pos + 8 + |s.payload| <= |data|
    requires data[pos..pos + 8 + |s.payload|] == EncodeSkippable(s)
    ensures NextFrame(data, pos) == NextFrame(data, pos + 8 + |s.payload|)
  {
    var e := EncodeSkippable(s);
    assert e[..8] == ToLittleEndian(SkippableMagic0 + s.variant, 4) + ToLittleEndian(|s.payload|, 4);
    SliceOfSlice(data, pos, pos + 8 + |s.payload|, 0, 8);
    SkippableHeader(data, pos, s.variant, |s.payload|);
    SkipsSection(data, pos);
  }

  /** Any number of consecutive skippable sections is skipped. */
  lemma {:induction false} SkipAll(data: seq<byte>, pos: nat, ss: seq<Skippable>)
    requires forall i :: 0 <= i < |ss| ==> EncodableSkippable(ss[i])
    requires pos + |EncodeSkippables(ss)| <= |data|
    requires data[pos..pos + |EncodeSkippables(ss)|] == EncodeSkippables(ss)
    ensures NextFrame(data, pos) == NextFrame(data, pos + |EncodeSkippables(ss)|)
    decreases |ss|
  {
    if ss != [] {
      var next := pos + |EncodeSkippable(ss[0])|;
      SplitSkippables(data, pos, ss);
      SkipOne(data, pos, ss[0]);
      assert next == pos + 8 + |ss[0].payload|;
      SkipAll(data, next, ss[1..]);
      assert next + |EncodeSkippables(ss[1..])| == pos + |EncodeSkippables(ss)|;
    }
  }

  /** The first of several written skippable sections, and the rest after it. */
  lemma SplitSkippables(data: seq<byte>, pos: nat, ss: seq<Skippable>)
    requires ss != [] && forall i :: 0 <= i < |ss| ==> EncodableSkippable(ss[i])
    requires pos + |EncodeSkippables(ss)| <= |data|
    requires data[pos..pos + |EncodeSkippables(ss)|] == EncodeSkippables(ss)
    ensures var next := pos + |EncodeSkippable(ss[0])|;
            && next + |EncodeSkippables(ss[1..])| == pos + |EncodeSkippables(ss)|
            && data[pos..next] == EncodeSkippable(ss[0])
            && data[next..next + |EncodeSkippables(ss[1..])|] == EncodeSkippables(ss[1..])
  {
    var first := EncodeSkippable(ss[0]);
    var rest := EncodeSkippables(ss[1..]);
    var whole := data[pos..pos + |EncodeSkippables(ss)|];
    assert whole == first + rest;
    SliceOfSlice(data, pos, pos + |whole|, 0, |first|);
    SliceOfSlice(data, pos, pos + |whole|, |first|, |whole|);
    assert whole[..|first|] == first;
    assert whole[|first|..] == rest;
  }

  /** A skippable section whose declared size runs past the end of the file
      ends the stream; it is not an error. */
  lemma SkipPastEnd(data: seq<byte>, pos: nat, variant: nat, size: nat)
    requires variant < 16 && size < Pow256(4)
    requires pos + 8 <= |data| <= pos + 8 + size
    requires data[pos..pos + 8] == ToLittleEndian(SkippableMagic0 + variant, 4) + ToLittleEndian(size, 4)
    ensures NextFrame(data, pos) == Ok(EndOfStream(pos + 8 + size))
  {
    SkippableHeader(data, pos, variant, size);
    SkipsSection(data, pos);
    var q := pos + 8 + Word(data, pos + 4);
    ScanOutcomes(data, q);
  }

  /** A written frame header at the cursor: the scan finds that frame, with
      the writer's choices, and leaves the cursor at its magic number. */
  lemma FindsFrame(data: seq<byte>, start: nat, d: Descriptor)
    requires Encodable(d)
    requires var header := ToLittleEndian(FrameMagic, 4) + EncodeDescriptor(d);
             && start + |header| <= |data|
             && data[start..start + |header|] == header
    ensures var r := NextFrame(data, start);
            && r.Ok? && r.value.Found?
            && r.value.cursor == start
            && Describes(r.value.frame, d, start)
  {
    var e := EncodeDescriptor(d);
    var magic := ToLittleEndian(FrameMagic, 4);
    var header := magic + e;
    SliceOfSlice(data, start, start + |header|, 0, 4);
    assert data[start..start + 4] == header[..4] == magic;
    DecodeEncode(FrameMagic, 4);
    var window := ReadBytes(data, start + 4, 11);
    SliceOfSlice(data, start, start + |header|, 4, |header|);
    assert data[start + 4..start + 4 + |e|] == header[4..] == e;
    assert window[..|e|] == data[start + 4..start + 4 + |e|];
    assert window == e + window[|e|..];
    ParseEncoded(d, window[|e|..], start);
  }

  /** Skippable sections followed by a written frame header: the scan finds
      that frame, with the writer's choices, at the offset of its magic number. */
  lemma FindsFrameAfterSkippables(data: seq<byte>, pos: nat, ss: seq<Skippable>, d: Descriptor)
    requires forall i :: 0 <= i < |ss| ==> EncodableSkippable(ss[i])
    requires Encodable(d)
    requires var header := ToLittleEndian(FrameMagic, 4) + EncodeDescriptor(d);
             && pos + |EncodeSkippables(ss)| + |header| <= |data|
             && data[pos..pos + |EncodeSkippables(ss)| + |header|] == EncodeSkippables(ss) + header
    ensures var r := NextFrame(data, pos);
            && r.Ok? && r.value.Found?
            && r.value.cursor == pos + |EncodeSkippables(ss)|
            && Describes(r.value.frame, d, pos + |EncodeSkippables(ss)|)
  {
    var skip := EncodeSkippables(ss);
    var start := pos + |skip|;
    var header := ToLittleEndian(FrameMagic, 4) + EncodeDescriptor(d);
    SplitSlice(data, pos, skip, header);
    SkipAll(data, pos, ss);
    assert NextFrame(data, pos) == NextFrame(data, start);
    FindsFrame(data, start, d);
  }
}
