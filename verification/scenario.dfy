/** A whole file read end to end: any number of skippable sections, then one
    frame holding one block, then the end mark. The layers meet here: the
    scanner skips the sections and finds the frame, the descriptor parser
    recovers the writer's choices, the block loader decodes the block, the
    end mark closes the frame, and `read` delivers the block's output. */
module Scenario {
  import opened Bytes
  import opened Results
  import opened Descriptor
  import opened Scanner
  import opened Blocks
  import opened Engine
  import opened Lz4File

  /** The bytes a writer puts before the first block: magic number and descriptor. */
  function FrameHeader(d: Descriptor): (r: seq<byte>)
    requires Encodable(d)
    ensures |r| == 4 + |EncodeDescriptor(d)|
  {
    ToLittleEndian(FrameMagic, 4) + EncodeDescriptor(d)
  }

  const EndMarkBytes: seq<byte> := [0, 0, 0, 0]

  /** A frame without content checksum holding the single block `b`. */
  ghost predicate OneBlockFrame(d: Descriptor, b: RawBlock) {
    && Encodable(d)
    && !d.contentChecksum
    && 0 < |b.payload| < 0x8000_0000
    && |b.checksum| == ChecksumLength(d.blockChecksum)
  }

  ghost predicate WrittenSkippables(ss: seq<Skippable>) {
    forall i :: 0 <= i < |ss| ==> EncodableSkippable(ss[i])
  }

  /** Where the frame's magic number sits: right after the skippable sections. */
  function Start(ss: seq<Skippable>): nat
    requires WrittenSkippables(ss)
  {
    |EncodeSkippables(ss)|
  }

  function OneBlockFile(ss: seq<Skippable>, d: Descriptor, b: RawBlock): seq<byte>
    requires WrittenSkippables(ss) && Encodable(d) && |b.payload| < 0x8000_0000
  {
    EncodeSkippables(ss) + FrameHeader(d) + EncodeBlock(b) + EndMarkBytes
  }

  /** The session accepts the header and the end mark without output. */
  ghost predicate QuietFraming(d: Descriptor, b: RawBlock, decode: Decoder)
    requires Encodable(d) && |b.payload| < 0x8000_0000
  {
    && decode([], FrameHeader(d)) == []
    && decode([FrameHeader(d), EncodeBlock(b)], EndMarkBytes) == []
  }

  /** Where the four parts of the file sit. */
  lemma FileLayout(ss: seq<Skippable>, d: Descriptor, b: RawBlock)
    requires WrittenSkippables(ss) && Encodable(d) && |b.payload| < 0x8000_0000
    ensures var data := OneBlockFile(ss, d, b);
            var pre := EncodeSkippables(ss);
            var p := Start(ss);
            var h := FrameHeader(d);
            var e := EncodeBlock(b);
            && |data| == p + |h| + |e| + 4
            && data[0..p + |h|] == pre + h
            && data[p..p + |h|] == h
            && data[p + |h|..p + |h| + |e|] == e
            && data[p + |h| + |e|..p + |h| + |e| + 4] == EndMarkBytes
  {
    var data := OneBlockFile(ss, d, b);
    var pre := EncodeSkippables(ss);
    var h := FrameHeader(d);
    var e := EncodeBlock(b);
    assert data[0..|data|] == (pre + h + e) + EndMarkBytes;
    SplitSlice(data, 0, pre + h + e, EndMarkBytes);
    SplitSlice(data, 0, pre + h, e);
    SplitSlice(data, 0, pre, h);
  }

  /** The block sits right after the frame header. */
  lemma BlockAt(ss: seq<Skippable>, d: Descriptor, b: RawBlock)
    requires WrittenSkippables(ss) && Encodable(d) && |b.payload| < 0x8000_0000
    ensures var data := OneBlockFile(ss, d, b);
            var q := Start(ss) + |FrameHeader(d)|;
            var e := EncodeBlock(b);
            && q + |e| <= |data|
            && data[q..q + |e|] == e
  {
    FileLayout(ss, d, b);
  }

  /** The end mark closes the file, right after the block. */
  lemma EndMarkAt(ss: seq<Skippable>, d: Descriptor, b: RawBlock)
    requires WrittenSkippables(ss) && Encodable(d) && |b.payload| < 0x8000_0000
    ensures var data := OneBlockFile(ss, d, b);
            var q := Start(ss) + |FrameHeader(d)| + |EncodeBlock(b)|;
            && q + 4 == |data|
            && data[q..q + 4] == EndMarkBytes
  {
    FileLayout(ss, d, b);
  }

  /** The scan from the start skips the sections and finds the frame the
      writer described, at its magic number, with the header length the
      writer wrote. */
  lemma FindsTheFrame(ss: seq<Skippable>, d: Descriptor, b: RawBlock)
    requires WrittenSkippables(ss) && Encodable(d) && |b.payload| < 0x8000_0000
    ensures var r := NextFrame(OneBlockFile(ss, d, b), 0);
            && r.Ok? && r.value.Found? && r.value.cursor == Start(ss)
            && Describes(r.value.frame, d, Start(ss))
            && r.value.frame.headerSize == |FrameHeader(d)|
  {
    var data := OneBlockFile(ss, d, b);
    FileLayout(ss, d, b);
    FindsFrameAfterSkippables(data, 0, ss, d);
    EncodedLayout(d, []);
  }

  /** The reader once the frame header is loaded. */
  function HeaderLoaded(ss: seq<Skippable>, d: Descriptor, b: RawBlock, f: Frame): Reader
    requires WrittenSkippables(ss) && Encodable(d) && |b.payload| < 0x8000_0000
  {
    Reader(OneBlockFile(ss, d, b), Start(ss) + |FrameHeader(d)|, [f], 0, [], 0, 0, [FrameHeader(d)])
  }

  /** The reader once the block is decoded into the buffer. */
  function BlockDecoded(ss: seq<Skippable>, d: Descriptor, b: RawBlock, f: Frame, decode: Decoder): Reader
    requires WrittenSkippables(ss) && Encodable(d) && |b.payload| < 0x8000_0000
  {
    var h := FrameHeader(d);
    var e := EncodeBlock(b);
    Reader(OneBlockFile(ss, d, b), Start(ss) + |h| + |e|, [f], 0, decode([h], e), 0, 0, [h, e])
  }

  /** The reader once the end mark is consumed. */
  function FrameClosed(ss: seq<Skippable>, d: Descriptor, b: RawBlock, f: Frame, decode: Decoder): Reader
    requires WrittenSkippables(ss) && Encodable(d) && |b.payload| < 0x8000_0000
  {
    var h := FrameHeader(d);
    var e := EncodeBlock(b);
    var out := decode([h], e);
    Reader(OneBlockFile(ss, d, b), Start(ss) + |h| + |e| + 4, [f.(empty := true)], 0, out, |out|, 0, [h, e, EndMarkBytes])
  }

  /** Moving to the first frame finds it and feeds its header. */
  lemma FrameStep(ss: seq<Skippable>, d: Descriptor, b: RawBlock, decode: Decoder)
    requires WrittenSkippables(ss) && OneBlockFrame(d, b) && QuietFraming(d, b, decode)
    ensures var scan := NextFrame(OneBlockFile(ss, d, b), 0);
            var r := LoadFrame(Open(OneBlockFile(ss, d, b)), decode);
            && scan.Ok? && scan.value.Found?
            && r.Ok? && !r.value.ended
            && r.value.reader == HeaderLoaded(ss, d, b, scan.value.frame)
  {
    var data := OneBlockFile(ss, d, b);
    FindsTheFrame(ss, d, b);
    FileLayout(ss, d, b);
    assert ReadBytes(data, Start(ss), |FrameHeader(d)|) == FrameHeader(d);
    LoadsFoundFrame(Open(data), decode);
    assert [] + [FrameHeader(d)] == [FrameHeader(d)];
  }

  /** First step of the read: the frame is found and its header fed. */
  lemma OpensTheFrame(ss: seq<Skippable>, d: Descriptor, b: RawBlock, decode: Decoder)
    requires WrittenSkippables(ss) && OneBlockFrame(d, b) && QuietFraming(d, b, decode)
    ensures var scan := NextFrame(OneBlockFile(ss, d, b), 0);
            && scan.Ok? && scan.value.Found?
            && WellFormed(scan.value.frame) && Describes(scan.value.frame, d, Start(ss))
            && Valid(HeaderLoaded(ss, d, b, scan.value.frame))
            && Pump(Open(OneBlockFile(ss, d, b)), None, decode) == Pump(HeaderLoaded(ss, d, b, scan.value.frame), None, decode)
  {
    var data := OneBlockFile(ss, d, b);
    FindsTheFrame(ss, d, b);
    FrameStep(ss, d, b, decode);
    PumpLoadsFrame(Open(data), None, decode);
  }

  /** Loading from the first frame decodes the block into the buffer. */
  lemma BlockStep(ss: seq<Skippable>, d: Descriptor, b: RawBlock, f: Frame, decode: Decoder)
    requires WrittenSkippables(ss) && OneBlockFrame(d, b) && WellFormed(f) && Describes(f, d, Start(ss))
    ensures Valid(HeaderLoaded(ss, d, b, f)) && CanLoadBlock(HeaderLoaded(ss, d, b, f))
    ensures var r := LoadBlockStep(HeaderLoaded(ss, d, b, f), decode);
            && r.Ok?
            && r.value.reader == BlockDecoded(ss, d, b, f, decode)
  {
    var s := HeaderLoaded(ss, d, b, f);
    var h := FrameHeader(d);
    var e := EncodeBlock(b);
    BlockAt(ss, d, b);
    BlockAtCursor(s, b, decode);
    assert [h] + [e] == [h, e];
  }

  /** Whatever the file around it, a written block at the cursor of the
      current frame is loaded as one step that decodes it into the buffer. */
  lemma BlockAtCursor(s: Reader, b: RawBlock, decode: Decoder)
    requires Valid(s) && s.blockPos >= |s.blockData| && CanLoadBlock(s)
    requires EncodableBlock(b, s.frames[s.frameIndex])
    requires s.filePos + |EncodeBlock(b)| <= |s.data|
    requires s.data[s.filePos..s.filePos + |EncodeBlock(b)|] == EncodeBlock(b)
    ensures var r := LoadBlockStep(s, decode);
            var e := EncodeBlock(b);
            && r.Ok?
            && r.value.reader == s.(blockData := decode(s.fed, e), blockPos := 0, filePos := s.filePos + |e|, fed := s.fed + [e])
  {
    LoadsWrittenBlock(s.data, s.filePos, s.frames[s.frameIndex], s.fed, decode, b);
  }

  /** Second step: the block is decoded into the buffer. */
  lemma DecodesTheBlock(ss: seq<Skippable>, d: Descriptor, b: RawBlock, f: Frame, decode: Decoder)
    requires WrittenSkippables(ss) && OneBlockFrame(d, b) && WellFormed(f) && Describes(f, d, Start(ss))
    ensures Valid(HeaderLoaded(ss, d, b, f)) && Valid(BlockDecoded(ss, d, b, f, decode))
    ensures Pump(HeaderLoaded(ss, d, b, f), None, decode) == Pump(BlockDecoded(ss, d, b, f, decode), None, decode)
  {
    BlockStep(ss, d, b, f, decode);
    PumpLoadsBlock(HeaderLoaded(ss, d, b, f), None, decode);
  }

  /** The drained buffer after the block. */
  function BlockDrained(ss: seq<Skippable>, d: Descriptor, b: RawBlock, f: Frame, decode: Decoder): Reader
    requires WrittenSkippables(ss) && Encodable(d) && |b.payload| < 0x8000_0000
  {
    var s := BlockDecoded(ss, d, b, f, decode);
    s.(blockPos := |s.blockData|)
  }

  /** Loading once the buffer is drained consumes the end mark. */
  lemma EndMarkStep(ss: seq<Skippable>, d: Descriptor, b: RawBlock, f: Frame, decode: Decoder)
    requires WrittenSkippables(ss) && OneBlockFrame(d, b) && QuietFraming(d, b, decode) && WellFormed(f) && Describes(f, d, Start(ss))
    ensures Valid(BlockDrained(ss, d, b, f, decode)) && CanLoadBlock(BlockDrained(ss, d, b, f, decode))
    ensures var r := LoadBlockStep(BlockDrained(ss, d, b, f, decode), decode);
            && r.Ok?
            && r.value.reader == FrameClosed(ss, d, b, f, decode)
  {
    var s := BlockDrained(ss, d, b, f, decode);
    var h := FrameHeader(d);
    var e := EncodeBlock(b);
    EndMarkAt(ss, d, b);
    EndMarkAtCursor(s, decode);
    assert [h, e] + [EndMarkBytes] == [h, e, EndMarkBytes];
    assert [f][0 := f.(empty := true)] == [f.(empty := true)];
  }

  /** Whatever the file around it, an end mark at the cursor of a current
      frame without content checksum, on which the session is silent, closes
      that frame in one step. */
  lemma EndMarkAtCursor(s: Reader, decode: Decoder)
    requires Valid(s) && s.blockPos >= |s.blockData| && CanLoadBlock(s)
    requires !s.frames[s.frameIndex].contentChecksum
    requires s.filePos + 4 <= |s.data| && s.data[s.filePos..s.filePos + 4] == EndMarkBytes
    requires decode(s.fed, EndMarkBytes) == []
    ensures var r := LoadBlockStep(s, decode);
            && r.Ok?
            && r.value.reader == s.(frames := s.frames[s.frameIndex := s.frames[s.frameIndex].(empty := true)],
                                    filePos := s.filePos + 4, fed := s.fed + [EndMarkBytes])
  {
    LoadsEndMark(s.data, s.filePos, s.frames[s.frameIndex], s.fed, decode);
  }

  /** Third step: the end mark closes the frame, and nothing is left to read. */
  lemma ClosesTheFrame(ss: seq<Skippable>, d: Descriptor, b: RawBlock, f: Frame, decode: Decoder)
    requires WrittenSkippables(ss) && OneBlockFrame(d, b) && QuietFraming(d, b, decode) && WellFormed(f) && Describes(f, d, Start(ss))
    ensures var s := BlockDrained(ss, d, b, f, decode);
            && Valid(s)
            && Pump(s, None, decode).Ok?
            && Pump(s, None, decode).value.0 == []
            && AtEnd(Pump(s, None, decode).value.1)
  {
    var s4 := FrameClosed(ss, d, b, f, decode);
    EndMarkStep(ss, d, b, f, decode);
    PumpLoadsBlock(BlockDrained(ss, d, b, f, decode), None, decode);
    FileLayout(ss, d, b);
    assert AtEnd(s4);
    PumpAtEnd(s4, None, decode);
  }

  /** Reading the whole file returns exactly what the session outputs for the
      block, and leaves the reader at the end of the file. */
  lemma ReadsOneBlockFile(ss: seq<Skippable>, d: Descriptor, b: RawBlock, decode: Decoder)
    requires WrittenSkippables(ss) && OneBlockFrame(d, b) && QuietFraming(d, b, decode)
    ensures var r := Pump(Open(OneBlockFile(ss, d, b)), None, decode);
            && r.Ok?
            && r.value.0 == decode([FrameHeader(d)], EncodeBlock(b))
            && AtEnd(r.value.1)
  {
    var data := OneBlockFile(ss, d, b);
    OpensTheFrame(ss, d, b, decode);
    var f := NextFrame(data, 0).value.frame;
    var s2 := BlockDecoded(ss, d, b, f, decode);
    DecodesTheBlock(ss, d, b, f, decode);
    DrainsTheBlock(s2, decode);
    assert s2.(blockPos := |s2.blockData|) == BlockDrained(ss, d, b, f, decode);
    ClosesTheFrame(ss, d, b, f, decode);
    assert s2.blockData + [] == s2.blockData;
  }

  /** Reading on from a state holding a decoded block delivers the block,
      then what reading on from the drained state delivers. */
  lemma DrainsTheBlock(s: Reader, decode: Decoder)
    requires Valid(s) && s.blockPos == 0
    ensures var t := s.(blockPos := |s.blockData|);
            && (Pump(s, None, decode).Ok? <==> Pump(t, None, decode).Ok?)
            && (Pump(s, None, decode).Ok? ==>
                  && Pump(s, None, decode).value.0 == s.blockData + Pump(t, None, decode).value.0
                  && Pump(s, None, decode).value.1 == Pump(t, None, decode).value.1)
  {
    if s.blockPos < |s.blockData| {
      CopyStep(s, None, decode);
      assert Taken(s, None) == s.blockData;
    } else {
      assert s.(blockPos := |s.blockData|) == s;
    }
  }
}
