/** The reading side of `Lz4File`: a state record holding the file and its
    cursor, the frames discovered so far, the current frame index, the decoded
    block buffer with its cursor, the logical position, and the chunks given to
    the decompression session. `read` drains the buffer, loads blocks of the
    current frame and moves on to the next frame until the request is met or
    the file ends. */
module Lz4File {
  import opened Bytes
  import opened Results
  import opened Descriptor
  import opened Scanner
  import opened Blocks
  import opened Engine

  datatype Reader = Reader(
    data: seq<byte>,           // the whole file
    filePos: nat,              // the file cursor; may lie past the end after a skip
    frames: seq<Frame>,        // __frames
    frameIndex: int,           // __iFrame
    blockData: seq<byte>,      // __blockdata: the last decoded block
    blockPos: nat,             // __blockpos
    pos: nat,                  // __pos: decoded bytes delivered so far
    fed: seq<seq<byte>>)       // every chunk given to the decompression session

  /** What every reachable state satisfies. The frame index is never behind
      the last discovered frame (so an already discovered frame is never
      loaded again), the buffer cursor never passes the buffer's end, and an
      index past the last frame means the file has ended. */
  ghost predicate Valid(s: Reader) {
    && s.frameIndex >= -1
    && s.frameIndex >= |s.frames| - 1
    && s.blockPos <= |s.blockData|
    && (s.frameIndex >= |s.frames| ==> s.filePos >= |s.data|)
    && (forall i :: 0 <= i < |s.frames| ==> WellFormed(s.frames[i]))
  }

  /** The reader right after `Lz4File(name, 'r')`. */
  function Open(data: seq<byte>): (s: Reader)
    ensures Valid(s) && s.data == data && s.pos == 0 && s.fed == [] && Pending(s) == []
  {
    Reader(data, 0, [], -1, [], 0, 0, [])
  }

  /** Decoded bytes not yet delivered. */
  function Pending(s: Reader): seq<byte> {
    if s.blockPos <= |s.blockData| then s.blockData[s.blockPos..] else []
  }

  /** The current frame has blocks left to load. */
  predicate CanLoadBlock(s: Reader) {
    0 <= s.frameIndex < |s.frames| && !s.frames[s.frameIndex].empty
  }

  /** Nothing left: the buffer is drained, no current frame has blocks left,
      and the file cursor is at or past the end. */
  ghost predicate AtEnd(s: Reader) {
    s.filePos >= |s.data| && s.blockPos >= |s.blockData| && !CanLoadBlock(s)
  }

  function FileLeft(s: Reader): nat {
    |s.data| - Min(s.filePos, |s.data|)
  }

  function BufferLeft(s: Reader): nat {
    |s.blockData| - Min(s.blockPos, |s.blockData|)
  }

  /** The state after one loading step, and whether the file ended. */
  datatype Step = Step(reader: Reader, ended: bool)

  /** What a loading step may change: nothing but the cursors, the buffer,
      the frame list (one frame appended, or the current frame marked empty)
      and the session, which it only extends; everything the session outputs
      on the new chunks becomes the buffer. */
  ghost predicate Advances(s: Reader, t: Reader, decode: Decoder) {
    && t.data == s.data
    && t.pos == s.pos
    && |s.fed| <= |t.fed|
    && t.fed[..|s.fed|] == s.fed
    && Outputs(decode, s.fed, t.fed[|s.fed|..]) == Pending(t)
    && |s.frames| <= |t.frames|
    && (forall i :: 0 <= i < |s.frames| && i != s.frameIndex ==> t.frames[i] == s.frames[i])
    && (0 <= s.frameIndex < |s.frames| ==>
          t.frames[s.frameIndex] in {s.frames[s.frameIndex], s.frames[s.frameIndex].(empty := true)})
  }

  /** `__loadFrame`: move to the next frame. The scanner either finds it (its
      header is then fed to the session, which must output nothing) or reports
      the end of the file, which ends the read. */
  function LoadFrame(s: Reader, decode: Decoder): (r: Result<Step>)
    requires Valid(s)
    ensures r.Ok? ==> Valid(r.value.reader) && Advances(s, r.value.reader, decode)
    ensures r.Ok? && r.value.ended ==> AtEnd(r.value.reader) && r.value.reader.fed == s.fed
    ensures r.Ok? && !r.value.ended ==>
              && FileLeft(r.value.reader) < FileLeft(s)
              && r.value.reader.frames[..|s.frames|] == s.frames
              && |r.value.reader.frames| == |s.frames| + 1
              && r.value.reader.frameIndex == |s.frames|
              && CanLoadBlock(r.value.reader)
              && Pending(r.value.reader) == []
    ensures NextFrame(s.data, s.filePos).Err? ==> r == Err(NextFrame(s.data, s.filePos).error)
    ensures NextFrame(s.data, s.filePos).Ok? && NextFrame(s.data, s.filePos).value.EndOfStream? ==>
              && r.Ok? && r.value.ended
              && r.value.reader.filePos == NextFrame(s.data, s.filePos).value.cursor
              && r.value.reader.frames == s.frames
    ensures NextFrame(s.data, s.filePos).Ok? && NextFrame(s.data, s.filePos).value.Found? ==>
              var found := NextFrame(s.data, s.filePos).value;
              var header := ReadBytes(s.data, found.cursor, found.frame.headerSize);
              && (decode(s.fed, header) != [] ==> r == Err(UnexpectedOutput))
              && (decode(s.fed, header) == [] ==>
                    && r.Ok? && !r.value.ended
                    && r.value.reader.frames == s.frames + [found.frame]
                    && r.value.reader.fed == s.fed + [header]
                    && r.value.reader.filePos == found.cursor + |header|)
  {
    var i := s.frameIndex + 1;
    var s1 := s.(frameIndex := i, blockData := [], blockPos := 0);
    // in a valid state i >= |s.frames|: the frame is always scanned, never reused
    var scan :- NextFrame(s.data, s.filePos);
    match scan
    case EndOfStream(cursor) =>
      Ok(Step(s1.(filePos := cursor), true))
    case Found(frame, cursor) =>
      var header := ReadBytes(s.data, cursor, frame.headerSize);
      if decode(s.fed, header) != [] then Err(UnexpectedOutput)
      else
        assert (s.fed + [header])[|s.fed|..] == [header];
        assert Outputs(decode, s.fed, [header]) == decode(s.fed, header) + Outputs(decode, s.fed + [header], []);
        Ok(Step(s1.(frames := s.frames + [frame], filePos := cursor + |header|, fed := s.fed + [header]), false))
  }

  /** Moving on to a frame the scan finds reads its header and nothing else:
      the file cursor lands just after the header, and the header is the only
      chunk fed. */
  lemma LoadsFoundFrame(s: Reader, decode: Decoder)
    requires Valid(s)
    requires NextFrame(s.data, s.filePos).Ok? && NextFrame(s.data, s.filePos).value.Found?
    requires var found := NextFrame(s.data, s.filePos).value;
             decode(s.fed, ReadBytes(s.data, found.cursor, found.frame.headerSize)) == []
    ensures var found := NextFrame(s.data, s.filePos).value;
            var r := LoadFrame(s, decode);
            && r.Ok? && !r.value.ended
            && r.value.reader.data == s.data
            && r.value.reader.frames == s.frames + [found.frame]
            && r.value.reader.frameIndex == s.frameIndex + 1
            && r.value.reader.blockData == [] && r.value.reader.blockPos == 0
            && r.value.reader.pos == s.pos
            && r.value.reader.filePos == found.cursor + found.frame.headerSize
            && r.value.reader.fed == s.fed + [s.data[found.cursor..found.cursor + found.frame.headerSize]]
  {
    var found := NextFrame(s.data, s.filePos).value;
    assert ReadBytes(s.data, found.cursor, found.frame.headerSize)
        == s.data[found.cursor..found.cursor + found.frame.headerSize];
  }

  /** `__loadBlock` on the current frame: a decoded block replaces the
      buffer; the end mark marks the frame empty. */
  function LoadBlockStep(s: Reader, decode: Decoder): (r: Result<Step>)
    requires Valid(s)
    requires s.blockPos >= |s.blockData|
    requires CanLoadBlock(s)
    ensures r.Ok? ==> Valid(r.value.reader) && Advances(s, r.value.reader, decode)
    ensures r.Ok? ==> !r.value.ended && FileLeft(r.value.reader) < FileLeft(s)
    ensures r.Ok? ==> r.value.reader.frameIndex == s.frameIndex && |r.value.reader.frames| == |s.frames|
    ensures var l := LoadBlock(s.data, s.filePos, s.frames[s.frameIndex], s.fed, decode);
            && (l.Err? ==> r == Err(l.error))
            && (l.Ok? && l.value.EndMark? ==>
                  && r.Ok?
                  && r.value.reader.frames[s.frameIndex] == s.frames[s.frameIndex].(empty := true)
                  && Pending(r.value.reader) == []
                  && r.value.reader.filePos == l.value.cursor
                  && r.value.reader.fed == l.value.fed)
            && (l.Ok? && l.value.Block? ==>
                  && r.Ok?
                  && r.value.reader.frames == s.frames
                  && r.value.reader.blockPos == 0
                  && r.value.reader.blockData == decode(s.fed, s.data[s.filePos..l.value.cursor])
                  && r.value.reader.filePos == l.value.cursor
                  && r.value.reader.fed == l.value.fed)
  {
    match LoadBlock(s.data, s.filePos, s.frames[s.frameIndex], s.fed, decode)
    case Err(e) => Err(e)
    case Ok(EndMark(cursor, fed)) =>
      EndMarkAdvances(s, decode, cursor, fed);
      Ok(Step(FrameEnded(s, cursor, fed), false))
    case Ok(Block(output, cursor, fed)) =>
      BlockAdvances(s, decode, output, cursor, fed);
      Ok(Step(BlockLoaded(s, output, cursor, fed), false))
  }

  /** The state after the end mark of the current frame was consumed. */
  function FrameEnded(s: Reader, cursor: nat, fed: seq<seq<byte>>): Reader
    requires 0 <= s.frameIndex < |s.frames|
  {
    s.(frames := s.frames[s.frameIndex := s.frames[s.frameIndex].(empty := true)], filePos := cursor, fed := fed)
  }

  /** The state after a block was decoded into the buffer. */
  function BlockLoaded(s: Reader, output: seq<byte>, cursor: nat, fed: seq<seq<byte>>): Reader {
    s.(blockData := output, blockPos := 0, filePos := cursor, fed := fed)
  }

  lemma EndMarkAdvances(s: Reader, decode: Decoder, cursor: nat, fed: seq<seq<byte>>)
    requires Valid(s) && s.blockPos >= |s.blockData| && CanLoadBlock(s)
    requires LoadBlock(s.data, s.filePos, s.frames[s.frameIndex], s.fed, decode) == Ok(EndMark(cursor, fed))
    ensures Valid(FrameEnded(s, cursor, fed)) && Advances(s, FrameEnded(s, cursor, fed), decode)
    ensures FileLeft(FrameEnded(s, cursor, fed)) < FileLeft(s)
  {
    var u := FrameEnded(s, cursor, fed);
    MarkEmpty(s.frames, s.frameIndex);
    assert Pending(u) == [];
  }

  /** Marking one frame empty keeps every frame well formed and changes no
      other frame. */
  lemma MarkEmpty(frames: seq<Frame>, i: nat)
    requires i < |frames| && forall j :: 0 <= j < |frames| ==> WellFormed(frames[j])
    ensures var t := frames[i := frames[i].(empty := true)];
            && |t| == |frames|
            && (forall j :: 0 <= j < |t| ==> WellFormed(t[j]))
            && (forall j :: 0 <= j < |t| && j != i ==> t[j] == frames[j])
            && t[i] == frames[i].(empty := true)
  {
  }

  lemma BlockAdvances(s: Reader, decode: Decoder, output: seq<byte>, cursor: nat, fed: seq<seq<byte>>)
    requires Valid(s) && s.blockPos >= |s.blockData| && CanLoadBlock(s)
    requires LoadBlock(s.data, s.filePos, s.frames[s.frameIndex], s.fed, decode) == Ok(Block(output, cursor, fed))
    ensures Valid(BlockLoaded(s, output, cursor, fed)) && Advances(s, BlockLoaded(s, output, cursor, fed), decode)
    ensures FileLeft(BlockLoaded(s, output, cursor, fed)) < FileLeft(s)
  {
    var u := BlockLoaded(s, output, cursor, fed);
    assert Pending(u) == output;
  }

  /** One iteration of the `read` loop once the buffer is drained: load the
      next block of the current frame, or move on to the next frame. */
  function LoadNext(s: Reader, decode: Decoder): (r: Result<Step>)
    requires Valid(s)
    requires s.blockPos >= |s.blockData|
    ensures r.Ok? ==> Valid(r.value.reader) && Advances(s, r.value.reader, decode)
    ensures r.Ok? && r.value.ended ==> AtEnd(r.value.reader)
    ensures r.Ok? && !r.value.ended ==> FileLeft(r.value.reader) < FileLeft(s)
  {
    if CanLoadBlock(s) then LoadBlockStep(s, decode) else LoadFrame(s, decode)
  }

  /** The bytes the loop copies from the buffer when `n` more are wanted:
      all that is pending, or the first `n` of them. */
  function Taken(s: Reader, n: Option<int>): (r: seq<byte>)
    requires s.blockPos < |s.blockData|
    requires n.Some? ==> n.value > 0
    ensures 0 < |r|
    ensures n.None? ==> r == Pending(s)
    ensures n.Some? ==> |r| == Min(n.value, |Pending(s)|)
  {
    var toRead := |s.blockData| - s.blockPos;
    var toRead' := if n.Some? then Min(n.value, toRead) else toRead;
    s.blockData[s.blockPos..s.blockPos + toRead']
  }

  /** The state once `Taken(s, n)` has been copied out of the buffer. */
  function Consume(s: Reader, n: Option<int>): (t: Reader)
    requires s.blockPos < |s.blockData|
    requires n.Some? ==> n.value > 0
  {
    s.(blockPos := s.blockPos + |Taken(s, n)|)
  }

  /** One copy out of the buffer: the bytes copied are a prefix of what is
      pending and the rest stays pending; only the buffer cursor moves, and it
      moves forward. */
  lemma CopySplitsPending(s: Reader, n: Option<int>)
    requires s.blockPos < |s.blockData|
    requires n.Some? ==> n.value > 0
    ensures Taken(s, n) == Pending(s)[..|Taken(s, n)|]
    ensures Pending(s) == Taken(s, n) + Pending(Consume(s, n))
    ensures BufferLeft(Consume(s, n)) < BufferLeft(s)
    ensures Consume(s, n).(blockPos := s.blockPos) == s
    ensures Valid(s) ==> Valid(Consume(s, n))
  {
  }

  /** The bytes the `read` loop collects when `n` more are wanted (all of
      them when `n` is None), and the state it stops in. */
  function Pump(s: Reader, n: Option<int>, decode: Decoder): (r: Result<(seq<byte>, Reader)>)
    requires Valid(s)
    ensures r.Ok? ==> Valid(r.value.1) && r.value.1.data == s.data && r.value.1.pos == s.pos
    ensures r.Ok? && n.Some? ==> |r.value.0| <= Max0(n.value)
    decreases FileLeft(s), BufferLeft(s), 2
  {
    if n.Some? && n.value <= 0 then Ok(([], s))
    else if s.blockPos < |s.blockData| then
      After(Taken(s, n), Pump(Consume(s, n), Less(n, |Taken(s, n)|), decode))
    else Refill(s, n, decode)
  }

  /** The loop once the buffer is drained: the next block of the current
      frame, or else the next frame. */
  function Refill(s: Reader, n: Option<int>, decode: Decoder): (r: Result<(seq<byte>, Reader)>)
    requires Valid(s) && s.blockPos >= |s.blockData|
    ensures r.Ok? ==> Valid(r.value.1) && r.value.1.data == s.data && r.value.1.pos == s.pos
    ensures r.Ok? && n.Some? ==> |r.value.0| <= Max0(n.value)
    decreases FileLeft(s), BufferLeft(s), 1
  {
    if CanLoadBlock(s) then PumpBlock(s, n, decode) else PumpFrame(s, n, decode)
  }

  /** The loop after loading a block of the current frame. */
  function PumpBlock(s: Reader, n: Option<int>, decode: Decoder): (r: Result<(seq<byte>, Reader)>)
    requires Valid(s) && s.blockPos >= |s.blockData| && CanLoadBlock(s)
    ensures r.Ok? ==> Valid(r.value.1) && r.value.1.data == s.data && r.value.1.pos == s.pos
    ensures r.Ok? && n.Some? ==> |r.value.0| <= Max0(n.value)
    decreases FileLeft(s), BufferLeft(s), 0
  {
    match LoadBlockStep(s, decode)
    case Err(e) => Err(e)
    case Ok(step) => Pump(step.reader, n, decode)
  }

  /** The loop after moving on to the next frame; the end of the file ends it. */
  function PumpFrame(s: Reader, n: Option<int>, decode: Decoder): (r: Result<(seq<byte>, Reader)>)
    requires Valid(s)
    ensures r.Ok? ==> Valid(r.value.1) && r.value.1.data == s.data && r.value.1.pos == s.pos
    ensures r.Ok? && n.Some? ==> |r.value.0| <= Max0(n.value)
    decreases FileLeft(s), BufferLeft(s), 0
  {
    match LoadFrame(s, decode)
    case Err(e) => Err(e)
    case Ok(step) =>
      if step.ended then Ok(([], step.reader)) else Pump(step.reader, n, decode)
  }

  /** A read that stops short of its request, or an unbounded read, stops
      only because the file has ended. */
  lemma {:induction false} PumpStopsAtEnd(s: Reader, n: Option<int>, decode: Decoder)
    requires Valid(s)
    requires Pump(s, n, decode).Ok?
    ensures n.None? || |Pump(s, n, decode).value.0| < n.value ==> AtEnd(Pump(s, n, decode).value.1)
    decreases FileLeft(s), BufferLeft(s)
  {
    if n.Some? && n.value <= 0 {
    } else if s.blockPos < |s.blockData| {
      PumpStopsAtEnd(Consume(s, n), Less(n, |Taken(s, n)|), decode);
    } else {
      PumpLoads(s, n, decode);
      var step := LoadNext(s, decode).value;
      if !step.ended {
        PumpStopsAtEnd(step.reader, n, decode);
      }
    }
  }

  /** Nothing is lost and nothing is duplicated: what was pending plus
      everything the session outputs during the read is exactly what the read
      returns plus what is left pending. */
  lemma {:induction false} PumpConserves(s: Reader, n: Option<int>, decode: Decoder)
    requires Valid(s)
    requires Pump(s, n, decode).Ok?
    ensures Conserved(s, Pump(s, n, decode).value.0, Pump(s, n, decode).value.1, decode)
    decreases FileLeft(s), BufferLeft(s)
  {
    var out := Pump(s, n, decode).value.0;
    var t := Pump(s, n, decode).value.1;
    if n.Some? && n.value <= 0 {
      assert t == s && out == [];
      assert s.fed[|s.fed|..] == [];
      assert Outputs(decode, s.fed, []) == [];
    } else if s.blockPos < |s.blockData| {
      var s1 := Consume(s, n);
      PumpConserves(s1, Less(n, |Taken(s, n)|), decode);
      ConservedAfterCopy(s, n, Pump(s1, Less(n, |Taken(s, n)|), decode).value.0, t, decode);
    } else {
      PumpLoads(s, n, decode);
      var step := LoadNext(s, decode).value;
      if step.ended {
        assert t == step.reader && out == [];
        assert Pending(s) == [];
      } else {
        PumpConserves(step.reader, n, decode);
        PumpAfterStep(s, step.reader, t, out, decode);
      }
    }
  }

  /** Once the file has ended every further read returns nothing and stays
      at the end. */
  lemma PumpAtEnd(s: Reader, n: Option<int>, decode: Decoder)
    requires Valid(s) && AtEnd(s)
    ensures Pump(s, n, decode).Ok?
    ensures Pump(s, n, decode).value.0 == []
    ensures AtEnd(Pump(s, n, decode).value.1)
  {
    if !(n.Some? && n.value <= 0) {
      ScanOutcomes(s.data, s.filePos);
      assert LoadNext(s, decode).Ok? && LoadNext(s, decode).value.ended;
      PumpLoads(s, n, decode);
    }
  }

  /** The bytes an unbounded read returns, and what a bounded read returns
      followed by an unbounded read from where it stopped. */
  ghost predicate SplitsRead(s: Reader, n: int, decode: Decoder)
    requires Valid(s)
  {
    var all := Pump(s, None, decode);
    var first := Pump(s, Some(n), decode);
    all.Ok? ==>
      && first.Ok?
      && first.value.0 == all.value.0[..Min(Max0(n), |all.value.0|)]
      && Pump(first.value.1, None, decode).Ok?
      && first.value.0 + Pump(first.value.1, None, decode).value.0 == all.value.0
  }

  /** A read of `n` bytes returns the first `n` bytes of the decoded stream
      (all of it when shorter), and reading on from there returns the rest:
      how the stream is cut into reads changes nothing. */
  lemma {:induction false} PumpPrefix(s: Reader, n: int, decode: Decoder)
    requires Valid(s)
    ensures SplitsRead(s, n, decode)
    decreases FileLeft(s), BufferLeft(s)
  {
    if Pump(s, None, decode).Ok? {
      if n <= 0 {
        PumpSatisfied(s, Some(n), decode);
      } else if s.blockPos < |s.blockData| {
        PrefixFromBuffer(s, n, decode);
      } else {
        PumpLoads(s, Some(n), decode);
        PumpLoads(s, None, decode);
        var step := LoadNext(s, decode).value;
        if step.ended {
          PumpAtEnd(step.reader, None, decode);
        } else {
          PumpPrefix(step.reader, n, decode);
        }
      }
    }
  }

  /** The case of `PumpPrefix` where the buffer holds bytes. */
  lemma {:induction false} PrefixFromBuffer(s: Reader, n: int, decode: Decoder)
    requires Valid(s) && n > 0 && s.blockPos < |s.blockData|
    ensures SplitsRead(s, n, decode)
    decreases FileLeft(s), BufferLeft(s), 1
  {
    if n >= |Pending(s)| {
      PrefixPastBuffer(s, n, decode);
    } else {
      PrefixInBuffer(s, n, decode);
    }
  }

  /** A request the buffer covers stops inside the buffer. */
  lemma PrefixInBuffer(s: Reader, n: int, decode: Decoder)
    requires Valid(s) && 0 < n < |Pending(s)| && s.blockPos < |s.blockData|
    ensures SplitsRead(s, n, decode)
  {
    if Pump(s, None, decode).Ok? {
      var c := Consume(s, None);
      CopyStep(s, None, decode);
      StopsInBuffer(s, n, decode);
      ResumesInBuffer(s, n, decode);
      SplitAt(Pump(s, None, decode).value.0, Pending(s), Pump(c, None, decode).value.0, n);
    }
  }

  /** A request the buffer covers is met from the buffer alone. */
  lemma StopsInBuffer(s: Reader, n: int, decode: Decoder)
    requires Valid(s) && 0 < n < |Pending(s)| && s.blockPos < |s.blockData|
    ensures Pump(s, Some(n), decode).Ok?
    ensures Pump(s, Some(n), decode).value.0 == Pending(s)[..n]
    ensures Pump(s, Some(n), decode).value.1 == Consume(s, Some(n))
  {
    CopyStep(s, Some(n), decode);
    PumpSatisfied(Consume(s, Some(n)), Some(0), decode);
  }

  /** Reading on from inside the buffer delivers the rest of the buffer, then
      what follows it. */
  lemma ResumesInBuffer(s: Reader, n: int, decode: Decoder)
    requires Valid(s) && 0 < n < |Pending(s)| && s.blockPos < |s.blockData|
    ensures Pump(Consume(s, Some(n)), None, decode).Ok? <==> Pump(Consume(s, None), None, decode).Ok?
    ensures Pump(Consume(s, Some(n)), None, decode).Ok? ==>
              Pump(Consume(s, Some(n)), None, decode).value.0
              == Pending(s)[n..] + Pump(Consume(s, None), None, decode).value.0
  {
    var c1 := Consume(s, Some(n));
    CopyStep(c1, None, decode);
    assert Consume(c1, None) == Consume(s, None);
    assert Taken(c1, None) == Pending(s)[n..];
  }

  lemma SplitAt(all: seq<byte>, p: seq<byte>, inner: seq<byte>, n: int)
    requires 0 < n < |p| && all == p + inner
    ensures p[..n] == all[..Min(Max0(n), |all|)]
    ensures p[..n] + (p[n..] + inner) == all
  {
    assert p[..n] + p[n..] == p;
  }

  /** A request the buffer does not cover takes the whole buffer and goes on. */
  lemma {:induction false} PrefixPastBuffer(s: Reader, n: int, decode: Decoder)
    requires Valid(s) && n >= |Pending(s)| && s.blockPos < |s.blockData|
    ensures SplitsRead(s, n, decode)
    decreases FileLeft(s), BufferLeft(s), 0
  {
    var c := Consume(s, None);
    CopyStep(s, None, decode);
    CopiesWholeBuffer(s, n, decode);
    PumpPrefix(c, n - |Pending(s)|, decode);
    if Pump(s, None, decode).Ok? {
      var rest := Pump(Pump(c, Some(n - |Pending(s)|), decode).value.1, None, decode).value.0;
      PrefixOfConcat(Pending(s), Pump(c, None, decode).value.0, Pump(c, Some(n - |Pending(s)|), decode).value.0, rest,
                     n - |Pending(s)|);
    }
  }

  /** A request the buffer does not cover copies the whole buffer, then
      goes on with what is left of it. */
  lemma CopiesWholeBuffer(s: Reader, n: int, decode: Decoder)
    requires Valid(s) && n >= |Pending(s)| && s.blockPos < |s.blockData|
    ensures Pump(s, Some(n), decode).Ok? <==> Pump(Consume(s, None), Some(n - |Pending(s)|), decode).Ok?
    ensures Pump(s, Some(n), decode).Ok? ==>
              && Pump(s, Some(n), decode).value.0
                 == Pending(s) + Pump(Consume(s, None), Some(n - |Pending(s)|), decode).value.0
              && Pump(s, Some(n), decode).value.1 == Pump(Consume(s, None), Some(n - |Pending(s)|), decode).value.1
  {
    var taken := Taken(s, Some(n));
    assert taken == Pending(s);
    assert Consume(s, Some(n)) == Consume(s, None);
    assert Less(Some(n), |taken|) == Some(n - |Pending(s)|);
    CopyStep(s, Some(n), decode);
  }

  lemma PrefixOfConcat(p: seq<byte>, all: seq<byte>, first: seq<byte>, rest: seq<byte>, m: nat)
    requires first == all[..Min(m, |all|)] && first + rest == all
    ensures p + first == (p + all)[..Min(|p| + m, |p + all|)]
    ensures (p + first) + rest == p + all
  {
  }

  /** One turn of the loop that copies from the buffer, field by field. */
  lemma CopyStep(t: Reader, m: Option<int>, decode: Decoder)
    requires Valid(t) && t.blockPos < |t.blockData| && (m.Some? ==> m.value > 0)
    ensures Pump(t, m, decode).Ok? <==> Pump(Consume(t, m), Less(m, |Taken(t, m)|), decode).Ok?
    ensures Pump(t, m, decode).Ok? ==>
              && Pump(t, m, decode).value.0 == Taken(t, m) + Pump(Consume(t, m), Less(m, |Taken(t, m)|), decode).value.0
              && Pump(t, m, decode).value.1 == Pump(Consume(t, m), Less(m, |Taken(t, m)|), decode).value.1
  {
  }

  /** A read of `a + b` bytes that succeeds returns what a read of `a` bytes
      returns followed by what a read of `b` more from there returns. */
  ghost predicate SplitsBounded(s: Reader, a: nat, b: nat, decode: Decoder)
    requires Valid(s)
  {
    var whole := Pump(s, Some(a + b), decode);
    var first := Pump(s, Some(a), decode);
    whole.Ok? ==>
      && first.Ok?
      && Pump(first.value.1, Some(b), decode).Ok?
      && first.value.0 + Pump(first.value.1, Some(b), decode).value.0 == whole.value.0
  }

  /** How a bounded read is cut into two reads changes nothing, whether or
      not the rest of the file would read without error. */
  lemma {:induction false} PumpSplits(s: Reader, a: nat, b: nat, decode: Decoder)
    requires Valid(s)
    ensures SplitsBounded(s, a, b, decode)
    decreases FileLeft(s), BufferLeft(s), 1
  {
    if a == 0 {
      SplitAtStart(s, b, decode);
    } else if s.blockPos < |s.blockData| {
      if a >= |Pending(s)| {
        SplitPastBuffer(s, a, b, decode);
      } else {
        SplitInBuffer(s, a, b, decode);
      }
    } else {
      SplitAfterLoad(s, a, b, decode);
    }
  }

  /** A first read of nothing returns nothing and leaves the state alone. */
  lemma SplitAtStart(s: Reader, b: nat, decode: Decoder)
    requires Valid(s)
    ensures SplitsBounded(s, 0, b, decode)
  {
    PumpSatisfied(s, Some(0), decode);
    assert Some(0 + b) == Some(b);
    if Pump(s, Some(b), decode).Ok? {
      assert [] + Pump(s, Some(b), decode).value.0 == Pump(s, Some(b), decode).value.0;
    }
  }

  /** A first read that empties the buffer: both reads copy the whole
      buffer and go on from the same state. */
  lemma {:induction false} SplitPastBuffer(s: Reader, a: nat, b: nat, decode: Decoder)
    requires Valid(s) && s.blockPos < |s.blockData| && 0 < |Pending(s)| <= a
    ensures SplitsBounded(s, a, b, decode)
    decreases FileLeft(s), BufferLeft(s), 0
  {
    var c := Consume(s, Some(a));
    var a' := a - |Pending(s)|;
    PastBufferParts(s, a, b);
    CopyStep(s, Some(a), decode);
    CopyStep(s, Some(a + b), decode);
    assert Pump(Consume(s, Some(a)), Less(Some(a), |Taken(s, Some(a))|), decode) == Pump(c, Some(a'), decode);
    assert Pump(Consume(s, Some(a + b)), Less(Some(a + b), |Taken(s, Some(a + b))|), decode)
        == Pump(c, Some(a' + b), decode);
    PumpSplits(c, a', b, decode);
    var first := Pump(s, Some(a), decode);
    var f := Pump(c, Some(a'), decode);
    var g := if f.Ok? then Pump(f.value.1, Some(b), decode) else f;
    var second := if first.Ok? then Pump(first.value.1, Some(b), decode) else first;
    JoinsAfterCopy(Pending(s), Pump(s, Some(a + b), decode), first, Pump(c, Some(a' + b), decode), f, g, second);
  }

  /** A request of `a` or of `a + b` bytes, either past the end of the
      buffer, copies all of it and leaves the same state. */
  lemma PastBufferParts(s: Reader, a: nat, b: nat)
    requires Valid(s) && s.blockPos < |s.blockData| && |Pending(s)| <= a
    ensures Taken(s, Some(a)) == Pending(s) && Taken(s, Some(a + b)) == Pending(s)
    ensures Consume(s, Some(a + b)) == Consume(s, Some(a))
    ensures Less(Some(a), |Taken(s, Some(a))|) == Some(a - |Pending(s)|)
    ensures Less(Some(a + b), |Taken(s, Some(a + b))|) == Some(a - |Pending(s)| + b)
  {
    CopySplitsPending(s, Some(a));
    CopySplitsPending(s, Some(a + b));
  }

  /** The bookkeeping of `SplitPastBuffer`: `p` copied in front of both a
      split read (`f` then `g`) and a whole read `w` that it equals. */
  lemma JoinsAfterCopy(p: seq<byte>, whole: Result<(seq<byte>, Reader)>, first: Result<(seq<byte>, Reader)>,
                       w: Result<(seq<byte>, Reader)>, f: Result<(seq<byte>, Reader)>,
                       g: Result<(seq<byte>, Reader)>, second: Result<(seq<byte>, Reader)>)
    requires whole.Ok? <==> w.Ok?
    requires whole.Ok? ==> whole.value.0 == p + w.value.0
    requires first.Ok? <==> f.Ok?
    requires first.Ok? ==> first.value.0 == p + f.value.0
    requires w.Ok? ==> f.Ok? && g.Ok? && f.value.0 + g.value.0 == w.value.0
    requires first.Ok? ==> second == g
    ensures whole.Ok? ==> first.Ok? && second.Ok? && first.value.0 + second.value.0 == whole.value.0
  {
    if whole.Ok? {
      assert p + (f.value.0 + g.value.0) == (p + f.value.0) + g.value.0;
    }
  }

  /** A first read that stops inside the buffer: the second read starts by
      copying the bytes the single read copies after them, and both then go
      on from the same state with the same request left. */
  lemma SplitInBuffer(s: Reader, a: nat, b: nat, decode: Decoder)
    requires Valid(s) && s.blockPos < |s.blockData| && 0 < a < |Pending(s)|
    ensures SplitsBounded(s, a, b, decode)
  {
    var c1 := Consume(s, Some(a));
    StopsInBuffer(s, a, decode);
    if b == 0 {
      PumpSatisfied(c1, Some(0), decode);
      assert Pending(s)[..a] + [] == Pending(s)[..a];
    } else {
      InBufferParts(s, a, b);
      CopyStep(c1, Some(b), decode);
      CopyStep(s, Some(a + b), decode);
      var rest := Pump(Consume(s, Some(a + b)), Less(Some(a + b), |Taken(s, Some(a + b))|), decode);
      assert Pump(Consume(c1, Some(b)), Less(Some(b), |Taken(c1, Some(b))|), decode) == rest;
      JoinsInBuffer(Pump(s, Some(a + b), decode), Pump(c1, Some(b), decode), rest,
                    Pending(s)[..a], Taken(c1, Some(b)), Taken(s, Some(a + b)));
    }
  }

  /** Copying `a` bytes and then `b` more leaves the buffer where copying
      `a + b` at once leaves it, with the same request left. */
  lemma InBufferParts(s: Reader, a: nat, b: nat)
    requires Valid(s) && s.blockPos < |s.blockData| && 0 < a < |Pending(s)| && b > 0
    ensures var c1 := Consume(s, Some(a));
            && c1.blockPos < |c1.blockData|
            && Consume(c1, Some(b)) == Consume(s, Some(a + b))
            && Less(Some(b), |Taken(c1, Some(b))|) == Less(Some(a + b), |Taken(s, Some(a + b))|)
            && Pending(s)[..a] + Taken(c1, Some(b)) == Taken(s, Some(a + b))
  {
    var c1 := Consume(s, Some(a));
    var k := Min(b, |Pending(s)| - a);
    CopySplitsPending(s, Some(a));
    assert Taken(s, Some(a)) == Pending(s)[..a];
    assert Pending(c1) == Pending(s)[a..];
    assert Taken(c1, Some(b)) == Pending(s)[a..a + k];
    assert Taken(s, Some(a + b)) == Pending(s)[..a + k];
    assert Pending(s)[..a] + Pending(s)[a..a + k] == Pending(s)[..a + k];
  }

  /** The bookkeeping of `SplitInBuffer`: the first read took `t0`, the
      second starts with `t1`, the whole read with `t0 + t1`, and both then
      go on as `rest`. */
  lemma JoinsInBuffer(whole: Result<(seq<byte>, Reader)>, second: Result<(seq<byte>, Reader)>,
                      rest: Result<(seq<byte>, Reader)>, t0: seq<byte>, t1: seq<byte>, t: seq<byte>)
    requires whole.Ok? <==> rest.Ok?
    requires whole.Ok? ==> whole.value.0 == t + rest.value.0
    requires second.Ok? <==> rest.Ok?
    requires second.Ok? ==> second.value.0 == t1 + rest.value.0
    requires t0 + t1 == t
    ensures whole.Ok? ==> second.Ok? && t0 + second.value.0 == whole.value.0
  {
    if whole.Ok? {
      assert t0 + (t1 + rest.value.0) == (t0 + t1) + rest.value.0;
    }
  }

  /** A drained buffer: both reads load the same block or frame first. */
  lemma {:induction false} SplitAfterLoad(s: Reader, a: nat, b: nat, decode: Decoder)
    requires Valid(s) && s.blockPos >= |s.blockData| && a > 0
    ensures SplitsBounded(s, a, b, decode)
    decreases FileLeft(s), BufferLeft(s), 0
  {
    PumpLoads(s, Some(a), decode);
    PumpLoads(s, Some(a + b), decode);
    if LoadNext(s, decode).Ok? {
      var step := LoadNext(s, decode).value;
      if step.ended {
        PumpAtEnd(step.reader, Some(b), decode);
      } else {
        PumpSplits(step.reader, a, b, decode);
      }
    }
  }

  /** Two reads in a row return what one read of their combined size
      returns. */
  lemma PumpComposes(s: Reader, a: nat, b: nat, decode: Decoder)
    requires Valid(s) && Pump(s, Some(a + b), decode).Ok?
    ensures var first := Pump(s, Some(a), decode);
            && first.Ok?
            && Pump(first.value.1, Some(b), decode).Ok?
            && first.value.0 + Pump(first.value.1, Some(b), decode).value.0 == Pump(s, Some(a + b), decode).value.0
  {
    PumpSplits(s, a, b, decode);
  }

  /** Reading a whole file from the start returns exactly what the session
      outputs on everything fed to it, and leaves the reader at the end. */
  lemma ReadAllDelivers(data: seq<byte>, decode: Decoder)
    requires Pump(Open(data), None, decode).Ok?
    ensures AtEnd(Pump(Open(data), None, decode).value.1)
    ensures Pump(Open(data), None, decode).value.0
            == Outputs(decode, [], Pump(Open(data), None, decode).value.1.fed)
  {
    var s := Open(data);
    var t := Pump(s, None, decode).value.1;
    PumpStopsAtEnd(s, None, decode);
    PumpConserves(s, None, decode);
    var out := Pump(s, None, decode).value.0;
    var produced := Outputs(decode, [], t.fed);
    assert Pending(t) == [];
    assert t.fed[|s.fed|..] == t.fed;
    assert [] + produced == out + [];
    assert [] + produced == produced && out + [] == out;
  }

  /** The session bookkeeping between the state `s` a read starts in and the
      state `t` it stops in, having returned `out`. */
  ghost predicate Conserved(s: Reader, out: seq<byte>, t: Reader, decode: Decoder) {
    && |s.fed| <= |t.fed|
    && t.fed[..|s.fed|] == s.fed
    && Pending(s) + Outputs(decode, s.fed, t.fed[|s.fed|..]) == out + Pending(t)
  }

  /** Copying out of the buffer keeps the bookkeeping. */
  lemma ConservedAfterCopy(s: Reader, n: Option<int>, rest: seq<byte>, t: Reader, decode: Decoder)
    requires s.blockPos < |s.blockData|
    requires n.Some? ==> n.value > 0
    requires Conserved(Consume(s, n), rest, t, decode)
    ensures Conserved(s, Taken(s, n) + rest, t, decode)
  {
    var s1 := Consume(s, n);
    CopySplitsPending(s, n);
    assert s1.fed == s.fed;
    var produced := Outputs(decode, s.fed, t.fed[|s.fed|..]);
    Regroup(Pending(s), Taken(s, n), Pending(s1), produced, rest, Pending(t));
  }

  /** The sequence step behind `ConservedAfterCopy`, kept apart from the
      reader so that the solver sees only concatenations. */
  lemma Regroup(p: seq<byte>, x: seq<byte>, p1: seq<byte>, produced: seq<byte>, rest: seq<byte>, q: seq<byte>)
    requires p == x + p1
    requires p1 + produced == rest + q
    ensures p + produced == (x + rest) + q
  {
    calc {
      p + produced;
      (x + p1) + produced;
      x + (p1 + produced);
      x + (rest + q);
      (x + rest) + q;
    }
  }

  /** Composes the session bookkeeping of a loading step and of the rest of
      the loop. */
  lemma PumpAfterStep(s: Reader, u: Reader, t: Reader, out: seq<byte>, decode: Decoder)
    requires Pending(s) == []
    requires Advances(s, u, decode)
    requires |u.fed| <= |t.fed| && t.fed[..|u.fed|] == u.fed
    requires Conserved(u, out, t, decode)
    ensures Conserved(s, out, t, decode)
  {
    var a := u.fed[|s.fed|..];
    var b := t.fed[|u.fed|..];
    assert t.fed[|s.fed|..] == a + b;
    assert s.fed + a == u.fed;
    OutputsAppend(decode, s.fed, a, b);
  }

  function Max0(n: int): nat {
    if n < 0 then 0 else n
  }

  /** The request left after `k` bytes were delivered. */
  function Less(n: Option<int>, k: nat): Option<int> {
    if n.None? then None else Some(n.value - k)
  }

  /** The read loop stopped in state `t` having collected `out`. */
  ghost predicate Delivered(s: Reader, size: Option<int>, decode: Decoder, out: seq<byte>, t: Reader)
    requires Valid(s)
  {
    && Pump(s, size, decode).Ok?
    && Pump(s, size, decode).value.0 == out
    && Pump(s, size, decode).value.1 == t
  }

  /** Prefixes the bytes collected so far to the outcome of the rest of the loop. */
  function After(prefix: seq<byte>, r: Result<(seq<byte>, Reader)>): (a: Result<(seq<byte>, Reader)>)
    ensures a.Ok? <==> r.Ok?
    ensures a.Ok? ==> a.value.0 == prefix + r.value.0 && a.value.1 == r.value.1
    ensures a.Err? ==> a.error == r.error
  {
    if r.Ok? then Ok((prefix + r.value.0, r.value.1)) else Err(r.error)
  }

  lemma AfterNothing(r: Result<(seq<byte>, Reader)>)
    ensures After([], r) == r
  {
    if r.Ok? {
      assert [] + r.value.0 == r.value.0;
    }
  }

  lemma AfterAfter(a: seq<byte>, b: seq<byte>, r: Result<(seq<byte>, Reader)>)
    ensures After(a, After(b, r)) == After(a + b, r)
  {
    if r.Ok? {
      assert a + (b + r.value.0) == (a + b) + r.value.0;
    }
  }

  lemma AfterDone(a: seq<byte>, t: Reader)
    ensures After(a, Ok(([], t))) == Ok((a, t))
  {
    assert a + [] == a;
  }

  /** A satisfied request ends the loop. */
  lemma PumpSatisfied(t: Reader, m: Option<int>, decode: Decoder)
    requires Valid(t) && m.Some? && m.value <= 0
    ensures Pump(t, m, decode) == Ok(([], t))
  {
  }

  /** One turn of the loop that copies from the buffer. */
  lemma PumpCopies(t: Reader, m: Option<int>, decode: Decoder)
    requires Valid(t) && t.blockPos < |t.blockData| && (m.Some? ==> m.value > 0)
    ensures Pump(t, m, decode) == After(Taken(t, m), Pump(Consume(t, m), Less(m, |Taken(t, m)|), decode))
  {
  }

  /** One turn of the loop that loads. */
  lemma PumpLoads(t: Reader, m: Option<int>, decode: Decoder)
    requires Valid(t) && t.blockPos >= |t.blockData| && (m.Some? ==> m.value > 0)
    ensures LoadNext(t, decode).Err? ==> Pump(t, m, decode) == Err(LoadNext(t, decode).error)
    ensures LoadNext(t, decode).Ok? && LoadNext(t, decode).value.ended
            ==> Pump(t, m, decode) == Ok(([], LoadNext(t, decode).value.reader))
    ensures LoadNext(t, decode).Ok? && !LoadNext(t, decode).value.ended
            ==> Pump(t, m, decode) == Pump(LoadNext(t, decode).value.reader, m, decode)
  {
    assert Pump(t, m, decode) == Refill(t, m, decode);
    if CanLoadBlock(t) {
      assert Refill(t, m, decode) == PumpBlock(t, m, decode);
    } else {
      assert Refill(t, m, decode) == PumpFrame(t, m, decode);
    }
  }

  /** One turn of the loop that loads a block of the current frame. */
  lemma PumpLoadsBlock(t: Reader, m: Option<int>, decode: Decoder)
    requires Valid(t) && t.blockPos >= |t.blockData| && CanLoadBlock(t) && (m.Some? ==> m.value > 0)
    requires LoadBlockStep(t, decode).Ok?
    ensures Pump(t, m, decode) == Pump(LoadBlockStep(t, decode).value.reader, m, decode)
  {
    assert Pump(t, m, decode) == Refill(t, m, decode);
    assert Refill(t, m, decode) == PumpBlock(t, m, decode);
  }

  /** One turn of the loop that moves on to a next frame it finds. */
  lemma PumpLoadsFrame(t: Reader, m: Option<int>, decode: Decoder)
    requires Valid(t) && t.blockPos >= |t.blockData| && !CanLoadBlock(t) && (m.Some? ==> m.value > 0)
    requires LoadFrame(t, decode).Ok? && !LoadFrame(t, decode).value.ended
    ensures Pump(t, m, decode) == Pump(LoadFrame(t, decode).value.reader, m, decode)
  {
    assert Pump(t, m, decode) == Refill(t, m, decode);
    assert Refill(t, m, decode) == PumpFrame(t, m, decode);
  }

  /** The loop of `read` after collecting `result` (of length `cpt`) and
      reaching state `t`: finishing the loop from `t` gives the whole read. */
  ghost predicate LoopInvariant(s: Reader, size: Option<int>, decode: Decoder, result: seq<byte>, cpt: nat, t: Reader) {
    && Valid(s)
    && Valid(t) && t.data == s.data && t.pos == s.pos
    && cpt == |result|
    && Pump(s, size, decode) == After(result, Pump(t, Less(size, cpt), decode))
  }

  lemma LoopStarts(s: Reader, size: Option<int>, decode: Decoder)
    requires Valid(s)
    ensures LoopInvariant(s, size, decode, [], 0, s)
  {
    assert Less(size, 0) == size;
    AfterNothing(Pump(s, size, decode));
  }

  /** Copying `toRead` bytes from the buffer keeps the invariant. */
  lemma LoopCopies(s: Reader, size: Option<int>, decode: Decoder, result: seq<byte>, cpt: nat, t: Reader, toRead: nat)
    requires LoopInvariant(s, size, decode, result, cpt, t)
    requires size.None? || cpt < size.value
    requires t.blockPos < |t.blockData|
    requires toRead == if size.Some? then Min(size.value - cpt, |t.blockData| - t.blockPos) else |t.blockData| - t.blockPos
    ensures t.blockPos + toRead <= |t.blockData|
    ensures LoopInvariant(s, size, decode, result + t.blockData[t.blockPos..t.blockPos + toRead], cpt + toRead,
                          t.(blockPos := t.blockPos + toRead))
  {
    var wanted := Less(size, cpt);
    var rawdata := t.blockData[t.blockPos..t.blockPos + toRead];
    assert rawdata == Taken(t, wanted);
    PumpCopies(t, wanted, decode);
    AfterAfter(result, rawdata, Pump(Consume(t, wanted), Less(wanted, toRead), decode));
    LessLess(size, cpt, toRead);
    assert Consume(t, wanted) == t.(blockPos := t.blockPos + toRead);
  }

  lemma LessLess(n: Option<int>, a: nat, b: nat)
    ensures Less(Less(n, a), b) == Less(n, a + b)
  {
  }

  /** A loading step that does not end the file keeps the invariant. */
  lemma LoopLoads(s: Reader, size: Option<int>, decode: Decoder, result: seq<byte>, cpt: nat, t: Reader)
    requires LoopInvariant(s, size, decode, result, cpt, t)
    requires size.None? || cpt < size.value
    requires t.blockPos >= |t.blockData|
    ensures LoadNext(t, decode).Err? ==> Pump(s, size, decode) == Err(LoadNext(t, decode).error)
    ensures LoadNext(t, decode).Ok? && LoadNext(t, decode).value.ended
            ==> Pump(s, size, decode) == Ok((result, LoadNext(t, decode).value.reader))
    ensures LoadNext(t, decode).Ok? && !LoadNext(t, decode).value.ended
            ==> LoopInvariant(s, size, decode, result, cpt, LoadNext(t, decode).value.reader)
  {
    PumpLoads(t, Less(size, cpt), decode);
    if LoadNext(t, decode).Ok? && LoadNext(t, decode).value.ended {
      AfterDone(result, LoadNext(t, decode).value.reader);
    }
  }

  /** A satisfied request leaves the loop with the whole read. */
  lemma LoopEnds(s: Reader, size: Option<int>, decode: Decoder, result: seq<byte>, cpt: nat, t: Reader)
    requires LoopInvariant(s, size, decode, result, cpt, t)
    requires size.Some? && cpt >= size.value
    ensures Delivered(s, size, decode, result, t)
  {
    PumpSatisfied(t, Less(size, cpt), decode);
    AfterDone(result, t);
  }

  /** The refill branch of the loop of `read`: loads the next block or frame
      and says how the loop goes on. */
  method LoadStep(s: Reader, size: Option<int>, decode: Decoder, result: seq<byte>, cpt: nat, t: Reader)
    returns (step: Result<Step>)
    requires LoopInvariant(s, size, decode, result, cpt, t)
    requires size.None? || cpt < size.value
    requires t.blockPos >= |t.blockData|
    ensures step.Err? ==> Pump(s, size, decode).Err? && Pump(s, size, decode).error == step.error
    ensures step.Ok? ==> Valid(step.value.reader) && step.value.reader.data == s.data && step.value.reader.pos == s.pos
    ensures step.Ok? && step.value.ended ==> Delivered(s, size, decode, result, step.value.reader)
    ensures step.Ok? && !step.value.ended
            ==> LoopInvariant(s, size, decode, result, cpt, step.value.reader)
                && FileLeft(step.value.reader) < FileLeft(t)
  {
    step := LoadNext(t, decode);
    LoopLoads(s, size, decode, result, cpt, t);
  }

  /** `Lz4File.read`: the loop of the source, over the state record. */
  method Read(s: Reader, size: Option<int>, decode: Decoder) returns (r: Result<(seq<byte>, Reader)>)
    requires Valid(s)
    ensures r.Err? <==> Pump(s, size, decode).Err?
    ensures r.Err? ==> r.error == Pump(s, size, decode).error
    ensures r.Ok? ==> r.value.0 == Pump(s, size, decode).value.0
    ensures r.Ok? ==> r.value.1 == Pump(s, size, decode).value.1.(pos := s.pos + |r.value.0|)
    ensures r.Ok? ==> Valid(r.value.1)
    ensures r.Ok? && size.Some? ==> |r.value.0| <= Max0(size.value)
  {
    var result: seq<byte> := [];
    var cpt: nat := 0;
    var t := s;
    LoopStarts(s, size, decode);
    while size.None? || cpt < size.value
      invariant LoopInvariant(s, size, decode, result, cpt, t)
      decreases FileLeft(t), BufferLeft(t)
    {
      if t.blockPos < |t.blockData| {
        // first the data of the current block
        var toRead := |t.blockData| - t.blockPos;
        if size.Some? {
          toRead := Min(size.value - cpt, toRead);
        }
        LoopCopies(s, size, decode, result, cpt, t, toRead);
        var rawdata := t.blockData[t.blockPos..t.blockPos + toRead];
        cpt := cpt + toRead;
        t := t.(blockPos := t.blockPos + toRead);
        result := result + rawdata;
      } else {
        // then the next block of the current frame, or the next frame
        var step := LoadStep(s, size, decode, result, cpt, t);
        if step.Err? {
          return Err(step.error);
        }
        t := step.value.reader;
        if step.value.ended {
          // no more frames: the read ends with what it has
          break;
        }
      }
    }
    if size.Some? && cpt >= size.value {
      LoopEnds(s, size, decode, result, cpt, t);
    }
    t := t.(pos := t.pos + cpt);
    r := Ok((result, t));
  }
}
