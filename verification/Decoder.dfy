/** The state of FfmpegDecoder that its threads share, and each critical section of
    src/ffmpeg_decoder.cpp as one step. */
module Decoder {
  import opened Common
  import opened VideoFrames
  import Sps
  import SpsParser

  const MAX_PENDING := 4
  const UINT64_MODULUS := 0x1_0000_0000_0000_0000

  datatype Queued = Queued(frame: VideoFrame, size: Size)
  datatype Expected = Expected(size: Size, capturedAtMs: int)
  datatype DecodedFrame = DecodedFrame(width: int, height: int, capturedAtMs: int, rgba: seq<byte>)

  // ---- Sizes ---------------------------------------------------------------

  predicate PositiveSize(s: Size) {
    0 < s.width <= INT32_MAX && 0 < s.height <= INT32_MAX
  }

  /** `static_cast<size_t>(width) * static_cast<size_t>(height) * 4U`: size_t arithmetic
      reduces the product modulo 2^64. */
  function FrameBytes(s: Size): nat {
    s.width * s.height * 4 % UINT64_MODULUS
  }

  /** The byte count of a positive size neither wraps nor vanishes. */
  lemma FrameBytesExact(s: Size)
    requires PositiveSize(s)
    ensures FrameBytes(s) == s.width * s.height * 4 && 0 < FrameBytes(s) < UINT64_MODULUS
  {
    ProductBounds(s.width, s.height);
  }

  lemma ProductBounds(w: int, h: int)
    requires 0 < w <= INT32_MAX && 0 < h <= INT32_MAX
    ensures 0 < w * h <= INT32_MAX * INT32_MAX
  {
    assert w * h <= INT32_MAX * h;
  }

  /** The SPS size a frame carries, if it carries a parseable one. */
  function SizeInFrame(frame: VideoFrame): (r: Option<Size>)
    ensures r.Some? ==> PositiveSize(r.value)
  {
    if frame.sps == [] then None else Sps.ParseSpsDimensions(frame.sps)
  }

  function VideoSizeAfter(videoSize: Size, frame: VideoFrame): Size {
    if SizeInFrame(frame).Some? then SizeInFrame(frame).value else videoSize
  }

  /** The announced panel has an area, or an SPS has been parsed before. */
  predicate SizeIsKnown(videoSize: Size, fallback: Size) {
    PositiveSize(videoSize) || PositiveSize(fallback)
  }

  /** `sizeFor`, with `videoSize_` as submit has just left it. */
  function SizeFor(frame: VideoFrame, videoSize: Size, fallback: Size): Size {
    if SizeInFrame(frame).Some? then SizeInFrame(frame).value
    else if videoSize.width > 0 then videoSize
    else fallback
  }

  // ---- submit and dequeue --------------------------------------------------

  datatype Queue = Queue(pending: seq<Queued>, videoSize: Size, dropped: nat, running: bool)

  function Overflow(length: nat): nat {
    if length > MAX_PENDING then length - MAX_PENDING else 0
  }

  function Submit(q: Queue, frame: VideoFrame, fallback: Size): Queue {
    if !q.running then q
    else
      var videoSize := VideoSizeAfter(q.videoSize, frame);
      var all := q.pending + [Queued(frame, SizeFor(frame, videoSize, fallback))];
      var over := Overflow(|all|);
      Queue(all[over..], videoSize, q.dropped + over, true)
  }

  // ---- One pass of the reader's inner loop ---------------------------------

  datatype Pass =
    | Discard             // no record: the buffer is cleared
    | UnknownSize         // a record of zero bytes: popped, buffer cleared, restart asked for
    | Wait                // the frame is not complete yet
    | Deliver(e: Expected)

  function Inspect(buffer: seq<byte>, expected: seq<Expected>): Pass {
    if expected == [] then Discard
    else if FrameBytes(expected[0].size) == 0 then UnknownSize
    else if |buffer| < FrameBytes(expected[0].size) then Wait
    else Deliver(expected[0])
  }

  function FrameOf(e: Expected, buffer: seq<byte>): DecodedFrame
    requires FrameBytes(e.size) <= |buffer|
  {
    DecodedFrame(e.size.width, e.size.height, e.capturedAtMs, buffer[..FrameBytes(e.size)])
  }

  /** What the inner loop leaves behind when no record is pushed meanwhile. */
  datatype Readout = Readout(
    frames: seq<DecodedFrame>, buffer: seq<byte>, expected: seq<Expected>, restart: bool, discarded: nat)

  function ReadLoop(buffer: seq<byte>, expected: seq<Expected>): Readout
    decreases |expected|
  {
    match Inspect(buffer, expected)
    case Discard => Readout([], [], expected, false, |buffer|)
    case UnknownSize =>
      var r := ReadLoop([], expected[1..]);
      r.(restart := true, discarded := r.discarded + |buffer|)
    case Wait => Readout([], buffer, expected, false, 0)
    case Deliver(e) =>
      var r := ReadLoop(buffer[FrameBytes(e.size)..], expected[1..]);
      r.(frames := [FrameOf(e, buffer)] + r.frames)
  }

  /** How a turn of the writer loop begins. */
  datatype Turn = Finished | SelfLocked | Blocked | Taken(queued: Queued)

  class FfmpegDecoder {
    var fallbackSize: Size
    var pending: seq<Queued>
    var expected: seq<Expected>
    var running: bool
    var restartNeeded: bool
    var droppedFrames: nat
    var videoSize: Size
    var sps: seq<byte>
    var pps: seq<byte>
    var inputOpen: bool   // inputFd_ >= 0

    ghost function TheQueue(): Queue
      reads this
    {
      Queue(pending, videoSize, droppedFrames, running)
    }

    constructor ()
      ensures TheQueue() == Queue([], Size(0, 0), 0, false) && expected == [] && !restartNeeded
      ensures !inputOpen
    {
      inputOpen := false;
      fallbackSize, videoSize := Size(0, 0), Size(0, 0);
      pending, expected := [], [];
      running, restartNeeded, droppedFrames := false, false, 0;
      sps, pps := [], [];
    }

    /** `stop` up to the join: both queues are emptied, the video size is kept. */
    method Stop()
      modifies this`running, this`pending, this`expected
      ensures TheQueue() == old(TheQueue()).(pending := [], running := false)
      ensures expected == [] && fallbackSize == old(fallbackSize) && restartNeeded == old(restartNeeded)
    {
      running := false;
      pending := [];
      expected := [];
    }

    method Start(fallback: Size)
      modifies this`running, this`pending, this`expected
      modifies this`fallbackSize, this`restartNeeded, this`droppedFrames
      ensures TheQueue() == Queue([], old(videoSize), 0, true)
      ensures expected == [] && fallbackSize == fallback && !restartNeeded
    {
      Stop();
      fallbackSize := fallback;
      running := true;
      restartNeeded := false;
      droppedFrames := 0;
    }

    method SubmitFrame(frame: VideoFrame)
      modifies this`pending, this`droppedFrames, this`videoSize, this`sps, this`pps
      ensures TheQueue() == Submit(old(TheQueue()), frame, fallbackSize)
      ensures fallbackSize == old(fallbackSize) && expected == old(expected)
      ensures restartNeeded == old(restartNeeded)
    {
      if !running {
        return;
      }
      NoteParameterSets(frame);
      var size := SizeForFrame(frame);
      pending := pending + [Queued(frame, size)];
      DropOldest();
    }

    method NoteParameterSets(frame: VideoFrame)
      modifies this`sps, this`pps, this`videoSize
      ensures videoSize == VideoSizeAfter(old(videoSize), frame)
    {
      if frame.sps != [] {
        sps := frame.sps;
        var dims := SpsParser.ParseDimensions(sps);
        if dims.Some? {
          videoSize := dims.value;
        }
      }
      if frame.pps != [] {
        pps := frame.pps;
      }
    }

    /** The drop-oldest loop of `submit`. */
    method DropOldest()
      modifies this`pending, this`droppedFrames
      ensures var over := Overflow(|old(pending)|);
              pending == old(pending)[over..] && droppedFrames == old(droppedFrames) + over
    {
      ghost var all := pending;
      var over := 0;
      while |pending| > MAX_PENDING
        invariant 0 <= over <= Overflow(|all|) && pending == all[over..]
        invariant droppedFrames == old(droppedFrames) + over
      {
        pending := pending[1..];
        droppedFrames := droppedFrames + 1;
        over := over + 1;
      }
    }

    method SizeForFrame(frame: VideoFrame) returns (size: Size)
      ensures size == SizeFor(frame, videoSize, fallbackSize)
    {
      if frame.sps != [] {
        var dims := SpsParser.ParseDimensions(frame.sps);
        if dims.Some? {
          return dims.value;
        }
      }
      size := if videoSize.width > 0 then videoSize else fallbackSize;
    }

    /** The writer's critical section, woken or not. A restart asked for while a child runs
        calls stopProcess with the mutex held, which locks it again: the thread stays there
        with the input pipe closed. */
    method TakeNext() returns (turn: Turn)
      modifies this`pending, this`restartNeeded, this`inputOpen
      ensures !old(running) ==> turn == Finished
      ensures old(running) && old(restartNeeded) && old(inputOpen) ==> turn == SelfLocked && !inputOpen
      ensures old(running) && !(old(restartNeeded) && old(inputOpen)) ==>
        && turn == (if old(pending) == [] then Blocked else Taken(old(pending)[0]))
        && !restartNeeded && inputOpen == (old(inputOpen) || old(restartNeeded))
      ensures turn.Taken? ==> pending == old(pending)[1..]
      ensures !turn.Taken? ==> pending == old(pending)
      ensures turn.Finished? || turn.SelfLocked? ==> restartNeeded == old(restartNeeded)
      ensures turn.Finished? ==> inputOpen == old(inputOpen)
    {
      if !running {
        return Finished;
      }
      if restartNeeded {
        if inputOpen {
          inputOpen := false;
          return SelfLocked;
        }
        inputOpen := true;
        restartNeeded := false;
      }
      if pending == [] {
        return Blocked;
      }
      turn := Taken(pending[0]);
      pending := pending[1..];
    }

    method Record(queued: Queued)
      modifies this`expected
      ensures expected == old(expected) + [Expected(queued.size, queued.frame.capturedAtMs)]
      ensures TheQueue() == old(TheQueue()) && fallbackSize == old(fallbackSize)
      ensures restartNeeded == old(restartNeeded)
    {
      expected := expected + [Expected(queued.size, queued.frame.capturedAtMs)];
    }

    /** The inner loop of `readerLoop` after a read has appended to its buffer. */
    method ReadFrames(buffer: seq<byte>) returns (frames: seq<DecodedFrame>, rest: seq<byte>)
      modifies this`expected, this`restartNeeded
      ensures var r := ReadLoop(buffer, old(expected));
              && frames == r.frames && rest == r.buffer && expected == r.expected
              && restartNeeded == (old(restartNeeded) || r.restart)
      ensures TheQueue() == old(TheQueue()) && fallbackSize == old(fallbackSize)
    {
      frames, rest := [], buffer;
      ghost var whole := ReadLoop(buffer, expected);
      while true
        invariant var r := ReadLoop(rest, expected);
                  && whole.frames == frames + r.frames && whole.buffer == r.buffer
                  && whole.expected == r.expected
                  && (old(restartNeeded) || whole.restart) == (restartNeeded || r.restart)
        invariant TheQueue() == old(TheQueue()) && fallbackSize == old(fallbackSize)
        decreases |expected|
      {
        if expected == [] {
          rest := [];
          return;
        }
        var e := expected[0];
        var frameBytes := FrameBytes(e.size);
        if frameBytes == 0 {
          expected := expected[1..];
          restartNeeded := true;
          rest := [];
          continue;
        }
        if |rest| < frameBytes {
          return;
        }
        expected := expected[1..];
        ghost var later := ReadLoop(rest[frameBytes..], expected);
        Associate(frames, [FrameOf(e, rest)], later.frames);
        frames := frames + [DecodedFrame(e.size.width, e.size.height, e.capturedAtMs, rest[..frameBytes])];
        rest := rest[frameBytes..];
      }
    }
  }
}
