/** The reader thread's chunked loop against the plain meaning of its output: the raw
    video stream cut at the recorded frame sizes. */
module DecoderReader {
  import opened Common
  import opened Decoder

  /** `stream` cut into the frames the records announce, as far as it reaches; `bytes`
      says how many bytes a picture of a size takes. */
  datatype CutResult = CutResult(frames: seq<DecodedFrame>, rest: seq<byte>, expected: seq<Expected>)

  function Cut(stream: seq<byte>, expected: seq<Expected>, bytes: Size -> nat): CutResult
    decreases |expected|
  {
    if expected == [] || |stream| < bytes(expected[0].size) then CutResult([], stream, expected)
    else
      var n := bytes(expected[0].size);
      var r := Cut(stream[n..], expected[1..], bytes);
      r.(frames := [Labelled(expected[0], stream[..n])] + r.frames)
  }

  function Labelled(e: Expected, pixels: seq<byte>): DecodedFrame {
    DecodedFrame(e.size.width, e.size.height, e.capturedAtMs, pixels)
  }

  function TotalBytes(expected: seq<Expected>, bytes: Size -> nat): nat {
    if expected == [] then 0 else bytes(expected[0].size) + TotalBytes(expected[1..], bytes)
  }

  predicate AllPositive(expected: seq<Expected>, bytes: Size -> nat) {
    forall i :: 0 <= i < |expected| ==> bytes(expected[i].size) > 0
  }

  function Pixels(frames: seq<DecodedFrame>): seq<byte> {
    if frames == [] then [] else frames[0].rgba + Pixels(frames[1..])
  }

  /** One pass over the buffer is the cut, and nothing is thrown away, exactly when the
      records cover the bytes; the clearing branch discards what lies beyond them. */
  lemma {:induction false} ReadLoopIsCut(buffer: seq<byte>, expected: seq<Expected>)
    requires AllPositive(expected, FrameBytes)
    ensures var r, c := ReadLoop(buffer, expected), Cut(buffer, expected, FrameBytes);
            var total := TotalBytes(expected, FrameBytes);
            && r.frames == c.frames && r.expected == c.expected && !r.restart
            && (|buffer| <= total ==> r.buffer == c.rest)
            && r.discarded == if |buffer| > total then |buffer| - total else 0
    decreases |expected|
  {
    if expected != [] && |buffer| >= FrameBytes(expected[0].size) {
      ReadLoopIsCut(buffer[FrameBytes(expected[0].size)..], expected[1..]);
    } else if expected != [] {
      assert TotalBytes(expected, FrameBytes) >= FrameBytes(expected[0].size);
    }
  }

  /** The records at the front whose frames have no bytes. */
  function Unsized(expected: seq<Expected>): (n: nat)
    ensures n <= |expected|
  {
    if expected != [] && FrameBytes(expected[0].size) == 0 then 1 + Unsized(expected[1..]) else 0
  }

  /** Meeting a record without a size throws the whole buffer and every such record at the
      front away, delivers nothing, and asks for a restart. */
  lemma {:induction false} UnsizedRecordThrowsAway(buffer: seq<byte>, expected: seq<Expected>)
    requires Unsized(expected) > 0
    ensures ReadLoop(buffer, expected) == Readout([], [], expected[Unsized(expected)..], true, |buffer|)
    decreases |expected|
  {
    if Unsized(expected[1..]) > 0 {
      UnsizedRecordThrowsAway([], expected[1..]);
    }
  }

  /** No byte is lost or reordered: the frames, then what is left, are the stream. */
  lemma {:induction false} CutConserves(stream: seq<byte>, expected: seq<Expected>, bytes: Size -> nat)
    ensures var c := Cut(stream, expected, bytes); Pixels(c.frames) + c.rest == stream
    decreases |expected|
  {
    if expected != [] && |stream| >= bytes(expected[0].size) {
      var n := bytes(expected[0].size);
      CutConserves(stream[n..], expected[1..], bytes);
      var c := Cut(stream[n..], expected[1..], bytes);
      PixelsCons(Labelled(expected[0], stream[..n]), c.frames, c.rest);
    } else {
      assert [] + stream == stream;
    }
  }

  lemma PixelsCons(f: DecodedFrame, frames: seq<DecodedFrame>, rest: seq<byte>)
    ensures Pixels([f] + frames) + rest == f.rgba + (Pixels(frames) + rest)
  {
    assert ([f] + frames)[1..] == frames;
    Associate(f.rgba, Pixels(frames), rest);
  }

  /** The records not yet used still cover what is missing. */
  lemma {:induction false} CutCoverage(stream: seq<byte>, expected: seq<Expected>, bytes: Size -> nat)
    requires AllPositive(expected, bytes)
    ensures var c := Cut(stream, expected, bytes);
            && AllPositive(c.expected, bytes)
            && TotalBytes(c.expected, bytes) - |c.rest| == TotalBytes(expected, bytes) - |stream|
    decreases |expected|
  {
    if expected != [] && |stream| >= bytes(expected[0].size) {
      CutCoverage(stream[bytes(expected[0].size)..], expected[1..], bytes);
    }
  }

  /** Cutting what is there, then what is left together with more, is cutting it all. */
  lemma {:induction false} CutResumes(a: seq<byte>, b: seq<byte>, expected: seq<Expected>, bytes: Size -> nat)
    ensures var first := Cut(a, expected, bytes);
            var second := Cut(first.rest + b, first.expected, bytes);
            Cut(a + b, expected, bytes) == second.(frames := first.frames + second.frames)
    decreases |expected|
  {
    if expected != [] && |a| >= bytes(expected[0].size) {
      var n := bytes(expected[0].size);
      assert (a + b)[..n] == a[..n] && (a + b)[n..] == a[n..] + b;
      CutResumes(a[n..], b, expected[1..], bytes);
      var first := Cut(a[n..], expected[1..], bytes);
      var second := Cut(first.rest + b, first.expected, bytes);
      Associate([Labelled(expected[0], a[..n])], first.frames, second.frames);
    }
  }

  /** Records that cover the bytes so far decide their cut; later ones only wait. */
  lemma {:induction false} CutIgnoresLaterRecords(
      stream: seq<byte>, expected: seq<Expected>, more: seq<Expected>, bytes: Size -> nat)
    requires AllPositive(expected, bytes) && AllPositive(more, bytes)
    requires |stream| <= TotalBytes(expected, bytes)
    ensures var c := Cut(stream, expected, bytes);
            Cut(stream, expected + more, bytes) == c.(expected := c.expected + more)
    decreases |expected|
  {
    if expected == [] {
      assert expected + more == more;
    } else {
      assert (expected + more)[1..] == expected[1..] + more;
      if |stream| >= bytes(expected[0].size) {
        CutIgnoresLaterRecords(stream[bytes(expected[0].size)..], expected[1..], more, bytes);
      }
    }
  }

  predicate Stuck(buffer: seq<byte>, expected: seq<Expected>, bytes: Size -> nat) {
    Cut(buffer, expected, bytes) == CutResult([], buffer, expected)
  }

  lemma {:induction false} CutIsStuck(stream: seq<byte>, expected: seq<Expected>, bytes: Size -> nat)
    ensures var c := Cut(stream, expected, bytes); Stuck(c.rest, c.expected, bytes)
    decreases |expected|
  {
    if expected != [] && |stream| >= bytes(expected[0].size) {
      CutIsStuck(stream[bytes(expected[0].size)..], expected[1..], bytes);
    }
  }

  // ---- The outer loop ------------------------------------------------------

  /** What the writer pushed since the last read, and what this read returned. */
  datatype Round = Round(pushed: seq<Expected>, chunk: seq<byte>)

  function ReadRounds(buffer: seq<byte>, expected: seq<Expected>, rounds: seq<Round>): Readout
    decreases |rounds|
  {
    if rounds == [] then Readout([], buffer, expected, false, 0)
    else
      var one := ReadLoop(buffer + rounds[0].chunk, expected + rounds[0].pushed);
      Combine(one, ReadRounds(one.buffer, one.expected, rounds[1..]))
  }

  function Combine(one: Readout, more: Readout): Readout {
    Readout(one.frames + more.frames, more.buffer, more.expected,
            one.restart || more.restart, one.discarded + more.discarded)
  }

  /** `readerLoop` over the chunks `read` returns, while the writer pushes records. */
  method ReadAll(decoder: FfmpegDecoder, rounds: seq<Round>)
      returns (frames: seq<DecodedFrame>, rest: seq<byte>)
    modifies decoder`expected, decoder`restartNeeded
    ensures var r := ReadRounds([], old(decoder.expected), rounds);
            && frames == r.frames && rest == r.buffer && decoder.expected == r.expected
            && decoder.restartNeeded == (old(decoder.restartNeeded) || r.restart)
  {
    frames, rest := [], [];
    ghost var whole := ReadRounds([], decoder.expected, rounds);
    var i := 0;
    assert rounds[0..] == rounds;
    while i < |rounds|
      invariant 0 <= i <= |rounds|
      invariant var r := ReadRounds(rest, decoder.expected, rounds[i..]);
                && whole.frames == frames + r.frames && whole.buffer == r.buffer
                && whole.expected == r.expected
                && (old(decoder.restartNeeded) || whole.restart) == (decoder.restartNeeded || r.restart)
    {
      RoundsStep(frames, rest, decoder.expected, rounds, i);
      decoder.expected := decoder.expected + rounds[i].pushed;
      var more;
      more, rest := decoder.ReadFrames(rest + rounds[i].chunk);
      frames := frames + more;
      i := i + 1;
    }
  }

  lemma RoundsStep(frames: seq<DecodedFrame>, rest: seq<byte>, expected: seq<Expected>, rounds: seq<Round>, i: nat)
    requires i < |rounds|
    ensures var one := ReadLoop(rest + rounds[i].chunk, expected + rounds[i].pushed);
            var more := ReadRounds(one.buffer, one.expected, rounds[i + 1..]);
            var r := ReadRounds(rest, expected, rounds[i..]);
            && frames + r.frames == frames + one.frames + more.frames
            && r.buffer == more.buffer && r.expected == more.expected
            && r.restart == (one.restart || more.restart)
  {
    var one := ReadLoop(rest + rounds[i].chunk, expected + rounds[i].pushed);
    var more := ReadRounds(one.buffer, one.expected, rounds[i + 1..]);
    assert rounds[i..][1..] == rounds[i + 1..];
    Associate(frames, one.frames, more.frames);
  }

  function Chunks(rounds: seq<Round>): seq<byte> {
    if rounds == [] then [] else rounds[0].chunk + Chunks(rounds[1..])
  }

  function Pushed(rounds: seq<Round>): seq<Expected> {
    if rounds == [] then [] else rounds[0].pushed + Pushed(rounds[1..])
  }

  /** At every read the records pushed so far announce the bytes read so far; `ahead` is by
      how much they do at the start. */
  predicate InStep(ahead: int, rounds: seq<Round>, bytes: Size -> nat)
    decreases |rounds|
  {
    rounds == [] ||
    var next := ahead + TotalBytes(rounds[0].pushed, bytes) - |rounds[0].chunk|;
    next >= 0 && InStep(next, rounds[1..], bytes)
  }

  predicate PositiveRounds(rounds: seq<Round>, bytes: Size -> nat) {
    forall i :: 0 <= i < |rounds| ==> AllPositive(rounds[i].pushed, bytes)
  }

  lemma {:induction false} TotalAppend(a: seq<Expected>, b: seq<Expected>, bytes: Size -> nat)
    ensures TotalBytes(a + b, bytes) == TotalBytes(a, bytes) + TotalBytes(b, bytes)
  {
    if a == [] {
      assert a + b == b;
    } else {
      assert (a + b)[1..] == a[1..] + b;
      TotalAppend(a[1..], b, bytes);
    }
  }

  lemma {:induction false} PushedArePositive(rounds: seq<Round>, bytes: Size -> nat)
    requires PositiveRounds(rounds, bytes)
    ensures AllPositive(Pushed(rounds), bytes)
  {
    if rounds != [] {
      PushedArePositive(rounds[1..], bytes);
      assert AllPositive(rounds[0].pushed, bytes);
    }
  }

  /** Nothing is discarded in `r` exactly when the records keep in step, and then `r` is
      one cut. */
  predicate CutIffInStep(
      buffer: seq<byte>, expected: seq<Expected>, rounds: seq<Round>, r: Readout, bytes: Size -> nat)
  {
    IsCutIf(InStep(TotalBytes(expected, bytes) - |buffer|, rounds, bytes), r,
            Cut(buffer + Chunks(rounds), expected + Pushed(rounds), bytes))
  }

  predicate IsCutIf(inStep: bool, r: Readout, c: CutResult) {
    && (r.discarded == 0 <==> inStep)
    && (inStep ==> !r.restart && CutResult(r.frames, r.buffer, r.expected) == c)
  }

  lemma RoundBalance(buffer: seq<byte>, expected: seq<Expected>, round: Round, bytes: Size -> nat)
    requires AllPositive(expected, bytes) && AllPositive(round.pushed, bytes)
    ensures var e := expected + round.pushed;
            var c := Cut(buffer + round.chunk, e, bytes);
            && AllPositive(e, bytes)
            && TotalBytes(e, bytes) == TotalBytes(expected, bytes) + TotalBytes(round.pushed, bytes)
            && TotalBytes(c.expected, bytes) - |c.rest|
               == TotalBytes(expected, bytes) - |buffer| + TotalBytes(round.pushed, bytes) - |round.chunk|
  {
    TotalAppend(expected, round.pushed, bytes);
    CutCoverage(buffer + round.chunk, expected + round.pushed, bytes);
  }

  /** Cutting all at once is cutting what is there, then what is left with what comes. */
  lemma CutRoundByRound(b: seq<byte>, e: seq<Expected>, chunks: seq<byte>, pushed: seq<Expected>, bytes: Size -> nat)
    requires AllPositive(e, bytes) && AllPositive(pushed, bytes) && |b| <= TotalBytes(e, bytes)
    ensures var c := Cut(b, e, bytes);
            var more := Cut(c.rest + chunks, c.expected + pushed, bytes);
            Cut(b + chunks, e + pushed, bytes) == more.(frames := c.frames + more.frames)
  {
    CutIgnoresLaterRecords(b, e, pushed, bytes);
    CutResumes(b, chunks, e + pushed, bytes);
  }

  /** A first round in step, then all that follows, is one cut. */
  lemma RoundThenRest(buffer: seq<byte>, expected: seq<Expected>, rounds: seq<Round>, bytes: Size -> nat)
    requires rounds != [] && AllPositive(expected, bytes) && PositiveRounds(rounds, bytes)
    requires |buffer| + |rounds[0].chunk| <= TotalBytes(expected, bytes) + TotalBytes(rounds[0].pushed, bytes)
    ensures var c := Cut(buffer + rounds[0].chunk, expected + rounds[0].pushed, bytes);
            var more := Cut(c.rest + Chunks(rounds[1..]), c.expected + Pushed(rounds[1..]), bytes);
            Cut(buffer + Chunks(rounds), expected + Pushed(rounds), bytes)
            == more.(frames := c.frames + more.frames)
  {
    var round, chunks, pushed := rounds[0], Chunks(rounds[1..]), Pushed(rounds[1..]);
    assert AllPositive(round.pushed, bytes);
    LaterRoundsPositive(rounds, bytes);
    PushedArePositive(rounds[1..], bytes);
    RoundBalance(buffer, expected, round, bytes);
    CutRoundByRound(buffer + round.chunk, expected + round.pushed, chunks, pushed, bytes);
    Associate(buffer, round.chunk, chunks);
    Associate(expected, round.pushed, pushed);
  }

  /** What a round that keeps in step and the later ones make together. */
  lemma RoundInStep(rounds: seq<Round>, ahead: int, left: int, one: Readout, more: Readout,
                    tail: CutResult, whole: CutResult, bytes: Size -> nat)
    requires rounds != [] && 0 <= left == ahead + TotalBytes(rounds[0].pushed, bytes) - |rounds[0].chunk|
    requires !one.restart && one.discarded == 0 && IsCutIf(InStep(left, rounds[1..], bytes), more, tail)
    requires whole == tail.(frames := one.frames + tail.frames)
    ensures IsCutIf(InStep(ahead, rounds, bytes), Combine(one, more), whole)
  {
  }

  lemma RoundKeepsCut(buffer: seq<byte>, expected: seq<Expected>, rounds: seq<Round>,
                      one: Readout, more: Readout, bytes: Size -> nat)
    requires rounds != [] && AllPositive(expected, bytes) && PositiveRounds(rounds, bytes)
    requires |buffer| + |rounds[0].chunk| <= TotalBytes(expected, bytes) + TotalBytes(rounds[0].pushed, bytes)
    requires CutResult(one.frames, one.buffer, one.expected)
          == Cut(buffer + rounds[0].chunk, expected + rounds[0].pushed, bytes)
    requires !one.restart && one.discarded == 0
    requires CutIffInStep(one.buffer, one.expected, rounds[1..], more, bytes)
    ensures CutIffInStep(buffer, expected, rounds, Combine(one, more), bytes)
  {
    assert AllPositive(rounds[0].pushed, bytes);
    RoundBalance(buffer, expected, rounds[0], bytes);
    RoundThenRest(buffer, expected, rounds, bytes);
    RoundInStep(rounds, TotalBytes(expected, bytes) - |buffer|,
                TotalBytes(one.expected, bytes) - |one.buffer|, one, more,
                Cut(one.buffer + Chunks(rounds[1..]), one.expected + Pushed(rounds[1..]), bytes),
                Cut(buffer + Chunks(rounds), expected + Pushed(rounds), bytes), bytes);
  }

  lemma RoundTooLate(buffer: seq<byte>, expected: seq<Expected>, rounds: seq<Round>,
                     one: Readout, more: Readout, bytes: Size -> nat)
    requires rounds != [] && one.discarded > 0
    requires |buffer| + |rounds[0].chunk| > TotalBytes(expected, bytes) + TotalBytes(rounds[0].pushed, bytes)
    ensures CutIffInStep(buffer, expected, rounds, Combine(one, more), bytes)
  {
  }

  lemma {:induction false} RoundsAreCut(buffer: seq<byte>, expected: seq<Expected>, rounds: seq<Round>)
    requires AllPositive(expected, FrameBytes) && PositiveRounds(rounds, FrameBytes)
    requires Stuck(buffer, expected, FrameBytes)
    ensures CutIffInStep(buffer, expected, rounds, ReadRounds(buffer, expected, rounds), FrameBytes)
    decreases |rounds|
  {
    if rounds == [] {
      assert buffer + [] == buffer && expected + [] == expected;
    } else {
      var b, e := buffer + rounds[0].chunk, expected + rounds[0].pushed;
      var one := ReadLoop(b, e);
      var more := ReadRounds(one.buffer, one.expected, rounds[1..]);
      assert AllPositive(rounds[0].pushed, FrameBytes);
      TotalAppend(expected, rounds[0].pushed, FrameBytes);
      ReadLoopIsCut(b, e);
      if |b| <= TotalBytes(e, FrameBytes) {
        CutIsStuck(b, e, FrameBytes);
        CutCoverage(b, e, FrameBytes);
        LaterRoundsPositive(rounds, FrameBytes);
        RoundsAreCut(one.buffer, one.expected, rounds[1..]);
        RoundKeepsCut(buffer, expected, rounds, one, more, FrameBytes);
      } else {
        RoundTooLate(buffer, expected, rounds, one, more, FrameBytes);
      }
    }
  }

  lemma LaterRoundsPositive(rounds: seq<Round>, bytes: Size -> nat)
    requires PositiveRounds(rounds, bytes) && rounds != []
    ensures PositiveRounds(rounds[1..], bytes)
  {
    assert forall i :: 0 <= i < |rounds[1..]| ==> rounds[1..][i] == rounds[i + 1];
  }

  /** For any read boundaries and any moments at which records are pushed: no byte is
      thrown away exactly when the records keep in step with the reads, and then frames and
      rest are the plain cut of all bytes at all record sizes, which conserves every byte. */
  lemma ReadsAreCutIffInStep(records: seq<Expected>, rounds: seq<Round>)
    requires AllPositive(records, FrameBytes) && PositiveRounds(rounds, FrameBytes)
    ensures var r := ReadRounds([], records, rounds);
            && (r.discarded == 0 <==> InStep(TotalBytes(records, FrameBytes), rounds, FrameBytes))
            && (r.discarded == 0 ==>
                  && !r.restart && Pixels(r.frames) + r.buffer == Chunks(rounds)
                  && CutResult(r.frames, r.buffer, r.expected)
                     == Cut(Chunks(rounds), records + Pushed(rounds), FrameBytes))
  {
    RoundsAreCut([], records, rounds);
    FromNothing(records, rounds, ReadRounds([], records, rounds), FrameBytes);
  }

  lemma FromNothing(records: seq<Expected>, rounds: seq<Round>, r: Readout, bytes: Size -> nat)
    requires CutIffInStep([], records, rounds, r, bytes)
    ensures r.discarded == 0 <==> InStep(TotalBytes(records, bytes), rounds, bytes)
    ensures r.discarded == 0 ==>
      && !r.restart && Pixels(r.frames) + r.buffer == Chunks(rounds)
      && CutResult(r.frames, r.buffer, r.expected) == Cut(Chunks(rounds), records + Pushed(rounds), bytes)
  {
    assert [] + Chunks(rounds) == Chunks(rounds);
    CutConserves(Chunks(rounds), records + Pushed(rounds), bytes);
  }
}
