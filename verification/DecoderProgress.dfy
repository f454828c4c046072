/** What the decoder pipeline may not skip: every frame taken from the queue is written,
    every complete recorded frame is delivered before the reader blocks again. */
module DecoderProgress {
  import opened Common
  import opened VideoFrames
  import opened Decoder
  import opened DecoderPipeline
  import opened DecoderSafety
  import opened DecoderTheorems
  import Q = DecoderQueue

  predicate EndsIn(s: seq<nat>, i: nat) {
    s != [] && s[|s| - 1] == i
  }

  /** The writer deals with the frame dequeued last until a child has accepted it. */
  predicate HandOk(s: State) {
    match s.writer
    case Writing(i) => EndsIn(s.h.dequeued, i)
    case Stopping(i) => EndsIn(s.h.dequeued, i)
    case Rewriting(i) => EndsIn(s.h.dequeued, i)
    case Written(i) => EndsIn(s.h.dequeued, i) && EndsIn(s.child.written, i)
    case Idle => s.h.dequeued != [] ==> EndsIn(s.child.written, s.h.dequeued[|s.h.dequeued| - 1])
    case Dead => s.h.dequeued != [] && !s.h.q.running
  }

  lemma HandStep(s: State, e: Event, fallback: Size)
    requires HandOk(s) && RecordsOk(s) && Enabled(s, e, fallback)
    requires !Inspect(s.child.buffer, Front(s.expected)).UnknownSize?
    ensures HandOk(Step(s, e, fallback))
  {
  }

  /** A reader that blocks holds less than the frame it waits for, and nothing at all when
      it waits for none. */
  predicate Drained(s: State) {
    s.reader.Reading? ==>
      if s.expected == [] then s.child.buffer == []
      else |s.child.buffer| < FrameBytes(s.expected[0].record.size)
  }

  lemma DrainedStep(s: State, e: Event, fallback: Size)
    requires FramesOk(s) && RecordsOk(s) && Drained(s) && Enabled(s, e, fallback)
    ensures Drained(Step(s, e, fallback))
  {
    match e
    case Record => RecordIsPositive(s, fallback);
    case Pass => NoUnknownSize(s);
    case _ =>
  }

  lemma RecordIsPositive(s: State, fallback: Size)
    requires FramesOk(s) && RecordsOk(s) && Enabled(s, Record, fallback)
    ensures FrameBytes(s.h.submitted[s.writer.i].size) > 0
  {
    assert s.writer.i < |s.pixels|;
  }

  /** The frames a child's records were popped for are the newest deliveries. */
  predicate PoppedAreDelivered(s: State) {
    && s.child.popped <= |s.child.written| && s.child.popped <= |s.delivered|
    && Indices(s.delivered[|s.delivered| - s.child.popped..]) == s.child.written[..s.child.popped]
  }

  lemma PopDelivers(s: State, fallback: Size)
    requires PoppedAreDelivered(s) && Enabled(s, Pop, fallback)
    requires s.child.popped < |s.child.written| && s.expected[0].index == s.child.written[s.child.popped]
    ensures PoppedAreDelivered(OnPop(s))
  {
    var t := OnPop(s);
    var d := t.delivered[|s.delivered|];
    Q.SuffixGrows(s.delivered, |s.delivered| - s.child.popped, d, 0);
    IndicesSnoc(s.delivered[|s.delivered| - s.child.popped..], d);
    PrefixGrows(s.child.written, s.child.popped);
    assert t.delivered == s.delivered + [d] && t.child.written == s.child.written;
  }

  lemma PrefixGrows<T>(s: seq<T>, k: nat)
    requires k < |s|
    ensures s[..k + 1] == s[..k] + [s[k]]
  {
  }

  lemma PoppedSurvive(s: State, t: State)
    requires PoppedAreDelivered(s) && t.delivered == s.delivered && t.child.popped == s.child.popped
    requires s.child.written <= t.child.written
    ensures PoppedAreDelivered(t)
  {
    assert t.child.written[..t.child.popped] == s.child.written[..s.child.popped];
  }

  lemma PoppedRestarts(s: State, fallback: Size)
    requires Enabled(s, Restarted, fallback)
    ensures PoppedAreDelivered(Step(s, Restarted, fallback))
  {
    assert s.delivered[|s.delivered|..] == [];
  }

  lemma PoppedStep(s: State, e: Event, fallback: Size)
    requires PoppedAreDelivered(s) && FramesOk(s) && RecordsOk(s) && Enabled(s, e, fallback)
    ensures PoppedAreDelivered(Step(s, e, fallback))
  {
    match e
    case Pop => PopDelivers(s, fallback);
    case Restarted => PoppedRestarts(s, fallback);
    case Pass =>
      NoUnknownSize(s);
      PassKeepsCounts(s);
      PoppedSurvive(s, OnPass(s));
    case _ => PoppedSurvive(s, Step(s, e, fallback));
  }

  predicate ProgressOk(s: State) {
    HandOk(s) && Drained(s) && PoppedAreDelivered(s)
  }

  lemma InitialProgress(videoSize: Size)
    ensures ProgressOk(Initial(videoSize)) && InHand(Initial(videoSize)) == []
  {
    assert Initial(videoSize).delivered[0..] == [] && Initial(videoSize).child.written[..0] == [];
  }

  lemma {:induction false} RunKeepsProgress(s: State, events: seq<Event>, fallback: Size)
    requires PipelineOk(s) && ProgressOk(s) && SizeIsKnown(s.h.q.videoSize, fallback)
    requires Legal(s, events, fallback)
    ensures ProgressOk(Run(s, events, fallback))
    decreases |events|
  {
    if events != [] {
      StepKeeps(s, events[0], fallback);
      NoUnknownSize(s);
      HandStep(s, events[0], fallback);
      DrainedStep(s, events[0], fallback);
      PoppedStep(s, events[0], fallback);
      RunKeepsProgress(Step(s, events[0], fallback), events[1..], fallback);
    }
  }

  /** In every reachable state the writer still deals with the frame dequeued last or a
      child has accepted it; a blocked reader has delivered all it could; and a popped
      record means a delivered frame. */
  lemma ReachableStatesProgress(videoSize: Size, events: seq<Event>, fallback: Size)
    requires KeptSize(videoSize) && SizeIsKnown(videoSize, fallback)
    requires Legal(Initial(videoSize), events, fallback)
    ensures ProgressOk(Run(Initial(videoSize), events, fallback))
  {
    InitialOk(videoSize);
    InitialProgress(videoSize);
    RunKeepsProgress(Initial(videoSize), events, fallback);
  }

  // ---- Every frame dequeued is written -------------------------------------

  /** The frames the children accepted along a run. */
  function Accepted(s: State, events: seq<Event>, fallback: Size): seq<nat>
    requires Legal(s, events, fallback)
    decreases |events|
  {
    if events == [] then []
    else
      (if events[0].WriteOk? then [s.writer.i] else [])
      + Accepted(Step(s, events[0], fallback), events[1..], fallback)
  }

  /** The frame the writer has in hand, or had when it gave up. */
  function InHand(s: State): seq<nat> {
    match s.writer
    case Writing(i) => [i]
    case Stopping(i) => [i]
    case Rewriting(i) => [i]
    case Dead => if s.h.dequeued == [] then [] else [s.h.dequeued[|s.h.dequeued| - 1]]
    case _ => []
  }

  lemma StepHandsOver(s: State, e: Event, before: seq<nat>, fallback: Size)
    requires HandOk(s) && RecordsOk(s) && Enabled(s, e, fallback)
    requires !Inspect(s.child.buffer, Front(s.expected)).UnknownSize?
    requires before + InHand(s) == s.h.dequeued
    ensures var t := Step(s, e, fallback);
            before + (if e.WriteOk? then [s.writer.i] else []) + InHand(t) == t.h.dequeued
  {
    assert before + [] == before;
  }

  lemma {:induction false} AcceptedFollowDequeued(s: State, events: seq<Event>, before: seq<nat>, fallback: Size)
    requires PipelineOk(s) && ProgressOk(s) && SizeIsKnown(s.h.q.videoSize, fallback)
    requires Legal(s, events, fallback) && before + InHand(s) == s.h.dequeued
    ensures var t := Run(s, events, fallback);
            before + Accepted(s, events, fallback) + InHand(t) == t.h.dequeued
    decreases |events|
  {
    if events == [] {
      assert before + [] == before;
    } else {
      var t := Step(s, events[0], fallback);
      var now: seq<nat> := if events[0].WriteOk? then [s.writer.i] else [];
      StepKeeps(s, events[0], fallback);
      NoUnknownSize(s);
      HandStep(s, events[0], fallback);
      DrainedStep(s, events[0], fallback);
      PoppedStep(s, events[0], fallback);
      StepHandsOver(s, events[0], before, fallback);
      AcceptedFollowDequeued(t, events[1..], before + now, fallback);
      Associate(before, now, Accepted(t, events[1..], fallback));
    }
  }

  lemma AcceptedFromNothing(s: State, events: seq<Event>, fallback: Size)
    requires PipelineOk(s) && ProgressOk(s) && SizeIsKnown(s.h.q.videoSize, fallback)
    requires Legal(s, events, fallback) && s.h.dequeued == [] && InHand(s) == []
    ensures Accepted(s, events, fallback) + InHand(Run(s, events, fallback)) == Run(s, events, fallback).h.dequeued
  {
    AcceptedFollowDequeued(s, events, [], fallback);
    assert [] + Accepted(s, events, fallback) == Accepted(s, events, fallback);
  }

  /** Over every run, failed writes and restarts included: the frames dequeued are, in
      order and each once, the frames a child accepted, and the one still in hand. */
  lemma EveryDequeuedFrameIsWritten(videoSize: Size, events: seq<Event>, fallback: Size)
    requires KeptSize(videoSize) && SizeIsKnown(videoSize, fallback)
    requires Legal(Initial(videoSize), events, fallback)
    ensures var t := Run(Initial(videoSize), events, fallback);
            Accepted(Initial(videoSize), events, fallback) + InHand(t) == t.h.dequeued
  {
    InitialOk(videoSize);
    InitialProgress(videoSize);
    AcceptedFromNothing(Initial(videoSize), events, fallback);
  }

  // ---- The reader's steps are its loop -------------------------------------

  predicate AtLook(s: State) {
    s.reader.Looping? && |s.child.buffer| <= s.child.readCount
    && s.child.popped + |s.expected| <= |s.child.written|
  }

  /** The reader's own steps from a look on, until it blocks in read. */
  function Drive(s: State): State
    requires AtLook(s)
    decreases |s.expected|
  {
    match Inspect(s.child.buffer, Front(s.expected))
    case Discard => OnPass(s)
    case Wait => OnPass(s)
    case UnknownSize => Drive(OnPass(s))
    case Deliver(_) => Drive(OnPop(OnPass(s)))
  }

  function Records(expected: seq<InFlight>): (r: seq<Expected>)
    ensures |r| == |expected| && forall i :: 0 <= i < |r| ==> r[i] == expected[i].record
  {
    seq(|expected|, i requires 0 <= i < |expected| => expected[i].record)
  }

  function Frames(ds: seq<Delivery>): (r: seq<DecodedFrame>)
    ensures |r| == |ds| && forall i :: 0 <= i < |r| ==> r[i] == ds[i].frame
  {
    seq(|ds|, i requires 0 <= i < |ds| => ds[i].frame)
  }

  lemma InspectSeesFront(buffer: seq<byte>, expected: seq<InFlight>)
    ensures Inspect(buffer, Front(expected)) == Inspect(buffer, Records(expected))
    ensures expected != [] ==> Records(expected)[1..] == Records(expected[1..])
  {
  }

  /** What `t` adds to `s` is what the loop makes of the buffer and the records. */
  predicate AddsReadout(s: State, t: State, r: Readout) {
    && t.reader.Reading? && t.child.buffer == r.buffer && Records(t.expected) == r.expected
    && Frames(t.delivered) == Frames(s.delivered) + r.frames
    && t.restartNeeded == (s.restartNeeded || r.restart) && t.child.lost == s.child.lost + r.discarded
  }

  lemma PopAddsFrame(s: State, u: State, t: State, r: Readout)
    requires AtLook(s) && Inspect(s.child.buffer, Front(s.expected)).Deliver?
    requires u == OnPop(OnPass(s)) && AddsReadout(u, t, r)
    ensures AddsReadout(s, t, r.(frames := [FrameOf(s.expected[0].record, s.child.buffer)] + r.frames))
  {
    var f := FrameOf(s.expected[0].record, s.child.buffer);
    assert Frames(u.delivered) == Frames(s.delivered) + [f];
    Associate(Frames(s.delivered), [f], r.frames);
  }

  /** The steps of the interleaved machine, taken without interruption, are the loop of
      the reader thread, whatever sizes the records have. */
  lemma {:induction false} ReaderStepsAreReadLoop(s: State)
    requires AtLook(s)
    ensures AddsReadout(s, Drive(s), ReadLoop(s.child.buffer, Records(s.expected)))
    decreases |s.expected|
  {
    InspectSeesFront(s.child.buffer, s.expected);
    match Inspect(s.child.buffer, Front(s.expected))
    case Discard =>
      assert Frames(s.delivered) + [] == Frames(s.delivered);
    case Wait =>
      assert Frames(s.delivered) + [] == Frames(s.delivered);
    case UnknownSize =>
      ReaderStepsAreReadLoop(OnPass(s));
    case Deliver(_) =>
      var u := OnPop(OnPass(s));
      ReaderStepsAreReadLoop(u);
      PopAddsFrame(s, u, Drive(u), ReadLoop(u.child.buffer, Records(u.expected)));
  }

  // ---- Every frame can get through -----------------------------------------

  /** Nothing is in flight anywhere and nothing was lost. */
  predicate Settled(s: State) {
    && PipelineOk(s) && s.h.q.running && s.h.q.pending == []
    && s.writer.Idle? && s.reader.Reading? && s.expected == []
    && Whole(s) && s.child.readCount == |s.child.emitted|
  }

  /** The child has put out all it owes, none of it was lost. */
  predicate Whole(s: State) {
    s.child.lost == 0 && s.child.emitted == Stream(s.pixels, s.child.written)
  }

  lemma ReachesOn(s: State, e: Event, t: State, fallback: Size)
    requires Reaches(s, t, fallback) && Enabled(t, e, fallback)
    ensures Reaches(s, Step(t, e, fallback), fallback)
  {
    var events :| Legal(s, events, fallback) && Run(s, events, fallback) == t;
    RunSnoc(s, events, e, fallback);
    assert Legal(s, events + [e], fallback);
  }

  lemma {:induction false} RunSnoc(s: State, events: seq<Event>, e: Event, fallback: Size)
    requires Legal(s, events, fallback) && Enabled(Run(s, events, fallback), e, fallback)
    ensures Legal(s, events + [e], fallback)
    ensures Run(s, events + [e], fallback) == Step(Run(s, events, fallback), e, fallback)
    decreases |events|
  {
    if events == [] {
      assert [] + [e] == [e] && [e][1..] == [];
    } else {
      assert (events + [e])[1..] == events[1..] + [e];
      RunSnoc(Step(s, events[0], fallback), events[1..], e, fallback);
    }
  }

  /** One step of a run that began at `s`. */
  lemma Next(s: State, t: State, e: Event, fallback: Size) returns (u: State)
    requires Reaches(s, t, fallback) && PipelineOk(t) && SizeIsKnown(t.h.q.videoSize, fallback)
    requires Enabled(t, e, fallback)
    ensures u == Step(t, e, fallback) && Reaches(s, u, fallback)
    ensures PipelineOk(u) && SizeIsKnown(u.h.q.videoSize, fallback)
  {
    u := Step(t, e, fallback);
    ReachesOn(s, e, t, fallback);
    StepKeeps(t, e, fallback);
  }

  /** A frame is queued and the writer takes it. */
  lemma TakesFrame(s: State, frame: VideoFrame, decoded: seq<byte>, fallback: Size) returns (t: State)
    requires Settled(s) && SizeIsKnown(s.h.q.videoSize, fallback)
    requires |decoded| == FrameBytes(SubmittedSize(s, frame, fallback))
    ensures Reaches(s, t, fallback) && PipelineOk(t) && SizeIsKnown(t.h.q.videoSize, fallback)
    ensures t.writer == Writing(|s.h.submitted|) && t.pixels == s.pixels + [decoded]
    ensures |t.h.submitted| == |s.h.submitted| + 1 && t.h.submitted[|s.h.submitted|].frame == frame
    ensures t.h.q.running && t.h.q.pending == [] && t.child == s.child
    ensures t.expected == [] && t.reader.Reading? && t.delivered == s.delivered
  {
    ReachesSelf(s, fallback);
    var queued := Next(s, s, Submit(frame, decoded), fallback);
    assert |queued.h.q.pending| == 1;
    t := Next(s, queued, Dequeue, fallback);
  }

  /** The child has the frame and owes exactly its pixels. */
  predicate Owed(s: State, i: nat, decoded: seq<byte>) {
    && PipelineOk(s) && s.h.q.running && s.h.q.pending == []
    && s.writer == Written(i) && s.reader.Reading? && s.expected == [] && s.child.lost == 0
    && s.child.emitted + decoded == Stream(s.pixels, s.child.written)
    && s.child.readCount == |s.child.emitted|
  }

  lemma OwedAfterWrite(t: State, written: seq<nat>, decoded: seq<byte>)
    requires Q.Below(written, |t.pixels|)
    ensures Stream(t.pixels + [decoded], written + [|t.pixels|]) == Stream(t.pixels, written) + decoded
  {
    var i := |t.pixels|;
    StreamAppend(t.pixels + [decoded], written, [i]);
    StreamGrows(t.pixels, decoded, written);
    StreamOne(t.pixels + [decoded], i);
  }

  /** The write succeeds. */
  lemma WritesFrame(s: State, t: State, decoded: seq<byte>, fallback: Size) returns (u: State)
    requires Settled(s) && Reaches(s, t, fallback) && PipelineOk(t) && SizeIsKnown(t.h.q.videoSize, fallback)
    requires t.writer == Writing(|s.h.submitted|) && t.pixels == s.pixels + [decoded] && t.child == s.child
    requires t.h.q.running && t.h.q.pending == [] && t.expected == [] && t.reader.Reading?
    ensures Reaches(s, u, fallback) && Owed(u, |s.h.submitted|, decoded)
    ensures SizeIsKnown(u.h.q.videoSize, fallback)
    ensures u.pixels == t.pixels && u.h == t.h && u.delivered == t.delivered
  {
    OwedAfterWrite(s, s.child.written, decoded);
    u := Next(s, t, WriteOk, fallback);
  }

  /** The write fails; the frame is written to a new child. */
  lemma RewritesFrame(s: State, t: State, decoded: seq<byte>, fallback: Size) returns (u: State)
    requires Settled(s) && Reaches(s, t, fallback) && PipelineOk(t) && SizeIsKnown(t.h.q.videoSize, fallback)
    requires t.writer == Writing(|s.h.submitted|) && t.pixels == s.pixels + [decoded]
    requires t.h.q.running && t.h.q.pending == [] && t.expected == [] && t.reader.Reading?
    ensures Reaches(s, u, fallback) && Owed(u, |s.h.submitted|, decoded)
    ensures SizeIsKnown(u.h.q.videoSize, fallback)
    ensures u.pixels == t.pixels && u.h == t.h && u.delivered == t.delivered
  {
    OwedAfterWrite(s, [], decoded);
    assert [] + [|s.pixels|] == [|s.pixels|] && Stream(s.pixels, []) == [] && [] + decoded == decoded;
    var failed := Next(s, t, WriteFail, fallback);
    var restarted := Next(s, failed, Restarted, fallback);
    u := Next(s, restarted, WriteOk, fallback);
  }

  /** One recorded frame is on its way. */
  predicate Awaited(s: State) {
    && PipelineOk(s) && s.writer.Idle? && Whole(s) && |s.expected| == 1
    && s.child.popped + 1 == |s.child.written|
  }

  /** The record is pushed, the child puts the frame out. */
  lemma RecordsFrame(s: State, t: State, i: nat, decoded: seq<byte>, fallback: Size) returns (u: State)
    requires Reaches(s, t, fallback) && Owed(t, i, decoded) && SizeIsKnown(t.h.q.videoSize, fallback)
    ensures Reaches(s, u, fallback) && PipelineOk(u) && SizeIsKnown(u.h.q.videoSize, fallback)
    ensures u.h == t.h && u.pixels == t.pixels && u.delivered == t.delivered
    ensures Awaited(u) && u.reader.Reading? && u.expected[0].index == i
    ensures u.child.readCount + |decoded| == |u.child.emitted|
  {
    var recorded := Next(s, t, Record, fallback);
    u := Next(s, recorded, Emit(decoded), fallback);
  }

  /** What is buffered and what is still to be read make up the awaited frame. */
  lemma AwaitedIsOneFrame(s: State)
    requires Awaited(s)
    ensures |s.child.buffer| + |s.child.emitted| - s.child.readCount == FrameBytes(s.expected[0].record.size) > 0
  {
    assert RecordOf(s, s.expected[0]);
    StreamAt(s.pixels, s.child.written, s.child.popped);
    assert s.child.written[..s.child.popped + 1] == s.child.written;
  }

  /** One read, and the look that follows it. */
  lemma ReadsSome(s: State, t: State, n: nat, fallback: Size) returns (u: State)
    requires Reaches(s, t, fallback) && Awaited(t) && SizeIsKnown(t.h.q.videoSize, fallback)
    requires t.reader.Reading? && 0 < n <= READ_SIZE && t.child.readCount + n <= |t.child.emitted|
    ensures Reaches(s, u, fallback) && Awaited(u) && SizeIsKnown(u.h.q.videoSize, fallback)
    ensures u.h == t.h && u.pixels == t.pixels && u.delivered == t.delivered && u.expected == t.expected
    ensures u.child.emitted == t.child.emitted && u.child.readCount == t.child.readCount + n
    ensures if u.child.readCount == |u.child.emitted| then u.reader.Popping? else u.reader.Reading?
  {
    var looping := Next(s, t, Read(n), fallback);
    u := LooksOnce(s, looping, fallback);
  }

  lemma LooksOnce(s: State, t: State, fallback: Size) returns (u: State)
    requires Reaches(s, t, fallback) && Awaited(t) && SizeIsKnown(t.h.q.videoSize, fallback)
    requires t.reader.Looping?
    ensures Reaches(s, u, fallback) && Awaited(u) && SizeIsKnown(u.h.q.videoSize, fallback)
    ensures u.h == t.h && u.pixels == t.pixels && u.delivered == t.delivered && u.expected == t.expected
    ensures u.child == t.child
    ensures if u.child.readCount == |u.child.emitted| then u.reader.Popping? else u.reader.Reading?
  {
    AwaitedIsOneFrame(t);
    u := Next(s, t, Pass, fallback);
  }

  lemma {:induction false} ReadsFrame(s: State, t: State, fallback: Size) returns (u: State)
    requires Reaches(s, t, fallback) && Awaited(t) && SizeIsKnown(t.h.q.videoSize, fallback)
    requires t.reader.Reading? && t.child.readCount < |t.child.emitted|
    ensures Reaches(s, u, fallback) && Awaited(u) && SizeIsKnown(u.h.q.videoSize, fallback)
    ensures u.h == t.h && u.pixels == t.pixels && u.delivered == t.delivered && u.expected == t.expected
    ensures u.reader.Popping? && u.child.readCount == |u.child.emitted|
    decreases |t.child.emitted| - t.child.readCount
  {
    var left := |t.child.emitted| - t.child.readCount;
    if left <= READ_SIZE {
      u := ReadsSome(s, t, left, fallback);
    } else {
      u := ReadsSome(s, t, READ_SIZE, fallback);
      u := ReadsFrame(s, u, fallback);
    }
  }

  /** The complete frame is delivered and the reader blocks again. */
  lemma DeliversFrame(s: State, t: State, fallback: Size) returns (u: State)
    requires Reaches(s, t, fallback) && Awaited(t) && SizeIsKnown(t.h.q.videoSize, fallback)
    requires t.h.q.running && t.h.q.pending == []
    requires t.reader.Popping? && t.child.readCount == |t.child.emitted|
    ensures Reaches(s, u, fallback) && Settled(u) && SizeIsKnown(u.h.q.videoSize, fallback)
    ensures u.h == t.h && u.pixels == t.pixels
    ensures |u.delivered| == |t.delivered| + 1 && u.delivered[..|t.delivered|] == t.delivered
    ensures u.delivered[|t.delivered|].index == t.expected[0].index && u.delivered[|t.delivered|].lost == 0
  {
    AwaitedIsOneFrame(t);
    var popped := Next(s, t, Pop, fallback);
    assert popped.expected == [] && popped.child.buffer == [];
    u := Next(s, popped, Pass, fallback);
  }

  /** From any settled state any frame can be delivered, over a child that takes it or, if
      the write fails, over a new one: as its own access unit, and everything settles. */
  lemma EveryFrameCanGetThrough(
      s: State, frame: VideoFrame, decoded: seq<byte>, writeFails: bool, fallback: Size) returns (t: State)
    requires Settled(s) && SizeIsKnown(s.h.q.videoSize, fallback)
    requires |decoded| == FrameBytes(SubmittedSize(s, frame, fallback)) > 0
    ensures Reaches(s, t, fallback) && Settled(t) && SizeIsKnown(t.h.q.videoSize, fallback)
    ensures |t.delivered| == |s.delivered| + 1 && t.delivered[..|s.delivered|] == s.delivered
    ensures IsOwn(t, t.delivered[|s.delivered|])
    ensures t.delivered[|s.delivered|].frame.rgba == decoded
    ensures t.delivered[|s.delivered|].frame.capturedAtMs == frame.capturedAtMs
  {
    var i := |s.h.submitted|;
    t := TakesFrame(s, frame, decoded, fallback);
    if writeFails {
      t := RewritesFrame(s, t, decoded, fallback);
    } else {
      t := WritesFrame(s, t, decoded, fallback);
    }
    t := RecordsFrame(s, t, i, decoded, fallback);
    t := ReadsFrame(s, t, fallback);
    t := DeliversFrame(s, t, fallback);
    assert DeliveryOk(t, t.delivered[|s.delivered|]);
    assert t.pixels[i] == decoded;
  }

  /** And the decoder starts settled. */
  lemma StartsSettled(videoSize: Size)
    requires KeptSize(videoSize)
    ensures Settled(Initial(videoSize))
  {
    InitialOk(videoSize);
    assert Stream([], []) == [];
  }
}
