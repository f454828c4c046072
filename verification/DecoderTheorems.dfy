/** What the decoder pipeline guarantees over whole runs, and where the guarantee ends. */
module DecoderTheorems {
  import opened Common
  import opened VideoFrames
  import opened Decoder
  import opened DecoderPipeline
  import opened DecoderSafety
  import Q = DecoderQueue

  /** What `videoSize_` can hold when the decoder starts: nothing yet, or the size of an SPS
      parsed before an earlier stop. */
  predicate KeptSize(videoSize: Size) {
    videoSize.width <= 0 || PositiveSize(videoSize)
  }

  lemma InitialOk(videoSize: Size)
    requires KeptSize(videoSize)
    ensures PipelineOk(Initial(videoSize))
  {
    InitialFrames(videoSize);
    InitialOrder(videoSize);
    NewChildOk([]);
  }

  lemma InitialFrames(videoSize: Size)
    requires KeptSize(videoSize)
    ensures FramesOk(Initial(videoSize)) && RecordsOk(Initial(videoSize))
  {
    assert Initial(videoSize).h.submitted[0..] == [];
  }

  lemma InitialOrder(videoSize: Size)
    ensures OrderOk(Initial(videoSize))
  {
    assert Chain(Initial(videoSize)) == [] && Horizon(Initial(videoSize)) == 0;
  }

  lemma {:induction false} IndicesAt(ds: seq<Delivery>, k: nat)
    requires k < |ds|
    ensures |Indices(ds)| == |ds| && Indices(ds)[k] == ds[k].index
  {
    IndicesLength(ds);
    if k < |ds| - 1 {
      IndicesAt(ds[..|ds| - 1], k);
    } else {
      IndicesLength(ds[..|ds| - 1]);
    }
  }

  lemma {:induction false} IndicesLength(ds: seq<Delivery>)
    ensures |Indices(ds)| == |ds|
  {
    if ds != [] {
      IndicesLength(ds[..|ds| - 1]);
    }
  }

  /** Every interleaving, child restarts included: frames are delivered in strictly
      increasing submission order, none twice, each with the size and capture time of its
      own access unit, and cut from its child's output at its own place shifted by the
      bytes that child had lost. */
  lemma DeliveredFramesAreInOrder(videoSize: Size, events: seq<Event>, fallback: Size)
    requires KeptSize(videoSize) && SizeIsKnown(videoSize, fallback)
    requires Legal(Initial(videoSize), events, fallback)
    ensures var s := Run(Initial(videoSize), events, fallback);
            && !s.restartNeeded
            && (forall j, k :: 0 <= j < k < |s.delivered| ==> s.delivered[j].index < s.delivered[k].index)
            && (forall k :: 0 <= k < |s.delivered| ==> DeliveryOk(s, s.delivered[k]))
  {
    InitialOk(videoSize);
    RunKeeps(Initial(videoSize), events, fallback);
    var s := Run(Initial(videoSize), events, fallback);
    IndicesLength(s.delivered);
    forall j, k | 0 <= j < k < |s.delivered|
      ensures s.delivered[j].index < s.delivered[k].index
    {
      IndicesAt(s.delivered, j);
      IndicesAt(s.delivered, k);
      assert Chain(s)[j] < Chain(s)[k];
    }
  }

  lemma DeliveryHasQueuedSize(s: State, d: Delivery)
    requires DeliveryOk(s, d)
    ensures d.index < |s.h.submitted|
    ensures Size(d.frame.width, d.frame.height) == s.h.submitted[d.index].size
    ensures d.frame.capturedAtMs == s.h.submitted[d.index].frame.capturedAtMs
  {
  }

  // ---- When nothing is lost ------------------------------------------------

  /** The bytes of the frames whose records have been pushed to this child's queue. */
  function RecordedBytes(s: State): nat {
    if 0 <= Recorded(s) <= |s.child.written| then |Stream(s.pixels, s.child.written[..Recorded(s)])| else 0
  }

  /** With no record in flight the buffer holds what was read beyond the recorded frames
      and not lost before; clearing it loses exactly that. */
  lemma DiscardIffRecordIsMissing(s: State, fallback: Size)
    requires PipelineOk(s) && Enabled(s, Pass, fallback)
    ensures Step(s, Pass, fallback).child.lost > s.child.lost
       <==> s.expected == [] && RecordedBytes(s) + s.child.lost < s.child.readCount
  {
    NoUnknownSize(s);
  }

  /** When the reader looks and finds no record, it has read no byte of a frame whose
      record is still to be pushed. */
  predicate InTime(s: State, e: Event) {
    e.Pass? && s.expected == [] ==> s.child.readCount <= RecordedBytes(s)
  }

  predicate AllInTime(s: State, events: seq<Event>, fallback: Size)
    requires Legal(s, events, fallback)
    decreases |events|
  {
    events == [] ||
    (InTime(s, events[0]) && AllInTime(Step(s, events[0], fallback), events[1..], fallback))
  }

  /** No child ever loses a byte along the run. */
  predicate LossFree(s: State, events: seq<Event>, fallback: Size)
    requires Legal(s, events, fallback)
    decreases |events|
  {
    s.child.lost == 0 && (events == [] || LossFree(Step(s, events[0], fallback), events[1..], fallback))
  }

  lemma PassKeepsCounts(s: State)
    requires !Inspect(s.child.buffer, Front(s.expected)).UnknownSize?
    ensures var t := OnPass(s);
            && t.child.written == s.child.written && t.child.readCount == s.child.readCount
            && t.child.lost >= s.child.lost && t.pixels == s.pixels
            && t.writer == s.writer && t.delivered == s.delivered
  {
  }

  lemma LosesUnlessInTime(s: State, e: Event, fallback: Size)
    requires PipelineOk(s) && Enabled(s, e, fallback) && s.child.lost == 0
    ensures Step(s, e, fallback).child.lost == 0 <==> InTime(s, e)
  {
    if e.Pass? {
      DiscardIffRecordIsMissing(s, fallback);
      NoUnknownSize(s);
      PassKeepsCounts(s);
    }
  }

  lemma {:induction false} RunLosesUnlessInTime(s: State, events: seq<Event>, fallback: Size)
    requires PipelineOk(s) && SizeIsKnown(s.h.q.videoSize, fallback) && s.child.lost == 0
    requires Legal(s, events, fallback)
    ensures LossFree(s, events, fallback) <==> AllInTime(s, events, fallback)
    decreases |events|
  {
    if events != [] {
      var t := Step(s, events[0], fallback);
      StepKeeps(s, events[0], fallback);
      LosesUnlessInTime(s, events[0], fallback);
      if t.child.lost == 0 {
        RunLosesUnlessInTime(t, events[1..], fallback);
      } else {
        assert !LossFree(t, events[1..], fallback);
      }
    }
  }

  /** Over every run: no child ever loses a byte exactly when every look of the reader that
      finds no record is in time. */
  lemma NothingIsLostIffInTime(videoSize: Size, events: seq<Event>, fallback: Size)
    requires KeptSize(videoSize) && SizeIsKnown(videoSize, fallback)
    requires Legal(Initial(videoSize), events, fallback)
    ensures LossFree(Initial(videoSize), events, fallback) <==> AllInTime(Initial(videoSize), events, fallback)
  {
    InitialOk(videoSize);
    RunLosesUnlessInTime(Initial(videoSize), events, fallback);
  }

  predicate Unshifted(ds: seq<Delivery>) {
    forall k :: 0 <= k < |ds| ==> ds[k].lost == 0
  }

  lemma StepKeepsUnshifted(s: State, e: Event, fallback: Size)
    requires PipelineOk(s) && Enabled(s, e, fallback) && s.child.lost == 0 && Unshifted(s.delivered)
    ensures Unshifted(Step(s, e, fallback).delivered)
  {
    if e.Pass? {
      NoUnknownSize(s);
      PassKeepsCounts(s);
    }
  }

  lemma {:induction false} LossFreeRunsAreUnshifted(s: State, events: seq<Event>, fallback: Size)
    requires PipelineOk(s) && SizeIsKnown(s.h.q.videoSize, fallback) && Unshifted(s.delivered)
    requires Legal(s, events, fallback) && LossFree(s, events, fallback)
    ensures Unshifted(Run(s, events, fallback).delivered)
    decreases |events|
  {
    if events != [] {
      StepKeeps(s, events[0], fallback);
      StepKeepsUnshifted(s, events[0], fallback);
      LossFreeRunsAreUnshifted(Step(s, events[0], fallback), events[1..], fallback);
    }
  }

  /** The delivered frame is what its own access unit decodes to, with that unit's size
      and capture time. */
  predicate IsOwn(s: State, d: Delivery) {
    && d.index < |s.h.submitted| && d.index < |s.pixels|
    && var q := s.h.submitted[d.index];
       d.frame == DecodedFrame(q.size.width, q.size.height, q.frame.capturedAtMs, s.pixels[d.index])
  }

  /** In every run whose looks are in time each delivered frame carries the size, capture
      time and pixel bytes of its own access unit, in strictly increasing submission order. */
  lemma DeliveredFramesAreTheirOwn(videoSize: Size, events: seq<Event>, fallback: Size)
    requires KeptSize(videoSize) && SizeIsKnown(videoSize, fallback)
    requires Legal(Initial(videoSize), events, fallback)
    requires AllInTime(Initial(videoSize), events, fallback)
    ensures var s := Run(Initial(videoSize), events, fallback);
            && (forall j, k :: 0 <= j < k < |s.delivered| ==> s.delivered[j].index < s.delivered[k].index)
            && forall k :: 0 <= k < |s.delivered| ==> IsOwn(s, s.delivered[k])
  {
    DeliveredFramesAreInOrder(videoSize, events, fallback);
    NothingIsLostIffInTime(videoSize, events, fallback);
    InitialOk(videoSize);
    LossFreeRunsAreUnshifted(Initial(videoSize), events, fallback);
    var s := Run(Initial(videoSize), events, fallback);
    forall k | 0 <= k < |s.delivered|
      ensures IsOwn(s, s.delivered[k])
    {
      assert DeliveryOk(s, s.delivered[k]) && s.delivered[k].lost == 0;
    }
  }

  // ---- The documented order is in time -------------------------------------

  /** The reader takes no byte of a frame whose record has not been pushed yet. */
  predicate RecordFirst(s: State, e: Event) {
    e.Read? ==> s.child.readCount + e.n <= RecordedBytes(s)
  }

  predicate RecordsFirst(s: State, events: seq<Event>, fallback: Size)
    requires Legal(s, events, fallback)
    decreases |events|
  {
    events == [] ||
    (RecordFirst(s, events[0]) && RecordsFirst(Step(s, events[0], fallback), events[1..], fallback))
  }

  lemma StreamMonotone(pixels: seq<seq<byte>>, written: seq<nat>, a: nat, b: nat)
    requires a <= b <= |written|
    ensures |Stream(pixels, written[..a])| <= |Stream(pixels, written[..b])|
  {
    assert written[..b] == written[..a] + written[a..b];
    StreamAppend(pixels, written[..a], written[a..b]);
  }

  predicate ReadBehind(s: State) {
    0 <= Recorded(s) <= |s.child.written| && s.child.readCount <= RecordedBytes(s)
  }

  lemma WriterKeepsReadBehind(s: State, e: Event, fallback: Size)
    requires ReadBehind(s) && Enabled(s, e, fallback) && (e.WriteOk? || e.Record?)
    ensures ReadBehind(Step(s, e, fallback))
  {
    var t := Step(s, e, fallback);
    match e
    case WriteOk =>
      assert t.child.written[..Recorded(t)] == s.child.written[..Recorded(s)];
    case Record =>
      StreamMonotone(s.pixels, s.child.written, Recorded(s), |s.child.written|);
  }

  lemma SubmitKeepsReadBehind(s: State, e: Event, fallback: Size)
    requires ReadBehind(s) && Q.Below(s.child.written, |s.pixels|) && Enabled(s, e, fallback) && e.Submit?
    ensures ReadBehind(Step(s, e, fallback))
  {
    var t := Step(s, e, fallback);
    assert t.child == s.child && Recorded(t) == Recorded(s);
    StreamGrows(s.pixels, e.decoded, s.child.written[..Recorded(s)]);
    assert RecordedBytes(t) == RecordedBytes(s);
  }

  lemma ReadKeepsReadBehind(s: State, e: Event, fallback: Size)
    requires ReadBehind(s) && Enabled(s, e, fallback) && RecordFirst(s, e) && (e.Read? || e.Restarted?)
    ensures ReadBehind(Step(s, e, fallback))
  {
  }

  lemma OthersKeepReadBehind(s: State, t: State)
    requires ReadBehind(s) && t.child.written == s.child.written && Recorded(t) == Recorded(s)
    requires t.pixels == s.pixels && t.child.readCount == s.child.readCount
    ensures ReadBehind(t)
  {
  }

  lemma StepKeepsReadBehind(s: State, e: Event, fallback: Size)
    requires PipelineOk(s) && ReadBehind(s) && Enabled(s, e, fallback) && RecordFirst(s, e)
    ensures ReadBehind(Step(s, e, fallback))
  {
    match e
    case Submit(_, _) => SubmitKeepsReadBehind(s, e, fallback);
    case WriteOk => WriterKeepsReadBehind(s, e, fallback);
    case Record => WriterKeepsReadBehind(s, e, fallback);
    case Restarted => ReadKeepsReadBehind(s, e, fallback);
    case Read(_) => ReadKeepsReadBehind(s, e, fallback);
    case Pass =>
      NoUnknownSize(s);
      PassKeepsCounts(s);
      OthersKeepReadBehind(s, OnPass(s));
    case _ => OthersKeepReadBehind(s, Step(s, e, fallback));
  }

  lemma {:induction false} RecordsFirstStaysInTime(s: State, events: seq<Event>, fallback: Size)
    requires PipelineOk(s) && SizeIsKnown(s.h.q.videoSize, fallback) && ReadBehind(s)
    requires Legal(s, events, fallback) && RecordsFirst(s, events, fallback)
    ensures AllInTime(s, events, fallback)
    decreases |events|
  {
    if events != [] {
      StepKeeps(s, events[0], fallback);
      StepKeepsReadBehind(s, events[0], fallback);
      RecordsFirstStaysInTime(Step(s, events[0], fallback), events[1..], fallback);
    }
  }

  /** If every record is pushed before the first byte of its frame is read, every look of
      the reader is in time. */
  lemma RecordsFirstIsInTime(videoSize: Size, events: seq<Event>, fallback: Size)
    requires KeptSize(videoSize) && SizeIsKnown(videoSize, fallback)
    requires Legal(Initial(videoSize), events, fallback)
    requires RecordsFirst(Initial(videoSize), events, fallback)
    ensures AllInTime(Initial(videoSize), events, fallback)
  {
    InitialOk(videoSize);
    RecordsFirstStaysInTime(Initial(videoSize), events, fallback);
  }

  // ---- Where it ends: the record is pushed after the write -----------------

  /** Some legal run leads from `s` to `t`. */
  ghost predicate Reaches(s: State, t: State, fallback: Size) {
    exists events :: Legal(s, events, fallback) && Run(s, events, fallback) == t
  }

  lemma ReachesSelf(s: State, fallback: Size)
    ensures Reaches(s, s, fallback)
  {
    assert Legal(s, [], fallback) && Run(s, [], fallback) == s;
  }

  lemma ReachesStep(s: State, e: Event, t: State, fallback: Size)
    requires Enabled(s, e, fallback) && Reaches(Step(s, e, fallback), t, fallback)
    ensures Reaches(s, t, fallback)
  {
    var events :| Legal(Step(s, e, fallback), events, fallback)
                  && Run(Step(s, e, fallback), events, fallback) == t;
    assert ([e] + events)[1..] == events;
    assert Legal(s, [e] + events, fallback) && Run(s, [e] + events, fallback) == t;
  }

  lemma ReachesTwo(s: State, d: Event, e: Event, t: State, fallback: Size)
    requires Enabled(s, d, fallback) && Enabled(Step(s, d, fallback), e, fallback)
    requires Reaches(Step(Step(s, d, fallback), e, fallback), t, fallback)
    ensures Reaches(s, t, fallback)
  {
    ReachesStep(Step(s, d, fallback), e, t, fallback);
    ReachesStep(s, d, t, fallback);
  }

  // A losing race, state by state. Every picture is one pixel, so a frame is four bytes.

  const ONE_PIXEL := Size(1, 1)

  function Piece(f: VideoFrame): Queued {
    Queued(f, ONE_PIXEL)
  }

  function RecordFor(f: VideoFrame, i: nat): InFlight {
    InFlight(Expected(ONE_PIXEL, f.capturedAtMs), i)
  }

  function RaceHistory(f: VideoFrame, pending: seq<Queued>, dequeued: seq<nat>): Q.History {
    Q.History(Queue(pending, Size(0, 0), 0, true), [Piece(f), Piece(f)], dequeued)
  }

  /** Both frames are queued. */
  function TwoQueued(f: VideoFrame, p0: seq<byte>, p1: seq<byte>): State {
    State(RaceHistory(f, [Piece(f), Piece(f)], []), [p0, p1], Idle, [], NEW_CHILD, Reading, [], false)
  }

  function FirstWritten(f: VideoFrame, p0: seq<byte>, p1: seq<byte>): State {
    State(RaceHistory(f, [Piece(f)], [0]), [p0, p1], Written(0), [],
          Child([0], [], 0, [], 0, 0), Reading, [], false)
  }

  /** The child was fast: its frame is read while the record is still to be pushed. */
  function FirstRead(f: VideoFrame, p0: seq<byte>, p1: seq<byte>): State {
    FirstWritten(f, p0, p1).(child := Child([0], p0, 4, p0, 0, 0), reader := Looping)
  }

  function FirstLost(f: VideoFrame, p0: seq<byte>, p1: seq<byte>): State {
    State(RaceHistory(f, [Piece(f)], [0]), [p0, p1], Idle, [RecordFor(f, 0)],
          Child([0], p0, 4, [], 0, 4), Reading, [], false)
  }

  function SecondRecorded(f: VideoFrame, p0: seq<byte>, p1: seq<byte>): State {
    State(RaceHistory(f, [], [0, 1]), [p0, p1], Idle, [RecordFor(f, 0), RecordFor(f, 1)],
          Child([0, 1], p0, 4, [], 0, 4), Reading, [], false)
  }

  function SecondRead(f: VideoFrame, p0: seq<byte>, p1: seq<byte>): State {
    SecondRecorded(f, p0, p1).(child := Child([0, 1], p0 + p1, 8, p1, 0, 4), reader := Looping)
  }

  lemma QueueTwo(f: VideoFrame, p0: seq<byte>, p1: seq<byte>, t: State)
    requires f.sps == [] && |p0| == |p1| == 4 && Reaches(TwoQueued(f, p0, p1), t, ONE_PIXEL)
    ensures Reaches(Initial(Size(0, 0)), t, ONE_PIXEL)
  {
    var s := Initial(Size(0, 0));
    assert SizeFor(f, Size(0, 0), ONE_PIXEL) == ONE_PIXEL;
    FrameBytesExact(ONE_PIXEL);
    var s1 := Step(s, Submit(f, p0), ONE_PIXEL);
    assert [Piece(f)][0..] == [Piece(f)];
    assert s1.h.q.pending == [Piece(f)];
    assert ([Piece(f)] + [Piece(f)])[0..] == [Piece(f), Piece(f)];
    assert Step(s1, Submit(f, p1), ONE_PIXEL) == TwoQueued(f, p0, p1);
    ReachesTwo(s, Submit(f, p0), Submit(f, p1), t, ONE_PIXEL);
  }

  lemma WriteFirst(f: VideoFrame, p0: seq<byte>, p1: seq<byte>, t: State)
    requires Reaches(FirstWritten(f, p0, p1), t, ONE_PIXEL)
    ensures Reaches(TwoQueued(f, p0, p1), t, ONE_PIXEL)
  {
    var s := TwoQueued(f, p0, p1);
    assert [Piece(f), Piece(f)][1..] == [Piece(f)] && [] + [0] == [0];
    var s1 := Step(s, Dequeue, ONE_PIXEL);
    assert s1.writer == Writing(0) && s1.h == RaceHistory(f, [Piece(f)], [0]);
    assert Step(s1, WriteOk, ONE_PIXEL) == FirstWritten(f, p0, p1);
    ReachesTwo(s, Dequeue, WriteOk, t, ONE_PIXEL);
  }

  lemma ReadFirst(f: VideoFrame, p0: seq<byte>, p1: seq<byte>, t: State)
    requires |p0| == 4 && Reaches(FirstRead(f, p0, p1), t, ONE_PIXEL)
    ensures Reaches(FirstWritten(f, p0, p1), t, ONE_PIXEL)
  {
    var s := FirstWritten(f, p0, p1);
    StreamOne([p0, p1], 0);
    assert [] + p0 == p0 && p0[0..4] == p0;
    assert Step(Step(s, Emit(p0), ONE_PIXEL), Read(4), ONE_PIXEL) == FirstRead(f, p0, p1);
    ReachesTwo(s, Emit(p0), Read(4), t, ONE_PIXEL);
  }

  lemma LoseFirst(f: VideoFrame, p0: seq<byte>, p1: seq<byte>, t: State)
    requires |p0| == 4 && Reaches(FirstLost(f, p0, p1), t, ONE_PIXEL)
    ensures Reaches(FirstRead(f, p0, p1), t, ONE_PIXEL)
  {
    var s := FirstRead(f, p0, p1);
    assert Step(Step(s, Pass, ONE_PIXEL), Record, ONE_PIXEL) == FirstLost(f, p0, p1);
    ReachesTwo(s, Pass, Record, t, ONE_PIXEL);
  }

  lemma WriteSecond(f: VideoFrame, p0: seq<byte>, p1: seq<byte>, t: State)
    requires Reaches(SecondRecorded(f, p0, p1), t, ONE_PIXEL)
    ensures Reaches(FirstLost(f, p0, p1), t, ONE_PIXEL)
  {
    var s := FirstLost(f, p0, p1);
    var s2 := Step(Step(s, Dequeue, ONE_PIXEL), WriteOk, ONE_PIXEL);
    assert s2 == SecondRecorded(f, p0, p1).(writer := Written(1), expected := [RecordFor(f, 0)]);
    assert Step(s2, Record, ONE_PIXEL) == SecondRecorded(f, p0, p1);
    ReachesStep(s2, Record, t, ONE_PIXEL);
    ReachesTwo(s, Dequeue, WriteOk, t, ONE_PIXEL);
  }

  lemma ReadSecond(f: VideoFrame, p0: seq<byte>, p1: seq<byte>, t: State)
    requires |p0| == |p1| == 4 && Reaches(SecondRead(f, p0, p1), t, ONE_PIXEL)
    ensures Reaches(SecondRecorded(f, p0, p1), t, ONE_PIXEL)
  {
    var s := SecondRecorded(f, p0, p1);
    StreamOne([p0, p1], 0);
    StreamOne([p0, p1], 1);
    StreamAppend([p0, p1], [0], [1]);
    assert [0] + [1] == [0, 1];
    assert (p0 + p1)[4..8] == p1 && [] + p1 == p1;
    assert Step(Step(s, Emit(p1), ONE_PIXEL), Read(4), ONE_PIXEL) == SecondRead(f, p0, p1);
    ReachesTwo(s, Emit(p1), Read(4), t, ONE_PIXEL);
  }

  /** Without the hypothesis the first frame's record can be popped for the second frame's
      pixels: a legal run delivers frame 0 with the pixels of frame 1. */
  lemma RaceMistagsAFrame(f: VideoFrame, p0: seq<byte>, p1: seq<byte>)
    requires f.sps == [] && |p0| == |p1| == 4
    ensures exists t ::
      && Reaches(Initial(Size(0, 0)), t, ONE_PIXEL)
      && |t.delivered| == 1 && t.delivered[0].index == 0 && t.pixels == [p0, p1]
      && t.delivered[0].frame.rgba == p1
  {
    FrameBytesExact(ONE_PIXEL);
    var s := SecondRead(f, p0, p1);
    var popping := Step(s, Pass, ONE_PIXEL);
    assert popping == s.(reader := Popping(RecordFor(f, 0).record));
    assert p1[..4] == p1;
    var t := Step(popping, Pop, ONE_PIXEL);
    ReachesSelf(t, ONE_PIXEL);
    ReachesTwo(s, Pass, Pop, t, ONE_PIXEL);
    ReadSecond(f, p0, p1, t);
    WriteSecond(f, p0, p1, t);
    LoseFirst(f, p0, p1, t);
    ReadFirst(f, p0, p1, t);
    WriteFirst(f, p0, p1, t);
    QueueTwo(f, p0, p1, t);
  }

  // ---- The restart branch --------------------------------------------------

  /** One frame of unknown size, decoded to one byte: recorded, and the byte read. */
  function UnknownRead(v: Size, f: VideoFrame, p: seq<byte>, fallback: Size): State {
    State(Q.History(Queue([], v, 0, true), [Queued(f, fallback)], [0]), [p], Idle,
          [InFlight(Expected(fallback, f.capturedAtMs), 0)], Child([0], p, 1, p, 0, 0), Looping, [], false)
  }

  function UnknownRecorded(v: Size, f: VideoFrame, p: seq<byte>, fallback: Size): State {
    UnknownRead(v, f, p, fallback).(child := Child([0], [], 0, [], 0, 0), reader := Reading)
  }

  function UnknownWritten(v: Size, f: VideoFrame, p: seq<byte>, fallback: Size): State {
    UnknownRecorded(v, f, p, fallback).(writer := Written(0), expected := [])
  }

  lemma WriteUnknown(v: Size, f: VideoFrame, p: seq<byte>, fallback: Size, t: State)
    requires v.width <= 0 && f.sps == [] && FrameBytes(fallback) == 0
    requires Reaches(UnknownWritten(v, f, p, fallback), t, fallback)
    ensures Reaches(Initial(v), t, fallback)
  {
    var s := Initial(v);
    assert SizeFor(f, v, fallback) == fallback;
    var s1 := Step(s, Submit(f, p), fallback);
    assert [Queued(f, fallback)][0..] == [Queued(f, fallback)];
    assert s1.h.q.pending == [Queued(f, fallback)];
    var s2 := Step(s1, Dequeue, fallback);
    assert Step(s2, WriteOk, fallback) == UnknownWritten(v, f, p, fallback);
    ReachesTwo(s1, Dequeue, WriteOk, t, fallback);
    ReachesStep(s, Submit(f, p), t, fallback);
  }

  lemma RecordUnknown(v: Size, f: VideoFrame, p: seq<byte>, fallback: Size, t: State)
    requires Reaches(UnknownRecorded(v, f, p, fallback), t, fallback)
    ensures Reaches(UnknownWritten(v, f, p, fallback), t, fallback)
  {
    var s := UnknownWritten(v, f, p, fallback);
    assert Step(s, Record, fallback) == UnknownRecorded(v, f, p, fallback);
    ReachesStep(s, Record, t, fallback);
  }

  lemma ReadUnknown(v: Size, f: VideoFrame, p: seq<byte>, fallback: Size, t: State)
    requires |p| == 1 && Reaches(UnknownRead(v, f, p, fallback), t, fallback)
    ensures Reaches(UnknownRecorded(v, f, p, fallback), t, fallback)
  {
    var s := UnknownRecorded(v, f, p, fallback);
    StreamOne([p], 0);
    assert [] + p == p && p[0..1] == p;
    assert Step(Step(s, Emit(p), fallback), Read(1), fallback) == UnknownRead(v, f, p, fallback);
    ReachesTwo(s, Emit(p), Read(1), t, fallback);
  }

  lemma RestartIsReachable(v: Size, fallback: Size)
    requires v.width <= 0 && FrameBytes(fallback) == 0
    ensures exists t :: Reaches(Initial(v), t, fallback) && t.restartNeeded
  {
    var f := VideoFrame([], 0, 0, [], [], false);
    var s := UnknownRead(v, f, [0], fallback);
    var t := Step(s, Pass, fallback);
    ReachesSelf(t, fallback);
    ReachesStep(s, Pass, t, fallback);
    ReadUnknown(v, f, [0], fallback, t);
    RecordUnknown(v, f, [0], fallback, t);
    WriteUnknown(v, f, [0], fallback, t);
    assert t.restartNeeded;
  }

  lemma RestartIsUnreachable(v: Size, fallback: Size, t: State)
    requires KeptSize(v) && SizeIsKnown(v, fallback) && Reaches(Initial(v), t, fallback)
    ensures !t.restartNeeded
  {
    var events :| Legal(Initial(v), events, fallback) && Run(Initial(v), events, fallback) == t;
    DeliveredFramesAreInOrder(v, events, fallback);
  }

  /** The restart request, whose handling would lock the decoder's mutex twice, can come
      up exactly when no SPS was ever parsed before and the announced panel has no area. */
  lemma RestartNeededIffNoSize(videoSize: Size, fallback: Size)
    requires KeptSize(videoSize)
    requires 0 <= fallback.width <= INT32_MAX && 0 <= fallback.height <= INT32_MAX
    ensures (exists t :: Reaches(Initial(videoSize), t, fallback) && t.restartNeeded)
       <==> videoSize.width <= 0 && (fallback.width == 0 || fallback.height == 0)
  {
    if videoSize.width <= 0 && (fallback.width == 0 || fallback.height == 0) {
      assert FrameBytes(fallback) == 0;
      RestartIsReachable(videoSize, fallback);
    } else {
      forall t | Reaches(Initial(videoSize), t, fallback)
        ensures !t.restartNeeded
      {
        RestartIsUnreachable(videoSize, fallback, t);
      }
    }
  }
}
