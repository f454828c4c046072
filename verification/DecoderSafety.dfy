/** Safety of the decoder pipeline over every interleaving, and exactly where it ends. */
module DecoderSafety {
  import opened Common
  import opened VideoFrames
  import opened Decoder
  import Q = DecoderQueue
  import opened DecoderPipeline

  // ---- Frames and sizes ----------------------------------------------------

  lemma SubmitFrames(s: State, frame: VideoFrame, decoded: seq<byte>, fallback: Size)
    requires FramesOk(s) && SizeIsKnown(s.h.q.videoSize, fallback) && Enabled(s, Submit(frame, decoded), fallback)
    ensures FramesOk(Step(s, Submit(frame, decoded), fallback))
  {
    Q.StepKeepsQueueOk(s.h, Q.SubmitFrame(frame), fallback);
    FrameBytesExact(SubmittedSize(s, frame, fallback));
  }

  lemma FramesStep(s: State, e: Event, fallback: Size)
    requires FramesOk(s) && SizeIsKnown(s.h.q.videoSize, fallback) && Enabled(s, e, fallback)
    ensures FramesOk(Step(s, e, fallback)) && SizeIsKnown(Step(s, e, fallback).h.q.videoSize, fallback)
  {
    match e
    case Submit(frame, decoded) => SubmitFrames(s, frame, decoded, fallback);
    case Dequeue =>
      Q.StepKeepsQueueOk(s.h, Q.Dequeue, fallback);
    case _ =>
  }

  /** With positive sizes the reader never meets a record of zero bytes. */
  lemma NoUnknownSize(s: State)
    requires FramesOk(s) && RecordsOk(s)
    ensures !Inspect(s.child.buffer, Front(s.expected)).UnknownSize?
  {
    if s.expected != [] {
      assert RecordOf(s, s.expected[0]);
    }
  }

  // ---- Order ---------------------------------------------------------------

  lemma HeadMoves(s: State, e: Event, fallback: Size)
    requires FramesOk(s) && Enabled(s, e, fallback)
    ensures var t := Step(s, e, fallback);
            |s.h.submitted| <= |t.h.submitted| && 0 <= Q.Head(s.h) <= Q.Head(t.h) <= |t.h.submitted|
  {
    match e
    case Submit(frame, decoded) =>
      Q.StepKeepsQueueOk(s.h, Q.SubmitFrame(frame), fallback);
    case _ =>
  }

  /** The chain is untouched by every step but a completed write and a restart. */
  lemma SameChain(s: State, t: State)
    requires OrderOk(s) && t.delivered == s.delivered
    requires t.child.written == s.child.written && t.child.popped == s.child.popped
    requires Horizon(s) <= Horizon(t) <= Q.Head(t.h) <= |t.h.submitted|
    requires t.writer.Writing? || t.writer.Stopping? || t.writer.Rewriting? ==> Horizon(t) < Q.Head(t.h)
    ensures OrderOk(t)
  {
    assert Chain(t) == Chain(s);
  }

  lemma WriteOkOrder(s: State, fallback: Size)
    requires OrderOk(s) && Enabled(s, WriteOk, fallback)
    ensures OrderOk(Step(s, WriteOk, fallback))
  {
    var t := Step(s, WriteOk, fallback);
    assert t.child.written[s.child.popped..] == s.child.written[s.child.popped..] + [s.writer.i];
    assert Chain(t) == Chain(s) + [s.writer.i];
  }

  lemma RestartedOrder(s: State, fallback: Size)
    requires OrderOk(s) && Enabled(s, Restarted, fallback)
    ensures OrderOk(Step(s, Restarted, fallback))
  {
    var t := Step(s, Restarted, fallback);
    assert Chain(t) == Indices(s.delivered);
    assert forall k :: 0 <= k < |Chain(t)| ==> Chain(t)[k] == Chain(s)[k];
  }

  /** Popping moves one position from what the child owes to what was delivered. */
  lemma PopOrder(s: State, fallback: Size)
    requires OrderOk(s) && Enabled(s, Pop, fallback)
    requires s.child.popped < |s.child.written| && s.expected[0].index == s.child.written[s.child.popped]
    ensures OrderOk(Step(s, Pop, fallback))
  {
    var t := Step(s, Pop, fallback);
    var c := s.child;
    var i := c.written[c.popped];
    IndicesSnoc(s.delivered, t.delivered[|s.delivered|]);
    MoveFirst(Indices(s.delivered), c.written, c.popped);
    assert t.child.written == c.written && t.child.popped == c.popped + 1;
    assert Chain(t) == Chain(s);
  }

  lemma IndicesSnoc(ds: seq<Delivery>, d: Delivery)
    ensures Indices(ds + [d]) == Indices(ds) + [d.index]
  {
    assert (ds + [d])[..|ds|] == ds;
  }

  lemma MoveFirst(done: seq<nat>, owed: seq<nat>, k: nat)
    requires k < |owed|
    ensures done + [owed[k]] + owed[k + 1..] == done + owed[k..]
  {
    assert owed[k..] == [owed[k]] + owed[k + 1..];
  }

  lemma OrderStep(s: State, e: Event, fallback: Size)
    requires FramesOk(s) && OrderOk(s) && RecordsOk(s) && Enabled(s, e, fallback)
    ensures OrderOk(Step(s, e, fallback))
  {
    var t := Step(s, e, fallback);
    HeadMoves(s, e, fallback);
    match e
    case WriteOk => WriteOkOrder(s, fallback);
    case Restarted => RestartedOrder(s, fallback);
    case Pop => PopOrder(s, fallback);
    case Pass =>
      NoUnknownSize(s);
      SameChain(s, t);
    case _ => SameChain(s, t);
  }

  // ---- Records -------------------------------------------------------------

  lemma RecordsSurvive(s: State, t: State)
    requires RecordsOk(s) && s.h.submitted <= t.h.submitted && s.child.written <= t.child.written
    requires t.expected == s.expected && t.child.popped == s.child.popped
    requires Recorded(t) == Recorded(s)
    requires t.writer.Written? ==>
      |t.child.written| > 0 && t.child.written[|t.child.written| - 1] == t.writer.i < |t.h.submitted|
    ensures RecordsOk(t)
  {
    forall k | 0 <= k < |t.expected|
      ensures t.expected[k].index == t.child.written[t.child.popped + k] && RecordOf(t, t.expected[k])
    {
      assert RecordOf(s, s.expected[k]);
    }
  }

  lemma RecordRecords(s: State, fallback: Size)
    requires RecordsOk(s) && Enabled(s, Record, fallback)
    ensures RecordsOk(Step(s, Record, fallback))
  {
    var t := Step(s, Record, fallback);
    forall k | 0 <= k < |t.expected|
      ensures t.expected[k].index == t.child.written[t.child.popped + k] && RecordOf(t, t.expected[k])
    {
      if k < |s.expected| {
        assert RecordOf(s, s.expected[k]);
      }
    }
  }

  lemma PopRecords(s: State, fallback: Size)
    requires RecordsOk(s) && Enabled(s, Pop, fallback)
    ensures RecordsOk(Step(s, Pop, fallback))
  {
    var t := Step(s, Pop, fallback);
    forall k | 0 <= k < |t.expected|
      ensures t.expected[k].index == t.child.written[t.child.popped + k] && RecordOf(t, t.expected[k])
    {
      assert RecordOf(s, s.expected[k + 1]);
    }
  }

  lemma RestartedRecords(s: State, fallback: Size)
    requires Enabled(s, Restarted, fallback)
    ensures RecordsOk(Step(s, Restarted, fallback))
  {
  }

  lemma WriteOkRecords(s: State, fallback: Size)
    requires OrderOk(s) && RecordsOk(s) && Enabled(s, WriteOk, fallback)
    ensures RecordsOk(Step(s, WriteOk, fallback))
  {
    RecordsSurvive(s, Step(s, WriteOk, fallback));
  }

  lemma SubmitRecords(s: State, e: Event, fallback: Size)
    requires RecordsOk(s) && Enabled(s, e, fallback) && e.Submit?
    ensures RecordsOk(Step(s, e, fallback))
  {
    RecordsSurvive(s, Step(s, e, fallback));
  }

  lemma QuietRecords(s: State, e: Event, fallback: Size)
    requires RecordsOk(s) && Enabled(s, e, fallback)
    requires e.Dequeue? || e.WriteFail? || e.GiveUp? || e.Emit? || e.Read?
    ensures RecordsOk(Step(s, e, fallback))
  {
    RecordsSurvive(s, Step(s, e, fallback));
  }

  lemma RecordsStep(s: State, e: Event, fallback: Size)
    requires FramesOk(s) && OrderOk(s) && RecordsOk(s) && Enabled(s, e, fallback)
    ensures RecordsOk(Step(s, e, fallback))
  {
    var t := Step(s, e, fallback);
    match e
    case Record => RecordRecords(s, fallback);
    case Pop => PopRecords(s, fallback);
    case Restarted => RestartedRecords(s, fallback);
    case WriteOk => WriteOkRecords(s, fallback);
    case Submit(_, _) => SubmitRecords(s, e, fallback);
    case Pass =>
      NoUnknownSize(s);
      RecordsSurvive(s, t);
    case _ => QuietRecords(s, e, fallback);
  }

  // ---- Bytes ---------------------------------------------------------------

  lemma ChildSeesNewFrame(c: Child, pixels: seq<seq<byte>>, decoded: seq<byte>)
    requires ChildOk(c, pixels) && Q.Below(c.written, |pixels|)
    ensures ChildOk(c, pixels + [decoded])
  {
    StreamGrows(pixels, decoded, c.written);
    StreamGrows(pixels, decoded, c.written[..c.popped]);
  }

  lemma ChildGetsFrame(c: Child, pixels: seq<seq<byte>>, i: nat)
    requires ChildOk(c, pixels)
    ensures ChildOk(Accept(c, i), pixels)
  {
    StreamAppend(pixels, c.written, [i]);
    assert (c.written + [i])[..c.popped] == c.written[..c.popped];
  }

  lemma ChildEmits(c: Child, pixels: seq<seq<byte>>, bytes: seq<byte>)
    requires ChildOk(c, pixels) && c.emitted + bytes <= Stream(pixels, c.written)
    ensures ChildOk(PutOut(c, bytes), pixels)
  {
    assert (c.emitted + bytes)[c.readCount - |c.buffer|..c.readCount]
        == c.emitted[c.readCount - |c.buffer|..c.readCount];
  }

  lemma ChildIsRead(c: Child, pixels: seq<seq<byte>>, n: nat)
    requires ChildOk(c, pixels) && c.readCount + n <= |c.emitted|
    ensures ChildOk(ReadMore(c, n), pixels)
  {
    SliceJoin(c.emitted, c.readCount - |c.buffer|, c.readCount, c.readCount + n);
  }

  lemma SliceJoin<T>(s: seq<T>, a: nat, b: nat, c: nat)
    requires a <= b <= c <= |s|
    ensures s[a..b] + s[b..c] == s[a..c]
  {
  }

  lemma SliceTail<T>(s: seq<T>, a: nat, n: nat, c: nat)
    requires a + n <= c <= |s|
    ensures s[a..c][n..] == s[a + n..c] && s[a..c][..n] == s[a..a + n]
  {
  }

  lemma ChildPops(c: Child, pixels: seq<seq<byte>>, i: nat, n: nat)
    requires ChildOk(c, pixels) && c.popped < |c.written| && c.written[c.popped] == i
    requires i < |pixels| && |pixels[i]| == n <= |c.buffer|
    ensures ChildOk(TakeFrame(c, n), pixels)
  {
    var a := c.readCount - |c.buffer|;
    var t := TakeFrame(c, n);
    StreamAt(pixels, c.written, c.popped);
    SliceTail(c.emitted, a, n, c.readCount);
    assert t.readCount - |t.buffer| == a + n;
    assert t.buffer == c.emitted[a + n..c.readCount];
    assert |Stream(pixels, t.written[..t.popped])| == |Stream(pixels, c.written[..c.popped])| + n;
  }

  /** The front of the buffer is bytes of the child's output, and the front frame's own
      ones when none were lost. */
  lemma FrontBytes(c: Child, pixels: seq<seq<byte>>, i: nat, n: nat)
    requires ChildOk(c, pixels) && c.popped < |c.written| && c.written[c.popped] == i
    requires i < |pixels| && |pixels[i]| == n <= |c.buffer|
    ensures var a := c.readCount - |c.buffer|;
            c.buffer[..n] == c.emitted[a..a + n] && (c.lost == 0 ==> c.buffer[..n] == pixels[i])
  {
    SliceTail(c.emitted, c.readCount - |c.buffer|, n, c.readCount);
    if c.lost == 0 {
      FrameBegins(c, pixels, i);
      OwnBytes(c.emitted, Stream(pixels, c.written), Stream(pixels, c.written[..c.popped]), pixels[i]);
    }
  }

  lemma FrameBegins(c: Child, pixels: seq<seq<byte>>, i: nat)
    requires c.popped < |c.written| && c.written[c.popped] == i < |pixels|
    ensures Stream(pixels, c.written[..c.popped]) + pixels[i] <= Stream(pixels, c.written)
  {
    StreamAt(pixels, c.written, c.popped);
  }

  lemma OwnBytes(emitted: seq<byte>, whole: seq<byte>, before: seq<byte>, own: seq<byte>)
    requires emitted <= whole && before + own <= whole && |before| + |own| <= |emitted|
    ensures emitted[|before|..|before| + |own|] == own
  {
    assert whole[|before|..|before| + |own|] == (before + own)[|before|..];
  }

  /** The front record announces exactly the bytes its frame decodes to. */
  lemma FrontFits(s: State)
    requires FramesOk(s) && RecordsOk(s) && ReaderOk(s) && s.reader.Popping?
    ensures s.expected != [] && s.child.popped < |s.child.written|
    ensures var i := s.expected[0].index;
            && i == s.child.written[s.child.popped] && RecordOf(s, s.expected[0])
            && i < |s.pixels| && |s.pixels[i]| == FrameBytes(s.reader.e.size) <= |s.child.buffer|
  {
    assert RecordOf(s, s.expected[0]);
  }

  lemma PopBuffer(s: State, fallback: Size)
    requires FramesOk(s) && RecordsOk(s) && ReaderOk(s) && BufferOk(s) && Enabled(s, Pop, fallback)
    ensures BufferOk(OnPop(s))
  {
    FrontFits(s);
    ChildPops(s.child, s.pixels, s.expected[0].index, FrameBytes(s.reader.e.size));
  }

  lemma ChildIsCleared(c: Child, pixels: seq<seq<byte>>)
    requires ChildOk(c, pixels)
    ensures ChildOk(Clear(c), pixels)
  {
  }

  lemma BytesMove(s: State, e: Event, fallback: Size)
    requires BufferOk(s) && Enabled(s, e, fallback) && (e.WriteOk? || e.Read? || e.Emit?)
    ensures BufferOk(Step(s, e, fallback))
  {
    match e
    case WriteOk => ChildGetsFrame(s.child, s.pixels, s.writer.i);
    case Read(n) => ChildIsRead(s.child, s.pixels, n);
    case Emit(bytes) => ChildEmits(s.child, s.pixels, bytes);
  }

  lemma BytesStay(s: State, e: Event, fallback: Size)
    requires BufferOk(s) && Enabled(s, e, fallback)
    requires e.Dequeue? || e.WriteFail? || e.Restarted? || e.GiveUp? || e.Record?
    ensures BufferOk(Step(s, e, fallback))
  {
    var t := Step(s, e, fallback);
    if e.Restarted? {
      NewChildOk(s.pixels);
    } else {
      assert t.pixels == s.pixels && t.child == s.child;
    }
  }

  lemma NewChildOk(pixels: seq<seq<byte>>)
    ensures ChildOk(NEW_CHILD, pixels)
  {
    assert Stream(pixels, []) == [];
  }

  lemma PassBuffer(s: State)
    requires BufferOk(s) && !Inspect(s.child.buffer, Front(s.expected)).UnknownSize?
    ensures BufferOk(OnPass(s))
  {
    ChildIsCleared(s.child, s.pixels);
    assert OnPass(s).child == s.child || OnPass(s).child == Clear(s.child);
  }

  lemma BufferStep(s: State, e: Event, fallback: Size)
    requires FramesOk(s) && OrderOk(s) && RecordsOk(s) && ReaderOk(s) && BufferOk(s)
    requires Enabled(s, e, fallback)
    ensures BufferOk(Step(s, e, fallback))
  {
    match e
    case Submit(frame, decoded) => ChildSeesNewFrame(s.child, s.pixels, decoded);
    case Pop => PopBuffer(s, fallback);
    case Pass =>
      NoUnknownSize(s);
      PassBuffer(s);
    case WriteOk => BytesMove(s, e, fallback);
    case Read(_) => BytesMove(s, e, fallback);
    case Emit(_) => BytesMove(s, e, fallback);
    case _ => BytesStay(s, e, fallback);
  }

  lemma ReaderStep(s: State, e: Event, fallback: Size)
    requires ReaderOk(s) && Enabled(s, e, fallback)
    ensures ReaderOk(Step(s, e, fallback))
  {
  }

  // ---- Deliveries ----------------------------------------------------------

  lemma DeliveriesSurvive(s: State, t: State)
    requires DeliveriesOk(s) && t.delivered == s.delivered
    requires s.h.submitted <= t.h.submitted && s.pixels <= t.pixels
    ensures DeliveriesOk(t)
  {
    forall k | 0 <= k < |t.delivered|
      ensures DeliveryOk(t, t.delivered[k])
    {
      assert DeliveryOk(s, s.delivered[k]);
    }
  }

  lemma PopIsOwn(s: State, fallback: Size)
    requires FramesOk(s) && RecordsOk(s) && ReaderOk(s) && BufferOk(s) && Enabled(s, Pop, fallback)
    ensures DeliveryOk(s, OnPop(s).delivered[|s.delivered|])
  {
    FrontFits(s);
    var i := s.expected[0].index;
    FrontBytes(s.child, s.pixels, i, FrameBytes(s.reader.e.size));
    assert s.reader.e == Expected(s.h.submitted[i].size, s.h.submitted[i].frame.capturedAtMs);
    var d := OnPop(s).delivered[|s.delivered|];
    assert d.index == i && d.source == s.child.emitted && d.start == d.own + d.lost;
    assert DeliveryOf(d, s.h.submitted[i], s.pixels[i]);
  }

  lemma DeliveriesStep(s: State, e: Event, fallback: Size)
    requires FramesOk(s) && RecordsOk(s) && ReaderOk(s) && BufferOk(s) && DeliveriesOk(s)
    requires Enabled(s, e, fallback)
    ensures DeliveriesOk(Step(s, e, fallback))
  {
    var t := Step(s, e, fallback);
    if e.Pop? {
      PopIsOwn(s, fallback);
      forall k | 0 <= k < |t.delivered|
        ensures DeliveryOk(t, t.delivered[k])
      {
        if k < |s.delivered| {
          assert DeliveryOk(s, s.delivered[k]);
        }
      }
    } else {
      DeliveriesSurvive(s, t);
    }
  }

  // ---- Whole runs ----------------------------------------------------------

  lemma StepKeeps(s: State, e: Event, fallback: Size)
    requires PipelineOk(s) && SizeIsKnown(s.h.q.videoSize, fallback) && Enabled(s, e, fallback)
    ensures PipelineOk(Step(s, e, fallback)) && SizeIsKnown(Step(s, e, fallback).h.q.videoSize, fallback)
  {
    FramesStep(s, e, fallback);
    OrderStep(s, e, fallback);
    RecordsStep(s, e, fallback);
    BufferStep(s, e, fallback);
    ReaderStep(s, e, fallback);
    DeliveriesStep(s, e, fallback);
    NoUnknownSize(s);
  }

  lemma {:induction false} RunKeeps(s: State, events: seq<Event>, fallback: Size)
    requires PipelineOk(s) && SizeIsKnown(s.h.q.videoSize, fallback) && Legal(s, events, fallback)
    ensures PipelineOk(Run(s, events, fallback))
    decreases |events|
  {
    if events != [] {
      StepKeeps(s, events[0], fallback);
      RunKeeps(Step(s, events[0], fallback), events[1..], fallback);
    }
  }
}
