/** The decoder while it runs: submitter, writer thread, ffmpeg child and reader thread
    of src/ffmpeg_decoder.cpp interleaved one atomic step at a time. */
module DecoderPipeline {
  import opened Common
  import opened VideoFrames
  import opened Decoder
  import opened DecoderQueue

  /** Where the writer thread stands with the frame at position `i`: Stopping waits for
      the reader after a failed write, Written has not pushed the record yet. */
  datatype Writer =
    | Idle
    | Writing(i: nat)
    | Stopping(i: nat)
    | Rewriting(i: nat)
    | Written(i: nat)
    | Dead

  /** Reading is blocked in read(); Looping is about to look at the front record; Popping
      has seen a complete frame for it. */
  datatype Reader = Reading | Looping | Popping(e: Expected)

  /** A pushed record, with the position of the frame it was pushed for. */
  datatype InFlight = InFlight(record: Expected, index: nat)

  /** One child process: the frames written to it, all bytes it has put out, how many the
      reader has taken, the reader's buffer, the records it has popped, and the bytes the
      clearing branches threw away. */
  datatype Child = Child(
    written: seq<nat>, emitted: seq<byte>, readCount: nat, buffer: seq<byte>, popped: nat, lost: nat)

  const NEW_CHILD := Child([], [], 0, [], 0, 0)

  /** A frame handed to the session: whose record was popped, which bytes of its child's
      output it was cut from, where its own bytes lie, and the child's losses so far. */
  datatype Delivery = Delivery(
    index: nat, frame: DecodedFrame, source: seq<byte>, start: nat, own: nat, lost: nat)

  /** `pixels[k]` is what the child decodes frame `k` to. */
  datatype State = State(
    h: History, pixels: seq<seq<byte>>, writer: Writer, expected: seq<InFlight>,
    child: Child, reader: Reader, delivered: seq<Delivery>, restartNeeded: bool)

  datatype Event =
    | Submit(frame: VideoFrame, decoded: seq<byte>)
    | Dequeue
    | WriteOk
    | WriteFail
    | Restarted
    | GiveUp
    | Record
    | Emit(bytes: seq<byte>)
    | Read(n: nat)
    | Pass
    | Pop

  const READ_SIZE := 0x4_0000

  function PixelsAt(pixels: seq<seq<byte>>, i: nat): seq<byte> {
    if i < |pixels| then pixels[i] else []
  }

  /** The raw video a child owes for the frames written to it. */
  function Stream(pixels: seq<seq<byte>>, written: seq<nat>): seq<byte> {
    if written == [] then []
    else Stream(pixels, written[..|written| - 1]) + PixelsAt(pixels, written[|written| - 1])
  }

  function Initial(videoSize: Size): State {
    State(Fresh(videoSize), [], Idle, [], NEW_CHILD, Reading, [], false)
  }

  // ---- Steps ---------------------------------------------------------------

  function SubmittedSize(s: State, frame: VideoFrame, fallback: Size): Size {
    SizeFor(frame, VideoSizeAfter(s.h.q.videoSize, frame), fallback)
  }

  /** Which steps can be taken. The child's contract is in Submit (a frame decodes to as
      many bytes as were recorded for it, where that is known) and in Emit (what comes out
      is, in order, what was written). */
  predicate Enabled(s: State, e: Event, fallback: Size) {
    match e
    case Submit(frame, decoded) =>
      var n := FrameBytes(SubmittedSize(s, frame, fallback));
      n > 0 ==> |decoded| == n
    case Dequeue => s.writer.Idle? && CanDequeue(s.h) && Head(s.h) >= 0 && !s.restartNeeded
    case WriteOk => s.writer.Writing? || s.writer.Rewriting?
    case WriteFail => s.writer.Writing?
    case Restarted => s.writer.Stopping? && s.reader.Reading?
    case GiveUp => s.writer.Writing? || s.writer.Rewriting?
    case Record => s.writer.Written? && s.writer.i < |s.h.submitted|
    case Emit(bytes) => s.child.emitted + bytes <= Stream(s.pixels, s.child.written)
    case Read(n) => s.reader.Reading? && 0 < n <= READ_SIZE && s.child.readCount + n <= |s.child.emitted|
    case Pass => s.reader.Looping?
    case Pop => s.reader.Popping? && s.expected != []
                && FrameBytes(s.reader.e.size) <= |s.child.buffer| <= s.child.readCount
                && s.child.popped <= |s.child.written|
  }

  // What happens to the child and the reader's buffer, step by step.

  function Accept(c: Child, i: nat): Child {
    c.(written := c.written + [i])
  }

  function PutOut(c: Child, bytes: seq<byte>): Child {
    c.(emitted := c.emitted + bytes)
  }

  function ReadMore(c: Child, n: nat): Child
    requires c.readCount + n <= |c.emitted|
  {
    c.(buffer := c.buffer + c.emitted[c.readCount..c.readCount + n], readCount := c.readCount + n)
  }

  function Clear(c: Child): Child {
    c.(buffer := [], lost := c.lost + |c.buffer|)
  }

  function TakeFrame(c: Child, n: nat): Child
    requires n <= |c.buffer|
  {
    c.(buffer := c.buffer[n..], popped := c.popped + 1)
  }

  function Front(expected: seq<InFlight>): seq<Expected> {
    if expected == [] then [] else [expected[0].record]
  }

  function OnPass(s: State): State {
    var c := s.child;
    match Inspect(c.buffer, Front(s.expected))
    case Discard =>
      s.(child := Clear(c), reader := Reading)
    case UnknownSize =>
      s.(child := Clear(c).(popped := c.popped + 1),
         expected := s.expected[1..], restartNeeded := true)
    case Wait => s.(reader := Reading)
    case Deliver(e) => s.(reader := Popping(e))
  }

  function OnPop(s: State): State
    requires s.reader.Popping? && s.expected != []
    requires FrameBytes(s.reader.e.size) <= |s.child.buffer| <= s.child.readCount
    requires s.child.popped <= |s.child.written|
  {
    var c := s.child;
    var n := FrameBytes(s.reader.e.size);
    s.(child := TakeFrame(c, n),
       expected := s.expected[1..], reader := Looping,
       delivered := s.delivered + [Delivery(
         s.expected[0].index, FrameOf(s.reader.e, c.buffer), c.emitted,
         c.readCount - |c.buffer|, |Stream(s.pixels, c.written[..c.popped])|, c.lost)])
  }

  function Step(s: State, e: Event, fallback: Size): State
    requires Enabled(s, e, fallback)
  {
    match e
    case Submit(frame, decoded) =>
      s.(h := OnSubmit(s.h, frame, fallback),
         pixels := if s.h.q.running then s.pixels + [decoded] else s.pixels)
    case Dequeue => s.(h := OnDequeue(s.h), writer := Writing(Head(s.h)))
    case WriteOk => s.(writer := Written(s.writer.i), child := Accept(s.child, s.writer.i))
    case WriteFail => s.(writer := Stopping(s.writer.i))
    case Restarted => s.(writer := Rewriting(s.writer.i), expected := [], child := NEW_CHILD)
    case GiveUp => s.(writer := Dead, h := s.h.(q := s.h.q.(running := false)))
    case Record =>
      var q := s.h.submitted[s.writer.i];
      s.(writer := Idle, expected := s.expected + [InFlight(Expected(q.size, q.frame.capturedAtMs), s.writer.i)])
    case Emit(bytes) => s.(child := PutOut(s.child, bytes))
    case Read(n) => s.(child := ReadMore(s.child, n), reader := Looping)
    case Pass => OnPass(s)
    case Pop => OnPop(s)
  }

  predicate Legal(s: State, events: seq<Event>, fallback: Size)
    decreases |events|
  {
    events == [] ||
    (Enabled(s, events[0], fallback) && Legal(Step(s, events[0], fallback), events[1..], fallback))
  }

  function Run(s: State, events: seq<Event>, fallback: Size): State
    requires Legal(s, events, fallback)
    decreases |events|
  {
    if events == [] then s else Run(Step(s, events[0], fallback), events[1..], fallback)
  }

  // ---- Invariants ----------------------------------------------------------

  /** Queue, sizes and the child's contract. */
  predicate FramesOk(s: State) {
    && QueueOk(s.h)
    && |s.pixels| == |s.h.submitted|
    && (s.h.q.videoSize.width > 0 ==> PositiveSize(s.h.q.videoSize))
    && forall k :: 0 <= k < |s.pixels| ==>
         PositiveSize(s.h.submitted[k].size) && |s.pixels[k]| == FrameBytes(s.h.submitted[k].size) > 0
  }

  function Indices(ds: seq<Delivery>): seq<nat> {
    if ds == [] then [] else Indices(ds[..|ds| - 1]) + [ds[|ds| - 1].index]
  }

  /** Frames delivered so far, then the ones the current child still owes. */
  function Chain(s: State): seq<nat>
    requires s.child.popped <= |s.child.written|
  {
    Indices(s.delivered) + s.child.written[s.child.popped..]
  }

  /** Every position from here on is still ahead of the writer. */
  function Horizon(s: State): int {
    match s.writer
    case Writing(i) => i
    case Stopping(i) => i
    case Rewriting(i) => i
    case _ => Head(s.h)
  }

  predicate OrderOk(s: State) {
    && s.child.popped <= |s.child.written|
    && Increasing(Chain(s)) && Below(Chain(s), Horizon(s))
    && Below(s.child.written, Horizon(s))
    && 0 <= Horizon(s) <= Head(s.h) <= |s.h.submitted|
    && (s.writer.Writing? || s.writer.Stopping? || s.writer.Rewriting? ==> Horizon(s) < Head(s.h))
  }

  /** Frames whose record has been pushed. */
  function Recorded(s: State): int {
    if s.writer.Written? then |s.child.written| - 1 else |s.child.written|
  }

  predicate RecordOf(s: State, f: InFlight) {
    f.index < |s.h.submitted|
    && f.record == Expected(s.h.submitted[f.index].size, s.h.submitted[f.index].frame.capturedAtMs)
  }

  /** The in-flight records are, in order, those of the frames recorded and not popped. */
  predicate RecordsOk(s: State) {
    && (s.writer.Written? ==>
          |s.child.written| > 0 && s.child.written[|s.child.written| - 1] == s.writer.i < |s.h.submitted|)
    && s.child.popped <= Recorded(s)
    && |s.expected| == Recorded(s) - s.child.popped
    && forall k :: 0 <= k < |s.expected| ==>
         s.expected[k].index == s.child.written[s.child.popped + k] && RecordOf(s, s.expected[k])
  }

  /** The buffer is the newest bytes read; it begins where the frames popped end, shifted
      by exactly the bytes lost. */
  predicate ChildOk(c: Child, pixels: seq<seq<byte>>) {
    && c.emitted <= Stream(pixels, c.written)
    && |c.buffer| <= c.readCount <= |c.emitted|
    && c.buffer == c.emitted[c.readCount - |c.buffer|..c.readCount]
    && c.popped <= |c.written|
    && c.readCount - |c.buffer| == |Stream(pixels, c.written[..c.popped])| + c.lost
  }

  predicate BufferOk(s: State) {
    ChildOk(s.child, s.pixels)
  }

  predicate ReaderOk(s: State) {
    s.reader.Popping? ==>
      s.expected != [] && s.expected[0].record == s.reader.e
      && 0 < FrameBytes(s.reader.e.size) <= |s.child.buffer|
  }

  /** A delivered frame has the size and capture time of its own access unit; it is cut
      from its child's output at its own place shifted by the bytes lost; with nothing lost
      its pixels are its own. */
  predicate DeliveryOk(s: State, d: Delivery) {
    d.index < |s.h.submitted| && d.index < |s.pixels|
    && DeliveryOf(d, s.h.submitted[d.index], s.pixels[d.index])
  }

  predicate DeliveryOf(d: Delivery, q: Queued, own: seq<byte>) {
    var n := FrameBytes(q.size);
    && d.frame.width == q.size.width && d.frame.height == q.size.height
    && d.frame.capturedAtMs == q.frame.capturedAtMs
    && d.start == d.own + d.lost && d.start + n <= |d.source|
    && d.frame.rgba == d.source[d.start..d.start + n]
    && (d.lost == 0 ==> d.frame.rgba == own)
  }

  predicate DeliveriesOk(s: State) {
    forall k :: 0 <= k < |s.delivered| ==> DeliveryOk(s, s.delivered[k])
  }

  predicate PipelineOk(s: State) {
    FramesOk(s) && OrderOk(s) && RecordsOk(s) && BufferOk(s) && ReaderOk(s) && DeliveriesOk(s)
    && !s.restartNeeded
  }

  // ---- Stream facts --------------------------------------------------------

  lemma {:induction false} StreamAppend(pixels: seq<seq<byte>>, a: seq<nat>, b: seq<nat>)
    ensures Stream(pixels, a + b) == Stream(pixels, a) + Stream(pixels, b)
  {
    if b == [] {
      assert a + b == a;
    } else {
      var m := |b| - 1;
      assert (a + b)[..|a + b| - 1] == a + b[..m];
      StreamAppend(pixels, a, b[..m]);
      Associate(Stream(pixels, a), Stream(pixels, b[..m]), PixelsAt(pixels, b[m]));
    }
  }

  lemma {:induction false} StreamGrows(pixels: seq<seq<byte>>, more: seq<byte>, written: seq<nat>)
    requires Below(written, |pixels|)
    ensures Stream(pixels + [more], written) == Stream(pixels, written)
  {
    if written != [] {
      StreamGrows(pixels, more, written[..|written| - 1]);
    }
  }

  lemma StreamOne(pixels: seq<seq<byte>>, i: nat)
    ensures Stream(pixels, [i]) == PixelsAt(pixels, i)
  {
    assert [i][..0] == [];
    assert [] + PixelsAt(pixels, i) == PixelsAt(pixels, i);
  }

  /** Where frame number `k` of a child begins, its own pixels lie. */
  lemma StreamAt(pixels: seq<seq<byte>>, written: seq<nat>, k: nat)
    requires k < |written|
    ensures Stream(pixels, written[..k + 1]) == Stream(pixels, written[..k]) + PixelsAt(pixels, written[k])
    ensures Stream(pixels, written[..k + 1]) <= Stream(pixels, written)
  {
    assert written[..k + 1] == written[..k] + [written[k]];
    StreamAppend(pixels, written[..k], [written[k]]);
    StreamOne(pixels, written[k]);
    StreamPrefix(pixels, written, k + 1);
  }

  lemma StreamPrefix(pixels: seq<seq<byte>>, written: seq<nat>, k: nat)
    requires k <= |written|
    ensures Stream(pixels, written[..k]) <= Stream(pixels, written)
  {
    StreamAppend(pixels, written[..k], written[k..]);
    assert written[..k] + written[k..] == written;
  }
}
