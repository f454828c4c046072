/** Whole runs of submit and dequeue while the decoder is running: what the drop-oldest
    queue holds, and where each queued size comes from. */
module DecoderQueue {
  import opened Common
  import opened VideoFrames
  import opened Decoder

  /** The queue, every frame accepted with its size, and the positions dequeued. */
  datatype History = History(q: Queue, submitted: seq<Queued>, dequeued: seq<nat>)

  datatype Event = SubmitFrame(frame: VideoFrame) | Dequeue

  /** Position, among the frames accepted, of the front of the queue. */
  function Head(h: History): int {
    |h.submitted| - |h.q.pending|
  }

  function OnSubmit(h: History, frame: VideoFrame, fallback: Size): History {
    if !h.q.running then h
    else
      var size := SizeFor(frame, VideoSizeAfter(h.q.videoSize, frame), fallback);
      h.(q := Submit(h.q, frame, fallback), submitted := h.submitted + [Queued(frame, size)])
  }

  predicate CanDequeue(h: History) {
    h.q.running && h.q.pending != []
  }

  function OnDequeue(h: History): History
    requires CanDequeue(h) && Head(h) >= 0
  {
    h.(q := h.q.(pending := h.q.pending[1..]), dequeued := h.dequeued + [Head(h)])
  }

  /** An event that finds nothing to do changes nothing. */
  function Step(h: History, e: Event, fallback: Size): History {
    match e
    case SubmitFrame(frame) => OnSubmit(h, frame, fallback)
    case Dequeue => if CanDequeue(h) && Head(h) >= 0 then OnDequeue(h) else h
  }

  function Run(h: History, events: seq<Event>, fallback: Size): History
    decreases |events|
  {
    if events == [] then h else Run(Step(h, events[0], fallback), events[1..], fallback)
  }

  function Fresh(videoSize: Size): History {
    History(Queue([], videoSize, 0, true), [], [])
  }

  // ---- The queue invariant -------------------------------------------------

  predicate Increasing(s: seq<nat>) {
    forall i, j :: 0 <= i < j < |s| ==> s[i] < s[j]
  }

  predicate Below(s: seq<nat>, bound: int) {
    forall i :: 0 <= i < |s| ==> s[i] < bound
  }

  /** The queue is the newest frames accepted, four at most; every other one was either
      dropped or dequeued, and dequeued positions only go up. */
  predicate QueueOk(h: History) {
    && |h.q.pending| <= 4
    && 0 <= Head(h) && h.q.pending == h.submitted[Head(h)..]
    && |h.submitted| == h.q.dropped + |h.dequeued| + |h.q.pending|
    && Increasing(h.dequeued) && Below(h.dequeued, Head(h))
  }

  lemma SuffixGrows<T>(all: seq<T>, from: nat, x: T, over: nat)
    requires from <= |all| && from + over <= |all| + 1
    ensures (all + [x])[from + over..] == (all[from..] + [x])[over..]
  {
  }

  lemma SubmitKeepsQueueOk(h: History, frame: VideoFrame, fallback: Size)
    requires QueueOk(h)
    ensures QueueOk(OnSubmit(h, frame, fallback))
  {
    if h.q.running {
      var next := OnSubmit(h, frame, fallback);
      SuffixGrows(h.submitted, Head(h), next.submitted[|h.submitted|], Overflow(|h.q.pending| + 1));
    }
  }

  lemma DequeueKeepsQueueOk(h: History)
    requires QueueOk(h) && CanDequeue(h)
    ensures QueueOk(OnDequeue(h))
  {
    assert h.submitted[Head(h) + 1..] == h.submitted[Head(h)..][1..];
  }

  lemma StepKeepsQueueOk(h: History, e: Event, fallback: Size)
    requires QueueOk(h)
    ensures QueueOk(Step(h, e, fallback))
  {
    match e
    case SubmitFrame(frame) => SubmitKeepsQueueOk(h, frame, fallback);
    case Dequeue =>
      if CanDequeue(h) {
        DequeueKeepsQueueOk(h);
      }
  }

  /** A frame is dropped when four are waiting, and then the oldest one alone. */
  lemma DropsOnlyWhenFull(h: History, frame: VideoFrame, fallback: Size)
    requires QueueOk(h) && h.q.running
    ensures var t := OnSubmit(h, frame, fallback);
            && |t.submitted| == |h.submitted| + 1 && t.submitted[|h.submitted|].frame == frame
            && t.q.pending[|t.q.pending| - 1] == t.submitted[|h.submitted|]
            && t.q.dropped == (if |h.q.pending| == 4 then h.q.dropped + 1 else h.q.dropped)
            && t.q.pending[..|t.q.pending| - 1] == (if |h.q.pending| == 4 then h.q.pending[1..] else h.q.pending)
  {
  }

  lemma {:induction false} RunKeepsQueueOk(h: History, events: seq<Event>, fallback: Size)
    requires QueueOk(h)
    ensures QueueOk(Run(h, events, fallback))
    decreases |events|
  {
    if events != [] {
      StepKeepsQueueOk(h, events[0], fallback);
      RunKeepsQueueOk(Step(h, events[0], fallback), events[1..], fallback);
    }
  }

  // ---- Where a size comes from ---------------------------------------------

  /** Size of the last parseable SPS among `frames`. */
  function LastSize(frames: seq<Queued>): (r: Option<Size>)
    ensures r.Some? ==> PositiveSize(r.value)
    decreases |frames|
  {
    if frames == [] then None
    else
      var last := frames[|frames| - 1].frame;
      if SizeInFrame(last).Some? then SizeInFrame(last) else LastSize(frames[..|frames| - 1])
  }

  lemma {:induction false} LastSizeIsLastSome(frames: seq<Queued>, sizes: seq<Option<Size>>)
    requires |frames| == |sizes| && forall k :: 0 <= k < |frames| ==> SizeInFrame(frames[k].frame) == sizes[k]
    ensures LastSize(frames) == LastSome(sizes)
    decreases |frames|
  {
    if frames != [] {
      var n := |frames| - 1;
      assert SizeInFrame(frames[n].frame) == sizes[n];
      LastSizeIsLastSome(frames[..n], sizes[..n]);
    }
  }

  /** What a run that began with `initial` knows after `frames`: their last parseable SPS,
      else the size kept from before, else the announced panel. */
  function KnownSize(frames: seq<Queued>, initial: Size, fallback: Size): Size {
    if LastSize(frames).Some? then LastSize(frames).value
    else if initial.width > 0 then initial
    else fallback
  }

  predicate SizesOk(h: History, initial: Size, fallback: Size) {
    && h.q.videoSize == (if LastSize(h.submitted).Some? then LastSize(h.submitted).value else initial)
    && forall k :: 0 <= k < |h.submitted| ==>
         h.submitted[k].size == KnownSize(h.submitted[..k + 1], initial, fallback)
  }

  /** The size a new frame is queued with, and the one remembered from it. */
  lemma NewSizeIsKnown(frames: seq<Queued>, frame: VideoFrame, videoSize: Size, initial: Size, fallback: Size)
    requires videoSize == (if LastSize(frames).Some? then LastSize(frames).value else initial)
    ensures var after := VideoSizeAfter(videoSize, frame);
            var all := frames + [Queued(frame, SizeFor(frame, after, fallback))];
            && after == (if LastSize(all).Some? then LastSize(all).value else initial)
            && all[|frames|].size == KnownSize(all, initial, fallback)
  {
    var all := frames + [Queued(frame, SizeFor(frame, VideoSizeAfter(videoSize, frame), fallback))];
    assert all[..|frames|] == frames;
  }

  lemma StepKeepsSizesOk(h: History, e: Event, initial: Size, fallback: Size)
    requires SizesOk(h, initial, fallback)
    ensures SizesOk(Step(h, e, fallback), initial, fallback)
  {
    if e.SubmitFrame? && h.q.running {
      var next := OnSubmit(h, e.frame, fallback);
      var n := |h.submitted|;
      NewSizeIsKnown(h.submitted, e.frame, h.q.videoSize, initial, fallback);
      assert next.submitted[..n + 1] == next.submitted;
      forall k | 0 <= k < |next.submitted|
        ensures next.submitted[k].size == KnownSize(next.submitted[..k + 1], initial, fallback)
      {
        if k < n {
          assert next.submitted[..k + 1] == h.submitted[..k + 1];
        }
      }
    }
  }

  lemma {:induction false} RunKeepsSizesOk(h: History, events: seq<Event>, initial: Size, fallback: Size)
    requires SizesOk(h, initial, fallback)
    ensures SizesOk(Run(h, events, fallback), initial, fallback)
    decreases |events|
  {
    if events != [] {
      StepKeepsSizesOk(h, events[0], initial, fallback);
      RunKeepsSizesOk(Step(h, events[0], fallback), events[1..], initial, fallback);
    }
  }

  /** The run of any events from a fresh start: a bounded suffix of the frames accepted,
      exact accounting, and sizes that follow the last parseable SPS. */
  lemma QueueOverWholeRuns(events: seq<Event>, initial: Size, fallback: Size)
    ensures var h := Run(Fresh(initial), events, fallback);
            QueueOk(h) && SizesOk(h, initial, fallback)
  {
    RunKeepsQueueOk(Fresh(initial), events, fallback);
    RunKeepsSizesOk(Fresh(initial), events, initial, fallback);
  }

  /** With a panel that has an area, or a size kept from before, every size queued is
      positive, so its byte count is exact. */
  lemma SizesArePositive(h: History, initial: Size, fallback: Size, k: nat)
    requires SizesOk(h, initial, fallback) && k < |h.submitted|
    requires SizeIsKnown(initial, fallback) && (initial.width <= 0 || PositiveSize(initial))
    ensures PositiveSize(h.submitted[k].size)
    ensures FrameBytes(h.submitted[k].size) == h.submitted[k].size.width * h.submitted[k].size.height * 4
    ensures FrameBytes(h.submitted[k].size) > 0
  {
    FrameBytesExact(h.submitted[k].size);
  }
}
