/** The whole path of a frame: encoder output, fake sender, socket, receiver, decoder. */
module EndToEnd {
  import opened Common
  import opened AnnexB
  import opened AccessUnits
  import opened FakeSender
  import opened Demux
  import Bits
  import Decoder
  import DecoderPipeline
  import DecoderTheorems
  import Queue = DecoderQueue
  import Sps
  import SpsTheorems
  import Telemetry
  import VideoFrames
  import Wire

  /** The two times a unit is sent with. */
  datatype Stamp = Stamp(cap: nat, snd: nat)

  predicate InRange(t: Stamp) {
    t.cap <= Telemetry.INT64_MAX && t.snd <= Telemetry.INT64_MAX
  }

  /** `send_frame(connection, telemetry + unit)` for every unit emitted. */
  function SentPayloads(units: seq<seq<Nalu>>, stamps: seq<Stamp>): (r: seq<seq<byte>>)
    requires |units| == |stamps|
  {
    if units == [] then []
    else [Telemetry.Prefix(stamps[0].cap, stamps[0].snd) + Bytes(units[0])] + SentPayloads(units[1..], stamps[1..])
  }

  /** What must hold of a unit for its message to be legal. */
  predicate Sendable(unit: seq<Nalu>, stamp: Stamp) {
    && unit != [] && (forall i :: 0 <= i < |unit| ==> Clean(unit[i]))
    && InRange(stamp) && Wire.Carriable(Telemetry.Prefix(stamp.cap, stamp.snd) + Bytes(unit))
  }

  predicate AllSendable(units: seq<seq<Nalu>>, stamps: seq<Stamp>)
    requires |units| == |stamps|
  {
    forall k :: 0 <= k < |units| ==> Sendable(units[k], stamps[k])
  }

  /** The message the receiver's session gets for a unit: the unit's bytes and both times. */
  predicate Carries(m: Message, unit: seq<Nalu>, stamp: Stamp) {
    && m.Video? && m.frame.annexB == Bytes(unit) && Split(m.frame.annexB) == unit
    && m.frame.capturedAtMs == stamp.cap && m.frame.sentAtMs == stamp.snd
  }

  lemma {:induction false} DecimalIsNulFree(n: nat)
    ensures NulFree(Telemetry.Decimal(n))
  {
  }

  lemma PrefixIsNulFree(stamp: Stamp)
    ensures NulFree(Telemetry.Prefix(stamp.cap, stamp.snd))
  {
    DecimalIsNulFree(stamp.cap);
    DecimalIsNulFree(stamp.snd);
  }

  lemma OneArrives(unit: seq<Nalu>, stamp: Stamp)
    requires Sendable(unit, stamp)
    ensures Carries(Classify(Telemetry.Prefix(stamp.cap, stamp.snd) + Bytes(unit)), unit, stamp)
  {
    var prefix := Telemetry.Prefix(stamp.cap, stamp.snd);
    var bodies := BodiesOf(unit);
    BytesSplitBack(unit);
    PrefixIsNulFree(stamp);
    ClassifiesSent(SentVideo(prefix, bodies));
    Telemetry.FieldsReadBack(stamp.cap, stamp.snd);
  }

  /** The NAL units of the video messages, in order. */
  function NalusOf(ms: seq<Message>): seq<Nalu> {
    if ms == [] then []
    else if ms[0].Video? then Split(ms[0].frame.annexB) + NalusOf(ms[1..])
    else NalusOf(ms[1..])
  }

  lemma {:induction false} AllArrive(units: seq<seq<Nalu>>, stamps: seq<Stamp>)
    requires |units| == |stamps| && AllSendable(units, stamps)
    ensures var payloads := SentPayloads(units, stamps);
            var ms := ClassifyAll(payloads);
            && (forall k :: 0 <= k < |payloads| ==> Wire.Carriable(payloads[k]))
            && |ms| == |units| && NalusOf(ms) == Flatten(units)
            && forall k :: 0 <= k < |ms| ==> Carries(ms[k], units[k], stamps[k])
  {
    if units != [] {
      var payloads := SentPayloads(units, stamps);
      AllArrive(units[1..], stamps[1..]);
      assert Sendable(units[0], stamps[0]);
      OneArrives(units[0], stamps[0]);
      assert payloads[1..] == SentPayloads(units[1..], stamps[1..]);
      var ms := ClassifyAll(payloads);
      assert ms[1..] == ClassifyAll(payloads[1..]);
    }
  }

  /** However the encoder's output is chunked into the sender, and however the socket
      chunks what the sender sends, the session gets one video message per unit emitted,
      with that unit's bytes and times; and their NAL units, then those of the sender's
      tail, are the encoder's. */
  lemma EncoderOutputArrives(chunks: seq<seq<byte>>, stamps: seq<Stamp>, received: seq<seq<byte>>)
    requires |stamps| == |FeedAll(START, chunks).emitted|
    requires forall k :: 0 <= k < |stamps| ==>
      InRange(stamps[k])
      && Wire.Carriable(Telemetry.Prefix(stamps[k].cap, stamps[k].snd) + Bytes(FeedAll(START, chunks).emitted[k]))
    requires Flatten(received) == Wire.FrameAll(SentPayloads(FeedAll(START, chunks).emitted, stamps))
    ensures var st := FeedAll(START, chunks);
            var ms := ClassifyAll(Wire.Drain(Flatten(received)).payloads);
            && !Wire.Drain(Flatten(received)).failed
            && |ms| == |st.emitted|
            && (forall k :: 0 <= k < |ms| ==> Carries(ms[k], st.emitted[k], stamps[k]))
            && NalusOf(ms) + Split(st.pending) == Split(Flatten(chunks))
  {
    var units := FeedAll(START, chunks).emitted;
    NothingIsLost(chunks);
    forall k | 0 <= k < |units|
      ensures Sendable(units[k], stamps[k])
    {
      EmittedIsClean(chunks, k);
    }
    AllArrive(units, stamps);
    Wire.DrainInvertsFrameAll(SentPayloads(units, stamps));
  }

  // ---- From SPS records to delivered frames --------------------------------

  /** An SPS as an encoder prints and escapes it. */
  datatype Announced = Announced(header: byte, record: Sps.Record, tail: seq<Bits.bit>)

  /** An access unit on the wire: its times, its NAL bodies, and the record of its first
      SPS, if it has one. */
  datatype Picture = Picture(stamp: Stamp, bodies: seq<seq<byte>>, sps: Option<Announced>)

  function SentAs(p: Picture): Sent {
    SentVideo(Telemetry.Prefix(p.stamp.cap, p.stamp.snd), p.bodies)
  }

  predicate PictureOk(p: Picture) {
    && InRange(p.stamp) && Legal(SentAs(p))
    && (p.sps.Some? ==> Sps.WellFormed(p.sps.value.record))
    && VideoFrames.FirstOfType(p.bodies, 7)
       == if p.sps.None? then []
          else Sps.Nalu(p.sps.value.header, p.sps.value.record, p.sps.value.tail)
  }

  predicate PicturesOk(ps: seq<Picture>) {
    forall i :: 0 <= i < |ps| ==> PictureOk(ps[i])
  }

  function SentAsAll(ps: seq<Picture>): (r: seq<Sent>)
    ensures |r| == |ps| && forall i :: 0 <= i < |r| ==> r[i] == SentAs(ps[i])
  {
    seq(|ps|, i requires 0 <= i < |ps| => SentAs(ps[i]))
  }

  /** The size a picture's own SPS announces, by section 7.4.2.1.1. */
  function OwnSize(p: Picture): Option<Size>
    requires PictureOk(p)
  {
    if p.sps.None? then None
    else
      var size := Sps.PictureSize(p.sps.value.record);
      if size.width > 0 && size.height > 0 then Some(size) else None
  }

  function OwnSizes(ps: seq<Picture>): (r: seq<Option<Size>>)
    requires PicturesOk(ps)
    ensures |r| == |ps| && forall i :: 0 <= i < |ps| ==> PictureOk(ps[i]) && r[i] == OwnSize(ps[i])
  {
    seq(|ps|, i requires 0 <= i < |ps| && PictureOk(ps[i]) => OwnSize(ps[i]))
  }

  /** `frame` is what the receiver makes of `p`. */
  predicate FrameOf(frame: VideoFrames.VideoFrame, p: Picture) {
    Received(SentAs(p)) == Video(frame)
  }

  lemma FrameHasOwnSize(frame: VideoFrames.VideoFrame, p: Picture)
    requires PictureOk(p) && FrameOf(frame, p)
    ensures Decoder.SizeInFrame(frame) == OwnSize(p) && frame.capturedAtMs == p.stamp.cap
  {
    Telemetry.FieldsReadBack(p.stamp.cap, p.stamp.snd);
    if p.sps.Some? {
      var a := p.sps.value;
      SpsTheorems.ParsesEveryRecord(a.header, a.record, a.tail);
    }
  }

  /** The frames accepted are, in order, those of the first pictures. */
  predicate AcceptedFrom(accepted: seq<Decoder.Queued>, ps: seq<Picture>) {
    && |accepted| <= |ps|
    && forall k :: 0 <= k < |accepted| ==> FrameOf(accepted[k].frame, ps[k])
  }

  lemma StepKeepsSizes(
      s: DecoderPipeline.State, e: DecoderPipeline.Event, initial: Size, fallback: Size)
    requires Queue.SizesOk(s.h, initial, fallback) && DecoderPipeline.Enabled(s, e, fallback)
    ensures Queue.SizesOk(DecoderPipeline.Step(s, e, fallback).h, initial, fallback)
  {
    if e.Submit? {
      Queue.StepKeepsSizesOk(s.h, Queue.SubmitFrame(e.frame), initial, fallback);
    }
  }

  lemma {:induction false} RunKeepsSizes(
      s: DecoderPipeline.State, events: seq<DecoderPipeline.Event>, initial: Size, fallback: Size)
    requires Queue.SizesOk(s.h, initial, fallback) && DecoderPipeline.Legal(s, events, fallback)
    ensures Queue.SizesOk(DecoderPipeline.Run(s, events, fallback).h, initial, fallback)
    decreases |events|
  {
    if events != [] {
      StepKeepsSizes(s, events[0], initial, fallback);
      RunKeepsSizes(DecoderPipeline.Step(s, events[0], fallback), events[1..], initial, fallback);
    }
  }

  lemma DispatchedArePictures(ps: seq<Picture>, received: seq<seq<byte>>)
    requires PicturesOk(ps) && Flatten(received) == StreamOf(SentAsAll(ps))
    ensures ClassifyAll(Wire.Drain(Flatten(received)).payloads) == ReceivedAll(SentAsAll(ps))
  {
    assert AllLegal(SentAsAll(ps)) by {
      assert forall i :: 0 <= i < |ps| ==> PictureOk(ps[i]);
    }
    StreamIsParsed(SentAsAll(ps));
  }

  lemma {:induction false} ReceivedAt(ms: seq<Sent>, k: nat)
    requires k < |ms|
    ensures |ReceivedAll(ms)| == |ms| && ReceivedAll(ms)[k] == Received(ms[k])
    decreases |ms|
  {
    ReceivedLength(ms);
    if k > 0 {
      ReceivedAt(ms[1..], k - 1);
    }
  }

  lemma {:induction false} ReceivedLength(ms: seq<Sent>)
    ensures |ReceivedAll(ms)| == |ms|
  {
    if ms != [] {
      ReceivedLength(ms[1..]);
    }
  }

  function Times(ps: seq<Picture>): (r: seq<nat>)
    ensures |r| == |ps| && forall i :: 0 <= i < |r| ==> r[i] == ps[i].stamp.cap
  {
    seq(|ps|, i requires 0 <= i < |ps| => ps[i].stamp.cap)
  }

  /** A delivered frame has the capture time of the picture it was sent as, and the size of
      the last SPS record sent up to it, else the size known before, else the panel. */
  predicate ShownAs(d: DecoderPipeline.Delivery, times: seq<nat>, sizes: seq<Option<Size>>,
                    videoSize: Size, fallback: Size)
  {
    && d.index < |times| == |sizes| && d.frame.capturedAtMs == times[d.index]
    && var announced := LastSome(sizes[..d.index + 1]);
       Size(d.frame.width, d.frame.height)
       == if announced.Some? then announced.value
          else if videoSize.width > 0 then videoSize
          else fallback
  }

  lemma AcceptedSizesAreOwn(accepted: seq<Decoder.Queued>, ps: seq<Picture>)
    requires PicturesOk(ps) && AcceptedFrom(accepted, ps)
    ensures forall k :: 0 <= k < |accepted| ==>
      Decoder.SizeInFrame(accepted[k].frame) == OwnSizes(ps)[k]
      && accepted[k].frame.capturedAtMs == Times(ps)[k]
  {
    forall k | 0 <= k < |accepted|
      ensures Decoder.SizeInFrame(accepted[k].frame) == OwnSizes(ps)[k]
      ensures accepted[k].frame.capturedAtMs == Times(ps)[k]
    {
      FrameHasOwnSize(accepted[k].frame, ps[k]);
    }
  }

  /** The size queued with a frame, from the sizes found in the frames so far. */
  lemma QueuedSize(h: Queue.History, sizes: seq<Option<Size>>, i: nat, initial: Size, fallback: Size)
    requires Queue.SizesOk(h, initial, fallback) && i < |h.submitted| <= |sizes|
    requires forall k :: 0 <= k < |h.submitted| ==> Decoder.SizeInFrame(h.submitted[k].frame) == sizes[k]
    ensures var known := LastSome(sizes[..i + 1]);
            h.submitted[i].size
            == if known.Some? then known.value else if initial.width > 0 then initial else fallback
  {
    Queue.LastSizeIsLastSome(h.submitted[..i + 1], sizes[..i + 1]);
  }

  lemma DeliveryShownAs(h: Queue.History, d: DecoderPipeline.Delivery,
                        times: seq<nat>, sizes: seq<Option<Size>>, videoSize: Size, fallback: Size)
    requires Queue.SizesOk(h, videoSize, fallback) && d.index < |h.submitted| <= |times| == |sizes|
    requires Size(d.frame.width, d.frame.height) == h.submitted[d.index].size
    requires d.frame.capturedAtMs == h.submitted[d.index].frame.capturedAtMs == times[d.index]
    requires forall k :: 0 <= k < |h.submitted| ==> Decoder.SizeInFrame(h.submitted[k].frame) == sizes[k]
    ensures ShownAs(d, times, sizes, videoSize, fallback)
  {
    QueuedSize(h, sizes, d.index, videoSize, fallback);
  }

  /** Pictures whose SPS records an encoder printed and escaped go over the socket in any
      reads; the session submits what it dispatches, and the decoder runs in any interleaving.
      Every frame delivered, in strictly increasing order, is shown as it was sent. */
  lemma DeliveredFramesAreShownAsSent(
      ps: seq<Picture>, received: seq<seq<byte>>, videoSize: Size,
      events: seq<DecoderPipeline.Event>, fallback: Size)
    requires PicturesOk(ps) && Flatten(received) == StreamOf(SentAsAll(ps))
    requires DecoderTheorems.KeptSize(videoSize) && Decoder.SizeIsKnown(videoSize, fallback)
    requires DecoderPipeline.Legal(DecoderPipeline.Initial(videoSize), events, fallback)
    requires var dispatched := ClassifyAll(Wire.Drain(Flatten(received)).payloads);
             var submitted := DecoderPipeline.Run(DecoderPipeline.Initial(videoSize), events, fallback).h.submitted;
             |submitted| <= |dispatched|
             && forall k :: 0 <= k < |submitted| ==> dispatched[k] == Video(submitted[k].frame)
    ensures var s := DecoderPipeline.Run(DecoderPipeline.Initial(videoSize), events, fallback);
            && (forall j, k :: 0 <= j < k < |s.delivered| ==> s.delivered[j].index < s.delivered[k].index)
            && forall k :: 0 <= k < |s.delivered| ==>
                 ShownAs(s.delivered[k], Times(ps), OwnSizes(ps), videoSize, fallback)
  {
    var start := DecoderPipeline.Initial(videoSize);
    var s := DecoderPipeline.Run(start, events, fallback);
    DispatchedArePictures(ps, received);
    ReceivedLength(SentAsAll(ps));
    forall k | 0 <= k < |s.h.submitted|
      ensures FrameOf(s.h.submitted[k].frame, ps[k])
    {
      ReceivedAt(SentAsAll(ps), k);
    }
    DecoderTheorems.DeliveredFramesAreInOrder(videoSize, events, fallback);
    RunKeepsSizes(start, events, videoSize, fallback);
    AcceptedSizesAreOwn(s.h.submitted, ps);
    forall k | 0 <= k < |s.delivered|
      ensures ShownAs(s.delivered[k], Times(ps), OwnSizes(ps), videoSize, fallback)
    {
      DecoderTheorems.DeliveryHasQueuedSize(s, s.delivered[k]);
      DeliveryShownAs(s.h, s.delivered[k], Times(ps), OwnSizes(ps), videoSize, fallback);
    }
  }
}
