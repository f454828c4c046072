/** From socket bytes to typed messages: the read loop of
    ReceiverSession::onReadyRead (src/receiver_session.cpp). */
module Demux {
  import opened Common
  import opened Wire
  import opened VideoFrames
  import AnnexB
  import Telemetry

  /** A control object is handed on as text; a payload that is neither control nor
      video is skipped. */
  datatype Message = Control(text: seq<byte>) | Video(frame: VideoFrame) | Skipped

  function Classify(payload: seq<byte>): Message {
    if IsControlFrame(payload) then Control(payload)
    else
      match Parse(payload)
      case None => Skipped
      case Some(frame) => Video(frame)
  }

  function ClassifyAll(payloads: seq<seq<byte>>): (r: seq<Message>)
    ensures |r| == |payloads|
  {
    if payloads == [] then [] else [Classify(payloads[0])] + ClassifyAll(payloads[1..])
  }

  lemma {:induction false} ClassifyAppend(a: seq<seq<byte>>, b: seq<seq<byte>>)
    ensures ClassifyAll(a + b) == ClassifyAll(a) + ClassifyAll(b)
  {
    if a == [] {
      assert a + b == b;
    } else {
      assert (a + b)[1..] == a[1..] + b;
      ClassifyAppend(a[1..], b);
    }
  }

  // ---- The read loop -------------------------------------------------------

  method Dispatch(payload: seq<byte>) returns (message: Message)
    ensures message == Classify(payload)
  {
    if IsControlFrame(payload) {
      return Control(payload);
    }
    var frame := ParseFrame(payload);
    message := if frame.Some? then Video(frame.value) else Skipped;
  }

  /** One readyRead: append what arrived, then dispatch every complete payload. */
  method OnReadyRead(deframer: Deframer, data: seq<byte>) returns (messages: seq<Message>, failed: bool)
    modifies deframer
    ensures var d := Drain(old(deframer.buffer) + data);
            messages == ClassifyAll(d.payloads) && failed == d.failed && deframer.buffer == d.rest
  {
    deframer.Append(data);
    ghost var whole := Drain(deframer.buffer);
    ghost var payloads: seq<seq<byte>> := [];
    messages := [];
    assert whole == After(payloads, Drain(deframer.buffer));
    while true
      invariant whole == After(payloads, Drain(deframer.buffer))
      invariant messages == ClassifyAll(payloads)
      decreases |deframer.buffer|
    {
      ghost var before := deframer.buffer;
      var payload;
      payload, failed := deframer.Next();
      if payload.None? {
        assert payloads + [] == payloads;
        return;
      }
      AfterAfter(payloads, payload.value, Drain(deframer.buffer));
      ClassifyAppend(payloads, [payload.value]);
      var message := Dispatch(payload.value);
      messages := messages + [message];
      payloads := payloads + [payload.value];
    }
  }

  /** A connection's reads, one chunk after the other, until a protocol error drops it. If
      they carry the whole stream of some legal messages, exactly those are dispatched. */
  method Receive(chunks: seq<seq<byte>>) returns (messages: seq<Message>, failed: bool)
    ensures messages == ClassifyAll(Drain(Flatten(chunks)).payloads)
    ensures failed == Drain(Flatten(chunks)).failed
    ensures forall ms :: AllLegal(ms) && Flatten(chunks) == StreamOf(ms) ==> messages == ReceivedAll(ms) && !failed
  {
    var deframer := new Deframer();
    messages, failed := [], false;
    var i := 0;
    ghost var seen := Drain([]);
    assert chunks[0..] == chunks;
    assert [] + Flatten(chunks) == Flatten(chunks);
    while i < |chunks| && !failed
      invariant 0 <= i <= |chunks| && Upto(seen, chunks, i)
      invariant messages == ClassifyAll(seen.payloads) && failed == seen.failed
      invariant deframer.buffer == seen.rest
    {
      UptoStep(seen, chunks, i);
      ClassifyAppend(seen.payloads, Drain(seen.rest + chunks[i]).payloads);
      var got;
      got, failed := OnReadyRead(deframer, chunks[i]);
      messages := messages + got;
      seen := Resume(seen, chunks[i]);
      i := i + 1;
    }
    UptoEnd(seen, chunks, i);
    forall ms | AllLegal(ms) && Flatten(chunks) == StreamOf(ms)
      ensures messages == ReceivedAll(ms) && !failed
    {
      StreamIsParsed(ms);
    }
  }

  /** `seen` is the parse of the first `i` chunks. */
  ghost predicate Upto(seen: Drained, chunks: seq<seq<byte>>, i: nat)
    requires i <= |chunks|
  {
    && Drain(Flatten(chunks)) == Resume(seen, Flatten(chunks[i..]))
    && (!seen.failed ==> Drain(seen.rest) == Drained([], seen.rest, false))
  }

  lemma UptoStep(seen: Drained, chunks: seq<seq<byte>>, i: nat)
    requires i < |chunks| && Upto(seen, chunks, i) && !seen.failed
    ensures Upto(Resume(seen, chunks[i]), chunks, i + 1)
  {
    assert Flatten(chunks[i..]) == chunks[i] + Flatten(chunks[i + 1..]) by {
      assert chunks[i..][1..] == chunks[i + 1..];
    }
    ResumeTwice(seen, chunks[i], Flatten(chunks[i + 1..]));
    if !Drain(seen.rest + chunks[i]).failed {
      LeftoverIsDry(seen.rest + chunks[i]);
    }
  }

  lemma UptoEnd(seen: Drained, chunks: seq<seq<byte>>, i: nat)
    requires i <= |chunks| && Upto(seen, chunks, i) && (seen.failed || i == |chunks|)
    ensures Drain(Flatten(chunks)).payloads == seen.payloads
    ensures Drain(Flatten(chunks)).failed == seen.failed
  {
    if !seen.failed {
      assert Flatten(chunks[i..]) == [] && seen.rest + [] == seen.rest;
    }
  }

  lemma ResumeTwice(d: Drained, a: seq<byte>, b: seq<byte>)
    ensures Resume(d, a + b) == Resume(Resume(d, a), b)
  {
    if d.failed {
      assert d.rest + (a + b) == d.rest + a + b;
    } else {
      assert d.rest + (a + b) == d.rest + a + b;
      DrainAppend(d.rest + a, b);
      ResumeAfter(d.payloads, Drain(d.rest + a), b);
    }
  }

  /** What is left over holds no further payload. */
  lemma {:induction false} LeftoverIsDry(s: seq<byte>)
    requires !Drain(s).failed
    ensures Drain(Drain(s).rest) == Drained([], Drain(s).rest, false)
    decreases |s|
  {
    match NextOf(s)
    case NeedMore =>
    case Malformed =>
    case Payload(p, rest) =>
      LeftoverIsDry(rest);
  }

  // ---- What a sender may send ----------------------------------------------

  datatype Sent = SentControl(text: seq<byte>) | SentVideo(prefix: seq<byte>, bodies: seq<seq<byte>>)

  function PayloadOf(m: Sent): seq<byte> {
    match m
    case SentControl(text) => text
    case SentVideo(prefix, bodies) => prefix + AnnexB.Join(bodies)
  }

  /** Control: NUL-free, below 32768 bytes, starting with `{`. Video: NUL-free telemetry,
      then NAL units behind 4-byte start codes, below 64 MiB in all. */
  predicate Legal(m: Sent) {
    match m
    case SentControl(text) =>
      1 <= |text| <= 32767 && text[0] == 123 && NulFree(text)
    case SentVideo(prefix, bodies) =>
      NulFree(prefix) && bodies != [] && AnnexB.Joinable(bodies) && Carriable(PayloadOf(m))
  }

  predicate AllLegal(ms: seq<Sent>) {
    forall i :: 0 <= i < |ms| ==> Legal(ms[i])
  }

  /** What the receiver should see. */
  function Received(m: Sent): Message {
    match m
    case SentControl(text) => Control(text)
    case SentVideo(prefix, bodies) =>
      Video(VideoFrame(AnnexB.Join(bodies),
                       if prefix == [] then 0 else Telemetry.Field(prefix, Telemetry.CAP_KEY),
                       if prefix == [] then 0 else Telemetry.Field(prefix, Telemetry.SND_KEY),
                       FirstOfType(bodies, 7), FirstOfType(bodies, 8), AnyOfType(bodies, 5)))
  }

  /** Every payload falls into one class: control if it is short, starts with a brace and
      has no NUL; else video if it has a start code anywhere; else it is skipped. */
  lemma EveryPayloadHasItsClass(payload: seq<byte>)
    ensures Classify(payload).Control?
       <==> 1 <= |payload| < 32768 && payload[0] == 123 && forall i :: 0 <= i < |payload| ==> payload[i] != 0
    ensures Classify(payload).Skipped?
       <==> !Classify(payload).Control?
            && forall i :: 0 <= i <= |payload| - 4 ==>
                 !(payload[i] == 0 && payload[i + 1] == 0 && payload[i + 2] == 0 && payload[i + 3] == 1)
  {
    forall i | 0 <= i <= |payload| - 4
      ensures AnnexB.IsCode(payload, i)
          <==> payload[i] == 0 && payload[i + 1] == 0 && payload[i + 2] == 0 && payload[i + 3] == 1
    {
    }
  }

  lemma ClassifiesSent(m: Sent)
    requires Legal(m)
    ensures Carriable(PayloadOf(m)) && Classify(PayloadOf(m)) == Received(m)
  {
    match m
    case SentControl(text) =>
    case SentVideo(prefix, bodies) =>
      var p := PayloadOf(m);
      assert p[|prefix|] == 0;
      ParseInvertsJoin(prefix, bodies);
  }

  function PayloadsOf(ms: seq<Sent>): seq<seq<byte>> {
    if ms == [] then [] else [PayloadOf(ms[0])] + PayloadsOf(ms[1..])
  }

  function ReceivedAll(ms: seq<Sent>): seq<Message> {
    if ms == [] then [] else [Received(ms[0])] + ReceivedAll(ms[1..])
  }

  lemma {:induction false} ClassifiesAllSent(ms: seq<Sent>)
    requires AllLegal(ms)
    ensures ClassifyAll(PayloadsOf(ms)) == ReceivedAll(ms)
    ensures forall i :: 0 <= i < |PayloadsOf(ms)| ==> Carriable(PayloadsOf(ms)[i])
  {
    if ms != [] {
      ClassifiesSent(ms[0]);
      ClassifiesAllSent(ms[1..]);
      assert PayloadsOf(ms)[1..] == PayloadsOf(ms[1..]);
    }
  }

  /** The bytes a sender puts on the socket. */
  function StreamOf(ms: seq<Sent>): seq<byte> {
    FrameAll(PayloadsOf(ms))
  }

  /** While a stream of legal messages arrives, in any chunks and with next() called at
      any moments, what has been handed out is always a prefix of the messages sent, no
      length is ever refused, and once everything has arrived the rest is buffered. */
  lemma StreamIsDeliveredInOrder(ms: seq<Sent>, events: seq<Event>, missing: seq<byte>)
    requires AllLegal(ms)
    requires Appended(events) + missing == StreamOf(ms)
    ensures var st := Run(State([], []), events);
            && ClassifyAll(st.out) <= ReceivedAll(ms)
            && !Drain(st.buffer).failed
            && (missing == [] ==>
                  ClassifyAll(st.out + Drain(st.buffer).payloads) == ReceivedAll(ms)
                  && Drain(st.buffer).rest == [])
  {
    var st := Run(State([], []), events);
    var whole := Drain(Appended(events));
    AnyInterleaving(events);
    PrefixOfStream(ms, Appended(events), missing);
    ClassifyAppend(st.out, Drain(st.buffer).payloads);
  }

  lemma PrefixOfStream(ms: seq<Sent>, arrived: seq<byte>, missing: seq<byte>)
    requires AllLegal(ms)
    requires arrived + missing == StreamOf(ms)
    ensures !Drain(arrived).failed && ClassifyAll(Drain(arrived).payloads) <= ReceivedAll(ms)
    ensures missing == [] ==>
      ClassifyAll(Drain(arrived).payloads) == ReceivedAll(ms) && Drain(arrived).rest == []
  {
    ClassifiesAllSent(ms);
    DrainInvertsFrameAll(PayloadsOf(ms));
    DrainAppend(arrived, missing);
    var d := Drain(arrived);
    ClassifyAppend(d.payloads, Drain(d.rest + missing).payloads);
    if missing == [] {
      assert arrived + missing == arrived;
    }
  }

  lemma StreamIsParsed(ms: seq<Sent>)
    requires AllLegal(ms)
    ensures ClassifyAll(Drain(StreamOf(ms)).payloads) == ReceivedAll(ms)
    ensures !Drain(StreamOf(ms)).failed
  {
    ClassifiesAllSent(ms);
    DrainInvertsFrameAll(PayloadsOf(ms));
  }
}
