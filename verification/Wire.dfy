/** Length-prefixed framing: src/wire.cpp and the Deframer of
    include/opendisplay/wire.hpp. */
module Wire {
  import opened Common

  const MAX_INBOUND_FRAME := 0x400_0000
  const CONTROL_SIZE_LIMIT := 32768

  /** The four bytes of a uint32, most significant first. */
  function BigEndian(size: nat): (h: seq<byte>)
    requires size < INT32_MODULUS
    ensures |h| == 4
  {
    [size / 0x100_0000, size / 0x1_0000 % 256, size / 0x100 % 256, size % 256]
  }

  /** `frame`: the size is cast to uint32 before it is written. */
  function Frame(payload: seq<byte>): seq<byte> {
    BigEndian(|payload| % INT32_MODULUS) + payload
  }

  method FrameBytes(payload: seq<byte>) returns (output: seq<byte>)
    ensures output == Frame(payload)
  {
    var size := |payload| % INT32_MODULUS;
    var header := new byte[4](_ => 0);
    header[0] := size / 0x100_0000 % 256;
    header[1] := size / 0x1_0000 % 256;
    header[2] := size / 0x100 % 256;
    header[3] := size % 256;
    assert header[..] == BigEndian(size);
    output := header[..] + payload;
  }

  /** `decodeLength`: None for a size of 0 or past the inbound guard. */
  function DecodeLength(header: seq<byte>): Option<nat>
    requires |header| == 4
  {
    var h: seq<int> := header;
    var size := h[0] * 0x100_0000 + h[1] * 0x1_0000 + h[2] * 0x100 + h[3];
    if size == 0 || size >= MAX_INBOUND_FRAME then None else Some(size)
  }

  /** The first byte weighs most. */
  lemma BigEndianIsPositional(size: nat)
    requires size < 4294967296
    ensures var h: seq<int> := BigEndian(size);
            h[0] * 16777216 + h[1] * 65536 + h[2] * 256 + h[3] == size
  {
    var a, b, c := size / 0x100_0000, size / 0x1_0000, size / 0x100;
    assert b / 256 == a && c / 256 == b && size / 256 == c;
  }

  /** A framed size is read back, modulo 2^32, when it is inside the guard. */
  lemma DecodeInvertsBigEndian(size: nat)
    requires size < INT32_MODULUS
    ensures DecodeLength(BigEndian(size)) == if 0 < size < 67108864 then Some(size) else None
  {
    var a, b, c := size / 0x100_0000, size / 0x1_0000, size / 0x100;
    assert b / 256 == a && c / 256 == b && size / 256 == c;
  }

  predicate IsControlFrame(payload: seq<byte>) {
    |payload| < CONTROL_SIZE_LIMIT && payload != [] && payload[0] == 123 && NulFree(payload)
  }

  // ---- One `next` call -----------------------------------------------------

  datatype NextResult = NeedMore | Malformed | Payload(payload: seq<byte>, rest: seq<byte>)

  function NextOf(buffer: seq<byte>): (r: NextResult)
    ensures r.Payload? ==> |buffer| >= 4 && r.payload != [] && buffer == buffer[..4] + r.payload + r.rest
  {
    if |buffer| < 4 then NeedMore
    else
      match DecodeLength(buffer[..4])
      case None => Malformed
      case Some(size) =>
        if |buffer| < 4 + size then NeedMore
        else Payload(buffer[4..4 + size], buffer[4 + size..])
  }

  class Deframer {
    var buffer: seq<byte>

    constructor ()
      ensures buffer == []
    {
      buffer := [];
    }

    method Append(bytes: seq<byte>)
      modifies this
      ensures buffer == old(buffer) + bytes
    {
      buffer := buffer + bytes;
    }

    method Next() returns (payload: Option<seq<byte>>, failed: bool)
      modifies this
      ensures match NextOf(old(buffer))
              case NeedMore => payload == None && !failed && buffer == old(buffer)
              case Malformed => payload == None && failed && buffer == old(buffer)
              case Payload(p, rest) => payload == Some(p) && !failed && buffer == rest
    {
      failed := false;
      payload := None;
      if |buffer| < 4 {
        return;
      }
      var size := DecodeLength(buffer[..4]);
      if size.None? {
        failed := true;
        return;
      }
      if |buffer| < 4 + size.value {
        return;
      }
      payload := Some(buffer[4..4 + size.value]);
      buffer := buffer[4 + size.value..];
    }

    method Reset()
      modifies this
      ensures buffer == []
    {
      buffer := [];
    }
  }

  // ---- The whole-stream parse ----------------------------------------------

  /** Every complete payload of a stream, the bytes left over, and whether a malformed
      length stopped the parse. */
  datatype Drained = Drained(payloads: seq<seq<byte>>, rest: seq<byte>, failed: bool)

  /** `d` with the payloads of `before` in front. */
  function After(before: seq<seq<byte>>, d: Drained): Drained {
    Drained(before + d.payloads, d.rest, d.failed)
  }

  function Drain(s: seq<byte>): Drained
    decreases |s|
  {
    match NextOf(s)
    case NeedMore => Drained([], s, false)
    case Malformed => Drained([], s, true)
    case Payload(p, rest) =>
      assert |rest| < |s|;
      After([p], Drain(rest))
  }

  /** A parse taken up again once `more` has arrived. */
  function Resume(d: Drained, more: seq<byte>): Drained {
    if d.failed then d.(rest := d.rest + more) else After(d.payloads, Drain(d.rest + more))
  }

  lemma ResumeAfter(before: seq<seq<byte>>, d: Drained, more: seq<byte>)
    ensures Resume(After(before, d), more) == After(before, Resume(d, more))
  {
    if !d.failed {
      var tail := Drain(d.rest + more);
      assert before + d.payloads + tail.payloads == before + (d.payloads + tail.payloads);
    }
  }

  lemma NextExtends(s: seq<byte>, more: seq<byte>)
    requires !NextOf(s).NeedMore?
    ensures NextOf(s + more)
         == match NextOf(s)
            case Payload(p, rest) => Payload(p, rest + more)
            case r => r
  {
    assert (s + more)[..4] == s[..4];
    match NextOf(s)
    case Payload(p, rest) =>
      var size := |p|;
      assert (s + more)[4..4 + size] == s[4..4 + size];
      assert (s + more)[4 + size..] == s[4 + size..] + more;
    case r =>
  }

  /** The parse of a stream is its prefix's payloads, then the parse of what the prefix
      left over together with the rest. */
  lemma {:induction false} DrainAppend(s: seq<byte>, more: seq<byte>)
    ensures Drain(s + more) == Resume(Drain(s), more)
    decreases |s|
  {
    match NextOf(s)
    case NeedMore =>
      assert After([], Drain(s + more)) == Drain(s + more);
    case Malformed =>
      NextExtends(s, more);
    case Payload(p, rest) =>
      NextExtends(s, more);
      DrainAppend(rest, more);
      ResumeAfter([p], Drain(rest), more);
  }

  // ---- Any interleaving of append and next ---------------------------------

  datatype Event = Append(bytes: seq<byte>) | Next

  /** The buffer, and the payloads handed out so far. */
  datatype State = State(buffer: seq<byte>, out: seq<seq<byte>>)

  function Step(st: State, e: Event): State {
    match e
    case Append(bytes) => st.(buffer := st.buffer + bytes)
    case Next =>
      match NextOf(st.buffer)
      case Payload(p, rest) => State(rest, st.out + [p])
      case _ => st
  }

  function Run(st: State, events: seq<Event>): State
    decreases |events|
  {
    if events == [] then st else Run(Step(st, events[0]), events[1..])
  }

  function Appended(events: seq<Event>): seq<byte> {
    if events == [] then []
    else if events[0].Append? then events[0].bytes + Appended(events[1..])
    else Appended(events[1..])
  }

  /** The buffer continues the parse of `total` where the payloads handed out end. */
  ghost predicate Agrees(st: State, total: seq<byte>) {
    Drain(total) == After(st.out, Drain(st.buffer))
  }

  lemma AfterAfter(before: seq<seq<byte>>, p: seq<byte>, d: Drained)
    ensures After(before, After([p], d)) == After(before + [p], d)
  {
    assert before + ([p] + d.payloads) == before + [p] + d.payloads;
  }

  lemma StepAgrees(st: State, e: Event, total: seq<byte>)
    requires Agrees(st, total)
    ensures Agrees(Step(st, e), if e.Append? then total + e.bytes else total)
  {
    match e
    case Append(bytes) =>
      DrainAppend(total, bytes);
      DrainAppend(st.buffer, bytes);
      ResumeAfter(st.out, Drain(st.buffer), bytes);
    case Next =>
      match NextOf(st.buffer)
      case Payload(p, rest) =>
        AfterAfter(st.out, p, Drain(rest));
      case _ =>
  }

  lemma {:induction false} RunAgrees(st: State, events: seq<Event>, total: seq<byte>)
    requires Agrees(st, total)
    ensures Agrees(Run(st, events), total + Appended(events))
    decreases |events|
  {
    if events == [] {
      assert total + [] == total;
    } else {
      var e := events[0];
      StepAgrees(st, e, total);
      var next := if e.Append? then total + e.bytes else total;
      RunAgrees(Step(st, e), events[1..], next);
      if e.Append? {
        Associate(total, e.bytes, Appended(events[1..]));
      }
    }
  }

  /** However a stream is cut into appends and whenever next is called, the payloads
      handed out followed by those still buffered are the parse of the whole stream. */
  lemma AnyInterleaving(events: seq<Event>)
    ensures var st := Run(State([], []), events);
            Drain(Appended(events)) == After(st.out, Drain(st.buffer))
  {
    assert After([], Drain([])) == Drain([]);
    RunAgrees(State([], []), events, []);
    assert [] + Appended(events) == Appended(events);
  }

  // ---- Framing -------------------------------------------------------------

  /** A payload the protocol can carry: 1 to 64 MiB - 1 bytes. */
  predicate Carriable(payload: seq<byte>) {
    1 <= |payload| <= 67108863
  }

  function FrameAll(payloads: seq<seq<byte>>): seq<byte> {
    if payloads == [] then [] else Frame(payloads[0]) + FrameAll(payloads[1..])
  }

  lemma NextInvertsFrame(payload: seq<byte>, rest: seq<byte>)
    requires Carriable(payload)
    ensures NextOf(Frame(payload) + rest) == Payload(payload, rest)
  {
    DecodeInvertsBigEndian(|payload|);
    var s := Frame(payload) + rest;
    assert s[..4] == BigEndian(|payload|);
    assert s[4..4 + |payload|] == payload && s[4 + |payload|..] == rest;
  }

  /** A length of 0, or of 64 MiB and more, ends the stream whatever follows it; fewer bytes
      than a header or than the length announces only wait. */
  lemma BadLengthIsRefused(size: nat, rest: seq<byte>)
    requires size == 0 || 67108864 <= size < 4294967296
    ensures Drain(BigEndian(size) + rest) == Drained([], BigEndian(size) + rest, true)
  {
    DecodeInvertsBigEndian(size);
    assert (BigEndian(size) + rest)[..4] == BigEndian(size);
  }

  lemma PartialFrameWaits(payload: seq<byte>, n: nat)
    requires Carriable(payload) && n < |payload| + 4
    ensures Drain(Frame(payload)[..n]) == Drained([], Frame(payload)[..n], false)
  {
    DecodeInvertsBigEndian(|payload|);
    var part := Frame(payload)[..n];
    assert Frame(payload)[..4] == BigEndian(|payload|);
    if n >= 4 {
      assert part[..4] == Frame(payload)[..4];
      assert |part| < 4 + |payload|;
    }
  }

  lemma DrainCons(payload: seq<byte>, rest: seq<byte>)
    requires Carriable(payload)
    ensures Drain(Frame(payload) + rest) == After([payload], Drain(rest))
  {
    NextInvertsFrame(payload, rest);
  }

  lemma {:induction false} DrainInvertsFrameAll(payloads: seq<seq<byte>>)
    requires forall i :: 0 <= i < |payloads| ==> Carriable(payloads[i])
    ensures Drain(FrameAll(payloads)) == Drained(payloads, [], false)
  {
    if payloads == [] {
      assert NextOf([]).NeedMore?;
    } else {
      DrainInvertsFrameAll(payloads[1..]);
      DrainCons(payloads[0], FrameAll(payloads[1..]));
      assert payloads == [payloads[0]] + payloads[1..];
    }
  }
}
