/** `annexb::parse`: one wire video message becomes a classified access unit. */
module VideoFrames {
  import opened Common
  import opened AnnexB
  import Rbsp
  import Telemetry

  datatype VideoFrame = VideoFrame(
    annexB: seq<byte>, capturedAtMs: int, sentAtMs: int,
    sps: seq<byte>, pps: seq<byte>, keyframe: bool)

  const SLICE_IDR := 5
  const SPS := 7
  const PPS := 8

  /** Body of the first NAL unit of type `t`, or empty when there is none. */
  function FirstBody(nalus: seq<Nalu>, t: nat): seq<byte> {
    if nalus == [] then []
    else if nalus[0].nalType == t && |nalus[0].data| >= 4 then nalus[0].data[4..]
    else FirstBody(nalus[1..], t)
  }

  predicate HasType(nalus: seq<Nalu>, t: nat) {
    exists i :: 0 <= i < |nalus| && nalus[i].nalType == t
  }

  function Timestamp(payload: seq<byte>, first: nat, key: seq<byte>): int
    requires first <= |payload|
  {
    if first > 0 then Telemetry.Field(payload[..first], key) else 0
  }

  function Parse(payload: seq<byte>): Option<VideoFrame> {
    match FirstCode(payload, 0)
    case None => None
    case Some(first) =>
      var annexB := payload[first..];
      var nalus := Split(annexB);
      Some(VideoFrame(annexB,
                      Timestamp(payload, first, Telemetry.CAP_KEY),
                      Timestamp(payload, first, Telemetry.SND_KEY),
                      FirstBody(nalus, SPS), FirstBody(nalus, PPS), HasType(nalus, SLICE_IDR)))
  }

  /** What every element of a split looks like. */
  predicate WellFormedNalu(n: Nalu) {
    |n.data| > 4 && IsCode(n.data, 0) && n.nalType == n.data[4] % 32
  }

  lemma {:induction false} SplitUnitsWellFormed(s: seq<byte>)
    requires IsCode(s, 0)
    ensures forall i :: 0 <= i < |SplitUnits(s)| ==> WellFormedNalu(SplitUnits(s)[i])
    decreases |s|
  {
    match FirstCode(s, 4)
    case None =>
    case Some(next) =>
      SplitUnitsWellFormed(s[next..]);
  }

  lemma SplitWellFormed(s: seq<byte>)
    ensures forall i :: 0 <= i < |Split(s)| ==> WellFormedNalu(Split(s)[i])
  {
    match FirstCode(s, 0)
    case None =>
    case Some(first) =>
      SplitUnitsWellFormed(s[first..]);
  }

  lemma {:induction false} FirstBodySnoc(nalus: seq<Nalu>, n: Nalu, t: nat)
    requires WellFormedNalu(n) && forall i :: 0 <= i < |nalus| ==> WellFormedNalu(nalus[i])
    ensures FirstBody(nalus + [n], t)
         == if FirstBody(nalus, t) != [] then FirstBody(nalus, t)
            else if n.nalType == t then n.data[4..] else []
  {
    if nalus == [] {
      assert FirstBody([n][1..], t) == [];
    } else {
      assert (nalus + [n])[1..] == nalus[1..] + [n];
      FirstBodySnoc(nalus[1..], n, t);
    }
  }

  method ParseFrame(payload: seq<byte>) returns (r: Option<VideoFrame>)
    ensures r == Parse(payload)
  {
    var first := FindStartCode(payload, 0);
    if first.None? {
      return None;
    }
    var cap, snd := 0, 0;
    if first.value > 0 {
      var prefix := payload[..first.value];
      cap := Telemetry.ReadField(prefix, Telemetry.CAP_KEY);
      snd := Telemetry.ReadField(prefix, Telemetry.SND_KEY);
    }
    var annexB := payload[first.value..];
    var nalus := SplitNalus(annexB);
    SplitWellFormed(annexB);
    var sps, pps, keyframe := Classify(nalus);
    r := Some(VideoFrame(annexB, cap, snd, sps, pps, keyframe));
  }

  /** The classification loop of `parse`. */
  method Classify(nalus: seq<Nalu>) returns (sps: seq<byte>, pps: seq<byte>, keyframe: bool)
    requires forall i :: 0 <= i < |nalus| ==> WellFormedNalu(nalus[i])
    ensures sps == FirstBody(nalus, SPS) && pps == FirstBody(nalus, PPS)
    ensures keyframe == HasType(nalus, SLICE_IDR)
  {
    sps, pps, keyframe := [], [], false;
    var i := 0;
    while i < |nalus|
      invariant 0 <= i <= |nalus|
      invariant sps == FirstBody(nalus[..i], SPS) && pps == FirstBody(nalus[..i], PPS)
      invariant keyframe == HasType(nalus[..i], SLICE_IDR)
    {
      var nalu := nalus[i];
      FirstBodySnoc(nalus[..i], nalu, SPS);
      FirstBodySnoc(nalus[..i], nalu, PPS);
      assert nalus[..i + 1] == nalus[..i] + [nalu];
      var body := nalu.data[StartCodeLength(nalu.data, 0)..];
      if nalu.nalType == SPS && sps == [] {
        sps := body;
      } else if nalu.nalType == PPS && pps == [] {
        pps := body;
      } else if nalu.nalType == SLICE_IDR {
        keyframe := true;
      }
      i := i + 1;
    }
    assert nalus[..i] == nalus;
  }

  // ---- Parsing inverts composing -------------------------------------------

  /** First body whose header byte has type `t`, or empty. */
  function FirstOfType(bodies: seq<seq<byte>>, t: nat): seq<byte> {
    if bodies == [] then []
    else if bodies[0] != [] && bodies[0][0] % 32 == t then bodies[0]
    else FirstOfType(bodies[1..], t)
  }

  predicate AnyOfType(bodies: seq<seq<byte>>, t: nat) {
    exists i :: 0 <= i < |bodies| && bodies[i] != [] && bodies[i][0] % 32 == t
  }

  lemma {:induction false} UnitsClassify(bodies: seq<seq<byte>>, t: nat)
    requires Joinable(bodies)
    ensures FirstBody(UnitsOf(bodies), t) == FirstOfType(bodies, t)
    ensures HasType(UnitsOf(bodies), t) == AnyOfType(bodies, t)
  {
    if bodies != [] {
      UnitsClassify(bodies[1..], t);
      var head, tail := UnitOf(bodies[0]), UnitsOf(bodies[1..]);
      assert UnitsOf(bodies) == [head] + tail;
      assert head.data[4..] == bodies[0];
      FirstBodyCons(head, tail, t);
      HasTypeCons(head, tail, t);
      AnyOfTypeCons(bodies[0], bodies[1..], t);
      assert [bodies[0]] + bodies[1..] == bodies;
    }
  }

  lemma FirstBodyCons(head: Nalu, tail: seq<Nalu>, t: nat)
    ensures FirstBody([head] + tail, t)
         == if head.nalType == t && |head.data| >= 4 then head.data[4..] else FirstBody(tail, t)
  {
    assert ([head] + tail)[1..] == tail;
  }

  lemma HasTypeCons(head: Nalu, tail: seq<Nalu>, t: nat)
    ensures HasType([head] + tail, t) == (head.nalType == t || HasType(tail, t))
  {
    var all := [head] + tail;
    if head.nalType == t {
      assert all[0].nalType == t;
    } else if HasType(tail, t) {
      var i :| 0 <= i < |tail| && tail[i].nalType == t;
      assert all[i + 1].nalType == t;
    }
  }

  lemma AnyOfTypeCons(head: seq<byte>, tail: seq<seq<byte>>, t: nat)
    requires head != []
    ensures AnyOfType([head] + tail, t) == (head[0] % 32 == t || AnyOfType(tail, t))
  {
    var all := [head] + tail;
    if head[0] % 32 == t {
      assert all[0] != [];
    } else if AnyOfType(tail, t) {
      var i :| 0 <= i < |tail| && tail[i] != [] && tail[i][0] % 32 == t;
      assert all[i + 1] != [];
    }
  }

  lemma FirstAfterPrefix(prefix: seq<byte>, unit: seq<byte>)
    requires NulFree(prefix) && IsCode(unit, 0)
    ensures FirstCode(prefix + unit, 0) == Some(|prefix|)
  {
    FirstBeforeSeam(prefix, unit, 0);
    assert forall i :: 0 <= i < |prefix| ==> !IsCode(prefix, i);
  }

  /** Whatever NUL-free text precedes the access unit, the access unit comes out whole
      and its NAL units are exactly the ones joined. */
  lemma ParseInvertsJoin(prefix: seq<byte>, bodies: seq<seq<byte>>)
    requires NulFree(prefix) && bodies != [] && Joinable(bodies)
    ensures Parse(prefix + Join(bodies))
         == Some(VideoFrame(Join(bodies),
                 if prefix == [] then 0 else Telemetry.Field(prefix, Telemetry.CAP_KEY),
                 if prefix == [] then 0 else Telemetry.Field(prefix, Telemetry.SND_KEY),
                 FirstOfType(bodies, 7), FirstOfType(bodies, 8), AnyOfType(bodies, 5)))
  {
    var unit := Join(bodies);
    assert IsCode(unit, 0);
    FirstAfterPrefix(prefix, unit);
    assert (prefix + unit)[|prefix|..] == unit && (prefix + unit)[..|prefix|] == prefix;
    SplitInvertsJoin(bodies);
    UnitsClassify(bodies, SPS);
    UnitsClassify(bodies, PPS);
    UnitsClassify(bodies, SLICE_IDR);
  }

  /** NAL units as an encoder builds them: a header byte and an escaped payload. */
  datatype RawNal = RawNal(header: byte, payload: seq<byte>)

  function Encoded(n: RawNal): seq<byte> {
    [n.header] + Rbsp.Escape(n.payload, 0)
  }

  function EncodedAll(nals: seq<RawNal>): (r: seq<seq<byte>>)
    ensures |r| == |nals| && forall i :: 0 <= i < |nals| ==> r[i] == Encoded(nals[i])
  {
    seq(|nals|, i requires 0 <= i < |nals| => Encoded(nals[i]))
  }

  /** The escaped NAL units of any encoder, joined with 4-byte start codes, are split
      back exactly, and stripping each returns its payload. */
  lemma SplitRecoversEncoded(nals: seq<RawNal>)
    ensures Joinable(EncodedAll(nals))
    ensures Split(Join(EncodedAll(nals))) == UnitsOf(EncodedAll(nals))
    ensures forall i :: 0 <= i < |nals| ==> Rbsp.Strip(EncodedAll(nals)[i][1..], 0) == nals[i].payload
  {
    var bodies := EncodedAll(nals);
    forall i | 0 <= i < |bodies|
      ensures bodies[i] != [] && NoCode(bodies[i]) && Rbsp.Strip(bodies[i][1..], 0) == nals[i].payload
    {
      EscapedHasNoCode(nals[i].header, nals[i].payload);
      assert bodies[i][1..] == Rbsp.Escape(nals[i].payload, 0);
      Rbsp.StripInvertsEscape(nals[i].payload, 0);
    }
    SplitInvertsJoin(bodies);
  }
}
