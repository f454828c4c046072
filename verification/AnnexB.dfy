/** Splitting an Annex B byte stream on 4-byte start codes: src/annexb.cpp. */
module AnnexB {
  import opened Common
  import Rbsp

  const START_CODE: seq<byte> := [0, 0, 0, 1]

  predicate IsCode(s: seq<byte>, i: int) {
    0 <= i <= |s| - 4 && s[i] == 0 && s[i + 1] == 0 && s[i + 2] == 0 && s[i + 3] == 1
  }

  predicate NoCode(s: seq<byte>) {
    forall i :: 0 <= i <= |s| - 4 ==> !IsCode(s, i)
  }

  /** Position of the first start code at or after `from`. */
  function FirstCode(s: seq<byte>, from: nat): (r: Option<nat>)
    ensures r.Some? ==> from <= r.value && IsCode(s, r.value)
                        && forall j :: from <= j < r.value ==> !IsCode(s, j)
    ensures r.None? ==> forall j :: from <= j ==> !IsCode(s, j)
    decreases |s| - from
  {
    if from + 3 >= |s| then None
    else if IsCode(s, from) then Some(from)
    else FirstCode(s, from + 1)
  }

  method FindStartCode(s: seq<byte>, from: nat) returns (r: Option<nat>)
    ensures r == FirstCode(s, from)
  {
    var index := from;
    while index + 3 < |s|
      invariant from <= index && FirstCode(s, from) == FirstCode(s, index)
    {
      if s[index] == 0 && s[index + 1] == 0 && s[index + 2] == 0 && s[index + 3] == 1 {
        return Some(index);
      }
      index := index + 1;
    }
    r := None;
  }

  /** 3 only where no start code is found, so always 4 on the positions it is asked. */
  function StartCodeLength(s: seq<byte>, position: nat): (n: nat)
    ensures n == 4 <==> IsCode(s, position)
  {
    if position + 3 < |s| && s[position] == 0 && s[position + 1] == 0
       && s[position + 2] == 0 && s[position + 3] == 1 then 4 else 3
  }

  /** One NAL unit with its start code; `nalType` is the header's low five bits. */
  datatype Nalu = Nalu(data: seq<byte>, nalType: nat)

  /** A start code with nothing behind it is dropped. */
  function Emit(unit: seq<byte>): seq<Nalu> {
    if |unit| > 4 then [Nalu(unit, unit[4] % 32)] else []
  }

  /** The NAL units of a stream that begins with a start code. */
  function SplitUnits(s: seq<byte>): seq<Nalu>
    requires IsCode(s, 0)
    decreases |s|
  {
    match FirstCode(s, 4)
    case None => Emit(s)
    case Some(next) => Emit(s[..next]) + SplitUnits(s[next..])
  }

  /** `splitNalus`: whatever precedes the first start code is ignored. */
  function Split(s: seq<byte>): seq<Nalu> {
    match FirstCode(s, 0)
    case None => []
    case Some(first) => SplitUnits(s[first..])
  }

  lemma CodeInSuffix(s: seq<byte>, from: nat, i: int)
    requires from <= |s| && i >= 0
    ensures IsCode(s[from..], i) == IsCode(s, from + i)
  {
  }

  lemma FirstIsUnique(s: seq<byte>, from: nat, at: nat)
    requires from <= at && IsCode(s, at) && forall j :: from <= j < at ==> !IsCode(s, j)
    ensures FirstCode(s, from) == Some(at)
  {
    assert FirstCode(s, from).Some?;
    if FirstCode(s, from).value < at {
      assert false;
    }
  }

  lemma FirstInSuffix(s: seq<byte>, start: nat, from: nat)
    requires start <= |s|
    ensures FirstCode(s[start..], from)
         == match FirstCode(s, start + from)
            case None => None
            case Some(at) => Some(at - start)
  {
    match FirstCode(s, start + from)
    case None =>
      if FirstCode(s[start..], from).Some? {
        CodeInSuffix(s, start, FirstCode(s[start..], from).value);
      }
    case Some(at) =>
      forall j: nat | from <= j < at - start
        ensures !IsCode(s[start..], j)
      {
        CodeInSuffix(s, start, j);
      }
      CodeInSuffix(s, start, at - start);
      FirstIsUnique(s[start..], from, at - start);
  }

  lemma LastUnit(s: seq<byte>, at: nat)
    requires IsCode(s, at) && FirstCode(s, at + 4).None?
    ensures SplitUnits(s[at..]) == Emit(s[at..])
  {
    FirstInSuffix(s, at, 4);
  }

  lemma UnitBefore(s: seq<byte>, at: nat, next: nat)
    requires IsCode(s, at) && FirstCode(s, at + 4) == Some(next)
    ensures SplitUnits(s[at..]) == Emit(s[at..next]) + SplitUnits(s[next..])
  {
    FirstInSuffix(s, at, 4);
    var u := s[at..];
    assert u[..next - at] == s[at..next];
    assert u[next - at..] == s[next..];
    assert FirstCode(u, 4) == Some(next - at);
  }

  method SplitNalus(accessUnit: seq<byte>) returns (nalus: seq<Nalu>)
    ensures nalus == Split(accessUnit)
  {
    nalus := [];
    var first := FindStartCode(accessUnit, 0);
    var position := first;
    while position.Some?
      invariant position.Some? ==> IsCode(accessUnit, position.value)
      invariant Split(accessUnit) ==
        if position.Some? then nalus + SplitUnits(accessUnit[position.value..]) else nalus
      decreases if position.Some? then |accessUnit| - position.value else -1
    {
      position, nalus := SplitOne(accessUnit, position.value, nalus);
    }
  }

  /** One iteration of the `while` loop of `splitNalus`. */
  method SplitOne(accessUnit: seq<byte>, position: nat, before: seq<Nalu>)
      returns (next: Option<nat>, nalus: seq<Nalu>)
    requires IsCode(accessUnit, position)
    ensures next.Some? ==> position < next.value && IsCode(accessUnit, next.value)
    ensures before + SplitUnits(accessUnit[position..])
         == if next.Some? then nalus + SplitUnits(accessUnit[next.value..]) else nalus
  {
    var prefix := StartCodeLength(accessUnit, position);
    next := FindStartCode(accessUnit, position + prefix);
    if next.None? {
      LastUnit(accessUnit, position);
      nalus := AppendUnit(before, accessUnit[position..], prefix);
    } else {
      UnitBefore(accessUnit, position, next.value);
      nalus := AppendUnit(before, accessUnit[position..next.value], prefix);
      Associate(before, Emit(accessUnit[position..next.value]), SplitUnits(accessUnit[next.value..]));
    }
  }

  method AppendUnit(nalus: seq<Nalu>, nalu: seq<byte>, prefix: nat) returns (r: seq<Nalu>)
    requires prefix == 4
    ensures r == nalus + Emit(nalu)
  {
    r := nalus;
    if |nalu| > prefix {
      r := r + [Nalu(nalu, nalu[prefix] % 32)];
    }
  }

  // ---- Start codes do not overlap ------------------------------------------

  /** In front of a start code no new start code can straddle the seam: 00 00 00 01 has
      no proper prefix that is also a suffix. */
  lemma NoStraddle(a: seq<byte>, b: seq<byte>, i: int)
    requires IsCode(b, 0) && 0 <= i < |a|
    ensures IsCode(a + b, i) == IsCode(a, i)
  {
    var c := a + b;
    if i > |a| - 4 {
      assert c[i + 3] == b[i + 3 - |a|] == 0;
    }
  }

  lemma FirstBeforeSeam(a: seq<byte>, b: seq<byte>, from: nat)
    requires IsCode(b, 0) && from <= |a|
    ensures FirstCode(a + b, from)
         == if FirstCode(a, from).Some? then FirstCode(a, from) else Some(|a|)
  {
    forall i: nat | i < |a|
      ensures IsCode(a + b, i) == IsCode(a, i)
    {
      NoStraddle(a, b, i);
    }
    assert IsCode(a + b, |a|);
    FirstIsUnique(a + b, from, if FirstCode(a, from).Some? then FirstCode(a, from).value else |a|);
  }

  /** Cutting a stream in front of a start code cuts its list of NAL units. */
  lemma {:induction false} SplitUnitsAppend(a: seq<byte>, b: seq<byte>)
    requires IsCode(a, 0) && IsCode(b, 0)
    ensures IsCode(a + b, 0) && SplitUnits(a + b) == SplitUnits(a) + SplitUnits(b)
    decreases |a|
  {
    FirstBeforeSeam(a, b, 4);
    match FirstCode(a, 4)
    case None =>
      assert (a + b)[..|a|] == a && (a + b)[|a|..] == b;
    case Some(next) =>
      assert (a + b)[..next] == a[..next] && (a + b)[next..] == a[next..] + b;
      SplitUnitsAppend(a[next..], b);
  }

  lemma SplitAppend(a: seq<byte>, b: seq<byte>)
    requires IsCode(b, 0)
    ensures Split(a + b) == Split(a) + Split(b)
  {
    FirstBeforeSeam(a, b, 0);
    FirstIsUnique(b, 0, 0);
    assert b[0..] == b;
    match FirstCode(a, 0)
    case None =>
      assert (a + b)[|a|..] == b;
    case Some(first) =>
      assert (a + b)[first..] == a[first..] + b;
      SplitUnitsAppend(a[first..], b);
  }

  // ---- Joining and splitting -----------------------------------------------

  /** NAL units laid out as the protocol demands: a 4-byte start code in front of each. */
  function Join(bodies: seq<seq<byte>>): seq<byte> {
    if bodies == [] then [] else START_CODE + bodies[0] + Join(bodies[1..])
  }

  function UnitOf(body: seq<byte>): Nalu
    requires body != []
  {
    Nalu(START_CODE + body, body[0] % 32)
  }

  /** Every body is non-empty and free of start codes. */
  predicate Joinable(bodies: seq<seq<byte>>) {
    forall i :: 0 <= i < |bodies| ==> bodies[i] != [] && NoCode(bodies[i])
  }

  function UnitsOf(bodies: seq<seq<byte>>): seq<Nalu>
    requires Joinable(bodies)
  {
    if bodies == [] then [] else [UnitOf(bodies[0])] + UnitsOf(bodies[1..])
  }

  lemma SingleUnit(body: seq<byte>)
    requires body != [] && NoCode(body)
    ensures Split(START_CODE + body) == [UnitOf(body)]
  {
    var s := START_CODE + body;
    FirstIsUnique(s, 0, 0);
    assert s[0..] == s;
    forall j | 4 <= j
      ensures !IsCode(s, j)
    {
      assert s[4..] == body;
      CodeInSuffix(s, 4, j - 4);
    }
    assert FirstCode(s, 4) == None;
  }

  /** Splitting inverts joining, for any list of non-empty bodies without a start code. */
  lemma {:induction false} SplitInvertsJoin(bodies: seq<seq<byte>>)
    requires Joinable(bodies)
    ensures Split(Join(bodies)) == UnitsOf(bodies)
  {
    if bodies != [] {
      var rest := Join(bodies[1..]);
      SingleUnit(bodies[0]);
      SplitInvertsJoin(bodies[1..]);
      if bodies[1..] == [] {
        assert START_CODE + bodies[0] + rest == START_CODE + bodies[0];
      } else {
        assert IsCode(rest, 0);
        SplitAppend(START_CODE + bodies[0], rest);
      }
    }
  }

  /** An escaped NAL unit, whatever its header byte, contains no start code. */
  lemma EscapedHasNoCode(header: byte, payload: seq<byte>)
    ensures NoCode([header] + Rbsp.Escape(payload, 0))
  {
    Rbsp.EscapeIsSafe(payload, 0);
    assert Rbsp.Zeros(0) + Rbsp.Escape(payload, 0) == Rbsp.Escape(payload, 0);
    SafeHasNoCode(header, Rbsp.Escape(payload, 0));
  }

  lemma SafeHasNoCode(header: byte, e: seq<byte>)
    requires Rbsp.NoForbiddenTriple(e)
    ensures NoCode([header] + e)
  {
    var s := [header] + e;
    forall i | 0 <= i <= |s| - 4
      ensures !IsCode(s, i)
    {
      assert !(e[i] == 0 && e[i + 1] == 0 && e[i + 2] <= 2);
    }
  }
}
