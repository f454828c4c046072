/** Clock offset estimation: include/opendisplay/clock_sync.hpp and the pong handler of
    src/receiver_session.cpp. Times are real numbers of milliseconds. */
module ClockSync {
  import opened Common

  datatype Sample = Sample(rtt: real, offset: real)

  const WINDOW := 15

  predicate Usable(s: Sample) {
    0.0 <= s.rtt < 2000.0
  }

  function Add(samples: seq<Sample>, s: Sample): seq<Sample> {
    if Usable(s) then Last(samples + [s], WINDOW) else samples
  }

  /** Index of the first sample with the least round trip. */
  function Best(samples: seq<Sample>): (b: nat)
    requires samples != []
    ensures b < |samples|
    ensures forall j :: 0 <= j < |samples| ==> samples[b].rtt <= samples[j].rtt
    ensures forall j :: 0 <= j < b ==> samples[b].rtt < samples[j].rtt
  {
    if |samples| == 1 then 0
    else
      var b := Best(samples[..|samples| - 1]);
      if samples[|samples| - 1].rtt < samples[b].rtt then |samples| - 1 else b
  }

  function Offset(samples: seq<Sample>): Option<real> {
    if samples == [] then None else Some(samples[Best(samples)].offset)
  }

  class ClockSync {
    var samples: seq<Sample>

    constructor ()
      ensures samples == []
    {
      samples := [];
    }

    method AddSample(rtt: real, offset: real)
      requires |samples| <= WINDOW
      modifies this
      ensures samples == Add(old(samples), Sample(rtt, offset)) && |samples| <= WINDOW
    {
      if rtt < 0.0 || rtt >= 2000.0 {
        return;
      }
      samples := samples + [Sample(rtt, offset)];
      ghost var all := samples;
      var popped := 0;
      while |samples| > WINDOW
        invariant 0 <= popped <= |all| && samples == all[popped..]
        invariant popped > 0 ==> |samples| >= WINDOW
      {
        samples := samples[1..];
        popped := popped + 1;
      }
    }

    method CurrentOffset() returns (r: Option<real>)
      ensures r == Offset(samples)
    {
      if samples == [] {
        return None;
      }
      var best := 0;
      var i := 0;
      while i < |samples|
        invariant 0 <= i <= |samples| && best < |samples| && (i == 0 ==> best == 0)
        invariant i > 0 ==> best == Best(samples[..i])
      {
        if samples[i].rtt < samples[best].rtt {
          best := i;
        }
        i := i + 1;
        assert samples[..i][..i - 1] == samples[..i - 1];
      }
      assert samples[..i] == samples;
      r := Some(samples[best].offset);
    }

    method Reset()
      modifies this
      ensures samples == []
    {
      samples := [];
    }
  }

  // ---- The window over a whole run -----------------------------------------

  function AddAll(samples: seq<Sample>, added: seq<Sample>): seq<Sample> {
    if added == [] then samples else Add(AddAll(samples, added[..|added| - 1]), added[|added| - 1])
  }

  /** The round trip the protocol accepts, section 8.1: below two seconds. */
  predicate Accepted(s: Sample) {
    s.rtt >= 0.0 && s.rtt < 2000.0
  }

  function UsableOnly(added: seq<Sample>): seq<Sample> {
    if added == [] then []
    else
      var s := added[|added| - 1];
      UsableOnly(added[..|added| - 1]) + if Accepted(s) then [s] else []
  }

  /** After any samples the window is exactly the last fifteen usable ones. */
  lemma {:induction false} WindowIsLastUsable(added: seq<Sample>)
    ensures AddAll([], added) == UsableOnly(added)[Surplus(|UsableOnly(added)|, 15)..]
  {
    if added != [] {
      var before, s := added[..|added| - 1], added[|added| - 1];
      WindowIsLastUsable(before);
      if Accepted(s) {
        LastSnoc(UsableOnly(before), s, WINDOW);
      }
    }
  }

  // ---- Ping, pong and the error bound --------------------------------------

  /** The sample the handler makes of a pong: `t` its own send time echoed back, `mt` the
      sender's clock, `t2` the time of arrival. */
  function PongSample(t: real, mt: real, t2: real): Sample {
    Sample(t2 - t, mt - (t + t2) / 2.0)
  }

  /** A ping at `t`, delayed `out` on its way to the sender and `back` on the return. */
  datatype Exchange = Exchange(t: real, out: real, back: real)

  /** The sender answers at once, its clock `theta` ahead of the receiver's. */
  function SampleOf(x: Exchange, theta: real): Sample {
    PongSample(x.t, x.t + x.out + theta, x.t + x.out + x.back)
  }

  function SamplesOf(xs: seq<Exchange>, theta: real): (r: seq<Sample>)
    ensures |r| == |xs| && forall i :: 0 <= i < |xs| ==> r[i] == SampleOf(xs[i], theta)
  {
    seq(|xs|, i requires 0 <= i < |xs| => SampleOf(xs[i], theta))
  }

  /** Off by at most half the round trip. */
  predicate Bounded(s: Sample, theta: real) {
    -s.rtt <= 2.0 * (s.offset - theta) <= s.rtt
  }

  lemma SampleIsBounded(x: Exchange, theta: real)
    requires x.out >= 0.0 && x.back >= 0.0
    ensures Bounded(SampleOf(x, theta), theta)
  {
    var s := SampleOf(x, theta);
    assert s.rtt == x.out + x.back;
    assert 2.0 * s.offset == 2.0 * theta + x.out - x.back;
  }

  lemma {:induction false} UsableAreMembers(added: seq<Sample>)
    ensures forall i :: 0 <= i < |UsableOnly(added)| ==> UsableOnly(added)[i] in added && Accepted(UsableOnly(added)[i])
    ensures (forall i :: 0 <= i < |added| ==> !Accepted(added[i])) <==> UsableOnly(added) == []
  {
    if added != [] {
      var n := |added| - 1;
      UsableAreMembers(added[..n]);
      if forall i :: 0 <= i < n ==> !Accepted(added[..n][i]) {
        assert forall i :: 0 <= i < n ==> added[i] == added[..n][i];
      }
    }
  }

  /** After any run of exchanges over non-negative path delays there is an offset as soon as
      one round trip was usable; it errs by at most half of every round trip among the last
      fifteen usable ones, and the oldest of equal minima decides. */
  lemma OffsetErrorBound(xs: seq<Exchange>, theta: real)
    requires forall i :: 0 <= i < |xs| ==> xs[i].out >= 0.0 && xs[i].back >= 0.0
    ensures var samples := SamplesOf(xs, theta);
            var window := UsableOnly(samples)[Surplus(|UsableOnly(samples)|, 15)..];
            && AddAll([], samples) == window
            && (Offset(window).None? <==> forall i :: 0 <= i < |samples| ==> !Accepted(samples[i]))
            && (Offset(window).Some? ==>
                  exists b :: 0 <= b < |window| && Offset(window).value == window[b].offset
                    && (forall j :: 0 <= j < |window| ==>
                          -window[j].rtt <= 2.0 * (Offset(window).value - theta) <= window[j].rtt)
                    && (forall j :: 0 <= j < b ==> window[b].rtt < window[j].rtt))
  {
    var samples := SamplesOf(xs, theta);
    var window := UsableOnly(samples)[Surplus(|UsableOnly(samples)|, 15)..];
    WindowIsLastUsable(samples);
    UsableAreMembers(samples);
    if window != [] {
      var b := Best(window);
      assert window[b] in UsableOnly(samples);
      var i :| 0 <= i < |samples| && samples[i] == window[b];
      SampleIsBounded(xs[i], theta);
      assert 0 <= b < |window| && Offset(window).value == window[b].offset;
      forall j | 0 <= j < |window|
        ensures -window[j].rtt <= 2.0 * (Offset(window).value - theta) <= window[j].rtt
      {
        assert window[b].rtt <= window[j].rtt;
      }
    }
  }
}
