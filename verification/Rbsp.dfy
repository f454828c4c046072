/** Emulation prevention: the byte layer between a NAL unit and its raw payload
    (H.264 sections 7.3.1 and 7.4.1), src/h264_sps.cpp. */
module Rbsp {
  import opened Common

  /** What is left of `s` once every 03 that follows two zeros is dropped, when
      `run` zeros were already kept just before `s`. */
  function Strip(s: seq<byte>, run: nat): seq<byte> {
    if s == [] then []
    else if run >= 2 && s[0] == 3 then Strip(s[1..], 0)
    else [s[0]] + Strip(s[1..], RunAfter(s[0], run))
  }

  function RunAfter(b: byte, run: nat): nat {
    if b == 0 then run + 1 else 0
  }

  /** The run of zeros `Strip` carries past the end of `s`. */
  function StripRun(s: seq<byte>, run: nat): nat {
    if s == [] then run
    else if run >= 2 && s[0] == 3 then StripRun(s[1..], 0)
    else StripRun(s[1..], RunAfter(s[0], run))
  }

  /** The encoder's side (section 7.4.1): a 03 goes in front of any byte up to 03
      that follows two zeros, and closes a payload that ends in two zeros. */
  function Escape(s: seq<byte>, run: nat): seq<byte> {
    if s == [] then if run >= 2 then [3] else []
    else if run >= 2 && s[0] <= 3 then [3, s[0]] + Escape(s[1..], if s[0] == 0 then 1 else 0)
    else [s[0]] + Escape(s[1..], if s[0] == 0 then run + 1 else 0)
  }

  lemma {:induction false} StripInvertsEscape(s: seq<byte>, run: nat)
    ensures Strip(Escape(s, run), run) == s
  {
    if s == [] {
    } else if run >= 2 && s[0] <= 3 {
      var tail := Escape(s[1..], RunAfter(s[0], 0));
      StripInvertsEscape(s[1..], RunAfter(s[0], 0));
      var e := [3, s[0]] + tail;
      assert e[1..] == [s[0]] + tail && e[1..][1..] == tail;
      assert Strip(e, run) == Strip(e[1..], 0);
    } else {
      var tail := Escape(s[1..], RunAfter(s[0], run));
      StripInvertsEscape(s[1..], RunAfter(s[0], run));
      assert ([s[0]] + tail)[1..] == tail;
    }
  }

  /** Stripping is left to right: more input only adds to the output. */
  lemma {:induction false} StripAppend(s: seq<byte>, t: seq<byte>, run: nat)
    ensures Strip(s + t, run) == Strip(s, run) + Strip(t, StripRun(s, run))
  {
    if s == [] {
      assert s + t == t;
    } else {
      assert (s + t)[1..] == s[1..] + t;
      if run >= 2 && s[0] == 3 {
        StripAppend(s[1..], t, 0);
      } else {
        StripAppend(s[1..], t, RunAfter(s[0], run));
      }
    }
  }

  /** No two zeros followed by 00, 01 or 02 anywhere in `s`: what section 7.4.1
      demands of every NAL unit. */
  predicate NoForbiddenTriple(s: seq<byte>) {
    forall i :: 0 <= i < |s| - 2 ==> !(s[i] == 0 && s[i + 1] == 0 && s[i + 2] <= 2)
  }

  function Zeros(n: nat): seq<byte> {
    Repeat<byte>(0, n)
  }

  lemma {:induction false} EscapeIsSafe(s: seq<byte>, run: nat)
    requires run <= 2
    ensures NoForbiddenTriple(Zeros(run) + Escape(s, run))
  {
    if s == [] {
    } else if run >= 2 && s[0] <= 3 {
      EscapeIsSafe(s[1..], RunAfter(s[0], 0));
      InsertedIsSafe(s[0], Escape(s[1..], RunAfter(s[0], 0)));
    } else {
      EscapeIsSafe(s[1..], RunAfter(s[0], run));
      CopiedIsSafe(s[0], run, Escape(s[1..], RunAfter(s[0], run)));
    }
  }

  /** A 03 put in front of `b` breaks the run of two zeros before it. */
  lemma InsertedIsSafe(b: byte, tail: seq<byte>)
    requires NoForbiddenTriple(Zeros(RunAfter(b, 0)) + tail)
    ensures NoForbiddenTriple(Zeros(2) + ([3, b] + tail))
  {
    var head: seq<byte> := [0, 0, 3] + if b == 0 then [] else [b];
    SafeShift(head, Zeros(RunAfter(b, 0)) + tail);
    assert Zeros(2) + ([3, b] + tail) == head + (Zeros(RunAfter(b, 0)) + tail);
  }

  /** A byte that needs no 03 in front may follow a run of zeros. */
  lemma CopiedIsSafe(b: byte, run: nat, tail: seq<byte>)
    requires run <= 2 && (run == 2 ==> b > 3)
    requires NoForbiddenTriple(Zeros(RunAfter(b, run)) + tail)
    ensures NoForbiddenTriple(Zeros(run) + ([b] + tail))
  {
    if b == 0 {
      assert Zeros(run) + ([b] + tail) == Zeros(run + 1) + tail;
    } else {
      SafeShift(Zeros(run) + [b], Zeros(0) + tail);
      assert Zeros(run) + ([b] + tail) == Zeros(run) + [b] + (Zeros(0) + tail);
    }
  }

  /** A safe sequence stays safe behind a safe head that does not end in zero. */
  lemma SafeShift(head: seq<byte>, s: seq<byte>)
    requires NoForbiddenTriple(head) && NoForbiddenTriple(s)
    requires head != [] && head[|head| - 1] != 0
    ensures NoForbiddenTriple(head + s)
  {
    var c := head + s;
    forall i | 0 <= i < |c| - 2
      ensures !(c[i] == 0 && c[i + 1] == 0 && c[i + 2] <= 2)
    {
      if i >= |head| {
        assert c[i] == s[i - |head|] && c[i + 1] == s[i + 1 - |head|] && c[i + 2] == s[i + 2 - |head|];
      } else if i + 2 < |head| {
        assert c[i] == head[i] && c[i + 1] == head[i + 1] && c[i + 2] == head[i + 2];
      } else {
        assert c[|head| - 1] == head[|head| - 1];
      }
    }
  }

  /** src/h264_sps.cpp `stripEmulationPrevention`: skips the header byte at index 0. */
  method StripEmulationPrevention(nalu: seq<byte>) returns (out: seq<byte>)
    ensures out == if nalu == [] then [] else Strip(nalu[1..], 0)
  {
    out := [];
    if nalu == [] {
      return;
    }
    var zeroRun: nat := 0;
    var i := 1;
    while i < |nalu|
      invariant 1 <= i <= |nalu|
      invariant Strip(nalu[1..], 0) == out + Strip(nalu[i..], zeroRun)
    {
      var b := nalu[i];
      assert nalu[i..][1..] == nalu[i + 1..];
      i := i + 1;
      if zeroRun >= 2 && b == 3 {
        zeroRun := 0;
        continue;
      }
      out := out + [b];
      zeroRun := if b == 0 then zeroRun + 1 else 0;
    }
  }
}
