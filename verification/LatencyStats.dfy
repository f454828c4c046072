/** End-to-end latency figures of src/receiver_session.cpp: the sliding window of
    noteFrameStats and the percentiles of rebuildStats, over real numbers. */
module LatencyStats {
  import opened Common

  const WINDOW := 120

  /** `noteFrameStats`, given the clock offset if one is known. */
  function Note(window: seq<real>, capturedAtMs: int, offset: Option<real>, now: real): seq<real> {
    if capturedAtMs <= 0 || offset.None? then window
    else
      var e2e := now + offset.value - capturedAtMs as real;
      if -50.0 < e2e < 5000.0 then Last(window + [Clamp(e2e)], WINDOW) else window
  }

  function Clamp(e2e: real): real {
    if e2e < 0.0 then 0.0 else e2e
  }

  class LatencyWindow {
    var e2eWindow: seq<real>

    constructor ()
      ensures e2eWindow == []
    {
      e2eWindow := [];
    }

    method NoteFrame(capturedAtMs: int, offset: Option<real>, now: real)
      requires |e2eWindow| <= WINDOW
      modifies this
      ensures e2eWindow == Note(old(e2eWindow), capturedAtMs, offset, now) && |e2eWindow| <= WINDOW
    {
      if capturedAtMs <= 0 {
        return;
      }
      if offset.None? {
        return;
      }
      var e2e := now + offset.value - capturedAtMs as real;
      if e2e > -50.0 && e2e < 5000.0 {
        e2eWindow := e2eWindow + [if e2e < 0.0 then 0.0 else e2e];
        if |e2eWindow| > WINDOW {
          e2eWindow := e2eWindow[1..];
        }
      }
    }
  }

  datatype Frame = Frame(capturedAtMs: int, offset: Option<real>, now: real)

  function NoteAll(window: seq<real>, frames: seq<Frame>): seq<real> {
    if frames == [] then window
    else
      var f := frames[|frames| - 1];
      Note(NoteAll(window, frames[..|frames| - 1]), f.capturedAtMs, f.offset, f.now)
  }

  predicate Counts(f: Frame) {
    f.capturedAtMs > 0 && f.offset.Some? && -50.0 < f.now + f.offset.value - f.capturedAtMs as real < 5000.0
  }

  /** The latencies of the frames that count, in order, a small clock error read as 0. */
  function Latencies(frames: seq<Frame>): seq<real> {
    if frames == [] then []
    else
      var f := frames[|frames| - 1];
      Latencies(frames[..|frames| - 1]) + if Counts(f) then [LatencyOf(f)] else []
  }

  function LatencyOf(f: Frame): real
    requires Counts(f)
  {
    var age := f.now - (f.capturedAtMs as real - f.offset.value);
    if age > 0.0 then age else 0.0
  }

  lemma {:induction false} WindowIsLastLatencies(frames: seq<Frame>)
    ensures NoteAll([], frames) == Latencies(frames)[Surplus(|Latencies(frames)|, 120)..]
    ensures forall i :: 0 <= i < |Latencies(frames)| ==> 0.0 <= Latencies(frames)[i] < 5000.0
  {
    if frames != [] {
      var before, f := frames[..|frames| - 1], frames[|frames| - 1];
      WindowIsLastLatencies(before);
      if Counts(f) {
        LastSnoc(Latencies(before), LatencyOf(f), WINDOW);
      }
    }
  }

  // ---- Percentiles ---------------------------------------------------------

  predicate IsSorted(s: seq<real>) {
    forall i, j :: 0 <= i < j < |s| ==> s[i] <= s[j]
  }

  function Insert(x: real, s: seq<real>): (r: seq<real>)
    requires IsSorted(s)
    ensures IsSorted(r) && multiset(r) == multiset(s) + multiset{x} && |r| == |s| + 1
  {
    if s == [] || x <= s[0] then [x] + s
    else
      var r := Insert(x, s[1..]);
      InsertBehind(s[0], s[1..], x, r);
      assert s == [s[0]] + s[1..];
      [s[0]] + r
  }

  lemma InsertBehind(a: real, s: seq<real>, x: real, r: seq<real>)
    requires (forall i :: 0 <= i < |s| ==> a <= s[i]) && a <= x
    requires IsSorted(r) && multiset(r) == multiset(s) + multiset{x}
    ensures IsSorted([a] + r)
  {
    forall i | 0 <= i < |r|
      ensures a <= r[i]
    {
      assert r[i] in multiset(r);
      assert r[i] == x || r[i] in s;
    }
  }

  /** What std::sort leaves behind: the same values in ascending order. */
  function Sorted(s: seq<real>): (r: seq<real>)
    ensures IsSorted(r) && multiset(r) == multiset(s) && |r| == |s|
  {
    if s == [] then []
    else
      assert s == [s[0]] + s[1..];
      Insert(s[0], Sorted(s[1..]))
  }

  /** `static_cast<size_t>(clamp(p * (n - 1), 0, n - 1))` */
  function Index(p: real, n: nat): (k: nat)
    requires n > 0
    ensures k < n
  {
    ClampFloor(p * (n - 1) as real, n - 1)
  }

  function ClampFloor(x: real, top: nat): (k: nat)
    ensures k <= top
  {
    if x < 0.0 then 0 else if x > top as real then top else x.Floor
  }

  function Percentile(values: seq<real>, p: real): real {
    if values == [] then 0.0 else Sorted(values)[Index(p, |values|)]
  }

  /** The computation on a sorted local copy. */
  method ComputePercentile(values: seq<real>, p: real) returns (r: real)
    ensures r == Percentile(values, p)
  {
    if values == [] {
      return 0.0;
    }
    var copy := Sorted(values);
    var k := ComputeIndex(p, |copy|);
    r := copy[k];
  }

  method ComputeIndex(p: real, n: nat) returns (k: nat)
    requires n > 0
    ensures k == Index(p, n)
  {
    var top := (n - 1) as real;
    var x := p * top;
    var clamped := if x < 0.0 then 0.0 else if x > top then top else x;
    k := clamped.Floor;
  }

  /** How many of `s` are at most, and at least, `v`. */
  function AtMost(s: seq<real>, v: real): nat {
    if s == [] then 0 else AtMost(s[1..], v) + if s[0] <= v then 1 else 0
  }

  function AtLeast(s: seq<real>, v: real): nat {
    if s == [] then 0 else AtLeast(s[1..], v) + if s[0] >= v then 1 else 0
  }

  lemma {:induction false} InsertCounts(x: real, s: seq<real>, v: real)
    requires IsSorted(s)
    ensures AtMost(Insert(x, s), v) == AtMost(s, v) + (if x <= v then 1 else 0)
    ensures AtLeast(Insert(x, s), v) == AtLeast(s, v) + (if x >= v then 1 else 0)
  {
    if s == [] || x <= s[0] {
      CountsCons(x, s, v);
    } else {
      InsertCounts(x, s[1..], v);
      CountsCons(s[0], Insert(x, s[1..]), v);
    }
  }

  lemma CountsCons(x: real, s: seq<real>, v: real)
    ensures AtMost([x] + s, v) == AtMost(s, v) + if x <= v then 1 else 0
    ensures AtLeast([x] + s, v) == AtLeast(s, v) + if x >= v then 1 else 0
  {
    assert ([x] + s)[1..] == s;
  }

  /** Sorting changes neither count. */
  lemma {:induction false} SortedCounts(s: seq<real>, v: real)
    ensures AtMost(Sorted(s), v) == AtMost(s, v) && AtLeast(Sorted(s), v) == AtLeast(s, v)
  {
    if s != [] {
      SortedCounts(s[1..], v);
      InsertCounts(s[0], Sorted(s[1..]), v);
    }
  }

  lemma {:induction false} SortedAtMost(s: seq<real>, k: nat, v: real)
    requires IsSorted(s) && k < |s| && s[k] <= v
    ensures AtMost(s, v) >= k + 1
    decreases |s|
  {
    if k > 0 {
      SortedAtMost(s[1..], k - 1, v);
      assert s[0] <= s[k];
    }
  }

  lemma {:induction false} SortedAtLeast(s: seq<real>, k: nat, v: real)
    requires IsSorted(s) && k < |s| && v <= s[k]
    ensures AtLeast(s, v) >= |s| - k
    decreases |s|
  {
    if k > 0 {
      SortedAtLeast(s[1..], k - 1, v);
    } else if |s| > 1 {
      SortedAtLeast(s[1..], 0, v);
    }
  }

  lemma ScaleMonotone(p: real, q: real, top: real)
    requires p <= q && top >= 0.0
    ensures p * top <= q * top
  {
    var d := q - p;
    assert d * top >= 0.0;
    assert q * top == (p + d) * top == p * top + d * top;
  }

  lemma SortedRank(values: seq<real>, k: nat)
    requires k < |values|
    ensures var r := Sorted(values)[k];
            r in values && AtMost(values, r) >= k + 1 && AtLeast(values, r) >= |values| - k
  {
    var s := Sorted(values);
    assert s[k] in multiset(values);
    SortedCounts(values, s[k]);
    SortedAtMost(s, k, s[k]);
    SortedAtLeast(s, k, s[k]);
  }

  /** A percentile of a non-empty window is one of its values, with at least
      floor(p(n-1)) + 1 values not above it and at least n - floor(p(n-1)) not below. */
  lemma PercentileRank(values: seq<real>, p: real)
    requires values != []
    ensures var k, r := Index(p, |values|), Percentile(values, p);
            r in values && AtMost(values, r) >= k + 1 && AtLeast(values, r) >= |values| - k
  {
    SortedRank(values, Index(p, |values|));
  }

  lemma IndexInRange(p: real, n: nat)
    requires n > 0
    ensures 0.0 <= p <= 1.0 ==> Index(p, n) == (p * (n - 1) as real).Floor
  {
    if 0.0 <= p <= 1.0 {
      ScaleMonotone(0.0, p, (n - 1) as real);
      ScaleMonotone(p, 1.0, (n - 1) as real);
    }
  }

  lemma IndexMonotone(p: real, q: real, n: nat)
    requires p <= q && n > 0
    ensures Index(p, n) <= Index(q, n)
  {
    ScaleMonotone(p, q, (n - 1) as real);
    ClampFloorMonotone(p * (n - 1) as real, q * (n - 1) as real, n - 1);
  }

  lemma ClampFloorMonotone(x: real, y: real, top: nat)
    requires x <= y
    ensures ClampFloor(x, top) <= ClampFloor(y, top)
  {
    assert x.Floor as real <= x < x.Floor as real + 1.0;
    assert y.Floor as real <= y < y.Floor as real + 1.0;
  }

  /** A higher percentile is never lower: P50 <= P95. */
  lemma PercentileMonotone(values: seq<real>, p: real, q: real)
    requires p <= q
    ensures Percentile(values, p) <= Percentile(values, q)
  {
    if values != [] {
      IndexMonotone(p, q, |values|);
    }
  }

  /** The figures of a report over any run: both percentiles lie in [0, 5000), in order. */
  lemma ReportedPercentiles(frames: seq<Frame>)
    ensures var w := NoteAll([], frames);
            && 0.0 <= Percentile(w, 0.5) <= Percentile(w, 0.95) < 5000.0
            && (w == [] ==> Percentile(w, 0.5) == Percentile(w, 0.95) == 0.0)
  {
    var w := NoteAll([], frames);
    WindowIsLastLatencies(frames);
    PercentileMonotone(w, 0.5, 0.95);
    if w != [] {
      PercentileRank(w, 0.5);
      PercentileRank(w, 0.95);
    }
  }
}
