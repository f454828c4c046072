/** Grouping NAL units into access units: annexb_access_units of
    tools/fake_sender.py. */
module AccessUnits {
  import opened Common
  import opened AnnexB
  import opened VideoFrames

  const AUD := 9

  predicate IsVcl(n: Nalu) {
    1 <= n.nalType <= 5
  }

  predicate HasVcl(ns: seq<Nalu>) {
    exists i :: 0 <= i < |ns| && IsVcl(ns[i])
  }

  /** The unit being filled, and the ones already closed. */
  datatype Grouping = Grouping(closed: seq<seq<Nalu>>, current: seq<Nalu>)

  const EMPTY := Grouping([], [])

  /** Does `n` start a new access unit behind `current`? */
  predicate Boundary(current: seq<Nalu>, n: Nalu) {
    n.nalType == AUD || (HasVcl(current) && IsVcl(n))
  }

  function Place(g: Grouping, n: Nalu): Grouping {
    if Boundary(g.current, n) && g.current != [] then Grouping(g.closed + [g.current], [n])
    else Grouping(g.closed, g.current + [n])
  }

  function Group(g: Grouping, ns: seq<Nalu>): Grouping
    decreases |ns|
  {
    if ns == [] then g else Group(Place(g, ns[0]), ns[1..])
  }

  function Finish(g: Grouping): seq<seq<Nalu>> {
    if g.current == [] then g.closed else g.closed + [g.current]
  }

  /** The access units of a list of NAL units. */
  function Units(ns: seq<Nalu>): seq<seq<Nalu>> {
    Finish(Group(EMPTY, ns))
  }

  function Bytes(unit: seq<Nalu>): seq<byte> {
    if unit == [] then [] else unit[0].data + Bytes(unit[1..])
  }

  // ---- What a grouping keeps -----------------------------------------------

  function Members(g: Grouping): seq<Nalu> {
    Flatten(g.closed) + g.current
  }

  lemma PlaceKeepsMembers(g: Grouping, n: Nalu)
    ensures Members(Place(g, n)) == Members(g) + [n]
  {
    FlattenSnoc(g.closed, g.current);
  }

  /** Nothing is lost, duplicated or reordered. */
  lemma {:induction false} GroupKeepsMembers(g: Grouping, ns: seq<Nalu>)
    ensures Members(Group(g, ns)) == Members(g) + ns
    ensures Flatten(Finish(Group(g, ns))) == Members(g) + ns
    decreases |ns|
  {
    if ns == [] {
      FlattenSnoc(g.closed, g.current);
      assert Members(g) + [] == Members(g);
    } else {
      PlaceKeepsMembers(g, ns[0]);
      GroupKeepsMembers(Place(g, ns[0]), ns[1..]);
      assert Members(g) + [ns[0]] + ns[1..] == Members(g) + ns;
    }
  }

  /** An access unit holds one coded slice at most, and a delimiter only in front. */
  predicate UnitOk(unit: seq<Nalu>) {
    && (forall i, j :: 0 <= i < j < |unit| ==> !(1 <= unit[i].nalType <= 5 && 1 <= unit[j].nalType <= 5))
    && (forall i :: 0 < i < |unit| ==> unit[i].nalType != 9)
  }

  /** What may end one access unit and begin the next: a delimiter, or a slice where the
      unit already has one. Parameter sets and the rest ride along. */
  predicate CutBetween(unit: seq<Nalu>, next: Nalu) {
    || next.nalType == 9
    || (1 <= next.nalType <= 5 && exists i :: 0 <= i < |unit| && 1 <= unit[i].nalType <= 5)
  }

  predicate WellCut(units: seq<seq<Nalu>>) {
    forall k :: 0 < k < |units| ==> units[k] != [] && CutBetween(units[k - 1], units[k][0])
  }

  predicate GroupingOk(g: Grouping) {
    && UnitOk(g.current)
    && forall k :: 0 <= k < |g.closed| ==> g.closed[k] != [] && UnitOk(g.closed[k])
  }

  lemma PlaceKeepsUnitsOk(g: Grouping, n: Nalu)
    requires GroupingOk(g)
    ensures GroupingOk(Place(g, n)) && Place(g, n).current != []
  {
    if Boundary(g.current, n) && g.current != [] {
    } else {
      var c := g.current + [n];
      forall i, j | 0 <= i < j < |c|
        ensures !(IsVcl(c[i]) && IsVcl(c[j]))
      {
        if j == |c| - 1 {
          assert c[i] == g.current[i];
        }
      }
    }
  }

  lemma {:induction false} GroupKeepsUnitsOk(g: Grouping, ns: seq<Nalu>)
    requires GroupingOk(g)
    ensures GroupingOk(Group(g, ns))
    ensures g.current != [] || ns != [] ==> Group(g, ns).current != []
    decreases |ns|
  {
    if ns != [] {
      PlaceKeepsUnitsOk(g, ns[0]);
      GroupKeepsUnitsOk(Place(g, ns[0]), ns[1..]);
    }
  }

  lemma PlaceKeepsWellCut(g: Grouping, n: Nalu)
    requires WellCut(Finish(g)) && (g.current == [] ==> g.closed == [])
    ensures WellCut(Finish(Place(g, n)))
  {
    var t := Place(g, n);
    var units := Finish(t);
    forall k | 0 < k < |units|
      ensures units[k] != [] && CutBetween(units[k - 1], units[k][0])
    {
      if k < |Finish(g)| {
        assert CutBetween(Finish(g)[k - 1], Finish(g)[k][0]);
        assert units[k - 1] == Finish(g)[k - 1] && units[k][0] == Finish(g)[k][0];
      } else {
        assert units[k - 1] == g.current && units[k] == [n];
      }
    }
  }

  lemma {:induction false} GroupKeepsWellCut(g: Grouping, ns: seq<Nalu>)
    requires WellCut(Finish(g)) && (g.current == [] ==> g.closed == [])
    ensures WellCut(Finish(Group(g, ns)))
    decreases |ns|
  {
    if ns != [] {
      PlaceKeepsWellCut(g, ns[0]);
      GroupKeepsWellCut(Place(g, ns[0]), ns[1..]);
    }
  }

  /** No unit is cut without a reason: each one after the first begins with a delimiter, or
      with a slice where the one before it has a slice already. */
  lemma UnitsAreWellCut(ns: seq<Nalu>)
    ensures WellCut(Units(ns))
  {
    GroupKeepsWellCut(EMPTY, ns);
  }

  lemma UnitsAreOk(ns: seq<Nalu>)
    ensures Flatten(Units(ns)) == ns
    ensures forall k :: 0 <= k < |Units(ns)| ==> Units(ns)[k] != [] && UnitOk(Units(ns)[k])
  {
    GroupKeepsUnitsOk(EMPTY, ns);
    GroupKeepsMembers(EMPTY, ns);
  }

  // ---- Cutting the list of NAL units ---------------------------------------

  lemma {:induction false} GroupAppend(g: Grouping, a: seq<Nalu>, b: seq<Nalu>)
    ensures Group(g, a + b) == Group(Group(g, a), b)
    decreases |a|
  {
    if a == [] {
      assert a + b == b;
    } else {
      assert (a + b)[1..] == a[1..] + b;
      GroupAppend(Place(g, a[0]), a[1..], b);
    }
  }

  // ---- The grouping is the only one ----------------------------------------

  /** A division of `ns` into non-empty, well formed and well cut units. */
  predicate Divides(units: seq<seq<Nalu>>, ns: seq<Nalu>) {
    && Flatten(units) == ns && WellCut(units)
    && forall k :: 0 <= k < |units| ==> units[k] != [] && UnitOk(units[k])
  }

  lemma UnitsSnoc(ns: seq<Nalu>, n: Nalu)
    ensures Units(ns + [n]) == Finish(Place(Group(EMPTY, ns), n))
  {
    GroupAppend(EMPTY, ns, [n]);
    assert [n][1..] == [];
  }

  lemma CurrentIsLast(ns: seq<Nalu>)
    requires ns != []
    ensures var g := Group(EMPTY, ns); g.current != [] && Units(ns) == g.closed + [g.current]
  {
    GroupKeepsUnitsOk(EMPTY, ns);
  }

  /** The last NAL unit stands alone: the rest is divided by the other units. */
  lemma AloneInFront(lead: seq<seq<Nalu>>, n: Nalu, ns: seq<Nalu>)
    requires Divides(lead + [[n]], ns)
    ensures ns != [] && ns[|ns| - 1] == n && Divides(lead, ns[..|ns| - 1])
    ensures lead != [] ==> CutBetween(lead[|lead| - 1], n)
  {
    var units := lead + [[n]];
    FlattenSnoc(lead, [n]);
    assert ns[..|ns| - 1] == Flatten(lead);
    assert units[|lead|] == [n];
    forall k | 0 <= k < |lead|
      ensures lead[k] != [] && UnitOk(lead[k])
      ensures k > 0 ==> CutBetween(lead[k - 1], lead[k][0])
    {
      assert lead[k] == units[k];
      if k > 0 {
        assert lead[k - 1] == units[k - 1] && CutBetween(units[k - 1], units[k][0]);
      }
    }
    if lead != [] {
      assert units[|lead| - 1] == lead[|lead| - 1] && CutBetween(units[|lead| - 1], units[|lead|][0]);
    }
  }

  /** The last NAL unit rides along: the rest is divided without it. */
  lemma RidesAlong(lead: seq<seq<Nalu>>, unit: seq<Nalu>, n: Nalu, ns: seq<Nalu>)
    requires unit != [] && Divides(lead + [unit + [n]], ns)
    ensures |ns| > 1 && ns[|ns| - 1] == n && Divides(lead + [unit], ns[..|ns| - 1])
    ensures !Boundary(unit, n)
  {
    var units, fewer := lead + [unit + [n]], lead + [unit];
    var whole := unit + [n];
    FlattenSnoc(lead, whole);
    FlattenSnoc(lead, unit);
    Associate(Flatten(lead), unit, [n]);
    assert ns[..|ns| - 1] == Flatten(fewer);
    assert units[|lead|] == whole;
    assert whole[|unit|] == n && forall i :: 0 <= i < |unit| ==> whole[i] == unit[i];
    forall k | 0 <= k < |fewer|
      ensures fewer[k] != [] && UnitOk(fewer[k])
      ensures k > 0 ==> CutBetween(fewer[k - 1], fewer[k][0])
    {
      if k < |lead| {
        assert fewer[k] == units[k];
      }
      if k > 0 {
        assert fewer[k - 1] == units[k - 1] && fewer[k][0] == units[k][0];
      }
    }
  }

  /** Any division into well formed, well cut units is the one the loop makes. */
  lemma {:induction false} UnitsAreTheOnlyDivision(units: seq<seq<Nalu>>, ns: seq<Nalu>)
    requires Divides(units, ns)
    ensures units == Units(ns)
    decreases |ns|
  {
    if units == [] {
      assert ns == [] && Units([]) == [];
    } else {
      var m := |units| - 1;
      var lead, last := units[..m], units[m];
      var n := last[|last| - 1];
      var before := ns[..|ns| - 1];
      assert units == lead + [last];
      if |last| == 1 {
        assert last == [n];
        AloneInFront(lead, n, ns);
        UnitsAreTheOnlyDivision(lead, before);
        EndsAlone(lead, n, before);
      } else {
        var unit := last[..|last| - 1];
        assert last == unit + [n];
        RidesAlong(lead, unit, n, ns);
        UnitsAreTheOnlyDivision(lead + [unit], before);
        EndsTogether(lead, unit, n, before);
      }
      assert ns == before + [n];
      UnitsSnoc(before, n);
    }
  }

  lemma EndsAlone(lead: seq<seq<Nalu>>, n: Nalu, before: seq<Nalu>)
    requires lead == Units(before) && (lead != [] ==> CutBetween(lead[|lead| - 1], n))
    ensures Finish(Place(Group(EMPTY, before), n)) == lead + [[n]]
  {
    if before == [] {
      assert Group(EMPTY, []) == EMPTY && [] + [n] == [n];
    } else {
      CurrentIsLast(before);
    }
  }

  lemma EndsTogether(lead: seq<seq<Nalu>>, unit: seq<Nalu>, n: Nalu, before: seq<Nalu>)
    requires before != [] && lead + [unit] == Units(before) && unit != [] && !Boundary(unit, n)
    ensures Finish(Place(Group(EMPTY, before), n)) == lead + [unit + [n]]
  {
    CurrentIsLast(before);
    var g := Group(EMPTY, before);
    assert (lead + [unit])[|lead|] == unit && (g.closed + [g.current])[|g.closed|] == g.current;
    assert lead == (lead + [unit])[..|lead|] && g.closed == (g.closed + [g.current])[..|g.closed|];
  }

  /** Units closed earlier play no part in what follows. */
  lemma {:induction false} ClosedIsInert(closed: seq<seq<Nalu>>, g: Grouping, ns: seq<Nalu>)
    ensures Group(Grouping(closed + g.closed, g.current), ns)
         == Grouping(closed + Group(g, ns).closed, Group(g, ns).current)
    decreases |ns|
  {
    if ns != [] {
      assert closed + (g.closed + [g.current]) == closed + g.closed + [g.current];
      ClosedIsInert(closed, Place(g, ns[0]), ns[1..]);
    }
  }

  /** The open unit only grows until it is closed. */
  lemma {:induction false} CurrentIsPrefix(g: Grouping, ns: seq<Nalu>)
    requires g.current != []
    ensures var done := Finish(Group(g, ns));
            |done| > |g.closed| && done[..|g.closed|] == g.closed && g.current <= done[|g.closed|]
    decreases |ns|
  {
    if ns != [] {
      var h := Place(g, ns[0]);
      CurrentIsPrefix(h, ns[1..]);
      var done := Finish(Group(h, ns[1..]));
      if |h.closed| > |g.closed| {
        assert done[|g.closed|] == done[..|h.closed|][|g.closed|] == g.current;
        assert done[..|g.closed|] == done[..|h.closed|][..|g.closed|];
      }
    }
  }

  /** The cut between `a` and `b` falls between two access units. */
  predicate CleanCut(a: seq<Nalu>, b: seq<Nalu>) {
    a == [] || b == [] || Boundary(Group(EMPTY, a).current, b[0])
  }

  /** Grouping the two sides of a cut separately gives the access units of the whole
      exactly when the cut falls between two of them. */
  lemma CutIsCleanIff(a: seq<Nalu>, b: seq<Nalu>)
    ensures Units(a) + Units(b) == Units(a + b) <==> CleanCut(a, b)
  {
    if a == [] {
      assert a + b == b && Units(a) == [];
    } else if b == [] {
      assert a + b == a && Units(b) == [];
    } else {
      var g := Group(EMPTY, a);
      GroupKeepsUnitsOk(EMPTY, a);
      GroupAppend(EMPTY, a, b);
      if Boundary(g.current, b[0]) {
        ClosedIsInert(g.closed + [g.current], Grouping([], [b[0]]), b[1..]);
        assert Place(g, b[0]) == Grouping(g.closed + [g.current] + [], [b[0]]);
        assert Place(EMPTY, b[0]) == Grouping([], [b[0]]);
        GroupKeepsUnitsOk(Grouping([], [b[0]]), b[1..]);
      } else {
        CurrentIsPrefix(Place(g, b[0]), b[1..]);
        var whole := Units(a + b);
        assert g.current + [b[0]] <= whole[|g.closed|];
        assert (Units(a) + Units(b))[|g.closed|] == g.current;
      }
    }
  }

  lemma {:induction false} FlattenNonEmpty<T>(units: seq<seq<T>>)
    requires forall k :: 0 <= k < |units| ==> units[k] != []
    ensures |Flatten(units)| >= |units|
  {
    if units != [] {
      FlattenNonEmpty(units[1..]);
    }
  }

  /** If the access units of `a + b` start with a grouping of exactly `a`, that grouping
      is the one of `a` alone. */
  lemma LeadingUnitsAreUnits(a: seq<Nalu>, b: seq<Nalu>, lead: seq<seq<Nalu>>, tail: seq<seq<Nalu>>)
    requires Flatten(lead) == a && lead + tail == Units(a + b)
    ensures lead == Units(a)
  {
    UnitsAreOk(a + b);
    assert forall k :: 0 <= k < |lead| ==> lead[k] == (lead + tail)[k];
    FlattenNonEmpty(lead);
    if a != [] {
      var g := Group(EMPTY, a);
      GroupKeepsUnitsOk(EMPTY, a);
      GroupKeepsMembers(EMPTY, a);
      GroupAppend(EMPTY, a, b);
      CurrentIsPrefix(g, b);
      LeadIsDetermined(g.closed, g.current, lead, tail);
    }
  }

  lemma LeadIsDetermined<T>(closed: seq<seq<T>>, current: seq<T>, lead: seq<seq<T>>, tail: seq<seq<T>>)
    requires forall k :: 0 <= k < |lead| ==> lead[k] != []
    requires current != [] && |lead + tail| > |closed|
    requires (lead + tail)[..|closed|] == closed && current <= (lead + tail)[|closed|]
    requires Flatten(lead) == Flatten(closed) + current
    ensures lead == closed + [current]
  {
    if |lead| <= |closed| {
      assert closed == lead + closed[|lead|..];
      FlattenAppend(lead, closed[|lead|..]);
      assert false;
    } else {
      var n := |closed|;
      var rest := lead[n + 1..];
      assert lead == closed + [lead[n]] + rest;
      FlattenAppend(closed + [lead[n]], rest);
      FlattenSnoc(closed, lead[n]);
      FlattenNonEmpty(rest);
      assert |lead[n]| + |Flatten(rest)| == |current|;
      assert rest == [] && lead[n] == current;
    }
  }
}
