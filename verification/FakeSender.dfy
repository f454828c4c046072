/** The streaming splitter of tools/fake_sender.py: encoder output arrives in chunks,
    access units leave, a tail stays buffered. */
module FakeSender {
  import opened Common
  import opened AnnexB
  import opened VideoFrames
  import opened AccessUnits

  // ---- annexb_access_units -------------------------------------------------

  /** The grouping loop: `current`, `seen_vcl` and `units` as the script keeps them. */
  method GroupPieces(nalus: seq<Nalu>) returns (units: seq<seq<Nalu>>)
    ensures units == Units(nalus)
  {
    units := [];
    var current: seq<Nalu> := [];
    var seenVcl := false;
    var i := 0;
    while i < |nalus|
      invariant 0 <= i <= |nalus|
      invariant Group(EMPTY, nalus) == Group(Grouping(units, current), nalus[i..])
      invariant seenVcl == HasVcl(current)
    {
      var nalu := nalus[i];
      var boundary := nalu.nalType == AUD || (seenVcl && 1 <= nalu.nalType <= 5);
      ghost var placed := Place(Grouping(units, current), nalu);
      assert nalus[i..][1..] == nalus[i + 1..];
      if boundary && current != [] {
        units := units + [current];
        current := [];
        seenVcl := false;
      }
      VclSnoc(current, nalu);
      current := current + [nalu];
      assert Grouping(units, current) == placed;
      if 1 <= nalu.nalType <= 5 {
        seenVcl := true;
      }
      i := i + 1;
    }
    if current != [] {
      units := units + [current];
    }
  }

  lemma VclSnoc(ns: seq<Nalu>, n: Nalu)
    ensures HasVcl(ns + [n]) == (HasVcl(ns) || IsVcl(n))
  {
    var all := ns + [n];
    if IsVcl(n) {
      assert IsVcl(all[|ns|]);
    } else if HasVcl(ns) {
      var i :| 0 <= i < |ns| && IsVcl(ns[i]);
      assert IsVcl(all[i]);
    }
  }

  // ---- The buffer ----------------------------------------------------------

  /** `rfind(START_CODE)` */
  function LastCode(s: seq<byte>, below: nat): (r: Option<nat>)
    ensures r.Some? ==> r.value < below && IsCode(s, r.value)
                        && forall j :: r.value < j < below ==> !IsCode(s, j)
    ensures r.None? ==> forall j :: 0 <= j < below ==> !IsCode(s, j)
  {
    if below == 0 then None
    else if IsCode(s, below - 1) then Some(below - 1)
    else LastCode(s, below - 1)
  }

  /** What was emitted so far and the bytes retained. */
  datatype Stream = Stream(emitted: seq<seq<Nalu>>, pending: seq<byte>)

  /** The bytes `Feed` takes out of the buffer once `chunk` has arrived. */
  function Taken(st: Stream, chunk: seq<byte>): seq<byte> {
    var data := st.pending + chunk;
    match LastCode(data, |data|)
    case None => []
    case Some(last) => data[..last]
  }

  function Feed(st: Stream, chunk: seq<byte>): Stream {
    var data := st.pending + chunk;
    var taken := Taken(st, chunk);
    Stream(st.emitted + Units(Split(taken)), data[|taken|..])
  }

  const START := Stream([], [])

  function FeedAll(st: Stream, chunks: seq<seq<byte>>): Stream
    decreases |chunks|
  {
    if chunks == [] then st else FeedAll(Feed(st, chunks[0]), chunks[1..])
  }

  /** What the encoder put out, and whether a keyframe request had it restarted before. */
  datatype Turn = Turn(restart: bool, chunk: seq<byte>)

  /** One pass of the main loop; a restart throws the buffer away. */
  function Pass(st: Stream, t: Turn): Stream {
    Feed(if t.restart then Stream(st.emitted, []) else st, t.chunk)
  }

  function PassAll(st: Stream, turns: seq<Turn>): Stream
    decreases |turns|
  {
    if turns == [] then st else PassAll(Pass(st, turns[0]), turns[1..])
  }

  /** The main loop until the encoder exits. */
  method Forward(turns: seq<Turn>) returns (units: seq<seq<byte>>, pending: seq<byte>)
    ensures var st := PassAll(START, turns);
            pending == st.pending && units == BytesAll(st.emitted)
  {
    units, pending := [], [];
    ghost var emitted: seq<seq<Nalu>> := [];
    var c := 0;
    while c < |turns|
      invariant 0 <= c <= |turns|
      invariant units == BytesAll(emitted)
      invariant PassAll(START, turns) == PassAll(Stream(emitted, pending), turns[c..])
    {
      PassNext(Stream(emitted, pending), turns, c);
      if turns[c].restart {
        pending := [];
      }
      ghost var st := Stream(emitted, pending);
      ghost var chunk := turns[c].chunk;
      pending := pending + turns[c].chunk;
      c := c + 1;
      var last := LastCode(pending, |pending|);
      if last.None? || last.value <= 0 {
        assert Taken(st, chunk) == [] && Feed(st, chunk) == Stream(emitted, pending) by {
          NothingTaken(st, chunk);
        }
        continue;
      }
      var nalus := SplitNalus(pending[..last.value]);
      var found := GroupPieces(nalus);
      BytesAllAppend(emitted, found);
      units := units + BytesAll(found);
      emitted := emitted + found;
      pending := pending[last.value..];
    }
  }

  lemma PassNext(st: Stream, turns: seq<Turn>, c: nat)
    requires c < |turns|
    ensures PassAll(st, turns[c..]) == PassAll(Pass(st, turns[c]), turns[c + 1..])
  {
    assert turns[c..][1..] == turns[c + 1..];
  }

  lemma NothingTaken(st: Stream, chunk: seq<byte>)
    requires Taken(st, chunk) == []
    ensures Feed(st, chunk) == Stream(st.emitted, st.pending + chunk)
  {
    assert Split([]) == [] && Units([]) == [];
  }

  function BytesAll(units: seq<seq<Nalu>>): seq<seq<byte>> {
    if units == [] then [] else [Bytes(units[0])] + BytesAll(units[1..])
  }

  lemma {:induction false} BytesAllAppend(a: seq<seq<Nalu>>, b: seq<seq<Nalu>>)
    ensures BytesAll(a + b) == BytesAll(a) + BytesAll(b)
  {
    if a == [] {
      assert a + b == b;
    } else {
      assert (a + b)[1..] == a[1..] + b;
      BytesAllAppend(a[1..], b);
    }
  }

  // ---- No NAL unit is lost, whatever the chunks ----------------------------

  /** `total` is what was taken out, then the buffer; a start code begins the buffer once
      anything was taken, and none follows inside it. */
  ghost predicate Seam(st: Stream, taken: seq<byte>, total: seq<byte>) {
    && total == taken + st.pending
    && (taken != [] ==> IsCode(st.pending, 0))
    && (forall j :: 0 < j < |st.pending| ==> !IsCode(st.pending, j))
  }

  /** The units emitted are made of the NAL units of the bytes taken. */
  ghost predicate Emitted(st: Stream, taken: seq<byte>) {
    && Flatten(st.emitted) == Split(taken)
    && forall k :: 0 <= k < |st.emitted| ==> st.emitted[k] != [] && UnitOk(st.emitted[k])
  }

  lemma FeedKeepsSeam(st: Stream, taken: seq<byte>, total: seq<byte>, chunk: seq<byte>)
    requires Seam(st, taken, total)
    ensures Seam(Feed(st, chunk), taken + Taken(st, chunk), total + chunk)
  {
    var data := st.pending + chunk;
    var out := Taken(st, chunk);
    var next := data[|out|..];
    assert data == out + next;
    Associate(taken, st.pending, chunk);
    Associate(taken, out, next);
    forall j | 0 < j < |next|
      ensures !IsCode(next, j)
    {
      CodeInSuffix(data, |out|, j);
    }
    CodeInSuffix(data, |out|, 0);
  }

  lemma FeedKeepsEmitted(st: Stream, taken: seq<byte>, chunk: seq<byte>)
    requires Emitted(st, taken) && (taken != [] ==> IsCode(st.pending, 0))
    ensures Emitted(Feed(st, chunk), taken + Taken(st, chunk))
  {
    var found := Units(Split(Taken(st, chunk)));
    UnitsAreOk(Split(Taken(st, chunk)));
    FlattenAppend(st.emitted, found);
    TakenSplits(st, taken, chunk);
  }

  lemma TakenSplits(st: Stream, taken: seq<byte>, chunk: seq<byte>)
    requires taken != [] ==> IsCode(st.pending, 0)
    ensures Split(taken + Taken(st, chunk)) == Split(taken) + Split(Taken(st, chunk))
  {
    var out := Taken(st, chunk);
    if taken == [] {
      assert taken + out == out && Split([]) == [];
    } else if out == [] {
      assert taken + out == taken && Split([]) == [];
    } else {
      TakenStartsWithCode(st, chunk);
      SplitAppend(taken, out);
    }
  }

  /** Two start codes cannot overlap, so a code in front of the last one is whole. */
  lemma TakenStartsWithCode(st: Stream, chunk: seq<byte>)
    requires IsCode(st.pending, 0) && Taken(st, chunk) != []
    ensures IsCode(Taken(st, chunk), 0)
  {
    var data := st.pending + chunk;
    var last := |Taken(st, chunk)|;
    assert IsCode(data, 0) && IsCode(data, last);
    assert last != 1 && last != 2 && last != 3;
  }

  function TakenAll(st: Stream, chunks: seq<seq<byte>>): seq<byte>
    decreases |chunks|
  {
    if chunks == [] then [] else Taken(st, chunks[0]) + TakenAll(Feed(st, chunks[0]), chunks[1..])
  }

  lemma {:induction false} FeedAllKeeps(st: Stream, taken: seq<byte>, total: seq<byte>, chunks: seq<seq<byte>>)
    requires Seam(st, taken, total) && Emitted(st, taken)
    ensures Seam(FeedAll(st, chunks), taken + TakenAll(st, chunks), total + Flatten(chunks))
    ensures Emitted(FeedAll(st, chunks), taken + TakenAll(st, chunks))
    decreases |chunks|
  {
    if chunks == [] {
      assert total + [] == total && taken + [] == taken;
    } else {
      var out := Taken(st, chunks[0]);
      FeedKeepsSeam(st, taken, total, chunks[0]);
      FeedKeepsEmitted(st, taken, chunks[0]);
      FeedAllKeeps(Feed(st, chunks[0]), taken + out, total + chunks[0], chunks[1..]);
      Associate(total, chunks[0], Flatten(chunks[1..]));
      Associate(taken, out, TakenAll(Feed(st, chunks[0]), chunks[1..]));
    }
  }

  /** For any chunking of an encoder's output: the NAL units emitted, then those of the
      tail still buffered, are the NAL units of the whole; the tail holds at most one;
      and every unit emitted has one slice at most and a delimiter only in front. */
  lemma NothingIsLost(chunks: seq<seq<byte>>)
    ensures var st := FeedAll(START, chunks);
            && Flatten(st.emitted) + Split(st.pending) == Split(Flatten(chunks))
            && |Split(st.pending)| <= 1
            && forall k :: 0 <= k < |st.emitted| ==> st.emitted[k] != [] && UnitOk(st.emitted[k])
  {
    assert Split([]) == [];
    FeedAllKeeps(START, [], [], chunks);
    var st := FeedAll(START, chunks);
    var taken := TakenAll(START, chunks);
    assert [] + Flatten(chunks) == Flatten(chunks) && [] + taken == taken;
    if taken == [] {
      assert taken + st.pending == st.pending;
    } else {
      SplitAppend(taken, st.pending);
    }
    TailIsOneUnit(st.pending);
  }

  lemma TailIsOneUnit(s: seq<byte>)
    requires forall j :: 0 < j < |s| ==> !IsCode(s, j)
    ensures |Split(s)| <= 1
  {
    match FirstCode(s, 0)
    case None =>
    case Some(first) =>
      assert first == 0 && s[0..] == s;
      assert FirstCode(s, 4).None?;
  }

  // ---- A restart costs the tail and nothing else ---------------------------

  function Continued(chunks: seq<seq<byte>>): (r: seq<Turn>)
    ensures |r| == |chunks|
  {
    seq(|chunks|, i requires 0 <= i < |chunks| => Turn(false, chunks[i]))
  }

  lemma {:induction false} PassContinued(st: Stream, chunks: seq<seq<byte>>)
    ensures PassAll(st, Continued(chunks)) == FeedAll(st, chunks)
    decreases |chunks|
  {
    if chunks != [] {
      assert Continued(chunks)[1..] == Continued(chunks[1..]);
      PassContinued(Feed(st, chunks[0]), chunks[1..]);
    }
  }

  lemma {:induction false} PassAllAppend(st: Stream, a: seq<Turn>, b: seq<Turn>)
    ensures PassAll(st, a + b) == PassAll(PassAll(st, a), b)
    decreases |a|
  {
    if a == [] {
      assert a + b == b;
    } else {
      assert (a + b)[1..] == a[1..] + b;
      PassAllAppend(Pass(st, a[0]), a[1..], b);
    }
  }

  /** Units emitted earlier play no part in what follows. */
  lemma {:induction false} EmittedIsInert(emitted: seq<seq<Nalu>>, st: Stream, chunks: seq<seq<byte>>)
    ensures FeedAll(Stream(emitted + st.emitted, st.pending), chunks)
         == FeedAll(st, chunks).(emitted := emitted + FeedAll(st, chunks).emitted)
    decreases |chunks|
  {
    if chunks != [] {
      Associate(emitted, st.emitted, Units(Split(Taken(st, chunks[0]))));
      EmittedIsInert(emitted, Feed(st, chunks[0]), chunks[1..]);
    }
  }

  lemma FeedLeavesOneUnit(st: Stream, chunk: seq<byte>)
    requires forall j :: 0 < j < |st.pending| ==> !IsCode(st.pending, j)
    ensures var next := Feed(st, chunk).pending; forall j :: 0 < j < |next| ==> !IsCode(next, j)
  {
    var data := st.pending + chunk;
    var out := Taken(st, chunk);
    forall j | 0 < j < |data[|out|..]|
      ensures !IsCode(data[|out|..], j)
    {
      CodeInSuffix(data, |out|, j);
    }
  }

  lemma {:induction false} PassLeavesOneUnit(st: Stream, turns: seq<Turn>)
    requires forall j :: 0 < j < |st.pending| ==> !IsCode(st.pending, j)
    ensures |Split(PassAll(st, turns).pending)| <= 1
    decreases |turns|
  {
    if turns == [] {
      TailIsOneUnit(st.pending);
    } else {
      FeedLeavesOneUnit(if turns[0].restart then Stream(st.emitted, []) else st, turns[0].chunk);
      PassLeavesOneUnit(Pass(st, turns[0]), turns[1..]);
    }
  }

  /** After any run, restarts included, a restart loses the tail, one NAL unit at most;
      of the next encoder's output nothing is lost. */
  lemma RestartLosesTheTailOnly(before: seq<Turn>, chunks: seq<seq<byte>>)
    requires chunks != []
    ensures var was := PassAll(START, before);
            var st := PassAll(START, before + ([Turn(true, chunks[0])] + Continued(chunks[1..])));
            && was.emitted <= st.emitted && |Split(was.pending)| <= 1
            && st.pending == FeedAll(START, chunks).pending
            && Flatten(st.emitted) + Split(st.pending) == Flatten(was.emitted) + Split(Flatten(chunks))
  {
    var was := PassAll(START, before);
    var again := [Turn(true, chunks[0])] + Continued(chunks[1..]);
    PassAllAppend(START, before, again);
    PassLeavesOneUnit(START, before);
    assert again[1..] == Continued(chunks[1..]);
    PassContinued(Pass(was, again[0]), chunks[1..]);
    var clean := Stream(was.emitted + [], []);
    assert was.emitted + [] == was.emitted;
    assert PassAll(was, again) == FeedAll(clean, chunks);
    EmittedIsInert(was.emitted, START, chunks);
    NothingIsLost(chunks);
    var next := FeedAll(START, chunks);
    FlattenAppend(was.emitted, next.emitted);
    Associate(Flatten(was.emitted), Flatten(next.emitted), Split(next.pending));
  }

  // ---- When the units emitted are the access units -------------------------

  /** The NAL units taken out by each chunk. */
  function Parts(st: Stream, chunks: seq<seq<byte>>): seq<seq<Nalu>>
    decreases |chunks|
  {
    if chunks == [] then []
    else [Split(Taken(st, chunks[0]))] + Parts(Feed(st, chunks[0]), chunks[1..])
  }

  function UnitsOfParts(parts: seq<seq<Nalu>>): seq<seq<Nalu>> {
    if parts == [] then [] else Units(parts[0]) + UnitsOfParts(parts[1..])
  }

  /** Every emission stops between two access units: what it takes out next begins with a
      delimiter, or with a slice while the open unit already has one. */
  predicate CleanCuts(before: seq<Nalu>, parts: seq<seq<Nalu>>)
    decreases |parts|
  {
    parts == [] || (CleanCut(before, parts[0]) && CleanCuts(before + parts[0], parts[1..]))
  }

  lemma {:induction false} EmittedByParts(st: Stream, taken: seq<byte>, total: seq<byte>, chunks: seq<seq<byte>>)
    requires Seam(st, taken, total)
    ensures FeedAll(st, chunks).emitted == st.emitted + UnitsOfParts(Parts(st, chunks))
    ensures Split(taken + TakenAll(st, chunks)) == Split(taken) + Flatten(Parts(st, chunks))
    decreases |chunks|
  {
    if chunks == [] {
      assert taken + [] == taken;
    } else {
      var next := Feed(st, chunks[0]);
      var out := Taken(st, chunks[0]);
      FeedKeepsSeam(st, taken, total, chunks[0]);
      TakenSplits(st, taken, chunks[0]);
      EmittedByParts(next, taken + out, total + chunks[0], chunks[1..]);
      Associate(taken, out, TakenAll(next, chunks[1..]));
      var rest := Parts(next, chunks[1..]);
      Associate(st.emitted, Units(Split(out)), UnitsOfParts(rest));
      Associate(Split(taken), Split(out), Flatten(rest));
      assert Parts(st, chunks)[1..] == rest;
    }
  }

  lemma {:induction false} CutsAreCleanIff(before: seq<Nalu>, lead: seq<seq<Nalu>>, parts: seq<seq<Nalu>>)
    requires Flatten(lead) == before
    ensures lead + UnitsOfParts(parts) == Units(before + Flatten(parts))
       <==> lead == Units(before) && CleanCuts(before, parts)
    decreases |parts|
  {
    if parts == [] {
      assert before + [] == before;
    } else {
      var p := parts[0];
      UnitsAreOk(p);
      FlattenAppend(lead, Units(p));
      CutsAreCleanIff(before + p, lead + Units(p), parts[1..]);
      Associate(lead, Units(p), UnitsOfParts(parts[1..]));
      Associate(before, p, Flatten(parts[1..]));
      if lead + Units(p) == Units(before + p) {
        LeadingUnitsAreUnits(before, p, lead, Units(p));
      }
      CutIsCleanIff(before, p);
    }
  }

  /** The units emitted, then the one the tail would make, are the access units of the
      whole stream exactly when every emission, the last one included, stopped between two
      access units; and that is exactly when every unit emitted is a complete access unit
      of the stream. The chunking decides. */
  lemma EmittedAreAccessUnitsIff(chunks: seq<seq<byte>>)
    ensures var st := FeedAll(START, chunks);
            var whole := Units(Split(Flatten(chunks)));
            var clean := CleanCuts([], Parts(START, chunks) + [Split(st.pending)]);
            && (st.emitted + Units(Split(st.pending)) == whole <==> clean)
            && (st.emitted <= whole <==> clean)
  {
    var st := FeedAll(START, chunks);
    var parts, tail := Parts(START, chunks), Split(st.pending);
    NothingIsLost(chunks);
    EmittedByParts(START, [], [], chunks);
    assert [] + UnitsOfParts(parts) == UnitsOfParts(parts);
    EmittedMembers(chunks);
    UnitsOfPartsSnoc(parts, tail);
    FlattenSnoc(parts, tail);
    CutsAreCleanIff([], [], parts + [tail]);
    assert [] + UnitsOfParts(parts + [tail]) == UnitsOfParts(parts + [tail]);
    assert [] + Flatten(parts + [tail]) == Flatten(parts + [tail]);
    assert Units([]) == [];
    if st.emitted <= Units(Split(Flatten(chunks))) {
      RestIsTail(st.emitted, tail, Split(Flatten(chunks)));
    }
  }

  lemma EmittedMembers(chunks: seq<seq<byte>>)
    ensures Flatten(FeedAll(START, chunks).emitted) == Flatten(Parts(START, chunks))
  {
    assert Split([]) == [];
    EmittedByParts(START, [], [], chunks);
    FeedAllKeeps(START, [], [], chunks);
    assert [] + Flatten(Parts(START, chunks)) == Flatten(Parts(START, chunks));
  }

  lemma {:induction false} UnitsOfPartsSnoc(parts: seq<seq<Nalu>>, last: seq<Nalu>)
    ensures UnitsOfParts(parts + [last]) == UnitsOfParts(parts) + Units(last)
  {
    if parts == [] {
      assert [last][1..] == [] && [] + [last] == [last];
      assert Units(last) + [] == Units(last);
    } else {
      assert (parts + [last])[1..] == parts[1..] + [last];
      UnitsOfPartsSnoc(parts[1..], last);
      Associate(Units(parts[0]), UnitsOfParts(parts[1..]), Units(last));
    }
  }

  /** One NAL unit behind leading access units can only be one more. */
  lemma RestIsTail(lead: seq<seq<Nalu>>, tail: seq<Nalu>, all: seq<Nalu>)
    requires lead <= Units(all) && Flatten(lead) + tail == all && |tail| <= 1
    ensures lead + Units(tail) == Units(all)
  {
    var rest := Units(all)[|lead|..];
    assert Units(all) == lead + rest;
    UnitsAreOk(all);
    FlattenAppend(lead, rest);
    Cancel(Flatten(lead), Flatten(rest), tail);
    forall k | 0 <= k < |rest|
      ensures rest[k] != []
    {
      assert rest[k] == Units(all)[|lead| + k];
    }
    FlattenNonEmpty(rest);
    if tail == [] {
      assert Units(tail) == [] && rest == [];
    } else {
      OneUnit(tail);
      assert rest == [rest[0]];
      assert Flatten(rest) == rest[0] + Flatten(rest[1..]) == rest[0];
    }
  }

  /** Two NAL units of one access unit, a delimiter and its slice say: cut between their
      start codes they leave as two units, uncut as one. */
  lemma ChunkingSplitsAnAccessUnit(x: seq<byte>, y: seq<byte>)
    requires x != [] && y != [] && NoCode(x) && NoCode(y)
    requires !Boundary([UnitOf(x)], UnitOf(y))
    ensures FeedAll(START, [START_CODE + x + START_CODE, y + START_CODE]).emitted
         == [[UnitOf(x)], [UnitOf(y)]]
    ensures FeedAll(START, [START_CODE + x + (START_CODE + y) + START_CODE]).emitted
         == [[UnitOf(x), UnitOf(y)]]
  {
    CutInTwo(x, y);
    LeavesWhole(x, y);
  }

  /** The same access unit in a single chunk: the sender stops in front of the second
      start code and lets the first NAL unit go alone. */
  lemma LastEmissionSplitsAnAccessUnit(x: seq<byte>, y: seq<byte>)
    requires x != [] && y != [] && NoCode(x) && NoCode(y)
    requires !Boundary([UnitOf(x)], UnitOf(y))
    ensures var st := FeedAll(START, [START_CODE + x + (START_CODE + y)]);
            && st == Stream([[UnitOf(x)]], START_CODE + y)
            && Units(Split(START_CODE + x + (START_CODE + y))) == [[UnitOf(x), UnitOf(y)]]
  {
    var chunk := START_CODE + x + (START_CODE + y);
    SingleUnit(x);
    SingleUnit(y);
    SplitAppend(START_CODE + x, START_CODE + y);
    OneUnit([UnitOf(x), UnitOf(y)]);
    OneUnit([UnitOf(x)]);
    assert [] + chunk == chunk;
    LastCodeAt(START_CODE + x, y);
    assert chunk[..4 + |x|] == START_CODE + x && chunk[4 + |x|..] == START_CODE + y;
  }

  lemma LastCodeAt(before: seq<byte>, y: seq<byte>)
    requires NoCode(y)
    ensures LastCode(before + (START_CODE + y), |before + (START_CODE + y)|) == Some(|before|)
  {
    var data := before + (START_CODE + y);
    assert data[|before|..] == START_CODE + y && (START_CODE + y)[4..] == y;
    assert IsCode(data, |before|);
    forall j | |before| < j < |data|
      ensures !IsCode(data, j)
    {
      if j >= |before| + 4 {
        assert data[|before| + 4..] == y;
        CodeInSuffix(data, |before| + 4, j - |before| - 4);
      }
    }
  }

  lemma CutInTwo(x: seq<byte>, y: seq<byte>)
    requires x != [] && y != [] && NoCode(x) && NoCode(y)
    ensures FeedAll(START, [START_CODE + x + START_CODE, y + START_CODE])
         == Stream([[UnitOf(x)], [UnitOf(y)]], START_CODE)
  {
    var mid := FirstEmission(x);
    var end := SecondEmission(mid, y);
    FeedTwice(START, START_CODE + x + START_CODE, y + START_CODE, mid, end);
  }

  lemma FirstEmission(x: seq<byte>) returns (st: Stream)
    requires x != [] && NoCode(x)
    ensures st == Stream([[UnitOf(x)]], START_CODE) && st == Feed(START, START_CODE + x + START_CODE)
  {
    var c := START_CODE + x + START_CODE;
    assert [] + c == c;
    FeedUnit(START, c, x);
    st := Stream([[UnitOf(x)]], START_CODE);
  }

  lemma SecondEmission(mid: Stream, y: seq<byte>) returns (st: Stream)
    requires y != [] && NoCode(y) && mid.pending == START_CODE
    ensures st == Stream(mid.emitted + [[UnitOf(y)]], START_CODE) && st == Feed(mid, y + START_CODE)
  {
    Associate(START_CODE, y, START_CODE);
    FeedUnit(mid, y + START_CODE, y);
    st := Stream(mid.emitted + [[UnitOf(y)]], START_CODE);
  }

  lemma FeedUnit(st: Stream, chunk: seq<byte>, body: seq<byte>)
    requires body != [] && NoCode(body) && st.pending + chunk == START_CODE + body + START_CODE
    ensures Feed(st, chunk) == Stream(st.emitted + [[UnitOf(body)]], START_CODE)
  {
    SingleUnit(body);
    OneUnit([UnitOf(body)]);
    FeedWhole(st, chunk, START_CODE + body, [UnitOf(body)]);
  }

  lemma LeavesWhole(x: seq<byte>, y: seq<byte>)
    requires x != [] && y != [] && NoCode(x) && NoCode(y)
    requires !Boundary([UnitOf(x)], UnitOf(y))
    ensures FeedAll(START, [START_CODE + x + (START_CODE + y) + START_CODE])
         == Stream([[UnitOf(x), UnitOf(y)]], START_CODE)
  {
    SingleUnit(x);
    SingleUnit(y);
    SplitAppend(START_CODE + x, START_CODE + y);
    var out := START_CODE + x + (START_CODE + y);
    OneUnit([UnitOf(x), UnitOf(y)]);
    FeedWhole(START, out + START_CODE, out, [UnitOf(x), UnitOf(y)]);
  }

  lemma FeedTwice(st: Stream, a: seq<byte>, b: seq<byte>, mid: Stream, end: Stream)
    requires Feed(st, a) == mid && Feed(mid, b) == end
    ensures FeedAll(st, [a, b]) == end
  {
    assert [a, b][1..] == [b] && [b][1..] == [];
    assert FeedAll(mid, [b]) == FeedAll(end, []);
  }

  /** Without a boundary between its members a list is one unit. */
  lemma OneUnit(ns: seq<Nalu>)
    requires |ns| == 1 || (|ns| == 2 && !Boundary([ns[0]], ns[1]))
    ensures Units(ns) == [ns]
  {
    var g := Place(EMPTY, ns[0]);
    assert g == Grouping([], [ns[0]]);
    if |ns| == 1 {
      assert ns == [ns[0]] && Group(g, ns[1..]) == g;
    } else {
      assert [ns[0]] + [ns[1]] == ns;
      assert Place(g, ns[1]) == Grouping([], ns);
      assert Group(g, ns[1..]) == Group(Grouping([], ns), ns[1..][1..]);
    }
  }

  /** One emission, when all but a final start code is taken out and forms one unit. */
  lemma FeedWhole(st: Stream, chunk: seq<byte>, out: seq<byte>, unit: seq<Nalu>)
    requires st.pending + chunk == out + START_CODE && Split(out) == unit && Units(unit) == [unit]
    ensures Feed(st, chunk) == Stream(st.emitted + [unit], START_CODE)
    ensures FeedAll(st, [chunk]) == Feed(st, chunk)
  {
    var data := st.pending + chunk;
    assert IsCode(data, |out|);
    assert LastCode(data, |data|) == Some(|out|);
    assert data[..|out|] == out && data[|out|..] == START_CODE;
    assert [chunk][1..] == [];
  }

  // ---- The bytes of an emitted unit ----------------------------------------

  predicate Clean(n: Nalu) {
    |n.data| > 4 && n == UnitOf(n.data[4..]) && NoCode(n.data[4..])
  }

  lemma EmitIsClean(s: seq<byte>)
    requires IsCode(s, 0) && |s| > 4 && forall j :: 4 <= j ==> !IsCode(s, j)
    ensures Clean(Emit(s)[0])
  {
    assert START_CODE + s[4..] == s;
    forall j | 0 <= j <= |s[4..]| - 4
      ensures !IsCode(s[4..], j)
    {
      CodeInSuffix(s, 4, j);
    }
  }

  lemma {:induction false} SplitUnitsClean(s: seq<byte>)
    requires IsCode(s, 0)
    ensures forall i :: 0 <= i < |SplitUnits(s)| ==> Clean(SplitUnits(s)[i])
    decreases |s|
  {
    match FirstCode(s, 4)
    case None =>
      if |s| > 4 {
        EmitIsClean(s);
      }
    case Some(next) =>
      SplitUnitsClean(s[next..]);
      var head := s[..next];
      forall j | 4 <= j
        ensures !IsCode(head, j)
      {
        if 4 <= j <= |head| - 4 {
          assert IsCode(head, j) == IsCode(s, j);
        }
      }
      if |head| > 4 {
        EmitIsClean(head);
      }
  }

  lemma SplitClean(s: seq<byte>)
    ensures forall i :: 0 <= i < |Split(s)| ==> Clean(Split(s)[i])
  {
    match FirstCode(s, 0)
    case None =>
    case Some(first) =>
      SplitUnitsClean(s[first..]);
  }

  function BodiesOf(ns: seq<Nalu>): seq<seq<byte>>
    requires forall i :: 0 <= i < |ns| ==> Clean(ns[i])
  {
    if ns == [] then []
    else
      assert Clean(ns[0]);
      [ns[0].data[4..]] + BodiesOf(ns[1..])
  }

  lemma {:induction false} BytesSplitBack(ns: seq<Nalu>)
    requires forall i :: 0 <= i < |ns| ==> Clean(ns[i])
    ensures Bytes(ns) == Join(BodiesOf(ns)) && Joinable(BodiesOf(ns)) && UnitsOf(BodiesOf(ns)) == ns
    ensures Split(Bytes(ns)) == ns
  {
    if ns != [] {
      BytesSplitBack(ns[1..]);
      assert BodiesOf(ns)[1..] == BodiesOf(ns[1..]);
    }
    SplitInvertsJoin(BodiesOf(ns));
  }

  lemma {:induction false} MembersAreClean(units: seq<seq<Nalu>>, k: nat)
    requires k < |units| && forall i :: 0 <= i < |Flatten(units)| ==> Clean(Flatten(units)[i])
    ensures forall i :: 0 <= i < |units[k]| ==> Clean(units[k][i])
  {
    var all := Flatten(units);
    assert all == units[0] + Flatten(units[1..]);
    if k == 0 {
      assert forall i :: 0 <= i < |units[0]| ==> units[0][i] == all[i];
    } else {
      assert forall i :: 0 <= i < |Flatten(units[1..])| ==> Flatten(units[1..])[i] == all[|units[0]| + i];
      MembersAreClean(units[1..], k - 1);
    }
  }

  lemma EmittedIsClean(chunks: seq<seq<byte>>, k: nat)
    requires k < |FeedAll(START, chunks).emitted|
    ensures forall i :: 0 <= i < |FeedAll(START, chunks).emitted[k]| ==> Clean(FeedAll(START, chunks).emitted[k][i])
  {
    assert Split([]) == [];
    FeedAllKeeps(START, [], [], chunks);
    SplitClean([] + TakenAll(START, chunks));
    MembersAreClean(FeedAll(START, chunks).emitted, k);
  }

  /** What the receiver splits out of any unit the sender emits is that unit. */
  lemma EmittedBytesSplitBack(chunks: seq<seq<byte>>, k: nat)
    requires k < |FeedAll(START, chunks).emitted|
    ensures Split(Bytes(FeedAll(START, chunks).emitted[k])) == FeedAll(START, chunks).emitted[k]
  {
    EmittedIsClean(chunks, k);
    BytesSplitBack(FeedAll(START, chunks).emitted[k]);
  }
}
