/** The remote cursor: one sequence floor shared by TCP and UDP
    (ReceiverSession::applyCursor, src/receiver_session.cpp) and the flow detection of
    src/cursor_channel.cpp. */
module Cursors {
  import opened Common

  datatype Cursor = Cursor(x: real, y: real, visible: bool)

  datatype Message = Message(cursor: Cursor, number: Option<nat>)

  /** lastCursorSeq_, the cursor last emitted, and the two window counters. */
  datatype Tracker = Tracker(floor: nat, shown: Cursor, count: nat, lost: int)

  predicate Accepts(floor: nat, m: Message) {
    m.number.Some? ==> m.number.value > floor
  }

  /** `applyCursor`; the loss counter is an int, and so is the gap added to it. */
  function Apply(t: Tracker, m: Message): Tracker {
    if !Accepts(t.floor, m) then t.(count := t.count + 1, lost := Wrap32(t.lost + 1))
    else if m.number.Some? then
      Tracker(m.number.value, m.cursor, t.count + 1,
              Wrap32(t.lost + Wrap32(m.number.value - t.floor - 1)))
    else t.(shown := m.cursor, count := t.count + 1)
  }

  datatype Signal = FlowProven | CursorReceived(m: Message)

  /** How the session reacts to a signal. */
  function React(t: Tracker, s: Signal): Tracker {
    match s
    case FlowProven => t.(floor := 0)
    case CursorReceived(m) => Apply(t, m)
  }

  function ReactAll(t: Tracker, signals: seq<Signal>): Tracker {
    if signals == [] then t else React(ReactAll(t, signals[..|signals| - 1]), signals[|signals| - 1])
  }

  class CursorTracker {
    var lastCursorSeq: nat
    var cursorThisWindow: nat
    var cursorLostThisWindow: int
    var emitted: Cursor

    ghost function Abs(): Tracker
      reads this
    {
      Tracker(lastCursorSeq, emitted, cursorThisWindow, cursorLostThisWindow)
    }

    constructor (hidden: Cursor)
      ensures Abs() == Tracker(0, hidden, 0, 0)
    {
      lastCursorSeq, cursorThisWindow, cursorLostThisWindow := 0, 0, 0;
      emitted := hidden;
    }

    method ApplyCursor(m: Message)
      modifies this
      ensures Abs() == Apply(old(Abs()), m)
    {
      cursorThisWindow := cursorThisWindow + 1;
      if m.number.Some? {
        if m.number.value <= lastCursorSeq {
          cursorLostThisWindow := Wrap32(cursorLostThisWindow + 1);
          return;
        }
        cursorLostThisWindow :=
          Wrap32(cursorLostThisWindow + Wrap32(m.number.value - lastCursorSeq - 1));
        lastCursorSeq := m.number.value;
      }
      emitted := m.cursor;
    }

    /** flowProven: the shared sequence starts over. */
    method RestartSequence()
      modifies this
      ensures Abs() == old(Abs()).(floor := 0)
    {
      lastCursorSeq := 0;
    }

    /** The slots connected to the cursor channel. */
    method OnSignals(signals: seq<Signal>)
      modifies this
      ensures Abs() == ReactAll(old(Abs()), signals)
    {
      var i := 0;
      while i < |signals|
        invariant 0 <= i <= |signals| && Abs() == ReactAll(old(Abs()), signals[..i])
      {
        assert signals[..i + 1][..i] == signals[..i];
        match signals[i] {
          case FlowProven => RestartSequence();
          case CursorReceived(m) => ApplyCursor(m);
        }
        i := i + 1;
      }
      assert signals[..i] == signals;
    }

    /** The counters' part of rebuildStats. */
    method CloseWindow() returns (lost: int)
      modifies this
      ensures lost == old(cursorLostThisWindow)
      ensures Abs() == old(Abs()).(count := 0, lost := 0)
    {
      lost := cursorLostThisWindow;
      cursorThisWindow := 0;
      cursorLostThisWindow := 0;
    }
  }

  // ---- One flow: a last-writer-wins register -------------------------------

  function Max(a: nat, b: nat): nat {
    if a < b then b else a
  }

  function NumberOr(m: Message, none: nat): nat {
    if m.number.Some? then m.number.value else none
  }

  /** The highest of `floor` and the sequence numbers of `ms`. */
  function Highest(floor: nat, ms: seq<Message>): (h: nat)
    ensures floor <= h
  {
    if ms == [] then floor
    else Max(Highest(floor, ms[..|ms| - 1]), NumberOr(ms[|ms| - 1], 0))
  }

  function ApplyAll(t: Tracker, ms: seq<Message>): Tracker {
    if ms == [] then t else Apply(ApplyAll(t, ms[..|ms| - 1]), ms[|ms| - 1])
  }

  /** The floor is the running maximum of the numbers seen. */
  lemma {:induction false} FloorIsRunningMaximum(t: Tracker, ms: seq<Message>)
    ensures ApplyAll(t, ms).floor == Highest(t.floor, ms)
  {
    if ms != [] {
      FloorIsRunningMaximum(t, ms[..|ms| - 1]);
    }
  }

  /** A sequenced message gets through exactly when its number exceeds the first floor and
      every number before it. */
  lemma AcceptedAreRunningMaxima(t: Tracker, ms: seq<Message>, i: nat)
    requires i < |ms| && ms[i].number.Some?
    ensures Accepts(ApplyAll(t, ms[..i]).floor, ms[i])
        <==> ms[i].number.value > t.floor
             && forall j :: 0 <= j < i && ms[j].number.Some? ==> ms[j].number.value < ms[i].number.value
  {
    var before := ms[..i];
    var h := Highest(t.floor, before);
    FloorIsRunningMaximum(t, before);
    HighestBounds(t.floor, before);
    assert forall j :: 0 <= j < i ==> before[j] == ms[j];
    if h != t.floor {
      var j :| 0 <= j < |before| && before[j].number == Some(h);
      assert ms[j].number == Some(h);
    }
  }

  lemma {:induction false} HighestBounds(floor: nat, ms: seq<Message>)
    ensures forall i :: 0 <= i < |ms| && ms[i].number.Some? ==> ms[i].number.value <= Highest(floor, ms)
    ensures Highest(floor, ms) == floor
         || exists i :: 0 <= i < |ms| && ms[i].number == Some(Highest(floor, ms))
  {
    if ms != [] {
      var n := |ms| - 1;
      HighestBounds(floor, ms[..n]);
      forall i | 0 <= i < |ms| && ms[i].number.Some?
        ensures ms[i].number.value <= Highest(floor, ms)
      {
        if i < n {
          assert ms[..n][i] == ms[i];
        }
      }
      if Highest(floor, ms) != floor {
        if Highest(floor, ms) == Highest(floor, ms[..n]) {
          var i :| 0 <= i < |ms[..n]| && ms[..n][i].number == Some(Highest(floor, ms));
          assert ms[i].number == Some(Highest(floor, ms));
        } else {
          assert ms[n].number == Some(Highest(floor, ms));
        }
      }
    }
  }

  predicate Sequenced(ms: seq<Message>) {
    forall i :: 0 <= i < |ms| ==> ms[i].number.Some?
  }

  /** Equal numbers carry equal positions. */
  predicate Consistent(ms: seq<Message>) {
    forall i, j :: 0 <= i < |ms| && 0 <= j < |ms| && ms[i].number == ms[j].number ==>
      ms[i].cursor == ms[j].cursor
  }

  /** What is shown is the cursor of the highest number, or what was there before. */
  lemma {:induction false} ShownIsWinner(t: Tracker, ms: seq<Message>)
    requires Sequenced(ms)
    ensures var h := Highest(t.floor, ms);
            if h == t.floor then ApplyAll(t, ms).shown == t.shown
            else exists i :: 0 <= i < |ms| && ms[i].number == Some(h) && ApplyAll(t, ms).shown == ms[i].cursor
  {
    if ms != [] {
      var n := |ms| - 1;
      var before := ms[..n];
      ShownIsWinner(t, before);
      FloorIsRunningMaximum(t, before);
      if ms[n].number.value > Highest(t.floor, before) {
        assert ms[n].number == Some(Highest(t.floor, ms));
      } else if Highest(t.floor, ms) != t.floor {
        var i :| 0 <= i < |before| && before[i].number == Some(Highest(t.floor, ms))
                 && ApplyAll(t, before).shown == before[i].cursor;
        assert ms[i] == before[i];
      }
    }
  }

  /** Message `i` reaches the screen: it carries no number, or one above the first floor
      and above every number before it. */
  predicate GetsThrough(floor: nat, ms: seq<Message>, i: nat)
    requires i < |ms|
  {
    ms[i].number.None? ||
    (ms[i].number.value > floor
     && forall j :: 0 <= j < i && ms[j].number.Some? ==> ms[j].number.value < ms[i].number.value)
  }

  lemma PrefixGetsThrough(floor: nat, ms: seq<Message>, n: nat, i: nat)
    requires i < n <= |ms|
    ensures GetsThrough(floor, ms[..n], i) == GetsThrough(floor, ms, i)
  {
    var before := ms[..n];
    assert before[i] == ms[i];
    assert forall j :: 0 <= j < i ==> before[j] == ms[j];
  }

  /** The newest message that gets through, if any does. */
  predicate IsLastThrough(floor: nat, ms: seq<Message>, i: nat) {
    i < |ms| && GetsThrough(floor, ms, i) && forall j :: i < j < |ms| ==> !GetsThrough(floor, ms, j)
  }

  predicate NoneThrough(floor: nat, ms: seq<Message>) {
    forall i :: 0 <= i < |ms| ==> !GetsThrough(floor, ms, i)
  }

  lemma EarlierThrough(floor: nat, ms: seq<Message>, i: nat)
    requires ms != [] && !GetsThrough(floor, ms, |ms| - 1)
    ensures NoneThrough(floor, ms) ==> NoneThrough(floor, ms[..|ms| - 1])
    ensures IsLastThrough(floor, ms, i) ==> IsLastThrough(floor, ms[..|ms| - 1], i)
  {
    var n := |ms| - 1;
    forall j | 0 <= j < n
      ensures GetsThrough(floor, ms[..n], j) == GetsThrough(floor, ms, j)
    {
      PrefixGetsThrough(floor, ms, n, j);
    }
  }

  /** For any mix of sequenced and unsequenced messages: shown is the last one that gets
      through, or what was there before; and every message is counted. */
  lemma {:induction false} ShownIsLastThrough(t: Tracker, ms: seq<Message>, i: nat)
    ensures NoneThrough(t.floor, ms) ==> ApplyAll(t, ms).shown == t.shown
    ensures IsLastThrough(t.floor, ms, i) ==> ApplyAll(t, ms).shown == ms[i].cursor
    ensures ApplyAll(t, ms).count == t.count + |ms|
    decreases |ms|
  {
    if ms != [] {
      var n := |ms| - 1;
      ShownIsLastThrough(t, ms[..n], i);
      LastGetsThrough(t, ms);
      if !GetsThrough(t.floor, ms, n) {
        EarlierThrough(t.floor, ms, i);
      }
    }
  }

  lemma LastGetsThrough(t: Tracker, ms: seq<Message>)
    requires ms != []
    ensures var n := |ms| - 1;
            ApplyAll(t, ms).shown
            == if GetsThrough(t.floor, ms, n) then ms[n].cursor else ApplyAll(t, ms[..n]).shown
  {
    var n := |ms| - 1;
    if ms[n].number.Some? {
      AcceptedAreRunningMaxima(t, ms, n);
    }
  }

  predicate Among(ms: seq<Message>, ns: seq<Message>) {
    forall i :: 0 <= i < |ms| ==> ms[i] in ns
  }

  lemma SameMembers(ms: seq<Message>, ns: seq<Message>)
    requires multiset(ms) == multiset(ns)
    ensures Among(ms, ns) && Among(ns, ms)
  {
    forall i | 0 <= i < |ms|
      ensures ms[i] in ns
    {
      assert ms[i] in multiset(ns);
    }
    forall i | 0 <= i < |ns|
      ensures ns[i] in ms
    {
      assert ns[i] in multiset(ms);
    }
  }

  /** Any two arrival orders of the same datagrams end in the same floor and show the same
      cursor, whatever was there before. */
  lemma OrderDoesNotMatter(t: Tracker, ms: seq<Message>, ns: seq<Message>)
    requires multiset(ms) == multiset(ns) && Sequenced(ms) && Consistent(ms)
    ensures ApplyAll(t, ms).floor == ApplyAll(t, ns).floor
    ensures ApplyAll(t, ms).shown == ApplyAll(t, ns).shown
  {
    SameMembers(ms, ns);
    FloorIsRunningMaximum(t, ms);
    FloorIsRunningMaximum(t, ns);
    HighestDependsOnMembers(t.floor, ms, ns);
    HighestDependsOnMembers(t.floor, ns, ms);
    SameWinner(t, ms, ns);
  }

  lemma SameWinner(t: Tracker, ms: seq<Message>, ns: seq<Message>)
    requires Among(ns, ms) && Sequenced(ms) && Consistent(ms)
    requires Highest(t.floor, ms) == Highest(t.floor, ns)
    ensures ApplyAll(t, ms).shown == ApplyAll(t, ns).shown
  {
    var h := Highest(t.floor, ms);
    forall i | 0 <= i < |ns|
      ensures ns[i].number.Some?
    {
      var j :| 0 <= j < |ms| && ms[j] == ns[i];
    }
    ShownIsWinner(t, ms);
    ShownIsWinner(t, ns);
    if h != t.floor {
      var i :| 0 <= i < |ms| && ms[i].number == Some(h) && ApplyAll(t, ms).shown == ms[i].cursor;
      var k :| 0 <= k < |ns| && ns[k].number == Some(h) && ApplyAll(t, ns).shown == ns[k].cursor;
      var j :| 0 <= j < |ms| && ms[j] == ns[k];
      assert ms[i].cursor == ms[j].cursor;
    }
  }

  lemma HighestDependsOnMembers(floor: nat, ms: seq<Message>, ns: seq<Message>)
    requires Among(ms, ns)
    ensures Highest(floor, ms) <= Highest(floor, ns)
  {
    HighestBounds(floor, ms);
    HighestBounds(floor, ns);
    if Highest(floor, ms) != floor {
      var i :| 0 <= i < |ms| && ms[i].number == Some(Highest(floor, ms));
      var j :| 0 <= j < |ns| && ns[j] == ms[i];
    }
  }

  // ---- Loss accounting -----------------------------------------------------

  datatype Event = Arrive(m: Message) | Window

  /** The tracker, the reports sent, and the losses of the open and of the closed windows
      counted without a width limit. */
  datatype Ledger = Ledger(t: Tracker, reports: seq<int>, open: int, closed: seq<int>)

  function ExactLoss(floor: nat, m: Message): int {
    if m.number.None? then 0
    else if m.number.value <= floor then 1
    else m.number.value - floor - 1
  }

  function Advance(l: Ledger, e: Event): Ledger {
    match e
    case Arrive(m) => l.(t := Apply(l.t, m), open := l.open + ExactLoss(l.t.floor, m))
    case Window =>
      Ledger(l.t.(count := 0, lost := 0), l.reports + [l.t.lost], 0, l.closed + [l.open])
  }

  function AdvanceAll(l: Ledger, events: seq<Event>): Ledger {
    if events == [] then l else Advance(AdvanceAll(l, events[..|events| - 1]), events[|events| - 1])
  }

  function Messages(events: seq<Event>): seq<Message> {
    if events == [] then []
    else
      var e := events[|events| - 1];
      Messages(events[..|events| - 1]) + if e.Arrive? then [e.m] else []
  }

  function Sum(values: seq<int>): int {
    if values == [] then 0 else Sum(values[..|values| - 1]) + values[|values| - 1]
  }

  /** Sequenced messages that were strict running maxima, and those that were not. */
  function AcceptedCount(floor: nat, ms: seq<Message>): nat {
    if ms == [] then 0
    else
      var before, m := ms[..|ms| - 1], ms[|ms| - 1];
      AcceptedCount(floor, before)
      + if m.number.Some? && m.number.value > Highest(floor, before) then 1 else 0
  }

  function RejectedCount(floor: nat, ms: seq<Message>): nat {
    if ms == [] then 0
    else
      var before, m := ms[..|ms| - 1], ms[|ms| - 1];
      RejectedCount(floor, before)
      + if m.number.Some? && m.number.value <= Highest(floor, before) then 1 else 0
  }

  /** A counter is the exact loss of its window in 32 bits. */
  predicate CountersExact(l: Ledger) {
    && l.t.lost == Wrap32(l.open)
    && |l.reports| == |l.closed|
    && forall i :: 0 <= i < |l.reports| ==> l.reports[i] == Wrap32(l.closed[i])
  }

  lemma WrapAdd(a: int, b: int)
    ensures Wrap32(Wrap32(a) + Wrap32(b)) == Wrap32(a + b)
  {
    WrapSum(a, Wrap32(b));
    WrapSum(b, a);
  }

  lemma AdvanceKeepsCountersExact(l: Ledger, e: Event)
    requires CountersExact(l)
    ensures CountersExact(Advance(l, e))
  {
    match e
    case Arrive(m) =>
      var gap := ExactLoss(l.t.floor, m);
      WrapAdd(l.open, gap);
      assert Wrap32(l.t.lost + Wrap32(gap)) == Wrap32(l.open + gap);
      assert Wrap32(1) == 1;
    case Window =>
      assert Wrap32(0) == 0;
  }

  /** Every window's report is its exact loss in 32 bits. */
  lemma {:induction false} CountersStayExact(l: Ledger, events: seq<Event>)
    requires CountersExact(l)
    ensures CountersExact(AdvanceAll(l, events))
  {
    if events != [] {
      CountersStayExact(l, events[..|events| - 1]);
      AdvanceKeepsCountersExact(AdvanceAll(l, events[..|events| - 1]), events[|events| - 1]);
    }
  }

  /** The books balance over every run: losses of the closed windows and of the open one
      are the growth of the floor, less the messages accepted, plus those rejected. */
  lemma {:induction false} LossBalances(l: Ledger, events: seq<Event>)
    requires l.open == 0 && l.closed == []
    ensures var r, ms := AdvanceAll(l, events), Messages(events);
            && r.t.floor == Highest(l.t.floor, ms)
            && Sum(r.closed) + r.open
               == r.t.floor - l.t.floor - AcceptedCount(l.t.floor, ms) + RejectedCount(l.t.floor, ms)
  {
    if events != [] {
      var before := AdvanceAll(l, events[..|events| - 1]);
      LossBalances(l, events[..|events| - 1]);
      match events[|events| - 1]
      case Arrive(m) =>
        var ms := Messages(events);
        assert ms[..|ms| - 1] == Messages(events[..|events| - 1]);
      case Window =>
        assert Messages(events) == Messages(events[..|events| - 1]);
        SumSnoc(before.closed, before.open);
    }
  }

  lemma SumSnoc(values: seq<int>, last: int)
    ensures Sum(values + [last]) == Sum(values) + last
  {
    assert (values + [last])[..|values|] == values;
  }

  /** While the losses of a window fit an int, its report is exact. */
  lemma ReportsAreExactInRange(l: Ledger, events: seq<Event>, i: nat)
    requires CountersExact(l) && i < |AdvanceAll(l, events).closed|
    requires -INT32_HALF <= AdvanceAll(l, events).closed[i] <= INT32_MAX
    ensures var r := AdvanceAll(l, events);
            i < |r.reports| && r.reports[i] == r.closed[i]
  {
    CountersStayExact(l, events);
  }

  // ---- The UDP channel -----------------------------------------------------

  datatype Sender = Sender(address: int, port: nat)

  /** One datagram; None where it carries no sequenced cursor message. */
  datatype Datagram = Datagram(sender: Sender, message: Option<Message>)

  predicate Usable(d: Datagram) {
    d.message.Some? && d.message.value.number.Some?
  }

  /** The flow after a datagram, and what the channel emits for it. */
  function FlowAfter(flow: Option<Sender>, d: Datagram): Option<Sender> {
    if Usable(d) then Some(d.sender) else flow
  }

  function SignalsFor(flow: Option<Sender>, d: Datagram): seq<Signal> {
    if !Usable(d) then []
    else (if flow != Some(d.sender) then [FlowProven] else []) + [CursorReceived(d.message.value)]
  }

  function FlowAfterAll(flow: Option<Sender>, ds: seq<Datagram>): Option<Sender> {
    if ds == [] then flow else FlowAfter(FlowAfterAll(flow, ds[..|ds| - 1]), ds[|ds| - 1])
  }

  function SignalsForAll(flow: Option<Sender>, ds: seq<Datagram>): seq<Signal> {
    if ds == [] then []
    else SignalsForAll(flow, ds[..|ds| - 1])
         + SignalsFor(FlowAfterAll(flow, ds[..|ds| - 1]), ds[|ds| - 1])
  }

  class CursorChannel {
    var flowSeen: bool
    var flow: Sender

    ghost function Flow(): Option<Sender>
      reads this
    {
      if flowSeen then Some(flow) else None
    }

    constructor ()
      ensures Flow() == None
    {
      flowSeen := false;
      flow := Sender(0, 0);
    }

    method OnDatagrams(datagrams: seq<Datagram>) returns (signals: seq<Signal>)
      modifies this
      ensures signals == SignalsForAll(old(Flow()), datagrams)
      ensures Flow() == FlowAfterAll(old(Flow()), datagrams)
    {
      signals := [];
      var i := 0;
      while i < |datagrams|
        invariant 0 <= i <= |datagrams|
        invariant signals == SignalsForAll(old(Flow()), datagrams[..i])
        invariant Flow() == FlowAfterAll(old(Flow()), datagrams[..i])
      {
        var d := datagrams[i];
        assert datagrams[..i + 1][..i] == datagrams[..i];
        i := i + 1;
        if d.message.None? || d.message.value.number.None? {
          continue;
        }
        var newFlow := !flowSeen || d.sender != flow;
        if newFlow {
          flow := d.sender;
          flowSeen := true;
          signals := signals + [FlowProven];
        }
        signals := signals + [CursorReceived(d.message.value)];
      }
      assert datagrams[..i] == datagrams;
    }
  }

  /** The datagrams that carry a sequenced cursor message. */
  function Carriers(ds: seq<Datagram>): seq<Datagram> {
    if ds == [] then []
    else
      var d := ds[|ds| - 1];
      Carriers(ds[..|ds| - 1]) + if d.message.Some? && d.message.value.number.Some? then [d] else []
  }

  function SenderBefore(flow: Option<Sender>, us: seq<Datagram>, k: nat): Option<Sender>
    requires k <= |us|
  {
    if k == 0 then flow else Some(us[k - 1].sender)
  }

  /** What the channel owes for its carriers: each message, preceded by flowProven exactly
      where address or port differ from the carrier before. */
  function Owed(flow: Option<Sender>, us: seq<Datagram>, k: nat): seq<Signal>
    requires k <= |us|
    requires forall i :: 0 <= i < |us| ==> us[i].message.Some?
  {
    if k == 0 then []
    else
      var was, now := SenderBefore(flow, us, k - 1), us[k - 1].sender;
      var known := was.Some? && was.value.address == now.address && was.value.port == now.port;
      Owed(flow, us, k - 1) + (if known then [] else [FlowProven]) + [CursorReceived(us[k - 1].message.value)]
  }

  lemma {:induction false} CarriersCarry(ds: seq<Datagram>)
    ensures forall i :: 0 <= i < |Carriers(ds)| ==> Carriers(ds)[i].message.Some?
  {
    if ds != [] {
      CarriersCarry(ds[..|ds| - 1]);
    }
  }

  lemma {:induction false} OwedOfPrefix(flow: Option<Sender>, us: seq<Datagram>, d: Datagram, k: nat)
    requires k <= |us| && d.message.Some? && forall i :: 0 <= i < |us| ==> us[i].message.Some?
    ensures Owed(flow, us + [d], k) == Owed(flow, us, k)
  {
    if k > 0 {
      OwedOfPrefix(flow, us, d, k - 1);
    }
  }

  /** Over any datagrams the channel emits what it owes for the carriers, and its flow is
      the sender of the last one. */
  lemma {:induction false} SignalsAreOwed(flow: Option<Sender>, ds: seq<Datagram>)
    ensures forall i :: 0 <= i < |Carriers(ds)| ==> Carriers(ds)[i].message.Some?
    ensures SignalsForAll(flow, ds) == Owed(flow, Carriers(ds), |Carriers(ds)|)
    ensures FlowAfterAll(flow, ds) == SenderBefore(flow, Carriers(ds), |Carriers(ds)|)
  {
    CarriersCarry(ds);
    if ds != [] {
      var before, d := ds[..|ds| - 1], ds[|ds| - 1];
      SignalsAreOwed(flow, before);
      if Usable(d) {
        OwedOfPrefix(flow, Carriers(before), d, |Carriers(before)|);
        assert Carriers(ds) == Carriers(before) + [d];
        CarrierIsOwed(flow, Carriers(before), d);
      } else {
        assert Carriers(ds) == Carriers(before);
        assert SignalsForAll(flow, ds) == SignalsForAll(flow, before) + [];
      }
    }
  }

  lemma CarrierIsOwed(flow: Option<Sender>, us: seq<Datagram>, d: Datagram)
    requires Usable(d) && forall i :: 0 <= i < |us| ==> us[i].message.Some?
    ensures Owed(flow, us + [d], |us| + 1)
         == Owed(flow, us + [d], |us|) + SignalsFor(SenderBefore(flow, us, |us|), d)
  {
    var all := us + [d];
    assert SenderBefore(flow, all, |us|) == SenderBefore(flow, us, |us|);
    Associate(Owed(flow, all, |us|),
              if SenderBefore(flow, us, |us|) == Some(d.sender) then [] else [FlowProven],
              [CursorReceived(d.message.value)]);
  }

  /** The messages of the flow that is live after `ds`, since it became live. */
  function LiveMessages(flow: Option<Sender>, ds: seq<Datagram>): seq<Message> {
    if ds == [] then []
    else
      var before, d := ds[..|ds| - 1], ds[|ds| - 1];
      if !Usable(d) then LiveMessages(flow, before)
      else if FlowAfterAll(flow, before) != Some(d.sender) then [d.message.value]
      else LiveMessages(flow, before) + [d.message.value]
  }

  predicate FlowChanges(flow: Option<Sender>, ds: seq<Datagram>) {
    exists i :: 0 <= i < |ds| && Usable(ds[i]) && FlowAfterAll(flow, ds[..i]) != Some(ds[i].sender)
  }

  lemma {:induction false} ReactAppend(t: Tracker, a: seq<Signal>, b: seq<Signal>)
    ensures ReactAll(t, a + b) == ReactAll(ReactAll(t, a), b)
  {
    if b == [] {
      assert a + b == a;
    } else {
      var m := |b| - 1;
      assert (a + b)[..|a + b| - 1] == a + b[..m];
      ReactAppend(t, a, b[..m]);
    }
  }

  lemma ReactOne(t: Tracker, s: Signal)
    ensures ReactAll(t, [s]) == React(t, s)
  {
    assert [s][..0] == [];
  }

  /** One datagram resets the floor first when it opens a flow, then raises it. */
  lemma SignalsMoveFloor(t: Tracker, flow: Option<Sender>, d: Datagram)
    ensures ReactAll(t, SignalsFor(flow, d)).floor
         == if !Usable(d) then t.floor
            else Max(if flow != Some(d.sender) then 0 else t.floor, d.message.value.number.value)
  {
    if Usable(d) {
      var m := d.message.value;
      ReactAppend(t, [FlowProven], [CursorReceived(m)]);
      ReactOne(t, FlowProven);
      ReactOne(t, CursorReceived(m));
      ReactOne(t.(floor := 0), CursorReceived(m));
      if flow == Some(d.sender) {
        assert SignalsFor(flow, d) == [CursorReceived(m)];
      }
    }
  }

  lemma HighestSnoc(floor: nat, ms: seq<Message>, m: Message)
    ensures Highest(floor, ms + [m]) == Max(Highest(floor, ms), NumberOr(m, 0))
  {
    assert (ms + [m])[..|ms|] == ms;
  }

  /** The floor is reset before the datagram that opens a flow is applied: afterwards it is
      the maximum over the live flow alone, and no other flow's numbers play a part. */
  lemma {:induction false} FloorFollowsLiveFlow(t: Tracker, flow: Option<Sender>, ds: seq<Datagram>)
    ensures ReactAll(t, SignalsForAll(flow, ds)).floor
         == Highest(if FlowChanges(flow, ds) then 0 else t.floor, LiveMessages(flow, ds))
  {
    if ds != [] {
      var before, d := ds[..|ds| - 1], ds[|ds| - 1];
      var current := FlowAfterAll(flow, before);
      FloorFollowsLiveFlow(t, flow, before);
      ReactAppend(t, SignalsForAll(flow, before), SignalsFor(current, d));
      SignalsMoveFloor(ReactAll(t, SignalsForAll(flow, before)), current, d);
      FlowChangesSnoc(flow, before, d);
      assert ds == before + [d];
      if Usable(d) {
        HighestSnoc(0, [], d.message.value);
        assert [] + [d.message.value] == [d.message.value];
        HighestSnoc(if FlowChanges(flow, before) then 0 else t.floor, LiveMessages(flow, before), d.message.value);
      }
    }
  }

  lemma FlowChangesSnoc(flow: Option<Sender>, before: seq<Datagram>, d: Datagram)
    ensures FlowChanges(flow, before + [d])
         == (FlowChanges(flow, before) || (Usable(d) && FlowAfterAll(flow, before) != Some(d.sender)))
  {
    var ds := before + [d];
    assert ds[..|before|] == before;
    forall i | 0 <= i < |before|
      ensures ds[..i] == before[..i] && ds[i] == before[i]
    {
    }
    if FlowChanges(flow, before) {
      var i :| 0 <= i < |before| && Usable(before[i]) && FlowAfterAll(flow, before[..i]) != Some(before[i].sender);
      assert Usable(ds[i]) && FlowAfterAll(flow, ds[..i]) != Some(ds[i].sender);
    } else if Usable(d) && FlowAfterAll(flow, before) != Some(d.sender) {
      assert Usable(ds[|before|]) && FlowAfterAll(flow, ds[..|before|]) != Some(ds[|before|].sender);
    }
  }
}
