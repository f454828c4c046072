/** Invariants of every reachable session state, and what each socket is sent. */
module SessionTheorems {
  import opened Common
  import opened Session
  import Demux
  import Wire

  // ---- Wiring: who is live, who is proving ---------------------------------

  predicate Distinct(pending: seq<Socket>) {
    forall i, j :: 0 <= i < j < |pending| ==> pending[i] != pending[j]
  }

  function LastOr(signals: seq<bool>, none: bool): bool {
    if signals == [] then none else signals[|signals| - 1]
  }

  /** The live socket is open, served and not proving itself; the proving ones are open,
      distinct and unserved; connectedChanged was last raised with connected(). */
  predicate Wired(s: State) {
    && (s.connection.Some? ==>
          s.connection.value in s.open && s.connection.value in s.serving && s.connection.value !in s.pending)
    && Distinct(s.pending)
    && (forall k :: k in s.pending ==> k in s.open && k in s.proving && k !in s.serving)
    && (forall k :: k in s.serving && k in s.open ==> s.connection == Some(k))
    && (forall k :: k in s.proving && k in s.open && k !in s.pending ==>
          k in s.doomed || s.connection == Some(k))
    && s.open + s.proving + s.serving <= s.out.Keys
    && LastOr(s.connectedSignals, false) == s.connection.Some?
  }

  lemma {:induction false} WithoutFacts(pending: seq<Socket>, k: Socket)
    requires Distinct(pending)
    ensures Distinct(Without(pending, k)) && k !in Without(pending, k)
    ensures forall m :: m in Without(pending, k) <==> m in pending && m != k
  {
    if pending != [] {
      var rest := Without(pending[1..], k);
      WithoutFacts(pending[1..], k);
      assert pending == [pending[0]] + pending[1..];
      assert pending[0] !in pending[1..];
      assert pending[0] !in rest;
    }
  }

  lemma SendWired(s: State, to: Option<Socket>, m: Control)
    requires Wired(s)
    ensures Wired(Send(s, to, m))
  {
  }

  lemma DropWired(s: State)
    requires Wired(s)
    ensures Wired(Drop(s))
  {
  }

  lemma FeedWired(s: State, data: seq<byte>)
    requires Wired(s)
    ensures Wired(Feed(s, data))
  {
    DropWired(s.(fed := s.fed + data));
  }

  /** What must hold of a socket for it to be adopted. */
  predicate Adoptable(s: State, k: Socket, greeted: bool) {
    && k in s.open && k !in s.serving && s.connection != Some(k)
    && (greeted ==> k in s.out)
  }

  /** Adopting leaves one live socket, an empty list of proving ones, and no other served
      socket that can raise a signal. */
  lemma AdoptWired(s: State, k: Socket, greeted: bool, data: seq<byte>)
    requires Wired(s.(open := s.open - {k})) || Wired(s)
    requires Adoptable(s, k, greeted)
    ensures Wired(Adopt(s, k, greeted, data)) && Adopt(s, k, greeted, data).pending == []
  {
    var cut := Abort(s, LiveSet(s) + (Members(s.pending) - {k}));
    var live := cut.(connection := Some(k), pending := [], fed := [],
                     serving := cut.serving + {k}, connectedSignals := s.connectedSignals + [true]);
    var hailed := if greeted then live else Send(live, Some(k), Hello);
    assert k in hailed.out;
    AdoptedIsWired(s, k, hailed);
    FeedWired(hailed, data);
  }

  lemma AdoptedIsWired(s: State, k: Socket, t: State)
    requires Wired(s.(open := s.open - {k})) || Wired(s)
    requires Adoptable(s, k, true) || Adoptable(s, k, false)
    requires var cut := Abort(s, LiveSet(s) + (Members(s.pending) - {k}));
      && t.connection == Some(k) && t.pending == [] && t.open == cut.open && t.proving == cut.proving
      && t.serving == cut.serving + {k} && t.doomed == s.doomed
      && t.connectedSignals == s.connectedSignals + [true]
      && s.out.Keys <= t.out.Keys && k in t.out
    ensures Wired(t)
  {
    assert k in t.open;
    forall m | m in t.serving && m in t.open
      ensures t.connection == Some(m)
    {
    }
    forall m | m in t.proving && m in t.open && m !in t.pending
      ensures m in t.doomed || t.connection == Some(m)
    {
    }
  }

  lemma AcceptWired(s: State, k: Socket)
    requires Wired(s) && Enabled(s, NewConnection(k))
    ensures Wired(Accept(s, k))
  {
    var t := s.(open := s.open + {k});
    if s.connection.Some? {
      assert k !in s.pending;
    } else {
      assert t.(open := t.open - {k}).open == s.open;
      AdoptWired(t, k, false, []);
    }
  }

  lemma ProveWired(s: State, k: Socket, data: seq<byte>)
    requires Wired(s) && k in s.open && k in s.proving
    ensures Wired(Prove(s, k, data))
  {
    if k in s.pending {
      WithoutFacts(s.pending, k);
      var t := s.(pending := Without(s.pending, k));
      if data != [] {
        var u := t.(doomed := t.doomed + {k});
        assert Wired(t.(open := t.open - {k}));
        AdoptWired(t, k, true, data);
      }
    }
  }

  lemma ReadyReadWired(s: State, k: Socket, data: seq<byte>)
    requires Wired(s) && k in s.open
    ensures Wired(ReadyRead(s, k, data))
  {
    var t := s.(delivered := s.delivered[k := Delivered(s, k) + data]);
    if k in s.proving {
      ProveWired(t, k, data);
      if k in s.serving {
        FeedWired(Prove(t, k, data), []);
      }
    } else if k in s.serving {
      FeedWired(t, data);
    }
  }

  lemma DisconnectedWired(s: State, k: Socket)
    requires Wired(s)
    ensures Wired(Disconnected(s, k))
  {
    WithoutFacts(s.pending, k);
  }

  lemma StepWired(s: State, e: Event)
    requires Wired(s) && Enabled(s, e)
    ensures Wired(Step(s, e))
  {
    match e
    case NewConnection(k) => AcceptWired(s, k);
    case DataReady(k, data) => ReadyReadWired(s, k, data);
    case PeerGone(k) => DisconnectedWired(s, k);
    case WatchdogExpired => DropWired(s);
    case Shutdown =>
      SendWired(s, s.connection, Closing);
      DropWired(Send(s, s.connection, Closing));
    case Suspend =>
      SendWired(s, s.connection, Sleeping);
      DropWired(Send(s, s.connection, Sleeping));
    case _ =>
  }

  // ---- Who can replace a live session --------------------------------------

  /** While socket `c` is live, another one becomes live in one step exactly when it was
      proving itself and its first read brought bytes that frame correctly. */
  lemma SupersededIff(s: State, e: Event, c: Socket, d: Socket)
    requires Wired(s) && Enabled(s, e) && s.connection == Some(c) && d != c
    ensures Step(s, e).connection == Some(d)
       <==> e.DataReady? && e.k == d && d in s.pending && e.data != [] && !Wire.Drain(e.data).failed
  {
    if e.DataReady? && e.k == d && d in s.pending {
      assert d in s.proving && d !in s.serving;
      assert [] + e.data == e.data;
    }
  }

  /** A twin that only connects, or raises an empty read, leaves the live session alone. */
  lemma SilentTwinIsHarmless(s: State, k: Socket, c: Socket)
    requires Wired(s) && s.connection == Some(c) && k != c
    ensures Enabled(s, NewConnection(k)) ==> Step(s, NewConnection(k)).connection == Some(c)
    ensures k in s.open ==> Step(s, DataReady(k, [])).connection == Some(c)
    ensures k in s.open ==> Step(s, PeerGone(k)).connection == Some(c)
  {
  }

  /** A socket that becomes live finds nobody else: the one before it and every rival are
      cut off, nothing is left proving itself, and connectedChanged(true) was raised last. */
  lemma AdoptionClearsTheField(s: State, e: Event, d: Socket)
    requires Wired(s) && Enabled(s, e)
    requires Step(s, e).connection == Some(d) && s.connection != Some(d)
    ensures var t := Step(s, e);
            && t.pending == [] && LastOr(t.connectedSignals, false)
            && (s.connection.Some? ==> s.connection.value !in t.open)
            && forall k :: k in s.pending && k != d ==> k !in t.open
  {
    if e.DataReady? && e.k in s.pending {
      WithoutFacts(s.pending, e.k);
      assert forall k :: k in s.pending && k != e.k ==> k in Members(Without(s.pending, e.k));
    }
  }

  // ---- What a socket is sent -----------------------------------------------

  predicate Farewell(m: Control) {
    m.Closing? || m.Sleeping?
  }

  /** hello, then messages that are no farewell, then at most one farewell; a scroll never. */
  predicate LogOk(log: seq<Control>) {
    && log != [] && log[0] == Hello
    && (forall i :: 0 <= i < |log| - 1 ==> !Farewell(log[i]))
    && (forall i :: 0 <= i < |log| ==> log[i] != Scroll)
  }

  predicate LogOpen(log: seq<Control>) {
    log != [] && !Farewell(log[|log| - 1])
  }

  predicate Spoken(s: State) {
    && (forall k :: k in s.out ==> LogOk(s.out[k]))
    && (forall k :: k in s.out && k in s.open ==> LogOpen(s.out[k]))
    && (forall k :: k in s.pending ==> k in s.out && s.out[k] == [Hello])
  }

  lemma SendSpoken(s: State, k: Socket, m: Control)
    requires Spoken(s) && k in s.out && k in s.open && k !in s.pending && m != Scroll && !Farewell(m)
    ensures Spoken(Send(s, Some(k), m))
  {
  }

  /** A farewell is followed by the drop. */
  lemma FarewellSpoken(s: State, m: Control)
    requires Wired(s) && Spoken(s) && s.connection.Some? && Farewell(m)
    ensures Spoken(Drop(Send(s, s.connection, m)))
  {
    var k := s.connection.value;
    assert LogOpen(s.out[k]);
  }

  /** Fewer open and fewer proving sockets, same logs. */
  lemma SpokenShrinks(s: State, t: State)
    requires Spoken(s) && t.out == s.out && t.open <= s.open
    requires forall k :: k in t.pending ==> k in s.pending
    ensures Spoken(t)
  {
  }

  lemma AdoptSpoken(s: State, k: Socket, greeted: bool, data: seq<byte>)
    requires Spoken(s.(open := s.open - {k}))
    requires if greeted then k in s.out && s.out[k] == [Hello] else k !in s.out
    ensures Spoken(Adopt(s, k, greeted, data))
  {
    var cut := Abort(s, LiveSet(s) + (Members(s.pending) - {k}));
    var live := cut.(connection := Some(k), pending := [], fed := [],
                     serving := cut.serving + {k}, connectedSignals := s.connectedSignals + [true]);
    var hailed := if greeted then live else Send(live, Some(k), Hello);
    if greeted {
      assert s.out == s.out[k := s.out[k]];
    } else {
      assert Out(live, k) + [Hello] == [Hello];
    }
    HailedSpoken(s, k, hailed);
    SpokenShrinks(hailed, Adopt(s, k, greeted, data));
  }

  lemma HailedSpoken(s: State, k: Socket, t: State)
    requires Spoken(s.(open := s.open - {k}))
    requires t.pending == [] && t.open <= s.open
    requires t.out == s.out[k := [Hello]]
    ensures Spoken(t)
  {
    forall m | m in t.out
      ensures LogOk(t.out[m]) && (m in t.open ==> LogOpen(t.out[m]))
    {
      if m != k {
        assert m in s.out;
      }
    }
  }

  lemma AcceptSpoken(s: State, k: Socket)
    requires Wired(s) && Spoken(s) && Enabled(s, NewConnection(k))
    ensures Spoken(Accept(s, k))
  {
    var t := s.(open := s.open + {k});
    assert t.open - {k} == s.open;
    if s.connection.Some? {
      assert Out(s, k) == [] && [] + [Hello] == [Hello];
    } else {
      AdoptSpoken(t, k, false, []);
    }
  }

  lemma ReadyReadSpoken(s: State, k: Socket, data: seq<byte>)
    requires Wired(s) && Spoken(s) && k in s.open
    ensures Spoken(ReadyRead(s, k, data))
  {
    WithoutFacts(s.pending, k);
    var t := s.(delivered := s.delivered[k := Delivered(s, k) + data]);
    if k in s.proving && k in s.pending && data != [] {
      var u := t.(pending := Without(t.pending, k));
      SpokenShrinks(s, u.(open := u.open - {k}));
      AdoptSpoken(u, k, true, data);
    } else {
      SpokenShrinks(s, ReadyRead(s, k, data));
    }
  }

  lemma DisconnectedSpoken(s: State, k: Socket)
    requires Wired(s) && Spoken(s)
    ensures Spoken(Disconnected(s, k))
  {
    WithoutFacts(s.pending, k);
    SpokenShrinks(s, Disconnected(s, k));
  }

  lemma StepSpoken(s: State, e: Event)
    requires Wired(s) && Spoken(s) && Enabled(s, e)
    ensures Spoken(Step(s, e))
  {
    match e
    case NewConnection(k) => AcceptSpoken(s, k);
    case DataReady(k, data) => ReadyReadSpoken(s, k, data);
    case PeerGone(k) => DisconnectedSpoken(s, k);
    case WatchdogExpired => SpokenShrinks(s, Step(s, e));
    case Shutdown => CloseSpoken(s, Closing);
    case Suspend => CloseSpoken(s, Sleeping);
    case PingTimer => SendIfLiveSpoken(s, Ping);
    case StatsTimer => SendIfLiveSpoken(s, Stats);
    case DecoderError => SendIfLiveSpoken(s, KeyframeRequest);
    case KeyframeWanted => SendIfLiveSpoken(s, KeyframeRequest);
    case NewUdpFlow => SendIfLiveSpoken(s, CursorAck);
    case SendTouch => SendIfLiveSpoken(s, Touch);
    case PanelChanged => SendIfLiveSpoken(s, Hello);
    case SendScroll =>
  }

  lemma SendIfLiveSpoken(s: State, m: Control)
    requires Wired(s) && Spoken(s) && m != Scroll && !Farewell(m)
    ensures Spoken(SendIfLive(s, m)) && SendIfLive(s, m) == Send(s, s.connection, m)
  {
    if s.connection.Some? {
      SendSpoken(s, s.connection.value, m);
    }
  }

  lemma CloseSpoken(s: State, m: Control)
    requires Wired(s) && Spoken(s) && Farewell(m)
    ensures Spoken(CloseAnnouncing(s, m))
  {
    if s.connection.Some? {
      FarewellSpoken(s, m);
    }
  }

  // ---- Which bytes reach the deframer --------------------------------------

  /** A socket adopted directly has had every byte deframed. One adopted by proving itself
      has had the bytes that proved it deframed, and is doomed if it raised more. */
  predicate Fed(s: State) {
    s.connection.Some? ==>
      var c := s.connection.value;
      && !Wire.Drain(s.fed).failed && s.fed <= Delivered(s, c)
      && (c !in s.proving ==> s.fed == Delivered(s, c))
      && (s.fed != Delivered(s, c) ==> c in s.doomed)
      && (c in s.proving ==> s.fed != [])
  }

  /** Nothing has been delivered by a socket that has not been read. */
  predicate Unread(s: State) {
    && (forall k :: k in s.pending ==> Delivered(s, k) == [])
    && (forall k :: k in s.delivered ==> k in s.out)
  }

  /** A first read that proves a socket: the deframer starts with exactly these bytes. */
  lemma AdoptFed(s: State, k: Socket, data: seq<byte>)
    requires data != [] && Delivered(s, k) == data && Unread(s.(pending := []))
    ensures Fed(Adopt(s, k, true, data)) && Unread(Adopt(s, k, true, data))
  {
    assert [] + data == data;
  }

  /** Bytes for a live socket without a proving handler. */
  lemma ServeFed(s: State, k: Socket, data: seq<byte>)
    requires Wired(s) && Fed(s) && Unread(s) && k in s.open && k in s.serving && k !in s.proving
    ensures Fed(ReadyRead(s, k, data)) && Unread(ReadyRead(s, k, data))
  {
    assert s.connection == Some(k) && s.fed == Delivered(s, k);
  }

  /** Bytes for a socket whose proving handler outlived its proof. */
  lemma StaleFed(s: State, k: Socket, data: seq<byte>)
    requires Wired(s) && Fed(s) && Unread(s) && k in s.open && k in s.proving && k !in s.pending
    ensures Fed(ReadyRead(s, k, data)) && Unread(ReadyRead(s, k, data))
  {
    assert s.fed + [] == s.fed;
    if s.connection == Some(k) {
      assert s.fed <= Delivered(s, k) + data;
    }
  }

  lemma ReadyReadFed(s: State, k: Socket, data: seq<byte>)
    requires Wired(s) && Fed(s) && Unread(s) && k in s.open
    ensures Fed(ReadyRead(s, k, data)) && Unread(ReadyRead(s, k, data))
  {
    if k in s.pending {
      WithoutFacts(s.pending, k);
      assert [] + data == data;
      if data != [] {
        var t := s.(delivered := s.delivered[k := data], pending := Without(s.pending, k));
        AdoptFed(t, k, data);
      }
    } else if k in s.proving {
      StaleFed(s, k, data);
    } else if k in s.serving {
      ServeFed(s, k, data);
    }
  }

  lemma AcceptFed(s: State, k: Socket)
    requires Wired(s) && Fed(s) && Unread(s) && Enabled(s, NewConnection(k))
    ensures Fed(Accept(s, k)) && Unread(Accept(s, k))
  {
    assert Wire.Drain([]) == Wire.Drained([], [], false);
  }

  lemma GoneFed(s: State, k: Socket)
    requires Wired(s) && Fed(s) && Unread(s)
    ensures Fed(Disconnected(s, k)) && Unread(Disconnected(s, k))
  {
    WithoutFacts(s.pending, k);
  }

  /** Messages and farewells touch neither what was delivered nor what was fed. */
  lemma SameDeliveries(s: State, t: State)
    requires Fed(s) && Unread(s)
    requires t.connection.None? || t.connection == s.connection
    requires t.fed == s.fed && t.delivered == s.delivered && t.doomed == s.doomed && t.pending == s.pending
    requires t.connection.Some? ==> t.proving == s.proving
    requires s.out.Keys <= t.out.Keys
    ensures Fed(t) && Unread(t)
  {
  }

  lemma StepFed(s: State, e: Event)
    requires Wired(s) && Fed(s) && Unread(s) && Enabled(s, e)
    ensures Fed(Step(s, e)) && Unread(Step(s, e))
  {
    match e
    case NewConnection(k) => AcceptFed(s, k);
    case DataReady(k, data) => ReadyReadFed(s, k, data);
    case PeerGone(k) => GoneFed(s, k);
    case _ => SameDeliveries(s, Step(s, e));
  }

  // ---- Whole runs ----------------------------------------------------------

  predicate SessionOk(s: State) {
    Wired(s) && Spoken(s) && Fed(s) && Unread(s)
  }

  lemma {:induction false} RunOk(s: State, events: seq<Event>)
    requires SessionOk(s) && Legal(s, events)
    ensures SessionOk(Run(s, events))
    decreases |events|
  {
    if events != [] {
      StepWired(s, events[0]);
      StepSpoken(s, events[0]);
      StepFed(s, events[0]);
      RunOk(Step(s, events[0]), events[1..]);
    }
  }

  /** Every reachable session state. */
  lemma ReachableStatesAreOk(events: seq<Event>)
    requires Legal(INITIAL, events)
    ensures SessionOk(Run(INITIAL, events))
  {
    RunOk(INITIAL, events);
  }

  /** A read of the live socket reaches the deframer exactly when the socket was adopted
      directly: after adoption by proof the proving handler is still connected, runs first
      and takes the bytes. */
  lemma ReadReachesDeframerIff(s: State, c: Socket, data: seq<byte>)
    requires SessionOk(s) && s.connection == Some(c)
    requires data != [] && !Wire.Drain(s.fed + data).failed
    ensures Step(s, DataReady(c, data)).fed == s.fed + data <==> c !in s.proving
  {
    if c in s.proving {
      assert s.fed + [] == s.fed;
      assert |s.fed + data| > |s.fed|;
    }
  }

  /** While a live sender's stream of legal messages arrives, in any reads, what the session
      has dispatched is a prefix of the messages sent; for a directly adopted sender it is
      all of them once the whole stream has arrived. */
  lemma LiveSessionDispatchesInOrder(events: seq<Event>, c: Socket, ms: seq<Demux.Sent>, missing: seq<byte>)
    requires Legal(INITIAL, events) && Demux.AllLegal(ms)
    requires var s := Run(INITIAL, events);
             s.connection == Some(c) && Delivered(s, c) + missing == Demux.StreamOf(ms)
    ensures var s := Run(INITIAL, events);
            var got := Demux.ClassifyAll(Wire.Drain(s.fed).payloads);
            got <= Demux.ReceivedAll(ms) && (c !in s.proving && missing == [] ==> got == Demux.ReceivedAll(ms))
  {
    ReachableStatesAreOk(events);
    FedIsPrefix(Run(INITIAL, events), c, ms, missing);
  }

  lemma FedIsPrefix(s: State, c: Socket, ms: seq<Demux.Sent>, missing: seq<byte>)
    requires SessionOk(s) && s.connection == Some(c) && Demux.AllLegal(ms)
    requires Delivered(s, c) + missing == Demux.StreamOf(ms)
    ensures var got := Demux.ClassifyAll(Wire.Drain(s.fed).payloads);
            got <= Demux.ReceivedAll(ms) && (c !in s.proving && missing == [] ==> got == Demux.ReceivedAll(ms))
  {
    var unread := Delivered(s, c)[|s.fed|..];
    assert Delivered(s, c) == s.fed + unread;
    Associate(s.fed, unread, missing);
    Demux.PrefixOfStream(ms, s.fed, unread + missing);
  }

  /** And no read of such a stream ends the session. */
  lemma LegalStreamKeepsSessionUp(s: State, c: Socket, ms: seq<Demux.Sent>, data: seq<byte>, missing: seq<byte>)
    requires SessionOk(s) && s.connection == Some(c) && Demux.AllLegal(ms)
    requires Delivered(s, c) + data + missing == Demux.StreamOf(ms)
    ensures Step(s, DataReady(c, data)).connection == Some(c)
  {
    if c in s.proving {
      assert s.fed + [] == s.fed;
    } else {
      assert s.fed == Delivered(s, c);
      Demux.PrefixOfStream(ms, s.fed + data, missing);
    }
  }

  // ---- How a session comes about -------------------------------------------

  /** With nobody live, whoever connects is live at once: greeted, announced, unread. */
  lemma FirstConnectionIsLive(s: State, k: Socket)
    requires SessionOk(s) && s.connection.None? && Enabled(s, NewConnection(k))
    ensures var t := Step(s, NewConnection(k));
            && t.connection == Some(k) && t.connectedSignals == s.connectedSignals + [true]
            && t.out == s.out[k := [Hello]] && t.fed == [] && k in t.open && t.pending == []
  {
    assert [] + [Hello] == [Hello];
  }

  /** With somebody live a newcomer is greeted and waits; nothing else changes. */
  lemma NewcomerIsGreeted(s: State, k: Socket)
    requires SessionOk(s) && s.connection.Some? && Enabled(s, NewConnection(k))
    ensures var t := Step(s, NewConnection(k));
            && t.connection == s.connection && t.connectedSignals == s.connectedSignals
            && t.out == s.out[k := [Hello]] && t.fed == s.fed && t.pending == s.pending + [k]
            && t.open == s.open + {k} && t.serving == s.serving
  {
    assert [] + [Hello] == [Hello];
  }

  /** And its first bytes, if they frame, make it live, with exactly those bytes read and no
      second greeting. */
  lemma NewcomerProvesItself(s: State, k: Socket, data: seq<byte>)
    requires SessionOk(s) && s.connection.Some? && Enabled(s, NewConnection(k))
    requires data != [] && !Wire.Drain(data).failed
    ensures var t := Step(Step(s, NewConnection(k)), DataReady(k, data));
            && t.connection == Some(k) && t.connectedSignals == s.connectedSignals + [true]
            && t.out == s.out[k := [Hello]] && t.fed == data
  {
    var t := Step(s, NewConnection(k));
    NewcomerIsGreeted(s, k);
    StepWired(s, NewConnection(k));
    SupersededIff(t, DataReady(k, data), s.connection.value, k);
    assert k in t.pending && k in t.proving && k !in t.serving;
    assert [] + data == data;
  }

  // ---- What each event says, and to whom -----------------------------------

  /** The one message a timer, a user action or a decoder event has for the live sender. */
  function Said(e: Event): Option<Control> {
    match e
    case PingTimer => Some(Ping)
    case StatsTimer => Some(Stats)
    case DecoderError => Some(KeyframeRequest)
    case KeyframeWanted => Some(KeyframeRequest)
    case NewUdpFlow => Some(CursorAck)
    case SendTouch => Some(Touch)
    case PanelChanged => Some(Hello)
    case Shutdown => Some(Closing)
    case Suspend => Some(Sleeping)
    case _ => None
  }

  /** Said to the live socket, to no other, and to nobody when nobody is live. */
  lemma OnlyTheLiveSocketHears(s: State, e: Event)
    requires SessionOk(s) && !e.NewConnection? && !e.DataReady? && !e.PeerGone?
    ensures Step(s, e).out
         == if s.connection.Some? && Said(e).Some? then
              var c := s.connection.value; s.out[c := s.out[c] + [Said(e).value]]
            else s.out
  {
  }

  /** A farewell and the watchdog cut the live socket off and say so; those waiting stay.
      With nobody live they do nothing. */
  lemma EndingsCutOff(s: State, e: Event)
    requires SessionOk(s) && (e.Shutdown? || e.Suspend? || e.WatchdogExpired?)
    ensures var t := Step(s, e);
            if s.connection.None? then t == s
            else
              && t.connection.None? && t.connectedSignals == s.connectedSignals + [false]
              && t.open == s.open - {s.connection.value} && t.pending == s.pending
  {
  }

  /** Which sockets a signal schedules for deletion: one whose proving handler runs without
      a proof to give, and one whose peer is gone while a handler listens. */
  lemma DoomedExactly(s: State, e: Event)
    requires SessionOk(s) && Enabled(s, e)
    ensures Step(s, e).doomed
         == match e
            case DataReady(k, data) =>
              if k in s.proving && (k !in s.pending || data == []) then s.doomed + {k} else s.doomed
            case PeerGone(k) => if k in s.proving || k in s.serving then s.doomed + {k} else s.doomed
            case _ => s.doomed
  {
  }

  /** What ends a live session in one step: its socket goes, it times out, the receiver
      says farewell, its own bytes do not frame - or a pending socket delivers bytes, which
      supersede it if they frame and end it without a successor if they do not. */
  predicate Ends(s: State, e: Event, c: Socket) {
    match e
    case PeerGone(k) => k == c
    case WatchdogExpired => true
    case Shutdown => true
    case Suspend => true
    case DataReady(k, data) =>
      (k in s.pending && data != []) || (k == c && c !in s.proving && Wire.Drain(s.fed + data).failed)
    case _ => false
  }

  lemma LiveSessionEndsIff(s: State, e: Event, c: Socket)
    requires SessionOk(s) && Enabled(s, e) && s.connection == Some(c)
    ensures Step(s, e).connection != Some(c) <==> Ends(s, e, c)
  {
    match e
    case DataReady(k, data) => ReadEndsIff(s, k, data, c);
    case NewConnection(k) =>
    case _ =>
  }

  lemma ReadEndsIff(s: State, k: Socket, data: seq<byte>, c: Socket)
    requires SessionOk(s) && k in s.open && s.connection == Some(c)
    ensures Step(s, DataReady(k, data)).connection != Some(c) <==> Ends(s, DataReady(k, data), c)
  {
    assert s.fed + [] == s.fed;
    if k in s.pending {
      assert k != c && k in s.proving && k !in s.serving;
      assert [] + data == data;
    } else if k == c {
      assert c in s.serving;
    } else {
      assert k !in s.serving;
    }
  }

  /** In particular the first bytes of a pending socket that do not frame kill the live
      session and leave nobody live. */
  lemma MalformedProofLeavesNobody(s: State, c: Socket, d: Socket, data: seq<byte>)
    requires SessionOk(s) && s.connection == Some(c) && d in s.pending
    ensures Step(s, DataReady(d, data)).connection == None <==> data != [] && Wire.Drain(data).failed
  {
    assert d in s.open && d != c && d in s.proving && d !in s.serving;
    assert [] + data == data;
  }

  /** One read more by a socket that superseded another: its bytes are dropped and the live
      socket is scheduled for deletion. */
  lemma SupersederLosesItsNextRead(s: State, d: Socket, proof: seq<byte>, more: seq<byte>)
    requires SessionOk(s) && s.connection.Some? && d in s.pending
    requires proof != [] && more != [] && !Wire.Drain(proof).failed
    ensures var t := Step(Step(s, DataReady(d, proof)), DataReady(d, more));
            && t.connection == Some(d) && t.fed == proof && Delivered(t, d) == proof + more
            && d in t.doomed
  {
    assert d in s.open && d in s.proving && d !in s.serving;
    WithoutFacts(s.pending, d);
    var u := Step(s, DataReady(d, proof));
    assert [] + proof == proof && u.connection == Some(d) && u.fed == proof;
    assert u.pending == [] && d in u.serving && d in u.proving;
    assert u.fed + [] == u.fed;
  }
}
