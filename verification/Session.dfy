/** The session state machine of src/receiver_session.cpp: which socket is live, which are
    proving themselves, what each was sent, and which signal handlers Qt would run. */
module Session {
  import opened Common
  import Wire
  import Demux

  type Socket = nat

  datatype Control =
    | Hello | Ping | Stats | KeyframeRequest | CursorAck | Touch | Scroll | Closing | Sleeping

  /** `proving` and `serving` are the sockets whose lambdas of onNewConnection, and of adopt,
      are connected; `open` the ones that can still raise signals; `doomed` the ones
      scheduled by deleteLater; `fed` the bytes given to the deframer since the last
      adoption; `delivered` all bytes a socket has raised readyRead with. */
  datatype State = State(
    connection: Option<Socket>, pending: seq<Socket>,
    proving: set<Socket>, serving: set<Socket>, open: set<Socket>, doomed: set<Socket>,
    fed: seq<byte>, out: map<Socket, seq<Control>>, delivered: map<Socket, seq<byte>>,
    connectedSignals: seq<bool>)

  const INITIAL := State(None, [], {}, {}, {}, {}, [], map[], map[], [])

  function Out(s: State, k: Socket): seq<Control> {
    if k in s.out then s.out[k] else []
  }

  function Delivered(s: State, k: Socket): seq<byte> {
    if k in s.delivered then s.delivered[k] else []
  }

  /** `sendControlOn`; a null socket gets nothing. */
  function Send(s: State, to: Option<Socket>, m: Control): State {
    match to
    case None => s
    case Some(k) => s.(out := s.out[k := Out(s, k) + [m]])
  }

  /** `disconnect(this)` and `abort()` on every socket of `ks`. */
  function Abort(s: State, ks: set<Socket>): State {
    s.(proving := s.proving - ks, serving := s.serving - ks, open := s.open - ks)
  }

  function Members(pending: seq<Socket>): set<Socket> {
    set k | k in pending
  }

  /** `QList::removeAll` */
  function Without(pending: seq<Socket>, k: Socket): seq<Socket> {
    if pending == [] then []
    else (if pending[0] == k then [] else [pending[0]]) + Without(pending[1..], k)
  }

  function LiveSet(s: State): set<Socket> {
    if s.connection.Some? then {s.connection.value} else {}
  }

  /** `dropSession`: the sockets still proving are left alone. */
  function Drop(s: State): State {
    Abort(s, LiveSet(s)).(connection := None, connectedSignals := s.connectedSignals + [false])
  }

  /** The read loop after an append: a malformed length drops the session. */
  function Feed(s: State, data: seq<byte>): State {
    var t := s.(fed := s.fed + data);
    if Wire.Drain(t.fed).failed then Drop(t) else t
  }

  function Adopt(s: State, k: Socket, greeted: bool, data: seq<byte>): State {
    var cut := Abort(s, LiveSet(s) + (Members(s.pending) - {k}));
    var live := cut.(connection := Some(k), pending := [], fed := [],
                     serving := cut.serving + {k}, connectedSignals := s.connectedSignals + [true]);
    var hailed := if greeted then live else Send(live, Some(k), Hello);
    if data == [] then hailed else Feed(hailed, data)
  }

  function Accept(s: State, k: Socket): State {
    var t := s.(open := s.open + {k});
    if s.connection.Some? then
      Send(t, Some(k), Hello).(pending := s.pending + [k], proving := s.proving + {k})
    else Adopt(t, k, false, [])
  }

  /** The readyRead lambda of a proving socket. It stays connected after adoption. */
  function Prove(s: State, k: Socket, data: seq<byte>): State {
    if k !in s.pending then s.(doomed := s.doomed + {k})
    else
      var t := s.(pending := Without(s.pending, k));
      if data == [] then t.(doomed := t.doomed + {k}) else Adopt(t, k, true, data)
  }

  /** `onReadyRead` */
  function Serve(s: State, k: Socket, data: seq<byte>): State {
    if s.connection != Some(k) then s else Feed(s, data)
  }

  /** readyRead: handlers run in the order they were connected, and the first readAll takes
      everything. A handler connected meanwhile is not run. */
  function ReadyRead(s: State, k: Socket, data: seq<byte>): State {
    var t := s.(delivered := s.delivered[k := Delivered(s, k) + data]);
    if k in s.proving then
      var u := Prove(t, k, data);
      if k in s.serving then Serve(u, k, []) else u
    else if k in s.serving then Serve(t, k, data)
    else t
  }

  /** `onDisconnected` */
  function Lose(s: State, k: Socket): State {
    if s.connection != Some(k) then s.(doomed := s.doomed + {k})
    else s.(connection := None, connectedSignals := s.connectedSignals + [false], doomed := s.doomed + {k})
  }

  function Disconnected(s: State, k: Socket): State {
    var t := s.(open := s.open - {k});
    var u := if k in s.proving then t.(pending := Without(t.pending, k), doomed := t.doomed + {k}) else t;
    if k in s.serving then Lose(u, k) else u
  }

  function CloseAnnouncing(s: State, m: Control): State {
    if s.connection.None? then s else Drop(Send(s, s.connection, m))
  }

  datatype Event =
    | NewConnection(k: Socket)
    | DataReady(k: Socket, data: seq<byte>)
    | PeerGone(k: Socket)
    | PingTimer | StatsTimer | WatchdogExpired
    | DecoderError | KeyframeWanted | NewUdpFlow
    | SendTouch | SendScroll
    | PanelChanged
    | Shutdown | Suspend

  /** A connection is a new socket; signals come from open sockets only. */
  predicate Enabled(s: State, e: Event) {
    match e
    case NewConnection(k) => k !in s.out && k !in s.delivered && k !in s.open
    case DataReady(k, _) => k in s.open
    case PeerGone(k) => k in s.open
    case _ => true
  }

  function SendIfLive(s: State, m: Control): State {
    if s.connection.Some? then Send(s, s.connection, m) else s
  }

  function Step(s: State, e: Event): State {
    match e
    case NewConnection(k) => Accept(s, k)
    case DataReady(k, data) => ReadyRead(s, k, data)
    case PeerGone(k) => Disconnected(s, k)
    case PingTimer => SendIfLive(s, Ping)
    case StatsTimer => SendIfLive(s, Stats)
    case WatchdogExpired => if s.connection.Some? then Drop(s) else s
    case DecoderError => SendIfLive(s, KeyframeRequest)
    case KeyframeWanted => SendIfLive(s, KeyframeRequest)
    case NewUdpFlow => Send(s, s.connection, CursorAck)
    case SendTouch => SendIfLive(s, Touch)
    case SendScroll => if s.connection.Some? then s else Send(s, s.connection, Scroll)
    case PanelChanged => SendIfLive(s, Hello)
    case Shutdown => CloseAnnouncing(s, Closing)
    case Suspend => CloseAnnouncing(s, Sleeping)
  }

  predicate Legal(s: State, events: seq<Event>)
    decreases |events|
  {
    events == [] || (Enabled(s, events[0]) && Legal(Step(s, events[0]), events[1..]))
  }

  function Run(s: State, events: seq<Event>): State
    requires Legal(s, events)
    decreases |events|
  {
    if events == [] then s else Run(Step(s, events[0]), events[1..])
  }

  // ---- The same machine as an object ---------------------------------------

  class ReceiverSession {
    var connection: Option<Socket>
    var pending: seq<Socket>
    var deframer: Wire.Deframer
    ghost var fed: seq<byte>
    var proving: set<Socket>
    var serving: set<Socket>
    var open: set<Socket>
    var doomed: set<Socket>
    var out: map<Socket, seq<Control>>
    ghost var delivered: map<Socket, seq<byte>>
    var connectedSignals: seq<bool>
    var dispatched: seq<Demux.Message>

    ghost function Abs(): State
      reads this
    {
      State(connection, pending, proving, serving, open, doomed, fed, out, delivered, connectedSignals)
    }

    /** While a session is live the deframer holds the unparsed rest of what it was fed, and
        exactly the messages of the complete payloads were dispatched. */
    ghost predicate Valid()
      reads this, deframer
    {
      connection.Some? ==>
        && deframer.buffer == Wire.Drain(fed).rest && !Wire.Drain(fed).failed
        && Wire.Drain(deframer.buffer) == Wire.Drained([], deframer.buffer, false)
        && dispatched == Demux.ClassifyAll(Wire.Drain(fed).payloads)
    }

    constructor ()
      ensures Valid() && Abs() == INITIAL && fresh(deframer)
    {
      connection, pending := None, [];
      deframer := new Wire.Deframer();
      fed, proving, serving, open, doomed := [], {}, {}, {}, {};
      out, delivered, connectedSignals, dispatched := map[], map[], [], [];
    }

    method SendControlOn(to: Option<Socket>, m: Control)
      modifies this`out
      ensures Abs() == Send(old(Abs()), to, m)
    {
      if to.None? {
        return;
      }
      var k := to.value;
      out := out[k := (if k in out then out[k] else []) + [m]];
    }

    method DropSession()
      modifies this`connection, this`proving, this`serving, this`open, this`connectedSignals
      ensures Valid() && Abs() == Drop(old(Abs()))
    {
      if connection.Some? {
        var k := connection.value;
        proving, serving, open := proving - {k}, serving - {k}, open - {k};
        connection := None;
      }
      connectedSignals := connectedSignals + [false];
    }

    /** `onReadyRead` of the live socket. */
    method OnReadyRead(data: seq<byte>)
      requires Valid() && connection.Some?
      modifies this, deframer
      ensures Valid() && Abs() == Feed(old(Abs()), data) && deframer == old(deframer)
    {
      ghost var before := Wire.Drain(fed);
      Wire.DrainAppend(fed, data);
      var messages, failed := Demux.OnReadyRead(deframer, data);
      Demux.ClassifyAppend(before.payloads, Wire.Drain(before.rest + data).payloads);
      dispatched := dispatched + messages;
      fed := fed + data;
      if failed {
        DropSession();
      } else {
        Demux.LeftoverIsDry(fed);
      }
    }

    /** The sockets `adopt` aborts: the one superseded and every rival of `k`. */
    method Superseded(k: Socket) returns (cut: set<Socket>)
      ensures cut == LiveSet(Abs()) + (Members(pending) - {k})
    {
      cut := {};
      if connection.Some? {
        cut := cut + {connection.value};
      }
      var i := 0;
      while i < |pending|
        invariant 0 <= i <= |pending|
        invariant cut == LiveSet(Abs()) + (Members(pending[..i]) - {k})
      {
        MembersSnoc(pending[..i], pending[i]);
        assert pending[..i + 1] == pending[..i] + [pending[i]];
        if pending[i] != k {
          cut := cut + {pending[i]};
        }
        i := i + 1;
      }
      assert pending[..i] == pending;
    }

    /** The socket fields of `adopt`. */
    method MakeLive(k: Socket, cut: set<Socket>)
      modifies this`proving, this`serving, this`open, this`pending, this`connection, this`connectedSignals
      ensures Abs() == Abort(old(Abs()), cut).(connection := Some(k), pending := [],
                         serving := old(serving) - cut + {k}, connectedSignals := old(connectedSignals) + [true])
    {
      proving, serving, open := proving - cut, serving - cut, open - cut;
      pending := [];
      connection := Some(k);
      connectedSignals := connectedSignals + [true];
      serving := serving + {k};
    }

    method AdoptSocket(k: Socket, greeted: bool, initialData: seq<byte>)
      requires Valid()
      modifies this, deframer
      ensures Valid() && Abs() == Adopt(old(Abs()), k, greeted, initialData) && deframer == old(deframer)
    {
      var cut := Superseded(k);
      deframer.Reset();
      fed, dispatched := [], [];
      MakeLive(k, cut);
      if !greeted {
        SendControlOn(Some(k), Hello);
      }
      if initialData != [] {
        OnReadyRead(initialData);
      }
    }

    method OnNewConnection(k: Socket)
      requires Valid()
      modifies this, deframer
      ensures Valid() && Abs() == Accept(old(Abs()), k) && deframer == old(deframer)
    {
      open := open + {k};
      if connection.Some? {
        pending := pending + [k];
        SendControlOn(Some(k), Hello);
        proving := proving + {k};
      } else {
        AdoptSocket(k, false, []);
      }
    }

    /** The readyRead lambda installed by onNewConnection. */
    method OnProvingRead(k: Socket, data: seq<byte>)
      requires Valid()
      modifies this, deframer
      ensures Valid() && Abs() == Prove(old(Abs()), k, data) && deframer == old(deframer)
    {
      if k !in pending {
        doomed := doomed + {k};
        return;
      }
      pending := Without(pending, k);
      if data == [] {
        doomed := doomed + {k};
        return;
      }
      AdoptSocket(k, true, data);
    }

    /** What one readyRead of an open socket runs. */
    method RaiseReadyRead(k: Socket, data: seq<byte>)
      requires Valid()
      modifies this, deframer
      ensures Valid() && Abs() == ReadyRead(old(Abs()), k, data) && deframer == old(deframer)
    {
      var wasServing := k in serving;
      delivered := delivered[k := (if k in delivered then delivered[k] else []) + data];
      var unread := data;
      if k in proving {
        OnProvingRead(k, data);
        unread := [];
      }
      if wasServing && connection == Some(k) {
        OnReadyRead(unread);
      }
    }

    method OnDisconnected(k: Socket)
      requires Valid()
      modifies this
      ensures Valid() && Abs() == Disconnected(old(Abs()), k) && deframer == old(deframer)
    {
      open := open - {k};
      if k in proving {
        pending := Without(pending, k);
        doomed := doomed + {k};
      }
      if k in serving {
        doomed := doomed + {k};
        if connection == Some(k) {
          connection := None;
          connectedSignals := connectedSignals + [false];
        }
      }
    }

    method CloseWith(m: Control)
      requires Valid()
      modifies this
      ensures Valid() && Abs() == CloseAnnouncing(old(Abs()), m) && deframer == old(deframer)
    {
      if connection.Some? {
        SendControlOn(connection, m);
        DropSession();
      }
    }
  }

  lemma MembersSnoc(pending: seq<Socket>, k: Socket)
    ensures Members(pending + [k]) == Members(pending) + {k}
  {
  }
}
