/** Service: the table of sessions by peer id, and the life of a P2PSession. */
module Services {
  import opened Bytes
  import opened P2PMessages
  import Callbacks
  import opened Sessions

  class P2PSession {
    const session: Session
    const p2pID: string
    var run: bool

    constructor (s: Session, id: string)
      ensures session == s && p2pID == id && !run
    {
      session, p2pID, run := s, id, false;
    }

    /** beat is the first heartbeat; serving: whether the service runs. */
    method Start(beat: Message, serving: bool)
      modifies this, session
      ensures run
      ensures old(run) ==> unchanged(session)
      ensures !old(run) ==>
        && session.State() == old(session.Started())
        && session.reading == old(session.reading || (!session.actived && session.Up()))
        && session.WriteSide()
           == old(if serving && session.Up() then session.Pushed(Frame(session.wire, beat)) else session.WriteSide())
    {
      hide Frame, Callbacks.Drop;
      if !run {
        run := true;
        ghost var w := session.Pushed(Frame(session.wire, beat));
        session.Start();
        assert session.Pushed(Frame(session.wire, beat)) == w;
        HeartBeat(beat, serving);
      }
    }

    method HeartBeat(beat: Message, serving: bool)
      modifies session
      ensures session.State() == old(session.State()) && session.reading == old(session.reading)
      ensures session.WriteSide()
        == old(if serving then session.AfterSend(Frame(session.wire, beat)) else session.WriteSide())
    {
      hide Frame;
      if serving {
        if session.Actived() {
          session.AsyncSendMessage(beat, false);
        }
      }
    }

    /** What a stop makes of the session below: a running one that is active is
        dropped. */
    ghost function Halted(): Callbacks.Waiting
      reads this, session
    {
      if run && session.Actived() then Callbacks.Drop(session.State(), false) else session.State()
    }

    method Stop()
      modifies this, session
      ensures !run
      ensures session.State() == old(Halted())
      ensures old(run && session.actived && session.host && session.haveNetwork && session.connected) ==>
        !session.actived && session.seq2Callback == map[]
      ensures !old(run && session.actived && session.host && session.haveNetwork && session.connected) ==>
        unchanged(session)
    {
      if run {
        run := false;
        if session.Actived() {
          session.DropSession(false);
        }
      }
    }
  }

  /** A heartbeat as P2PSession::heartBeat builds it: without a number, its payload
      the counter in network order. */
  function HeartbeatMessage(packetType: uint16, statusSeq: uint32): Message {
    FRESH.(packetType := packetType, payload := PutU32(statusSeq))
  }

  /** The receiver reads the counter back. */
  lemma HeartbeatArrives(w: Wire, packetType: uint16, statusSeq: uint32, tail: bytes)
    requires !w.HasOptions(packetType)
    ensures var (r, m) := Decoded(w, FRESH, Frame(w, HeartbeatMessage(packetType, statusSeq)) + tail);
      && r == MESSAGE_HEADER_LENGTH + 4 && m.packetType == packetType
      && m.seqNo == 0 && m.version == 0 && m.ext == 0
      && |m.payload| == 4 && GetU32(m.payload) == statusSeq
  {
    var m := HeartbeatMessage(packetType, statusSeq);
    FrameRoundTrip(w, m, tail);
    GetPutU32(statusSeq, []);
    assert PutU32(statusSeq) + [] == PutU32(statusSeq);
  }

  // ------------------------------------------------------------------ a system

  /** The table, and which of the sessions ever created are running. */
  datatype Table = Table(
    sessions: map<string, P2PSession>,
    created: set<P2PSession>,
    running: set<P2PSession>)

  /** What happens to the table. Each is one step: onConnect, onDisconnect and
      stop hold the lock of the table, P2PSession::stop flips one flag. */
  datatype Event =
    | Connected(s: P2PSession, error: bool)   // onConnect, with the session it would create
    | Stopped(s: P2PSession)                  // P2PSession::stop
    | Disconnected(s: P2PSession)             // onDisconnect, which onMessage calls after stop
    | AllStopped                              // Service::stop

  ghost const EMPTY := Table(map[], {}, {})

  ghost predicate Alive(t: Table, p: string) {
    p in t.sessions && t.sessions[p] in t.running
  }

  ghost function Step(own: string, t: Table, e: Event): Table {
    match e
    case Connected(s, error) =>
      if s in t.created || error || Alive(t, s.p2pID) || s.p2pID == own then t
      else Table(t.sessions[s.p2pID := s], t.created + {s}, t.running + {s})
    case Stopped(s) => t.(running := t.running - {s})
    case Disconnected(s) => if s in t.running then t else Evict(t, s)
    case AllStopped => t.(sessions := map[], running := t.running - t.sessions.Values)
  }

  /** The end of onDisconnect: only the very session in the table is erased. */
  ghost function Evict(t: Table, s: P2PSession): Table {
    if s.p2pID in t.sessions && t.sessions[s.p2pID] == s then t.(sessions := t.sessions - {s.p2pID}) else t
  }

  ghost function Exec(own: string, t: Table, events: seq<Event>): Table
    decreases |events|
  {
    if events == [] then t else Exec(own, Step(own, t, events[0]), events[1..])
  }

  ghost predicate Inv(own: string, t: Table) {
    && own !in t.sessions
    && t.running <= t.created
    && (forall s :: s in t.created ==> s.p2pID != own)
    && (forall p :: p in t.sessions ==> t.sessions[p] in t.created && t.sessions[p].p2pID == p)
    && (forall s :: s in t.running ==> s.p2pID in t.sessions && t.sessions[s.p2pID] == s)
  }

  lemma StepKeepsInv(own: string, t: Table, e: Event)
    requires Inv(own, t)
    ensures Inv(own, Step(own, t, e))
  {
  }

  lemma {:induction false} ExecKeepsInv(own: string, t: Table, events: seq<Event>)
    requires Inv(own, t)
    ensures Inv(own, Exec(own, t, events))
    decreases |events|
  {
    if events != [] {
      StepKeepsInv(own, t, events[0]);
      ExecKeepsInv(own, Step(own, t, events[0]), events[1..]);
    }
  }

  /** Main result on the table, over every interleaving: a running session is the
      entry for its peer, so there is at most one for a peer, none for this
      gateway itself, and isConnected answers whether there is one. */
  lemma OneSessionPerPeer(own: string, events: seq<Event>)
    ensures var t := Exec(own, EMPTY, events);
      && own !in t.sessions
      && (forall s :: s in t.running ==> s.p2pID in t.sessions && t.sessions[s.p2pID] == s)
      && (forall s, u :: s in t.running && u in t.running && s.p2pID == u.p2pID ==> s == u)
      && (forall p :: Alive(t, p) <==> exists s :: s in t.running && s.p2pID == p)
  {
    ExecKeepsInv(own, EMPTY, events);
    var t := Exec(own, EMPTY, events);
    forall p ensures Alive(t, p) <==> exists s :: s in t.running && s.p2pID == p {
      if Alive(t, p) {
        assert t.sessions[p] in t.running && t.sessions[p].p2pID == p;
      }
    }
  }

  /** Nothing but its own stop or that of the service unseats a running session:
      not a late or repeated disconnect of a session it replaced, nor a further
      connection of the same peer. */
  lemma {:induction false} LiveSessionStays(own: string, t: Table, s: P2PSession, events: seq<Event>)
    requires Inv(own, t) && s in t.running
    requires forall e :: e in events ==> e != Stopped(s) && e != AllStopped
    ensures var u := Exec(own, t, events);
      s in u.running && s.p2pID in u.sessions && u.sessions[s.p2pID] == s
    decreases |events|
  {
    if events != [] {
      assert events[0] in events && forall e :: e in events[1..] ==> e in events;
      StepKeepsInv(own, t, events[0]);
      LiveSessionStays(own, Step(own, t, events[0]), s, events[1..]);
    }
  }

  /** Why onMessage stops a session before onDisconnect: erasing its entry keeps
      the invariant exactly when the session does not run. */
  lemma EvictExactly(own: string, t: Table, s: P2PSession)
    requires Inv(own, t)
    ensures Inv(own, Evict(t, s)) <==> s !in t.running
  {
    if s in t.running {
      assert s.p2pID !in Evict(t, s).sessions;
    }
  }

  /** The disconnect of a stopped session removes its own entry, and only that. */
  lemma DisconnectRemoves(own: string, t: Table, s: P2PSession)
    requires Inv(own, t) && s !in t.running
    ensures var u := Step(own, t, Disconnected(s));
      && s !in u.sessions.Values && u.running == t.running && u.created == t.created
      && (forall p :: p in u.sessions <==> p in t.sessions && t.sessions[p] != s)
      && (forall p :: p in u.sessions ==> u.sessions[p] == t.sessions[p])
  {
    forall p | p in t.sessions && t.sessions[p] == s
      ensures p == s.p2pID
    {
    }
  }

  /** A connection is taken over exactly if it brought no error, does not lead back
      to this gateway, and its peer has no running session; it is then the entry,
      and a running one. */
  lemma ConnectInstalls(own: string, t: Table, s: P2PSession, error: bool)
    requires Inv(own, t) && s !in t.created
    ensures var u := Step(own, t, Connected(s, error));
      && (s in u.running <==> !error && s.p2pID != own && !exists x :: x in t.running && x.p2pID == s.p2pID)
      && (s in u.running ==> s.p2pID in u.sessions && u.sessions[s.p2pID] == s && s in u.created)
      && (s !in u.running ==> u == t)
      && (forall p :: p != s.p2pID ==> (p in u.sessions <==> p in t.sessions))
      && (forall p :: p != s.p2pID && p in u.sessions ==> u.sessions[p] == t.sessions[p])
      && (forall x :: x != s ==> (x in u.running <==> x in t.running))
  {
    if Alive(t, s.p2pID) {
      assert t.sessions[s.p2pID] in t.running && t.sessions[s.p2pID].p2pID == s.p2pID;
    }
  }

  /** After stop of the service nothing runs and nobody is in the table. */
  lemma StopStopsAll(own: string, t: Table)
    requires Inv(own, t)
    ensures Step(own, t, AllStopped).running == {} && Step(own, t, AllStopped).sessions == map[]
  {
    forall s | s in t.running ensures s in t.sessions.Values {
      assert t.sessions[s.p2pID] == s;
    }
  }

  lemma EntriesCreated(own: string, t: Table)
    requires Inv(own, t)
    ensures t.sessions.Values <= t.created
    ensures forall p :: p in t.sessions ==> t.sessions[p].p2pID == p
  {
  }

  lemma RunningIsEntry(own: string, t: Table)
    requires Inv(own, t)
    ensures forall s :: s in t.running ==> s.p2pID in t.sessions && t.sessions[s.p2pID] == s
    ensures t.sessions.Values <= t.created
  {
  }

  /** No two share the session below. */
  ghost predicate Apart(ss: set<P2PSession>) {
    forall s, u :: s in ss && u in ss && s != u ==> s.session != u.session
  }

  lemma OneMoreApart(ss: set<P2PSession>, s: P2PSession)
    requires Apart(ss) && forall u :: u in ss ==> u.session != s.session
    ensures Apart(ss + {s})
  {
  }

  class Service {
    const id: string
    const heartbeatType: uint16             // the packet type of heartbeats
    var run: bool
    var sessions: map<string, P2PSession>
    var seqCounter: uint32                  // of the message factory
    var forgotten: seq<string>              // the peers whose node ids the disconnect handler removed
    ghost var created: set<P2PSession>

    ghost predicate Valid()
      reads this, created
    {
      Inv(id, State()) && Apart(created)
    }

    ghost function State(): Table
      reads this, created
    {
      Table(sessions, created, set s | s in created && s.run)
    }

    constructor (own: string, heartbeat: uint16)
      ensures id == own && heartbeatType == heartbeat && !run && Valid() && State() == EMPTY && forgotten == []
    {
      id, heartbeatType := own, heartbeat;
      run, sessions, seqCounter, forgotten, created := false, map[], 1, [], {};
    }

    method Start()
      modifies `run
      ensures run
    {
      if !run {
        run := true;
      }
    }

    method Stop()
      requires Valid()
      modifies `run, `sessions, created, set s | s in created :: s.session
      ensures Valid() && !run
      ensures forall s :: s in created && !(old(run) && s in old(sessions).Values) ==> unchanged(s.session)
      ensures old(run) ==>
        forall p :: p in old(sessions) ==> old(sessions[p]).session.State() == old(sessions[p].Halted())
      ensures State() == if old(run) then Step(id, old(State()), AllStopped) else old(State())
    {
      if run {
        run := false;
        hide Inv, Apart, P2PSession.Halted;
        ghost var t := State();
        EntriesCreated(id, t);
        StopStopsAll(id, t);
        StepKeepsInv(id, t, AllStopped);
        StopEntries();
        sessions := map[];
        assert State() == Step(id, t, AllStopped);
        hide Step;
      }
    }

    /** The loop of stop over the table. */
    method StopEntries()
      requires sessions.Values <= created
      requires forall p :: p in sessions ==> sessions[p].p2pID == p
      requires Apart(created)
      modifies created, set s | s in created :: s.session
      ensures State().running == old(State()).running - sessions.Values
      ensures forall s :: s in created && s !in sessions.Values ==> unchanged(s.session)
      ensures forall p :: p in sessions ==> sessions[p].session.State() == old(sessions[p].Halted())
    {
      hide P2PSession.Halted;
      var todo := sessions.Keys;
      while todo != {}
        invariant todo <= sessions.Keys
        invariant forall s :: s in created ==> s.run == (old(s.run) && (s.p2pID in todo || s !in sessions.Values))
        invariant forall s :: s in created && (s.p2pID in todo || s !in sessions.Values) ==>
          unchanged(s) && unchanged(s.session)
        invariant forall p :: p in sessions && p !in todo ==> sessions[p].session.State() == old(sessions[p].Halted())
      {
        var p :| p in todo;
        todo := todo - {p};
        sessions[p].Stop();
      }
    }

    /** The handler of a new connection to peer p. statusSeq is this gateway's
        counter, for the first heartbeat. */
    method OnConnect(error: bool, p: string, session: Session, statusSeq: uint32)
      requires Valid()
      requires forall s :: s in created ==> s.session != session
      modifies this, session
      ensures Valid() && run == old(run) && forgotten == old(forgotten)
      ensures error ==> unchanged(session)
      ensures !error ==>
        session.State() == if Alive(old(State()), p) || p == id
          then Callbacks.Drop(old(session.State()), true) else old(session.Started())
      ensures session.WriteSide() == if !error && !Alive(old(State()), p) && p != id && run && old(session.Up())
        then old(session.Pushed(Frame(session.wire, HeartbeatMessage(heartbeatType, statusSeq))))
        else old(session.WriteSide())
      ensures if error || Alive(old(State()), p) || p == id then State() == old(State())
        else
          && p in sessions && fresh(sessions[p]) && sessions[p].session == session && sessions[p].p2pID == p
          && State() == Step(id, old(State()), Connected(sessions[p], error))
    {
      hide Inv, Apart, Session.Started, Callbacks.Drop;
      ghost var t := State();
      EntriesCreated(id, t);
      if error {
        return;
      }
      if p in sessions && sessions[p].run {
        session.DropSession(true);
        return;
      }
      if p == id {
        session.DropSession(true);
        return;
      }
      Install(p, session, statusSeq);
    }

    /** The new entry of onConnect. */
    method Install(p: string, session: Session, statusSeq: uint32)
      requires Valid() && p != id && !Alive(State(), p)
      requires forall s :: s in created ==> s.session != session
      modifies `sessions, `created, session
      ensures Valid()
      ensures p in sessions && fresh(sessions[p]) && sessions[p].session == session && sessions[p].p2pID == p
      ensures State() == Step(id, old(State()), Connected(sessions[p], false))
      ensures session.State() == old(session.Started())
      ensures session.WriteSide() == if run && old(session.Up())
        then old(session.Pushed(Frame(session.wire, HeartbeatMessage(heartbeatType, statusSeq))))
        else old(session.WriteSide())
    {
      hide Frame, Session.WriteSide, Session.Pushed;
      hide Inv, Apart, Session.Started, Callbacks.Drop;
      ghost var t := State();
      var p2pSession := new P2PSession(session, p);
      p2pSession.Start(HeartbeatMessage(heartbeatType, statusSeq), run);
      sessions := sessions[p := p2pSession];
      OneMoreApart(created, p2pSession);
      created := created + {p2pSession};
      StepKeepsInv(id, t, Connected(p2pSession, false));
      assert State() == Step(id, t, Connected(p2pSession, false));
    }

    /** What onMessage does for an error: a failed read, a protocol error or the
        session's own drop. */
    method OnError(s: P2PSession)
      requires Valid() && s in created
      modifies this, s, s.session
      ensures Valid() && run == old(run) && !s.run
      ensures s.session.State() == old(s.Halted())
      ensures State() == Exec(id, old(State()), [Stopped(s), Disconnected(s)])
      ensures forgotten == old(forgotten) + [s.p2pID]
    {
      ghost var events, t := [Stopped(s), Disconnected(s)], Step(id, State(), Stopped(s));
      s.Stop();
      assert State() == t;
      OnDisconnect(s);
      assert events[1..] == [Disconnected(s)] && events[1..][1..] == [];
      assert Exec(id, t, events[1..]) == Step(id, t, Disconnected(s));
    }

    /** The handlers run whether or not s is still in the table. */
    method OnDisconnect(s: P2PSession)
      requires Valid() && s in created && !s.run
      modifies `sessions, `forgotten
      ensures Valid()
      ensures State() == Step(id, old(State()), Disconnected(s))
      ensures forall p :: p in sessions ==> sessions[p] != s
      ensures forgotten == old(forgotten) + [s.p2pID]
    {
      DisconnectRemoves(id, State(), s);
      forgotten := forgotten + [s.p2pID];
      if s.p2pID in sessions && sessions[s.p2pID] == s {
        sessions := sessions - {s.p2pID};
      }
    }

    method IsConnected(p: string) returns (yes: bool)
      requires Valid()
      ensures yes <==> exists s :: s in created && s.run && s.p2pID == p
    {
      yes := p in sessions && sessions[p].run;
    }

    /** The message factory's newSeq. */
    method NewSeq() returns (seqNo: uint32)
      modifies `seqCounter
      ensures seqNo == seqCounter == (old(seqCounter) + 1) % TWO_32
      ensures State() == old(State())
    {
      seqCounter := (seqCounter + 1) % TWO_32;
      seqNo := seqCounter;
    }

    /** Puts the frame of m on the write queue of the running session to p and
        registers the callback there; a message without a number gets one first.
        Without a running session message and callback are dropped. sent is the
        message as it is left. */
    method AsyncSendMessageByNodeID(p: string, m: Message, callback: bool) returns (sent: Message)
      requires Valid()
      requires Alive(State(), p) ==> sessions[p].session.host
      modifies `seqCounter, set s | s in created :: s.session
      ensures Valid() && State() == old(State())
      ensures if Alive(State(), p) && m.seqNo == 0
        then seqCounter == (old(seqCounter) + 1) % TWO_32 && sent == m.(seqNo := seqCounter)
        else seqCounter == old(seqCounter) && sent == m
      ensures forall s :: s in created && !(s.run && s.p2pID == p) ==> unchanged(s.session)
      ensures forall s :: s in created ==> s.session.host == old(s.session.host)
      ensures Alive(State(), p) ==> var c := sessions[p].session;
        && c.State() == (if callback then Callbacks.Send(old(c.State()), sent.seqNo, old(c.Up())) else old(c.State()))
        && c.WriteSide() == old(c.AfterSend(Frame(c.wire, sent)))
    {
      hide Frame, Callbacks.Send, Session.AfterSend;
      sent := m;
      if p == id {
        return;
      }
      if p in sessions && sessions[p].run {
        if m.seqNo == 0 {
          var seqNo := NewSeq();
          sent := m.(seqNo := seqNo);
        }
        sessions[p].session.AsyncSendMessage(sent, callback);
      }
    }
  }
}
