/** Session: one connection to a peer. Its methods are the handlers of the
    original, proved against the functions of WriteQueue, Deframer and Callbacks. */
module Sessions {
  import opened Wrappers
  import opened Bytes
  import opened P2PMessages
  import Deframer
  import WriteQueue
  import opened Callbacks

  // ------------------------------------------------- what one read delivers

  /** onMessage for each frame in turn. */
  function Delivered(s: Waiting, ms: seq<Message>, up: bool): Waiting
    decreases |ms|
  {
    if ms == [] then s else Delivered(Receive(s, Success, ms[0], up), ms[1..], up)
  }

  /** onMessage for all that a run of the decode loop yields. */
  function Dispatched(s: Waiting, d: Deframer.Deframed, up: bool): Waiting {
    var s' := Delivered(s, d.messages, up);
    if d.ending.ProtocolError? then Receive(s', ProtocolError, d.ending.message, up) else s'
  }

  /** Where a message goes: to the callback registered for it, or to the message
      handler. */
  function TaskFor(table: map<uint32, nat>, m: Message): Task {
    if m.seqNo in table && IsRespPacket(m) then Call(table[m.seqNo], m.seqNo, Success, Some(m), true)
    else Handle(Success, Some(m))
  }

  function TasksFor(table: map<uint32, nat>, ms: seq<Message>): (ts: seq<Task>)
    ensures |ts| == |ms|
  {
    seq(|ms|, i requires 0 <= i < |ms| => TaskFor(table, ms[i]))
  }

  /** On a session that is up, the messages of a read are posted to the pool one
      for one, and the map is left alone; on one that is not, none is. */
  lemma {:induction false} DeliveredPosts(s: Waiting, ms: seq<Message>, up: bool)
    ensures Delivered(s, ms, up)
      == if s.active && s.host && up then Post(s, multiset(TasksFor(s.table, ms))) else s
    decreases |ms|
  {
    var ts := TasksFor(s.table, ms);
    if ms == [] {
      PostNothing(s);
    } else {
      var first, later := TaskFor(s.table, ms[0]), TasksFor(s.table, ms[1..]);
      assert ts == [first] + later;
      DeliveredPosts(Receive(s, Success, ms[0], up), ms[1..], up);
      PostTwice(s, multiset{first}, multiset(later));
      hide TasksFor;
      assert multiset(ts) == multiset{first} + multiset(later);
    }
  }

  /** On a session that is up, a read that was completed posts exactly its messages,
      and one task more if and only if the bytes it keeps do not decode. That one
      carries the half-decoded message as a protocol error; with the response flag
      it goes to the callback registered under its number, else to the message
      handler. */
  lemma ReadPosts(w: Wire, s: Waiting, data: bytes, up: bool)
    requires s.active && s.host && up
    ensures var d := Deframer.Deframe(w, data); var t := Dispatched(s, d, up);
      var (r, m) := Decoded(w, FRESH, d.rest);
      var failed := if m.seqNo in s.table && m.ext % 2 == 1
        then Call(s.table[m.seqNo], m.seqNo, ProtocolError, Some(m), true) else Handle(ProtocolError, Some(m));
      var tasks := multiset(TasksFor(s.table, d.messages)) + if r < 0 then multiset{failed} else multiset{};
      && t.pool == s.pool + tasks && t.posted == s.posted + tasks
      && t == s.(pool := t.pool, posted := t.posted)
      && (forall i :: 0 <= i < |d.messages| ==>
        var x := d.messages[i];
        TasksFor(s.table, d.messages)[i] == if x.seqNo in s.table && x.ext % 2 == 1
          then Call(s.table[x.seqNo], x.seqNo, Success, Some(x), true) else Handle(Success, Some(x)))
  {
    Deframer.HowItEnds(w, data);
    TaskEach(s.table, Deframer.Deframe(w, data).messages);
    hide Decoded, Deframer.Deframe, TasksFor;
    var d := Deframer.Deframe(w, data);
    DeliveredPosts(s, d.messages, up);
    if d.ending.ProtocolError? {
      var m, ts := d.ending.message, multiset(TasksFor(s.table, d.messages));
      var failed := if m.seqNo in s.table && m.ext % 2 == 1
        then Call(s.table[m.seqNo], m.seqNo, ProtocolError, Some(m), true) else Handle(ProtocolError, Some(m));
      assert Receive(Post(s, ts), ProtocolError, m, up) == Post(Post(s, ts), multiset{failed});
      PostTwice(s, ts, multiset{failed});
    }
    hide Receive, Delivered;
  }

  lemma TaskEach(table: map<uint32, nat>, ms: seq<Message>)
    ensures forall i :: 0 <= i < |ms| ==>
      TasksFor(table, ms)[i] == if ms[i].seqNo in table && ms[i].ext % 2 == 1
        then Call(table[ms[i].seqNo], ms[i].seqNo, Success, Some(ms[i]), true) else Handle(Success, Some(ms[i]))
  {
  }

  lemma PostNothing(s: Waiting)
    ensures Post(s, multiset({})) == s
  {
  }

  lemma PostKeepsTable(s: Waiting, tasks: multiset<Task>)
    ensures Post(s, tasks).table == s.table && Post(s, tasks).host == s.host
  {
  }

  lemma PostTable(s: Waiting, tasks: multiset<Task>)
    ensures Post(s, tasks).(table := map[]) == Post(s.(table := map[]), tasks)
  {
  }

  lemma PostTwice(s: Waiting, a: multiset<Task>, b: multiset<Task>)
    ensures Post(Post(s, a), b) == Post(s, a + b)
  {
  }

  lemma PostOneMore(s: Waiting, done: set<Task>, t: Task)
    requires t !in done
    ensures Post(Post(s, multiset(done)), multiset{t}) == Post(s, multiset(done + {t}))
  {
    PostTwice(s, multiset(done), multiset{t});
    assert multiset(done + {t}) == multiset(done) + multiset{t};
  }

  /** One frame off the front of m_data. */
  lemma DeframeFront(w: Wire, data: bytes)
    ensures var (r, m) := Decoded(w, FRESH, data); var d := Deframer.Deframe(w, data);
      && r <= |data|
      && (r > 0 ==> var e := Deframer.Deframe(w, data[r..]); d == e.(messages := [m] + e.messages))
      && (r == 0 ==> d == Deframer.Deframed([], data, Deframer.Waiting))
      && (r < 0 ==> d == Deframer.Deframed([], data, Deframer.ProtocolError(m)))
  {
    hide Decoded;
    DecodeResult(w, FRESH, data);
  }

  class Session {
    const wire: Wire
    var actived: bool                     // m_actived
    var host: bool                        // whether the host still exists
    var haveNetwork: bool                 // what the host answers
    var connected: bool                   // what the socket answers
    var data: bytes                       // m_data
    var reading: bool                     // whether a read is under way
    var queue: seq<bytes>                 // m_writeQueue
    var writing: bool                     // m_writing
    var started: seq<bytes>               // the buffers given to asyncWrite
    var seq2Callback: map<uint32, nat>
    var given: nat
    var pool: multiset<Task>              // the host's thread pool
    ghost var posted: multiset<Task>

    constructor (w: Wire)
      ensures wire == w && State() == INIT && data == [] && queue == [] && !writing && !reading
    {
      wire, actived, host, haveNetwork, connected := w, false, true, true, true;
      data, reading, queue, writing, started := [], false, [], false, [];
      seq2Callback, given, pool, posted := map[], 0, multiset{}, multiset{};
    }

    ghost function State(): Waiting
      reads this
    {
      Waiting(actived, host, 0, seq2Callback, pool, given, posted)
    }

    predicate Up()
      reads this
    {
      host && haveNetwork && connected
    }

    predicate Actived()
      reads this
    {
      actived && Up()
    }

    method Enqueue(t: Task)
      modifies `pool, `posted
      ensures State() == Post(old(State()), multiset{t})
    {
      pool := pool + multiset{t};
      posted := posted + multiset{t};
    }

    /** The loop of drop over the map. */
    method EnqueueAll(cause: Cause)
      modifies `pool, `posted
      ensures State() == Post(old(State()), multiset(DropTasks(seq2Callback, cause)))
    {
      hide Post;
      ghost var s, table := State(), seq2Callback;
      ghost var done: set<Task> := {};
      PostNothing(s);
      var todo := seq2Callback.Keys;
      while todo != {}
        invariant todo <= table.Keys && State() == Post(s, multiset(done))
        invariant done == set q | q in table && q !in todo :: Call(table[q], q, cause, None, false)
      {
        PostKeepsTable(s, multiset(done));
        var q :| q in todo;
        todo := todo - {q};
        var t := Call(seq2Callback[q], q, cause, None, false);
        Enqueue(t);
        PostOneMore(s, done, t);
        done := done + {t};
      }
      PostKeepsTable(s, multiset(done));
      assert done == DropTasks(table, cause);
    }

    // -------------------------------------------------------------- lifetime

    /** What a start makes of the session: without a network nothing, with a
        closed socket it is activated and dropped at once. */
    ghost function Started(): Waiting
      reads this
    {
      var s := State().(active := true);
      if actived || !host || !haveNetwork then State() else if connected then s else Drop(s, false)
    }

    method Start()
      modifies `actived, `reading, `connected, `seq2Callback, `pool, `posted
      ensures old(!actived && host && haveNetwork && connected) ==>
        actived && reading && unchanged(`connected) && unchanged(`seq2Callback) && unchanged(`pool)
      ensures old(!actived && host && haveNetwork && !connected) ==>
        !actived && seq2Callback == map[] && reading == old(reading)
      ensures old(actived || !host || !haveNetwork) ==> unchanged(this)
      ensures State() == old(Started())
      ensures reading == old(reading || (!actived && Up()))
      ensures connected == old(connected)
    {
      if !actived && host && haveNetwork {
        actived := true;
        DoRead();
      }
    }

    method DropSession(duplicate: bool)
      modifies `actived, `connected, `seq2Callback, `pool, `posted
      ensures State() == Drop(old(State()), duplicate)
      ensures connected == (old(connected) && !(old(actived) && host))
      ensures !old(actived) ==> unchanged(this)
      ensures old(actived) ==> !actived && seq2Callback == map[]
      ensures old(actived) && host ==>
        var c := if duplicate then DuplicateSession else Disconnect;
        forall x :: pool[x] == old(pool)[x] + if DropOwes(old(seq2Callback), c, x) then 1 else 0
    {
      hide DropTasks, Post, DropOwes;
      if !actived {
        return;
      }
      DropDoes(State(), duplicate);
      actived := false;
      var cause := DropCause(duplicate);
      ghost var s, tasks := State().(table := map[]), multiset(DropTasks(seq2Callback, cause));
      if host {
        EnqueueAll(cause);
      }
      seq2Callback := map[];
      if host {
        assert State() == Post(s, tasks) by { PostTable(old(State()).(active := false), tasks); }
        Enqueue(Handle(cause, None));
        PostTwice(s, tasks, multiset{Handle(cause, None)});
      }
      if connected && host {
        connected := false;
      }
    }

    // --------------------------------------------------------------- sending

    /** callback: whether one was given. */
    method AsyncSendMessage(m: Message, callback: bool)
      requires host
      modifies `given, `seq2Callback, `pool, `posted, `queue, `writing, `started, `actived, `connected
      ensures State() == if callback then Callbacks.Send(old(State()), m.seqNo, old(Up())) else old(State())
      ensures WriteSide() == old(AfterSend(Frame(wire, m)))
    {
      hide Post, Frame, WriteQueue.WriteSection;
      if !Actived() {
        if callback {
          given := given + 1;
          Enqueue(Call(given - 1, m.seqNo, Inactive, None, false));
        }
        return;
      }
      if callback {
        AddSeqCallback(m.seqNo, given);
        given := given + 1;
      }
      var buffer := EncodeMessage(m);
      Send(buffer);
    }

    method AddSeqCallback(seqNo: uint32, id: nat)
      modifies `seq2Callback
      ensures seq2Callback == if seqNo in old(seq2Callback) then old(seq2Callback) else old(seq2Callback)[seqNo := id]
    {
      if seqNo !in seq2Callback {
        seq2Callback := seq2Callback[seqNo := id];
      }
    }

    /** What encode left in the buffer is sent even when it failed. */
    method EncodeMessage(m: Message) returns (buffer: bytes)
      ensures buffer == Frame(wire, m)
    {
      var message := new P2PMessage.From(wire, m);
      var _, b := message.Encode();
      return b;
    }

    /** The queue, the flag and what was given to asyncWrite. */
    function WriteSide(): (seq<bytes>, bool, seq<bytes>)
      reads this
    {
      (queue, writing, started)
    }

    /** The write side after buffer was pushed and write() was run. */
    function Pushed(buffer: bytes): (seq<bytes>, bool, seq<bytes>)
      reads this
    {
      var (q, wr, next) := WriteQueue.WriteSection(queue + [buffer], writing, true);
      (q, wr, started + if next.Start? then [next.buffer] else [])
    }

    /** The write side after buffer was sent: only an active session takes it. */
    function AfterSend(buffer: bytes): (seq<bytes>, bool, seq<bytes>)
      reads this
    {
      if Actived() then Pushed(buffer) else WriteSide()
    }

    method Send(buffer: bytes)
      modifies `queue, `writing, `started, `actived, `connected, `seq2Callback, `pool, `posted
      ensures State() == old(State())
      ensures WriteSide() == old(AfterSend(buffer))
      ensures !old(actived && host && haveNetwork && connected) ==> unchanged(this)
      ensures old(actived && host && haveNetwork && connected) ==>
        && writing && old(started) <= started
        && started + queue == old(started) + old(queue) + [buffer]
        && |started| == |old(started)| + if old(writing) then 0 else 1
    {
      WriteQueue.WriteSectionDoes(queue + [buffer], writing, true);
      if !Actived() {
        return;
      }
      queue := queue + [buffer];
      Write();
    }

    method Write()
      modifies `queue, `writing, `started, `actived, `connected, `seq2Callback, `pool, `posted
      ensures !old(Actived()) ==> unchanged(this)
      ensures old(Actived()) ==>
        var (q, wr, next) := WriteQueue.WriteSection(old(queue), old(writing), true);
        && queue == q && writing == wr && State() == old(State())
        && started == old(started) + if next.Start? then [next.buffer] else []
    {
      if !Actived() {
        return;
      }
      WriteLocked();
    }

    /** The part of write() under the lock. The socket may have closed since the
        check. */
    method WriteLocked()
      modifies `queue, `writing, `started, `actived, `connected, `seq2Callback, `pool, `posted
      ensures var (q, wr, next) := WriteQueue.WriteSection(old(queue), old(writing), old(Up()));
        && queue == q && writing == wr
        && started == old(started) + (if next.Start? then [next.buffer] else [])
        && State() == if next.Refuse? then Drop(old(State()), false) else old(State())
      ensures old(writing || queue == []) ==> unchanged(this)
      ensures !old(writing || queue == []) ==>
        var up := old(host && haveNetwork && connected);
        && writing && old(queue) == [old(queue)[0]] + queue
        && started == old(started) + (if up then [old(queue)[0]] else [])
        && (!up ==> !actived) && (up ==> actived == old(actived))
    {
      WriteQueue.WriteSectionDoes(queue, writing, Up());
      if writing {
        return;
      }
      writing := true;
      if queue == [] {
        writing := false;
        return;
      }
      var buffer := queue[0];
      queue := queue[1..];
      if host && haveNetwork {
        if connected {
          started := started + [buffer];
        } else {
          DropSession(false);
        }
      } else {
        DropSession(false);
      }
    }

    method OnWrite(error: bool)
      modifies `queue, `writing, `started, `actived, `connected, `seq2Callback, `pool, `posted
      ensures !old(Actived()) ==> unchanged(this)
      ensures old(Actived()) && error ==>
        State() == Drop(old(State()), false) && unchanged(`queue) && unchanged(`writing) && unchanged(`started)
      ensures old(Actived()) && !error ==>
        var (q, wr, next) := WriteQueue.WriteSection(old(queue), false, true);
        && queue == q && writing == wr && State() == old(State())
        && started == old(started) + if next.Start? then [next.buffer] else []
      ensures old(Actived()) && error ==> !actived && seq2Callback == map[]
      ensures old(Actived()) && !error ==>
        && writing == (old(queue) != [])
        && started == old(started) + (if old(queue) == [] then [] else [old(queue)[0]])
        && queue == if old(queue) == [] then [] else old(queue)[1..]
    {
      hide Drop, Callbacks.DropOwes;
      WriteQueue.WriteSectionDoes(queue, false, true);
      if !Actived() {
        return;
      }
      if error {
        DropSession(false);
        return;
      }
      if writing {
        writing := false;
      }
      Write();
    }

    // --------------------------------------------------------------- reading

    /** Asks for the next bytes. */
    method DoRead()
      modifies `reading, `actived, `connected, `seq2Callback, `pool, `posted
      ensures reading == (old(reading) || old(Actived())) && connected == old(connected)
      ensures State() == if host && haveNetwork && !old(connected) then Drop(old(State()), false) else old(State())
      ensures old(actived && host && haveNetwork && connected) ==>
        reading && unchanged(`actived) && unchanged(`seq2Callback) && unchanged(`pool)
      ensures old(actived && host && haveNetwork && !connected) ==> !actived && reading == old(reading)
      ensures old(!actived || !host || !haveNetwork) ==> unchanged(this)
    {
      if actived && host && haveNetwork {
        if connected {
          reading := true;
        } else {
          DropSession(false);
        }
      }
    }

    /** The handler of a completed read. On an active session it posts a task for
        each message, and one more with the half-decoded message if and only if the
        bytes kept do not decode; then it does not read on. */
    method OnRead(error: bool, chunk: bytes)
      requires reading
      modifies `reading, `data, `actived, `connected, `seq2Callback, `pool, `posted
      ensures error ==> State() == Drop(old(State()), false) && data == old(data) && !reading
      ensures error && old(actived) ==> !actived
      ensures !error ==>
        var d := Deframer.Deframe(wire, old(data) + chunk);
        var s := Dispatched(old(State()), d, host && haveNetwork);
        && data == d.rest
        && reading == (d.ending == Deframer.Waiting && old(Actived()))
        && State()
           == if d.ending == Deframer.Waiting && host && haveNetwork && !old(connected) then Drop(s, false) else s
      ensures !error && old(actived && host && haveNetwork && connected) ==>
        var (r, m) := Decoded(wire, FRESH, data); var table := old(seq2Callback);
        var failed := if m.seqNo in table && m.ext % 2 == 1
          then Call(table[m.seqNo], m.seqNo, ProtocolError, Some(m), true) else Handle(ProtocolError, Some(m));
        && reading == (r == 0) && seq2Callback == table && actived
        && pool == old(pool) + (multiset(TasksFor(table, Deframer.Deframe(wire, old(data) + chunk).messages))
             + if r < 0 then multiset{failed} else multiset{})
    {
      hide Decoded, Deframer.Deframe, Receive, Drop, TasksFor, Delivered, Dispatched, DropOwes;
      reading := false;
      if error {
        DropSession(false);
        return;
      }
      var failed := Consume(chunk);
      if !failed {
        DoRead();
      }
    }

    /** The decode loop over m_data with its last turn. */
    method Consume(chunk: bytes) returns (failed: bool)
      modifies `data, `pool, `posted
      ensures var d := Deframer.Deframe(wire, old(data) + chunk);
        && data == d.rest && failed == d.ending.ProtocolError?
        && State() == Dispatched(old(State()), d, host && haveNetwork)
      ensures failed <==> Decoded(wire, FRESH, data).0 < 0
      ensures !failed ==> Decoded(wire, FRESH, data).0 == 0
      ensures old(actived) && host && haveNetwork ==>
        var (r, m) := Decoded(wire, FRESH, data); var table := old(seq2Callback);
        var failed := if m.seqNo in table && m.ext % 2 == 1
          then Call(table[m.seqNo], m.seqNo, ProtocolError, Some(m), true) else Handle(ProtocolError, Some(m));
        pool == old(pool) + (multiset(TasksFor(table, Deframer.Deframe(wire, old(data) + chunk).messages))
          + if r < 0 then multiset{failed} else multiset{})
    {
      hide Decoded, Deframer.Deframe, Receive, Delivered, TasksFor;
      if actived && host && haveNetwork {
        ReadPosts(wire, State(), data + chunk, true);
      }
      Deframer.HowItEnds(wire, data + chunk);
      data := data + chunk;
      var message;
      failed, message := DecodeLoop();
      if failed {
        OnMessage(ProtocolError, message);
      }
    }

    /** The loop up to its last turn: failed tells whether that one is an error, with
        the half-decoded message. */
    method DecodeLoop() returns (failed: bool, message: Message)
      modifies `data, `pool, `posted
      ensures var d := Deframer.Deframe(wire, old(data));
        && data == d.rest
        && d.ending == (if failed then Deframer.ProtocolError(message) else Deframer.Waiting)
        && State() == Delivered(old(State()), d.messages, host && haveNetwork)
    {
      hide Decoded, Deframer.Deframe, Receive;
      ghost var d := Deframer.Deframe(wire, data);
      ghost var up := host && haveNetwork;
      while true
        invariant var e := Deframer.Deframe(wire, data);
          e.rest == d.rest && e.ending == d.ending
          && Delivered(State(), e.messages, up) == Delivered(old(State()), d.messages, up)
        decreases |data|
      {
        var result;
        result, message := DecodeFront();
        DeframeFront(wire, data);
        if result > 0 {
          OnMessage(Success, message);
          data := data[result..];
        } else {
          return result < 0, message;
        }
      }
    }

    method DecodeFront() returns (result: int, m: Message)
      ensures (result, m) == Decoded(wire, FRESH, data)
    {
      var message := new P2PMessage(wire);
      result := message.Decode(data);
      m := message.Value();
    }

    method OnMessage(cause: Cause, m: Message)
      modifies `pool, `posted
      ensures State() == Receive(old(State()), cause, m, host && haveNetwork)
    {
      if actived && host && haveNetwork {
        if m.seqNo in seq2Callback && IsRespPacket(m) {
          Enqueue(Call(seq2Callback[m.seqNo], m.seqNo, cause, Some(m), true));
        } else {
          Enqueue(Handle(cause, Some(m)));
        }
      }
    }

    // ------------------------------------------------------ timers and tasks

    method OnTimeout(cancelled: bool, seqNo: uint32)
      modifies `pool, `posted
      ensures State() == Timeout(old(State()), seqNo, cancelled)
    {
      if cancelled {
        return;
      }
      if !host {
        return;
      }
      if seqNo !in seq2Callback {
        return;
      }
      Enqueue(Call(seq2Callback[seqNo], seqNo, NetworkTimeout, None, true));
    }

    /** The pool runs t. */
    method Run(t: Task, throws: bool)
      requires t in pool
      modifies `pool, `seq2Callback
      ensures State() == RunTask(old(State()), t, throws)
    {
      pool := pool - multiset{t};
      if t.Call? && t.erases && !throws {
        seq2Callback := seq2Callback - {t.seqNo};
      }
    }
  }
}
