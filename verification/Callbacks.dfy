/** The callbacks a session keeps while it waits for responses: the map
    m_seq2Callback, what the handlers post to the thread pool, and the life
    of each callback over whole runs.

    Each event handler and each pool task is one step, but for asyncSendMessage:
    its check and its insertion into the map are two, as no lock spans them. */
module Callbacks {
  import opened Wrappers
  import opened Sequences
  import opened Bytes
  import opened P2PMessages

  /** The error code a callback or the message handler is called with. */
  datatype Cause = Success | ProtocolError | NetworkTimeout | Disconnect | DuplicateSession | Inactive

  /** A task posted to the thread pool. A Call runs callback id and, when it
      erases, then removes what the map holds for seqNo. */
  datatype Task =
    | Call(id: nat, seqNo: uint32, cause: Cause, message: Option<Message>, erases: bool)
    | Handle(cause: Cause, message: Option<Message>)

  /** The callbacks given to asyncSendMessage are numbered in the order given. */
  datatype Waiting = Waiting(
    active: bool,              // m_actived
    host: bool,                // whether the host still exists
    sending: nat,              // threads in asyncSendMessage, past the check, before the insertion
    table: map<uint32, nat>,   // m_seq2Callback
    pool: multiset<Task>,      // tasks posted that have not run yet
    given: nat,                // history: how many callbacks were given
    posted: multiset<Task>)    // history: every task ever posted

  const INIT := Waiting(false, true, 0, map[], multiset{}, 0, multiset{})

  /** The response flag is the lowest bit of the ext field. */
  predicate IsRespPacket(m: Message) {
    m.ext % 2 == 1
  }

  // ------------------------------------------------------------------ handlers

  function Post(s: Waiting, tasks: multiset<Task>): Waiting {
    s.(pool := s.pool + tasks, posted := s.posted + tasks)
  }

  /** The check of asyncSendMessage with a callback; up: actived() saw a network
      and an open socket. */
  function Check(s: Waiting, seqNo: uint32, up: bool): Waiting {
    if s.active && up then s.(sending := s.sending + 1)
    else Post(s.(given := s.given + 1), multiset{Call(s.given, seqNo, Inactive, None, false)})
  }

  /** Its insertion. The map's insert keeps an entry that is already there. */
  function Insert(s: Waiting, seqNo: uint32): Waiting {
    var s' := s.(given := s.given + 1);
    if seqNo in s.table then s' else s'.(table := s.table[seqNo := s.given])
  }

  /** Both at once. */
  function Send(s: Waiting, seqNo: uint32, up: bool): Waiting {
    if s.active && up then Insert(s, seqNo) else Check(s, seqNo, up)
  }

  /** onMessage; up: the host has a network. */
  function Receive(s: Waiting, cause: Cause, m: Message, up: bool): Waiting {
    if !(s.active && s.host && up) then s
    else if m.seqNo in s.table && IsRespPacket(m) then
      Post(s, multiset{Call(s.table[m.seqNo], m.seqNo, cause, Some(m), true)})
    else Post(s, multiset{Handle(cause, Some(m))})
  }

  /** onTimeout. */
  function Timeout(s: Waiting, seqNo: uint32, cancelled: bool): Waiting {
    if cancelled || !s.host || seqNo !in s.table then s
    else Post(s, multiset{Call(s.table[seqNo], seqNo, NetworkTimeout, None, true)})
  }

  function DropTasks(table: map<uint32, nat>, cause: Cause): set<Task> {
    set q | q in table :: Call(table[q], q, cause, None, false)
  }

  function DropCause(duplicate: bool): Cause {
    if duplicate then DuplicateSession else Disconnect
  }

  /** drop: without a host it clears the map all the same. */
  function Drop(s: Waiting, duplicate: bool): Waiting {
    if !s.active then s
    else
      var s' := s.(active := false, table := map[]);
      if !s.host then s'
      else
        Post(s', multiset(DropTasks(s.table, DropCause(duplicate))) + multiset{Handle(DropCause(duplicate), None)})
  }

  /** A pool task runs; it removes its entry unless the callback throws. */
  function RunTask(s: Waiting, t: Task, throws: bool): Waiting {
    if t !in s.pool then s
    else
      s.(pool := s.pool - multiset{t},
         table := if t.Call? && t.erases && !throws then s.table - {t.seqNo} else s.table)
  }

  // ------------------------------------------------------------------ a system

  datatype Event =
    | Start(up: bool)
    | Checking(seqNo: uint32, up: bool)
    | Inserting(seqNo: uint32)
    | Receiving(cause: Cause, m: Message, up: bool)
    | TimerFired(seqNo: uint32, cancelled: bool)
    | Dropping(duplicate: bool)
    | Running(task: Task, throws: bool)
    | HostGone

  /** Nobody starts to send on a session whose host is gone. */
  function Step(s: Waiting, e: Event): Waiting {
    match e
    case Start(up) => if s.host && up then s.(active := true) else s
    case Checking(q, up) => if s.host then Check(s, q, up) else s
    case Inserting(q) => if s.sending > 0 then Insert(s.(sending := s.sending - 1), q) else s
    case Receiving(c, m, up) => Receive(s, c, m, up)
    case TimerFired(q, cancelled) => Timeout(s, q, cancelled)
    case Dropping(duplicate) => Drop(s, duplicate)
    case Running(t, throws) => RunTask(s, t, throws)
    case HostGone => s.(host := false)
  }

  function Exec(s: Waiting, events: seq<Event>): Waiting
    decreases |events|
  {
    if events == [] then s else Exec(Step(s, events[0]), events[1..])
  }

  // ------------------------------------------- what the handlers do, one by one

  /** A send registers its callback unless the number is taken, or has it told that
      the session is inactive; and it is its check followed by its insertion. */
  lemma SendDoes(s: Waiting, seqNo: uint32, up: bool)
    ensures var t := Send(s, seqNo, up);
      && t.given == s.given + 1 && t.active == s.active && t.host == s.host
      && (if s.active && up then
            && (forall q :: q in t.table <==> q in s.table || q == seqNo)
            && (forall q :: q in t.table ==> t.table[q] == if q in s.table then s.table[q] else s.given)
            && t.pool == s.pool && t.posted == s.posted
          else
            var x := Call(s.given, seqNo, Inactive, None, false);
            && t.table == s.table
            && (forall y :: t.pool[y] == s.pool[y] + if y == x then 1 else 0)
            && (forall y :: t.posted[y] == s.posted[y] + if y == x then 1 else 0))
    ensures s.host && s.active && up ==>
      Send(s, seqNo, up) == Step(Step(s, Checking(seqNo, up)), Inserting(seqNo))
    ensures s.host && !(s.active && up) ==> Send(s, seqNo, up) == Step(s, Checking(seqNo, up))
  {
  }

  /** A message of an active session is posted once: with the response flag, the
      lowest bit of ext, to the callback registered under its number; any other to
      the message handler. */
  lemma ReceiveDoes(s: Waiting, cause: Cause, m: Message, up: bool)
    ensures var t := Receive(s, cause, m, up);
      && t == s.(pool := t.pool, posted := t.posted)
      && (!(s.active && s.host && up) ==> t == s)
      && (s.active && s.host && up ==>
        var x := if m.seqNo in s.table && m.ext % 2 == 1 then Call(s.table[m.seqNo], m.seqNo, cause, Some(m), true)
          else Handle(cause, Some(m));
        t.pool == s.pool + multiset{x} && t.posted == s.posted + multiset{x})
  {
  }

  /** A timer that was not cancelled posts the callback registered under its number. */
  lemma TimeoutDoes(s: Waiting, seqNo: uint32, cancelled: bool)
    ensures var t := Timeout(s, seqNo, cancelled);
      && t == s.(pool := t.pool, posted := t.posted)
      && (cancelled || !s.host || seqNo !in s.table ==> t == s)
      && (!cancelled && s.host && seqNo in s.table ==>
        var x := Call(s.table[seqNo], seqNo, NetworkTimeout, None, true);
        t.pool == s.pool + multiset{x} && t.posted == s.posted + multiset{x})
  {
  }

  // ------------------------------------------------------------- nothing lost

  /** Callback id was posted to the pool. */
  ghost predicate Scheduled(s: Waiting, id: nat) {
    exists t :: t in s.posted && t.Call? && t.id == id
  }

  ghost predicate Kept(s: Waiting, id: nat) {
    id in s.table.Values || Scheduled(s, id)
  }

  ghost predicate AllKept(s: Waiting) {
    forall id :: 0 <= id < s.given ==> Kept(s, id)
  }

  /** No entry uses the number, and no task that waits will remove one under it. */
  predicate Free(s: Waiting, seqNo: uint32) {
    seqNo !in s.table && forall t :: t in s.pool && t.Call? && t.erases ==> t.seqNo != seqNo
  }

  /** What the callers must do so that no callback is lost: insert under free
      numbers, and keep the host until the session is dropped. */
  predicate Careful(s: Waiting, e: Event) {
    && (e.Inserting? && s.sending > 0 ==> Free(s, e.seqNo))
    && (e.Dropping? && s.active ==> s.host)
  }

  predicate AllCareful(s: Waiting, events: seq<Event>)
    decreases |events|
  {
    events == [] || (Careful(s, events[0]) && AllCareful(Step(s, events[0]), events[1..]))
  }

  ghost predicate Inv(s: Waiting) {
    && AllKept(s)
    && s.pool <= s.posted
    && (forall q :: q in s.table ==> s.table[q] < s.given)
    && (forall t :: t in s.posted && t.Call? ==> t.id < s.given)
    && (forall t :: t in s.pool && t.Call? && t.erases && t.seqNo in s.table ==> s.table[t.seqNo] == t.id)
  }

  lemma PostKeeps(s: Waiting, s': Waiting)
    requires s.posted <= s'.posted && (forall q :: q in s.table ==> q in s'.table && s'.table[q] == s.table[q])
    ensures forall id :: Kept(s, id) ==> Kept(s', id)
  {
    forall id | Kept(s, id) ensures Kept(s', id) {
      if id in s.table.Values {
        var q :| q in s.table && s.table[q] == id;
        assert s'.table[q] == id;
      }
    }
  }

  lemma StepKeepsInv(s: Waiting, e: Event)
    requires Inv(s) && Careful(s, e)
    ensures Inv(Step(s, e))
    ensures forall id :: Kept(s, id) ==> Kept(Step(s, e), id)
    ensures s.given <= Step(s, e).given
  {
    match e
    case Dropping(_) => DropKeepsInv(s, e.duplicate);
    case Running(_, _) => RunKeepsInv(s, e.task, e.throws);
    case Checking(_, _) => SendKeepsInv(s, e);
    case Inserting(_) => SendKeepsInv(s, e);
    case _ => ArrivalKeepsInv(s, e);
  }

  lemma ArrivalKeepsInv(s: Waiting, e: Event)
    requires Inv(s) && (e.Start? || e.Receiving? || e.TimerFired? || e.HostGone?)
    ensures Inv(Step(s, e))
    ensures forall id :: Kept(s, id) ==> Kept(Step(s, e), id)
    ensures s.given <= Step(s, e).given
  {
    match e
    case Receiving(_, m, _) => {
      if m.seqNo in s.table && IsRespPacket(m) {
        PostOneKeepsInv(s, Call(s.table[m.seqNo], m.seqNo, e.cause, Some(m), true));
      } else {
        PostOneKeepsInv(s, Handle(e.cause, Some(m)));
      }
    }
    case TimerFired(q, _) => {
      if q in s.table {
        PostOneKeepsInv(s, Call(s.table[q], q, NetworkTimeout, None, true));
      }
    }
    case _ => PostKeeps(s, Step(s, e));
  }

  lemma PostOneKeepsInv(s: Waiting, t: Task)
    requires Inv(s) && (t.Call? ==> t.seqNo in s.table && s.table[t.seqNo] == t.id)
    ensures Inv(Post(s, multiset{t}))
    ensures forall id :: Kept(s, id) ==> Kept(Post(s, multiset{t}), id)
  {
    var s' := Post(s, multiset{t});
    PostKeeps(s, s');
    assert forall u :: u in s'.pool ==> u in s.pool || u == t;
    assert forall u :: u in s'.posted ==> u in s.posted || u == t;
  }

  lemma CheckKeepsInv(s: Waiting, seqNo: uint32, up: bool)
    requires Inv(s)
    ensures Inv(Check(s, seqNo, up))
    ensures forall id :: Kept(s, id) ==> Kept(Check(s, seqNo, up), id)
  {
    var s' := Check(s, seqNo, up);
    PostKeeps(s, s');
    if s'.given > s.given {
      var t := Call(s.given, seqNo, Inactive, None, false);
      assert t in s'.posted && forall u :: u in s'.posted <==> u in s.posted || u == t;
      assert forall u :: u in s'.pool <==> u in s.pool || u == t;
      assert Kept(s', s.given);
    }
  }

  lemma InsertKeepsInv(s: Waiting, seqNo: uint32)
    requires Inv(s) && Free(s, seqNo)
    ensures Inv(Insert(s, seqNo))
    ensures forall id :: Kept(s, id) ==> Kept(Insert(s, seqNo), id)
  {
    var s' := Insert(s, seqNo);
    PostKeeps(s, s');
    assert s'.table[seqNo] == s.given;
    assert Kept(s', s.given);
  }

  lemma SendKeepsInv(s: Waiting, e: Event)
    requires Inv(s) && Careful(s, e) && (e.Checking? || e.Inserting?)
    ensures Inv(Step(s, e))
    ensures forall id :: Kept(s, id) ==> Kept(Step(s, e), id)
  {
    if e.Checking? && s.host {
      CheckKeepsInv(s, e.seqNo, e.up);
    } else if e.Inserting? && s.sending > 0 {
      var w := s.(sending := s.sending - 1);
      SendingAside(s, s.sending - 1);
      InsertKeepsInv(w, e.seqNo);
    }
  }

  lemma SendingAside(s: Waiting, n: nat)
    requires Inv(s)
    ensures var w := s.(sending := n); Inv(w) && forall id :: Kept(w, id) <==> Kept(s, id)
  {
    var w := s.(sending := n);
    forall id ensures Kept(w, id) <==> Kept(s, id) {
      assert Scheduled(w, id) <==> Scheduled(s, id);
    }
  }

  lemma DropKeepsInv(s: Waiting, duplicate: bool)
    requires Inv(s) && (s.active ==> s.host)
    ensures Inv(Drop(s, duplicate))
    ensures forall id :: Kept(s, id) ==> Kept(Drop(s, duplicate), id)
  {
    var s' := Drop(s, duplicate);
    if s.active {
      forall id | Kept(s, id) ensures Kept(s', id) {
        if id in s.table.Values {
          var q :| q in s.table && s.table[q] == id;
          assert Call(id, q, DropCause(duplicate), None, false) in s'.posted;
        }
      }
    }
  }

  lemma RunKeepsInv(s: Waiting, t: Task, throws: bool)
    requires Inv(s)
    ensures Inv(RunTask(s, t, throws))
    ensures forall id :: Kept(s, id) ==> Kept(RunTask(s, t, throws), id)
  {
    var s' := RunTask(s, t, throws);
    forall id | Kept(s, id) ensures Kept(s', id) {
      if id in s.table.Values {
        var q :| q in s.table && s.table[q] == id;
        if q in s'.table {
          assert s'.table[q] == id;
        } else {
          assert t in s'.posted && t.id == id;
        }
      }
    }
  }

  lemma {:induction false} ExecKeepsInv(s: Waiting, events: seq<Event>)
    requires Inv(s) && AllCareful(s, events)
    ensures Inv(Exec(s, events))
    ensures forall id :: Kept(s, id) ==> Kept(Exec(s, events), id)
    decreases |events|
  {
    if events != [] {
      StepKeepsInv(s, events[0]);
      ExecKeepsInv(Step(s, events[0]), events[1..]);
    }
  }

  // ------------------------------------------------------- distinct numbers

  /** The numbers that requests with a callback carried. */
  function Sent(events: seq<Event>): seq<uint32> {
    if events == [] then []
    else if events[0].Inserting? then [events[0].seqNo] + Sent(events[1..])
    else Sent(events[1..])
  }

  /** No number still to be sent is in use. */
  predicate Unused(s: Waiting, qs: seq<uint32>) {
    forall q :: q in qs ==> Free(s, q)
  }

  predicate HostStays(events: seq<Event>) {
    forall e :: e in events ==> e != HostGone
  }

  lemma {:induction false} DistinctIsCareful(s: Waiting, events: seq<Event>)
    requires s.host && HostStays(events)
    requires Distinct(Sent(events)) && Unused(s, Sent(events))
    ensures AllCareful(s, events)
    decreases |events|
  {
    if events != [] {
      assert events[0] in events && forall x :: x in events[1..] ==> x in events;
      SentTail(events);
      StaysUnused(s, events[0], Sent(events[1..]));
      hide Step, Free, Sent, Distinct;
      assert Careful(s, events[0]);
      DistinctIsCareful(Step(s, events[0]), events[1..]);
    }
  }

  lemma SentTail(events: seq<Event>)
    requires events != [] && Distinct(Sent(events))
    ensures Distinct(Sent(events[1..]))
    ensures forall q :: q in Sent(events[1..]) ==> q in Sent(events)
    ensures events[0].Inserting? ==> events[0].seqNo in Sent(events) && events[0].seqNo !in Sent(events[1..])
  {
    if events[0].Inserting? {
      DistinctTail(Sent(events));
      hide Distinct;
      assert Sent(events)[1..] == Sent(events[1..]);
    }
  }

  lemma StaysUnused(s: Waiting, e: Event, qs: seq<uint32>)
    requires Unused(s, qs) && (e.Inserting? ==> e.seqNo !in qs)
    ensures Unused(Step(s, e), qs)
  {
    forall q | q in qs ensures Free(Step(s, e), q) {
      assert Free(s, q);
      StaysFree(s, e, q);
    }
  }

  lemma StaysFree(s: Waiting, e: Event, q: uint32)
    requires Free(s, q) && (e.Inserting? ==> e.seqNo != q)
    ensures Free(Step(s, e), q)
  {
    match e
    case Checking(p, _) => PostFree(s.(given := s.given + 1), Call(s.given, p, Inactive, None, false), q);
    case Receiving(c, m, _) => {
      if m.seqNo in s.table && IsRespPacket(m) {
        PostFree(s, Call(s.table[m.seqNo], m.seqNo, c, Some(m), true), q);
      } else {
        PostFree(s, Handle(c, Some(m)), q);
      }
    }
    case TimerFired(p, _) => {
      if p in s.table {
        PostFree(s, Call(s.table[p], p, NetworkTimeout, None, true), q);
      }
    }
    case Dropping(duplicate) => {
      assert forall t :: t in Drop(s, duplicate).pool && t.Call? && t.erases ==> t in s.pool;
    }
    case _ =>
  }

  lemma PostFree(s: Waiting, t: Task, q: uint32)
    requires Free(s, q) && (t.Call? && t.erases ==> t.seqNo != q)
    ensures Free(Post(s, multiset{t}), q)
  {
    assert forall u :: u in Post(s, multiset{t}).pool ==> u in s.pool || u == t;
  }

  /** Main result on the callbacks: while the host exists and every request has
      its own number, every callback ever given is registered or was posted to
      the pool, whatever arrives and whenever pool tasks run. */
  lemma NothingLost(events: seq<Event>)
    requires HostStays(events) && Distinct(Sent(events))
    ensures AllKept(Exec(INIT, events))
  {
    DistinctIsCareful(INIT, events);
    ExecKeepsInv(INIT, events);
  }

  // ------------------------------------------------- exactly when one is lost

  ghost predicate KeptForGood(s: Waiting, id: nat) {
    forall events :: AllCareful(s, events) ==> Kept(Exec(s, events), id)
  }

  /** A callback that is inserted is safe from then on if and only if its number
      was free: an entry under it makes insert ignore the new callback, and a task
      still to run would remove it together with the old one. */
  lemma SafeExactlyWhenFree(s: Waiting, seqNo: uint32)
    requires Inv(s) && s.sending > 0
    ensures KeptForGood(Step(s, Inserting(seqNo)), s.given) <==> Free(s, seqNo)
  {
    var s' := Step(s, Inserting(seqNo));
    if Free(s, seqNo) {
      SendKeepsInv(s, Inserting(seqNo));
      forall events | AllCareful(s', events) ensures Kept(Exec(s', events), s.given) {
        assert s'.table[seqNo] == s.given;
        ExecKeepsInv(s', events);
      }
    } else if seqNo in s.table {
      assert Exec(s', []) == s' && AllCareful(s', []);
      assert !Kept(s', s.given);
    } else {
      var t :| t in s.pool && t.Call? && t.erases && t.seqNo == seqNo;
      var events := [Running(t, false)];
      var s'' := RunTask(s', t, false);
      assert Exec(s', events) == s'' by {
        assert events[1..] == [];
      }
      assert AllCareful(s', events);
      assert !Kept(s'', s.given);
    }
  }

  /** drop loses a callback if and only if the host is gone and some registered
      callback was never posted. */
  lemma DropLosesExactly(s: Waiting, duplicate: bool)
    requires Inv(s) && s.active
    ensures AllKept(Drop(s, duplicate))
      <==> s.host || forall q :: q in s.table ==> Scheduled(s, s.table[q])
  {
    var s' := Drop(s, duplicate);
    if s.host {
      DropKeepsInv(s, duplicate);
    } else {
      assert s'.posted == s.posted;
      if forall q :: q in s.table ==> Scheduled(s, s.table[q]) {
        forall id | 0 <= id < s.given ensures Kept(s', id) {
          assert Kept(s, id);
        }
      } else {
        var q :| q in s.table && !Scheduled(s, s.table[q]);
        assert !Kept(s', s.table[q]);
      }
    }
  }

  /** Both losses are reached from the start: by a drop after the host went, and
      by a number that is used again while its first callback is registered. */
  lemma LossesAreReachable(q: uint32, duplicate: bool)
    ensures !AllKept(Exec(INIT, Sends([q]) + [HostGone, Dropping(duplicate)]))
    ensures !AllKept(Exec(INIT, Sends([q, q])))
  {
    var up := Exec(INIT, Sends([q]));
    assert Sends([q]) == [Start(true), Checking(q, true), Inserting(q)];
    ExecThree(INIT, Start(true), Checking(q, true), Inserting(q));
    ExecAppend(INIT, Sends([q]), [HostGone, Dropping(duplicate)]);
    ExecTwo(up, HostGone, Dropping(duplicate));
    assert Sends([q, q]) == Sends([q]) + [Checking(q, true), Inserting(q)];
    ExecAppend(INIT, Sends([q]), [Checking(q, true), Inserting(q)]);
    ExecTwo(up, Checking(q, true), Inserting(q));
    assert up.given == 1 && !Kept(Drop(up.(host := false), duplicate), 0);
    assert !Kept(Step(Step(up, Checking(q, true)), Inserting(q)), 1);
  }

  /** A start, and the sends one after the other. */
  function Sends(qs: seq<uint32>): seq<Event> {
    if qs == [] then [Start(true)]
    else Sends(qs[..|qs| - 1]) + [Checking(qs[|qs| - 1], true), Inserting(qs[|qs| - 1])]
  }

  lemma ExecThree(s: Waiting, a: Event, b: Event, c: Event)
    ensures Exec(s, [a, b, c]) == Step(Step(Step(s, a), b), c)
  {
    hide Step;
    assert [a, b, c][1..] == [b, c];
    ExecTwo(Step(s, a), b, c);
  }

  lemma {:induction false} ExecAppend(s: Waiting, a: seq<Event>, b: seq<Event>)
    ensures Exec(s, a + b) == Exec(Exec(s, a), b)
    decreases |a|
  {
    hide Step;
    if a == [] {
      assert a + b == b;
    } else {
      assert (a + b)[1..] == a[1..] + b;
      ExecAppend(Step(s, a[0]), a[1..], b);
    }
  }

  lemma ExecTwo(s: Waiting, a: Event, b: Event)
    ensures Exec(s, [a, b]) == Step(Step(s, a), b)
  {
    hide Step;
    assert [a, b][1..] == [b] && [b][1..] == [];
    assert Exec(Step(s, a), [b]) == Step(Step(s, a), b);
  }

  // ---------------------------------------------------------- after the drop

  /** What a dropped session posts for a callback given since. */
  predicate LateCall(t: Task, given: nat) {
    t.Call? && t.id >= given && (t.cause == Inactive || t.cause == NetworkTimeout)
  }

  /** Once a session is dropped and not started again, no event posts any callback
      given before, nor the message handler. Nothing is registered but what a
      thread inserts that passed the check before the drop: without such a thread
      the map stays empty, and each later callback is refused at once. */
  lemma {:induction false} QuietAfterDrop(s: Waiting, given: nat, events: seq<Event>)
    requires !s.active && given <= s.given && forall q :: q in s.table ==> s.table[q] >= given
    requires forall e :: e in events ==> !e.Start?
    ensures var t := Exec(s, events);
      && !t.active && s.posted <= t.posted
      && (forall q :: q in t.table ==> t.table[q] >= given)
      && (forall x :: x in t.posted - s.posted ==> LateCall(x, given))
      && (s.table == map[] && s.sending == 0 ==>
        t.table == map[] && t.sending == 0 && forall x :: x in t.posted - s.posted ==> x.cause == Inactive)
    decreases |events|
  {
    if events != [] {
      assert events[0] in events && forall e :: e in events[1..] ==> e in events;
      var s' := Step(s, events[0]);
      QuietStep(s, given, events[0]);
      QuietAfterDrop(s', given, events[1..]);
      var t := Exec(s', events[1..]);
      forall x | x in t.posted - s.posted ensures x in t.posted - s'.posted || x in s'.posted - s.posted {
      }
    }
  }

  lemma QuietStep(s: Waiting, given: nat, e: Event)
    requires !s.active && given <= s.given && !e.Start? && forall q :: q in s.table ==> s.table[q] >= given
    ensures var t := Step(s, e);
      && !t.active && given <= t.given && s.posted <= t.posted
      && (forall q :: q in t.table ==> t.table[q] >= given)
      && (forall x :: x in t.posted - s.posted ==> LateCall(x, given))
      && (s.table == map[] && s.sending == 0 ==>
        t.table == map[] && t.sending == 0 && forall x :: x in t.posted - s.posted ==> x.cause == Inactive)
  {
    QuietPosts(s, given, e);
    QuietTable(s, given, e);
    hide Step, LateCall;
  }

  lemma QuietTable(s: Waiting, given: nat, e: Event)
    requires !s.active && given <= s.given && !e.Start? && forall q :: q in s.table ==> s.table[q] >= given
    ensures var t := Step(s, e);
      && !t.active && given <= t.given
      && (forall q :: q in t.table ==> t.table[q] >= given)
      && (s.table == map[] && s.sending == 0 ==> t.table == map[] && t.sending == 0)
  {
    match e
    case Inserting(_) => {}
    case Running(_, _) => {}
    case _ => {}
  }

  lemma QuietPosts(s: Waiting, given: nat, e: Event)
    requires !s.active && given <= s.given && !e.Start? && forall q :: q in s.table ==> s.table[q] >= given
    ensures var t := Step(s, e);
      && s.posted <= t.posted
      && (forall x :: x in t.posted - s.posted ==> LateCall(x, given))
      && (s.table == map[] ==> forall x :: x in t.posted - s.posted ==> x.cause == Inactive)
  {
    if e.Checking? && s.host {
      Posts(s.posted, Step(s, e).posted, Call(s.given, e.seqNo, Inactive, None, false));
    } else if e.TimerFired? && s.host && !e.cancelled && e.seqNo in s.table {
      Posts(s.posted, Step(s, e).posted, Call(s.table[e.seqNo], e.seqNo, NetworkTimeout, None, true));
    } else {
      assert Step(s, e).posted == s.posted;
    }
  }

  lemma Posts(before: multiset<Task>, after: multiset<Task>, t: Task)
    requires after == before + multiset{t}
    ensures forall x :: x in after - before ==> x == t
  {
  }

  /** A callback that such a thread inserted after the drop is posted if and only
      if its timer fires from then on: neither a response nor a second drop reaches
      it any more. */
  lemma {:induction false} LateExactly(s: Waiting, seqNo: uint32, id: nat, events: seq<Event>)
    requires !s.active && s.host && Undisturbed(s, seqNo, id) && !Scheduled(s, id)
    requires HostStays(events) && forall e :: e in events ==> !e.Start?
    ensures Scheduled(Exec(s, events), id) <==> TimerFired(seqNo, false) in events
    decreases |events|
  {
    if events != [] {
      var e, s' := events[0], Step(s, events[0]);
      assert e in events && events == [e] + events[1..] && forall x :: x in events[1..] ==> x in events;
      if e == TimerFired(seqNo, false) {
        assert Call(id, seqNo, NetworkTimeout, None, true) in s'.posted;
        PostedStays(s', id, events[1..]);
      } else {
        LateEvent(s, seqNo, id, e);
        LateExactly(s', seqNo, id, events[1..]);
      }
    }
  }

  lemma LateEvent(s: Waiting, seqNo: uint32, id: nat, e: Event)
    requires !s.active && s.host && Undisturbed(s, seqNo, id) && !Scheduled(s, id)
    requires e != TimerFired(seqNo, false) && !e.Start? && e != HostGone
    ensures var s' := Step(s, e);
      !s'.active && s'.host && Undisturbed(s', seqNo, id) && !Scheduled(s', id)
  {
    if e.Receiving? || e.Dropping? {
      assert Step(s, e) == s;
    } else {
      OtherEvent(s, seqNo, id, e);
      ScheduledCalls(s, id);
      ScheduledCalls(Step(s, e), id);
    }
  }

  lemma ScheduledCalls(s: Waiting, id: nat)
    ensures Scheduled(s, id) <==> CallsOf(s.posted, id) != {}
  {
    if Scheduled(s, id) {
      var t :| t in s.posted && t.Call? && t.id == id;
      assert t in CallsOf(s.posted, id);
    }
  }

  lemma {:induction false} PostedStays(s: Waiting, id: nat, events: seq<Event>)
    requires Scheduled(s, id)
    ensures Scheduled(Exec(s, events), id)
    decreases |events|
  {
    if events != [] {
      PostedGrows(s, events[0]);
      hide Step;
      var t :| t in s.posted && t.Call? && t.id == id;
      assert t in Step(s, events[0]).posted;
      PostedStays(Step(s, events[0]), id, events[1..]);
    }
  }

  lemma PostedGrows(s: Waiting, e: Event)
    ensures s.posted <= Step(s, e).posted
  {
  }

  /** Such a callback exists: one thread passes the check, the session is dropped,
      and the thread goes on. */
  lemma LateIsReachable(q: uint32, duplicate: bool)
    ensures var s := Exec(INIT, [Start(true), Checking(q, true), Dropping(duplicate), Inserting(q)]);
      !s.active && s.host && Undisturbed(s, q, 0) && !Scheduled(s, 0)
  {
    var s := Step(Step(INIT, Start(true)), Checking(q, true));
    ExecTwo(INIT, Start(true), Checking(q, true));
    ExecTwo(s, Dropping(duplicate), Inserting(q));
    ExecAppend(INIT, [Start(true), Checking(q, true)], [Dropping(duplicate), Inserting(q)]);
    assert [Start(true), Checking(q, true)] + [Dropping(duplicate), Inserting(q)]
      == [Start(true), Checking(q, true), Dropping(duplicate), Inserting(q)];
  }

  /** What ends the wait of a registered callback: a response under its number,
      its timer or a drop. */
  predicate Ends(s: Waiting, e: Event, seqNo: uint32) {
    || (e.Receiving? && s.active && e.up && e.m.seqNo == seqNo && IsRespPacket(e.m))
    || (e.TimerFired? && e.seqNo == seqNo && !e.cancelled)
    || (e.Dropping? && s.active)
  }

  /** While the host exists each of them posts the callback of that number once
      more, with its own error code, and the entry is gone at the latest when that
      task has run. */
  lemma EntryEnds(s: Waiting, e: Event, seqNo: uint32) returns (t: Task)
    requires s.host && seqNo in s.table && Ends(s, e, seqNo)
    ensures var s' := Step(s, e);
      && t.Call? && t.id == s.table[seqNo] && t.seqNo == seqNo
      && s'.posted[t] == s.posted[t] + 1
      && (t.message == if e.Receiving? then Some(e.m) else None)
      && (e.Receiving? ==> t.cause == e.cause)
      && (e.TimerFired? ==> t.cause == NetworkTimeout)
      && (e.Dropping? ==> t.cause == if e.duplicate then DuplicateSession else Disconnect)
      && s'.table == (if e.Dropping? then map[] else s.table)
  {
    match e
    case Receiving(c, m, _) => t := Call(s.table[seqNo], seqNo, c, Some(m), true);
    case TimerFired(_, _) => t := Call(s.table[seqNo], seqNo, NetworkTimeout, None, true);
    case Dropping(duplicate) => {
      t := Call(s.table[seqNo], seqNo, DropCause(duplicate), None, false);
      assert t in DropTasks(s.table, DropCause(duplicate));
    }
  }

  /** A pool task runs once and posts nothing; it removes an entry only if it is one
      that erases, only the one under its number, and only if its callback returned. */
  lemma RunDoes(s: Waiting, t: Task, throws: bool)
    requires t in s.pool
    ensures var u := RunTask(s, t, throws);
      && (forall x :: u.pool[x] == s.pool[x] - if x == t then 1 else 0) && u.posted == s.posted
      && (forall q :: q in u.table <==> q in s.table && !(t.Call? && t.erases && !throws && q == t.seqNo))
      && (forall q :: q in u.table ==> u.table[q] == s.table[q])
      && u.active == s.active && u.given == s.given
  {
  }

  // ------------------------------------------------------- notice of the drop

  /** How many tasks tell the message handler something without a message. */
  function Notices(tasks: multiset<Task>): nat {
    tasks[Handle(Success, None)] + tasks[Handle(ProtocolError, None)] + tasks[Handle(NetworkTimeout, None)]
    + tasks[Handle(Disconnect, None)] + tasks[Handle(DuplicateSession, None)] + tasks[Handle(Inactive, None)]
  }

  /** How often the session goes from active to inactive. */
  function Drops(s: Waiting, events: seq<Event>): nat
    decreases |events|
  {
    if events == [] then 0
    else
      var t := Step(s, events[0]);
      (if s.active && !t.active then 1 else 0) + Drops(t, events[1..])
  }

  /** Over any run while the host exists, the message handler is told of each drop,
      once, and of nothing else without a message. */
  lemma {:induction false} EveryDropIsTold(s: Waiting, events: seq<Event>)
    requires s.host && HostStays(events)
    ensures Notices(Exec(s, events).posted) == Notices(s.posted) + Drops(s, events)
    decreases |events|
  {
    if events != [] {
      assert events[0] in events && forall e :: e in events[1..] ==> e in events;
      NoticeOfStep(s, events[0]);
      hide Step, Notices;
      EveryDropIsTold(Step(s, events[0]), events[1..]);
    }
  }

  lemma NoticeOfStep(s: Waiting, e: Event)
    requires s.host && e != HostGone
    ensures var t := Step(s, e);
      t.host && Notices(t.posted) == Notices(s.posted) + if s.active && !t.active then 1 else 0
  {
    if e.Dropping? && s.active {
      NoticeOfDrop(s, e);
    } else {
      hide Notices;
      match e
      case Checking(q, _) => NoNotice(s.posted, Call(s.given, q, Inactive, None, false));
      case Receiving(c, m, _) => {
        NoNotice(s.posted, Handle(c, Some(m)));
        if m.seqNo in s.table {
          NoNotice(s.posted, Call(s.table[m.seqNo], m.seqNo, c, Some(m), true));
        }
      }
      case TimerFired(q, _) => {
        if q in s.table {
          NoNotice(s.posted, Call(s.table[q], q, NetworkTimeout, None, true));
        }
      }
      case _ =>
    }
  }

  lemma NoticeOfDrop(s: Waiting, e: Event)
    requires s.host && s.active && e.Dropping?
    ensures var t := Step(s, e); t.host && !t.active && Notices(t.posted) == Notices(s.posted) + 1
  {
    WhatADropPosts(s, e);
  }

  lemma NoNotice(posted: multiset<Task>, t: Task)
    requires t.Handle? ==> t.message.Some?
    ensures Notices(posted + multiset{t}) == Notices(posted)
  {
  }

  /** What that step is and all that it posts: the callback of every entry once, and
      the notice once, each with the same reason. */
  lemma WhatADropPosts(s: Waiting, e: Event)
    requires s.host && s.active && !Step(s, e).active
    ensures e.Dropping? && Step(s, e).table == map[]
    ensures var c := if e.duplicate then DuplicateSession else Disconnect;
      forall x :: Step(s, e).posted[x] == s.posted[x] + if DropOwes(s.table, c, x) then 1 else 0
    ensures var c := if e.duplicate then DuplicateSession else Disconnect;
      forall x :: Step(s, e).pool[x] == s.pool[x] + if DropOwes(s.table, c, x) then 1 else 0
  {
    DropDoes(s, e.duplicate);
  }

  lemma DropDoes(s: Waiting, duplicate: bool)
    ensures !s.active ==> Drop(s, duplicate) == s
    ensures s.active ==> !Drop(s, duplicate).active && Drop(s, duplicate).table == map[]
    ensures s.active && s.host ==>
      var c := if duplicate then DuplicateSession else Disconnect;
      && (forall x :: Drop(s, duplicate).pool[x] == s.pool[x] + if DropOwes(s.table, c, x) then 1 else 0)
      && (forall x :: Drop(s, duplicate).posted[x] == s.posted[x] + if DropOwes(s.table, c, x) then 1 else 0)
  {
    var c := if duplicate then DuplicateSession else Disconnect;
    forall x ensures x in DropTasks(s.table, c) <==> x.Call? && DropOwes(s.table, c, x) {
    }
  }

  /** The callbacks of the table and the message handler, with reason c. */
  predicate DropOwes(table: map<uint32, nat>, c: Cause, x: Task) {
    match x
    case Handle(cause, message) => cause == c && message == None
    case Call(id, seqNo, cause, message, erases) =>
      seqNo in table && table[seqNo] == id && cause == c && message == None && !erases
  }

  // -------------------------------------------------------------- no stealing

  /** The events that may take the entry under seqNo away or post its callback. */
  predicate Concerns(e: Event, seqNo: uint32) {
    || (e.Receiving? && e.m.seqNo == seqNo && IsRespPacket(e.m))
    || (e.TimerFired? && e.seqNo == seqNo && !e.cancelled)
    || e.Dropping?
  }

  function CallsOf(tasks: multiset<Task>, id: nat): set<Task> {
    set t | t in tasks && t.Call? && t.id == id
  }

  /** Callback id is registered under seqNo alone, and no task that waits will
      remove it. */
  predicate Undisturbed(s: Waiting, seqNo: uint32, id: nat) {
    && seqNo in s.table && s.table[seqNo] == id < s.given
    && (forall q :: q in s.table && s.table[q] == id ==> q == seqNo)
    && (forall t :: t in s.pool && t.Call? && t.erases ==> t.seqNo != seqNo)
  }

  /** Only a response under its own number, its own timer or a drop touch an
      entry: over any other run it stays, and its callback is not posted. Packets
      without the response flag go to the message handler, whatever their number. */
  lemma {:induction false} OnlyItsOwnEvents(s: Waiting, seqNo: uint32, id: nat, events: seq<Event>)
    requires Undisturbed(s, seqNo, id)
    requires forall e :: e in events ==> !Concerns(e, seqNo)
    ensures var t := Exec(s, events);
      Undisturbed(t, seqNo, id) && CallsOf(t.posted, id) == CallsOf(s.posted, id)
    decreases |events|
  {
    if events != [] {
      assert events[0] in events;
      OtherEvent(s, seqNo, id, events[0]);
      OnlyItsOwnEvents(Step(s, events[0]), seqNo, id, events[1..]);
    }
  }

  lemma OtherEvent(s: Waiting, seqNo: uint32, id: nat, e: Event)
    requires Undisturbed(s, seqNo, id) && !Concerns(e, seqNo)
    ensures var s' := Step(s, e);
      Undisturbed(s', seqNo, id) && CallsOf(s'.posted, id) == CallsOf(s.posted, id)
  {
    match e
    case Checking(_, _) => { OtherSend(s, seqNo, id, e); }
    case Inserting(_) => { OtherSend(s, seqNo, id, e); }
    case Receiving(_, _, _) => { OtherMessage(s, seqNo, id, e); }
    case TimerFired(_, _) => { OtherTimer(s, seqNo, id, e); }
    case Running(_, _) => { assert Step(s, e).posted == s.posted; }
    case _ =>
  }

  lemma OtherSend(s: Waiting, seqNo: uint32, id: nat, e: Event)
    requires Undisturbed(s, seqNo, id) && (e.Checking? || e.Inserting?)
    ensures var s' := Step(s, e);
      Undisturbed(s', seqNo, id) && CallsOf(s'.posted, id) == CallsOf(s.posted, id)
  {
    if e.Checking? {
      var t := Call(s.given, e.seqNo, Inactive, None, false);
      assert forall u :: u in s.posted + multiset{t} <==> u in s.posted || u == t;
      assert forall u :: u in s.pool + multiset{t} <==> u in s.pool || u == t;
    }
  }

  lemma OtherMessage(s: Waiting, seqNo: uint32, id: nat, e: Event)
    requires Undisturbed(s, seqNo, id) && e.Receiving? && !Concerns(e, seqNo)
    ensures var s' := Step(s, e);
      Undisturbed(s', seqNo, id) && CallsOf(s'.posted, id) == CallsOf(s.posted, id)
  {
  }

  lemma OtherTimer(s: Waiting, seqNo: uint32, id: nat, e: Event)
    requires Undisturbed(s, seqNo, id) && e.TimerFired? && !Concerns(e, seqNo)
    ensures var s' := Step(s, e);
      Undisturbed(s', seqNo, id) && CallsOf(s'.posted, id) == CallsOf(s.posted, id)
  {
  }
}
