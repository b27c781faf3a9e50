/** The write side of Session (send, write, onWrite) as a system of threads that
    interleave between its lock sections.

    A step is one lock section, one check of actived(), or one thing asyncWrite
    does. Threads carry no identity: those that are about to do the same thing
    are counted. */
module WriteQueue {
  import opened Sequences
  import opened Bytes

  /** A buffer given to asyncWrite and how much of it has reached the peer. */
  datatype Flight = Flight(buffer: bytes, sent: nat)

  /** Where a started onWrite handler stands. */
  datatype Handler = Reported(error: bool) | Clearing

  datatype Writer = Writer(
    queue: seq<bytes>,          // m_writeQueue, in the order of its stable heap
    writing: bool,              // m_writing
    usable: bool,               // actived(): false for good once the session or its socket is down
    passed: multiset<bytes>,    // buffers of threads in send(), past the check, before the push
    toCheck: nat,               // threads at the entry of write()
    toLock: nat,                // threads in write(), past the check, before the lock
    flights: seq<Flight>,       // asyncWrite operations under way
    handlers: seq<Handler>,     // onWrite handlers under way
    accepted: seq<bytes>,       // history: every buffer pushed, in order
    completed: seq<bytes>,      // history: buffers written in full
    lost: seq<bytes>,           // history: buffers popped whose write was refused or failed
    wire: bytes)                // history: every byte that reached the peer

  const INIT := Writer([], false, true, multiset{}, 0, 0, [], [], [], [], [], [])

  // ------------------------------------------------------------ lock sections

  /** What the lock section of write() leads to. */
  datatype Section = Nothing | Start(buffer: bytes) | Refuse(buffer: bytes)

  /** The lock section of write(): the new queue, the new flag and what follows. */
  function WriteSection(queue: seq<bytes>, writing: bool, connected: bool): (seq<bytes>, bool, Section) {
    if writing then (queue, true, Nothing)
    else if queue == [] then (queue, false, Nothing)
    else (queue[1..], true, if connected then Start(queue[0]) else Refuse(queue[0]))
  }

  /** What it leads to in each case, and that what it takes is the front of the
      queue. */
  lemma WriteSectionDoes(queue: seq<bytes>, writing: bool, connected: bool)
    ensures var (q, wr, next) := WriteSection(queue, writing, connected);
      && (next.Nothing? <==> writing || queue == [])
      && (next.Start? ==> connected && queue == [next.buffer] + q)
      && (next.Refuse? ==> !connected && queue == [next.buffer] + q)
      && (next.Nothing? ==> q == queue)
      && (wr <==> writing || queue != [])
  {
  }

  // ------------------------------------------------------------------ a system

  datatype Event =
    | SendCheck(buffer: bytes)        // send(): the check of actived()
    | Push(buffer: bytes)             // send(): the push under the lock
    | CheckUsable                     // write(): the check of actived()
    | Lock(connected: bool)           // write(): the lock section
    | Transmit(i: nat, n: nat)        // asyncWrite i gets n more bytes to the peer
    | WriteDone(i: nat, error: bool)  // asyncWrite i ends and its handler starts
    | HandlerCheck(i: nat)            // onWrite: the check of actived() and of the error code
    | HandlerClear(i: nat)            // onWrite: clears m_writing, goes on to write()
    | GoDown                          // drop from elsewhere, or the socket closes

  /** One step; an event that is not possible in s changes nothing. */
  function Step(s: Writer, e: Event): Writer {
    match e
    case SendCheck(b) =>
      if s.usable then s.(passed := s.passed + multiset{b}) else s
    case Push(b) =>
      if b !in s.passed then s
      else s.(passed := s.passed - multiset{b}, queue := s.queue + [b],
              accepted := s.accepted + [b], toCheck := s.toCheck + 1)
    case CheckUsable =>
      if s.toCheck == 0 then s
      else s.(toCheck := s.toCheck - 1, toLock := if s.usable then s.toLock + 1 else s.toLock)
    case Lock(connected) =>
      if s.toLock == 0 then s
      else
        var (queue, writing, next) := WriteSection(s.queue, s.writing, connected);
        var s' := s.(toLock := s.toLock - 1, queue := queue, writing := writing);
        (match next
         case Nothing => s'
         case Start(b) => s'.(flights := s.flights + [Flight(b, 0)])
         case Refuse(b) => s'.(lost := s.lost + [b], usable := false))
    case Transmit(i, n) =>
      if i < |s.flights| && s.flights[i].sent + n <= |s.flights[i].buffer| then
        var f := s.flights[i];
        s.(flights := s.flights[i := f.(sent := f.sent + n)],
           wire := s.wire + f.buffer[f.sent..f.sent + n])
      else s
    case WriteDone(i, error) =>
      if i < |s.flights| && (error || s.flights[i].sent == |s.flights[i].buffer|) then
        var b, s' := s.flights[i].buffer,
          s.(flights := Without(s.flights, i), handlers := s.handlers + [Reported(error)]);
        if error then s'.(lost := s.lost + [b]) else s'.(completed := s.completed + [b])
      else s
    case HandlerCheck(i) =>
      if i < |s.handlers| && s.handlers[i].Reported? then
        if !s.usable then s.(handlers := Without(s.handlers, i))
        else if s.handlers[i].error then s.(handlers := Without(s.handlers, i), usable := false)
        else s.(handlers := s.handlers[i := Clearing])
      else s
    case HandlerClear(i) =>
      if i < |s.handlers| && s.handlers[i].Clearing? then
        s.(handlers := Without(s.handlers, i), writing := false, toCheck := s.toCheck + 1)
      else s
    case GoDown => s.(usable := false)
  }

  function Exec(s: Writer, events: seq<Event>): Writer
    decreases |events|
  {
    if events == [] then s else Exec(Step(s, events[0]), events[1..])
  }

  // ----------------------------------------------------------------- invariant

  function InFlight(s: Writer): seq<bytes> {
    seq(|s.flights|, i requires 0 <= i < |s.flights| => s.flights[i].buffer)
  }

  /** At most one write is under way, counting the one whose handler still runs. */
  predicate OneWrite(s: Writer) {
    && |s.flights| + |s.handlers| <= 1
    && (s.flights != [] || s.handlers != [] ==> s.writing)
    && (s.writing && s.usable ==> s.flights != [] || s.handlers != [])
  }

  /** Nothing is lost on a session that is still up, and nothing follows a loss. */
  predicate LostLast(s: Writer) {
    && |s.lost| <= 1
    && (s.lost != [] ==> s.writing && s.flights == [] && (s.handlers == [] || s.handlers[0] == Reported(true)))
    && (s.handlers != [] && s.handlers[0] == Reported(true) ==> s.lost != [])
  }

  /** Every accepted buffer is in exactly one place, in the order of acceptance. */
  predicate Conserved(s: Writer) {
    s.accepted == s.completed + InFlight(s) + s.lost + s.queue
  }

  /** The bytes at the peer are those of the completed writes and a part of the
      one under way. */
  predicate OnWire(s: Writer) {
    if s.lost != [] then s.wire <= Flatten(s.completed) + s.lost[0]
    else if s.flights == [] then s.wire == Flatten(s.completed)
    else
      var f := s.flights[0];
      f.sent <= |f.buffer| && s.wire == Flatten(s.completed) + f.buffer[..f.sent]
  }

  /** A queue that is not empty has someone who will look at it. */
  predicate NoLostWakeup(s: Writer) {
    s.usable && s.queue != [] ==> s.flights != [] || s.handlers != [] || s.toCheck + s.toLock > 0
  }

  predicate Inv(s: Writer) {
    OneWrite(s) && LostLast(s) && Conserved(s) && OnWire(s) && NoLostWakeup(s)
  }

  lemma StepKeepsInv(s: Writer, e: Event)
    requires Inv(s)
    ensures Inv(Step(s, e))
    ensures s.wire <= Step(s, e).wire && s.accepted <= Step(s, e).accepted
  {
    match e
    case Lock(_) => LockKeepsInv(s, e);
    case Transmit(_, _) => TransmitKeepsInv(s, e);
    case WriteDone(_, _) => WriteDoneKeepsInv(s, e);
    case HandlerCheck(_) => HandlerKeepsInv(s, e);
    case HandlerClear(_) => HandlerKeepsInv(s, e);
    case _ => ThreadKeepsInv(s, e);
  }

  lemma ThreadKeepsInv(s: Writer, e: Event)
    requires Inv(s) && (e.SendCheck? || e.Push? || e.CheckUsable? || e.GoDown?)
    ensures Inv(Step(s, e))
    ensures s.wire == Step(s, e).wire && s.accepted <= Step(s, e).accepted
  {
    hide Flatten;
    assert InFlight(Step(s, e)) == InFlight(s);
  }

  lemma HandlerKeepsInv(s: Writer, e: Event)
    requires Inv(s) && (e.HandlerCheck? || e.HandlerClear?)
    ensures Inv(Step(s, e))
    ensures s.wire == Step(s, e).wire && s.accepted == Step(s, e).accepted
  {
    hide Flatten;
    assert InFlight(Step(s, e)) == InFlight(s);
  }

  lemma TransmitKeepsInv(s: Writer, e: Event)
    requires Inv(s) && e.Transmit?
    ensures Inv(Step(s, e))
    ensures s.wire <= Step(s, e).wire && s.accepted == Step(s, e).accepted
  {
    hide Flatten;
    var t := Step(s, e);
    assert InFlight(t) == InFlight(s);
    if t != s {
      var f := s.flights[0];
      assert t.flights == [f.(sent := f.sent + e.n)];
      SliceAppend(Flatten(s.completed), f.buffer, f.sent, e.n);
      assert OnWire(t);
    }
  }

  lemma SliceAppend(x: bytes, b: bytes, k: nat, n: nat)
    requires k + n <= |b|
    ensures x + b[..k] + b[k..k + n] == x + b[..k + n]
  {
  }

  lemma LockKeepsInv(s: Writer, e: Event)
    requires Inv(s) && e.Lock?
    ensures Inv(Step(s, e))
    ensures s.wire == Step(s, e).wire && s.accepted == Step(s, e).accepted
  {
    hide Flatten;
    var t := Step(s, e);
    if s.toLock > 0 && !s.writing && s.queue != [] {
      var b := s.queue[0];
      assert s.queue == [b] + t.queue;
      assert InFlight(s) == [] && s.lost == [];
      if e.connected {
        assert t.flights == [Flight(b, 0)] && InFlight(t) == [b] && b[..0] == [];
      } else {
        assert t.lost == [b] && InFlight(t) == [];
      }
    } else {
      assert InFlight(t) == InFlight(s);
    }
  }

  lemma WriteDoneKeepsInv(s: Writer, e: Event)
    requires Inv(s) && e.WriteDone?
    ensures Inv(Step(s, e))
    ensures s.wire == Step(s, e).wire && s.accepted == Step(s, e).accepted
  {
    if e.i < |s.flights| && (e.error || s.flights[e.i].sent == |s.flights[e.i].buffer|) {
      var f := s.flights[0];
      assert InFlight(s) == [f.buffer] && InFlight(Step(s, e)) == [];
      FlattenAppend(s.completed, [f.buffer]);
      FlattenOne(f.buffer);
      hide Flatten;
      assert f.sent == |f.buffer| ==> f.buffer[..f.sent] == f.buffer;
    } else {
      assert InFlight(Step(s, e)) == InFlight(s);
    }
  }

  lemma {:induction false} ExecKeepsInv(s: Writer, events: seq<Event>)
    requires Inv(s)
    ensures Inv(Exec(s, events))
    decreases |events|
  {
    if events != [] {
      StepKeepsInv(s, events[0]);
      ExecKeepsInv(Step(s, events[0]), events[1..]);
    }
  }

  /** Main result on the queue, over every interleaving: one write at a time, the
      peer sees a prefix of what was accepted, in order, and what was accepted is
      completed ++ in flight ++ queued as long as the session is up. */
  lemma QueueSafety(events: seq<Event>)
    ensures var s := Exec(INIT, events);
      && |s.flights| <= 1
      && s.wire <= Flatten(s.accepted)
      && (s.usable && s.lost != [] ==> s.handlers != [] && s.handlers[0] == Reported(true))
      && (s.lost == [] ==> s.accepted == s.completed + InFlight(s) + s.queue)
      && (s.usable && s.queue != [] ==> s.flights != [] || s.handlers != [] || s.toCheck + s.toLock > 0)
  {
    ExecKeepsInv(INIT, events);
    WireIsPrefix(Exec(INIT, events));
  }

  lemma FlattenOne(b: bytes)
    ensures Flatten([b]) == b
  {
  }

  lemma WireIsPrefix(s: Writer)
    requires Inv(s)
    ensures s.wire <= Flatten(s.accepted)
  {
    var middle := InFlight(s) + s.lost;
    assert s.accepted == s.completed + (middle + s.queue);
    FlattenAppend(s.completed, middle + s.queue);
    FlattenAppend(middle, s.queue);
    if middle != [] {
      assert middle == [middle[0]];
      FlattenOne(middle[0]);
      hide Flatten;
      assert s.wire <= Flatten(s.completed) + middle[0];
    }
  }

  // ------------------------------------------------------------------ progress

  /** The step that brings an undisturbed session on; GoDown when it is at rest. */
  function NextStep(s: Writer): Event {
    if s.flights != [] then
      var f := s.flights[0];
      if f.sent < |f.buffer| then Transmit(0, |f.buffer| - f.sent) else WriteDone(0, false)
    else if s.handlers != [] then
      (if s.handlers[0].Reported? then HandlerCheck(0) else HandlerClear(0))
    else if s.toLock > 0 then Lock(true)
    else if s.toCheck > 0 then CheckUsable
    else GoDown
  }

  function Work(s: Writer): nat {
    8 * |s.queue| + 2 * s.toCheck + s.toLock
    + (if s.flights == [] then 0 else if s.flights[0].sent < |s.flights[0].buffer| then 6 else 5)
    + (if s.handlers == [] then 0 else if s.handlers[0].Reported? then 4 else 3)
  }

  /** From every reachable state of a session that is up and whose last write did
      not fail, the steps under way alone write out all that was accepted. */
  lemma {:induction false} DrainsAlone(s: Writer) returns (events: seq<Event>)
    requires Inv(s) && s.usable && s.lost == []
    ensures var t := Exec(s, events);
      t.usable && t.accepted == s.accepted == t.completed && t.wire == Flatten(s.accepted)
    decreases Work(s)
  {
    if s.flights == [] && s.handlers == [] && s.toLock == 0 && s.toCheck == 0 {
      assert InFlight(s) == [];
      events := [];
    } else {
      var e := NextStep(s);
      StepKeepsInv(s, e);
      var later := DrainsAlone(Step(s, e));
      events := [e] + later;
      assert events[1..] == later;
    }
  }
}
