/** The protocol by which a gateway keeps a copy of what a peer publishes: the
    peer counts its changes, announces the counter in heartbeats, and answers a
    request with the counter and the content. Node ids (GatewayNodeManager) and
    AMOP topics (TopicManager) both follow it.

    Handlers run on a thread pool and sessions come and go, so packets are
    delivered in any order and may be lost. */
module Gossip {
  import opened Wrappers
  import opened Sequences
  import opened Bytes

  /** A counter value and the content read with it. The position in the
      publisher's history at that moment is recorded for the proofs only; no step
      looks at it. */
  datatype Snapshot<V> = Snapshot(seqNo: uint32, content: V, at: nat)

  datatype Packet<V> = Heartbeat(seqNo: uint32) | Request | Response(report: Snapshot<V>)

  /** A sweep changes the content in several steps, with readers in between, and
      counts once at the end. */
  datatype Edit = Idle | Sweeping(updated: bool)

  datatype System<V> = System(
    history: seq<V>,              // the content under each counter value so far
    current: V,                   // the publisher's content
    edit: Edit,
    stored: Option<Snapshot<V>>,  // what the subscriber holds for the publisher
    wire: seq<Packet<V>>)         // packets under way

  /** A system just after the publisher started with content v: counter 1. */
  function Init<V>(v: V): System<V> {
    System([v], v, Idle, None, [])
  }

  /** The 32-bit counter that starts at 1 and wraps. */
  function CurrentSeq<V>(s: System<V>): uint32 {
    |s.history| % TWO_32
  }

  function Take<V>(s: System<V>): Snapshot<V>
    requires s.history != []
  {
    Snapshot(CurrentSeq(s), s.current, |s.history| - 1)
  }

  datatype Event<V> =
    | Change(v: V)        // one change and one count under one lock
    | BeginSweep
    | Erase(v: V)         // one step of a sweep
    | EndSweep            // counts if anything was erased
    | SendHeartbeat
    | Deliver(i: nat)     // packet i reaches its handler
    | Lose(i: nat)
    | Forget              // the subscriber drops what it holds: the peer is gone

  /** Whether a heartbeat makes the subscriber ask (onReceiveStatusSeq, checkTopicSeq). */
  predicate SeqChanged<V>(stored: Option<Snapshot<V>>, seqNo: uint32) {
    stored.None? || stored.value.seqNo != seqNo
  }

  function Handle<V>(s: System<V>, p: Packet<V>): System<V>
    requires s.history != []
  {
    match p
    case Heartbeat(q) => if SeqChanged(s.stored, q) then s.(wire := s.wire + [Request]) else s
    case Request => s.(wire := s.wire + [Response(Take(s))])
    case Response(r) => s.(stored := Some(r))
  }

  /** One step; an event that is not possible in s changes nothing. */
  function Step<V>(s: System<V>, e: Event<V>): (t: System<V>)
    requires s.history != []
    ensures s.history <= t.history
  {
    match e
    case Change(v) => if s.edit.Idle? then s.(history := s.history + [v], current := v) else s
    case BeginSweep => if s.edit.Idle? then s.(edit := Sweeping(false)) else s
    case Erase(v) => if s.edit.Idle? then s else s.(current := v, edit := Sweeping(true))
    case EndSweep =>
      if s.edit.Idle? then s
      else s.(edit := Idle, history := if s.edit.updated then s.history + [s.current] else s.history)
    case SendHeartbeat => s.(wire := s.wire + [Heartbeat(CurrentSeq(s))])
    case Deliver(i) => if i < |s.wire| then Handle(s.(wire := Without(s.wire, i)), s.wire[i]) else s
    case Lose(i) => if i < |s.wire| then s.(wire := Without(s.wire, i)) else s
    case Forget => s.(stored := None)
  }

  function Exec<V>(s: System<V>, events: seq<Event<V>>): (t: System<V>)
    requires s.history != []
    ensures t.history != []
    decreases |events|
  {
    if events == [] then s else Exec(Step(s, events[0]), events[1..])
  }

  lemma {:induction false} ExecAppend<V>(s: System<V>, a: seq<Event<V>>, b: seq<Event<V>>)
    requires s.history != []
    ensures Exec(s, a + b) == Exec(Exec(s, a), b)
    decreases |a|
  {
    if a == [] {
      assert a + b == b;
    } else {
      assert (a + b)[1..] == a[1..] + b;
      ExecAppend(Step(s, a[0]), a[1..], b);
    }
  }

  // -------------------------------------------------------------------- safety

  ghost predicate Taken<V>(s: System<V>, r: Snapshot<V>) {
    && r.at < |s.history|
    && r.seqNo == (r.at + 1) % TWO_32
    && (r.content == s.history[r.at] || r.at + 1 < |s.history| || s.edit == Sweeping(true))
  }

  ghost predicate Inv<V>(s: System<V>) {
    && s.history != []
    && (s.edit != Sweeping(true) ==> s.current == s.history[|s.history| - 1])
    && (s.stored.Some? ==> Taken(s, s.stored.value))
    && forall i :: 0 <= i < |s.wire| && s.wire[i].Response? ==> Taken(s, s.wire[i].report)
  }

  lemma StepKeepsInv<V>(s: System<V>, e: Event<V>)
    requires Inv(s)
    ensures Inv(Step(s, e))
  {
    match e
    case Deliver(i) => {
      if i < |s.wire| {
        HandleKeepsInv(s.(wire := Without(s.wire, i)), s.wire[i]);
      }
    }
    case Lose(_) => {}
    case SendHeartbeat => {}
    case Forget => {}
    case _ => PublisherKeepsInv(s, e);
  }

  lemma HandleKeepsInv<V>(s: System<V>, p: Packet<V>)
    requires Inv(s) && (p.Response? ==> Taken(s, p.report))
    ensures Inv(Handle(s, p))
  {
    assert Taken(s, Take(s));
  }

  lemma PublisherKeepsInv<V>(s: System<V>, e: Event<V>)
    requires Inv(s) && (e.Change? || e.BeginSweep? || e.Erase? || e.EndSweep?)
    ensures Inv(Step(s, e))
  {
    var t := Step(s, e);
    assert forall r :: Taken(s, r) ==> Taken(t, r);
  }

  lemma {:induction false} ExecKeepsInv<V>(s: System<V>, events: seq<Event<V>>)
    requires Inv(s)
    ensures Inv(Exec(s, events))
    decreases |events|
  {
    if events != [] {
      StepKeepsInv(s, events[0]);
      ExecKeepsInv(Step(s, events[0]), events[1..]);
    }
  }

  /** Main safety result, over every run: outside a sweep, a subscriber whose
      stored counter equals the publisher's holds exactly the publisher's content,
      unless 2^32 changes went by since the stored report was read. */
  lemma EqualSeqEqualContent<V>(v: V, events: seq<Event<V>>)
    ensures var s := Exec(Init(v), events);
      s.edit.Idle? && s.stored.Some? && s.stored.value.seqNo == CurrentSeq(s)
      && |s.history| - (s.stored.value.at + 1) < TWO_32
      ==> s.stored.value.content == s.current
  {
    ExecKeepsInv(Init(v), events);
    var s := Exec(Init(v), events);
    if && s.edit.Idle? && s.stored.Some? && s.stored.value.seqNo == CurrentSeq(s)
       && |s.history| - (s.stored.value.at + 1) < TWO_32 {
      SafeIn(s);
    }
  }

  lemma SafeIn<V>(s: System<V>)
    requires Inv(s) && s.edit.Idle? && s.stored.Some? && s.stored.value.seqNo == CurrentSeq(s)
    requires |s.history| - (s.stored.value.at + 1) < TWO_32
    ensures s.stored.value.content == s.current
  {
    SameResidue(s.stored.value.at + 1, |s.history|);
  }

  lemma SameResidue(a: nat, b: nat)
    requires a <= b < a + TWO_32 && a % TWO_32 == b % TWO_32
    ensures a == b
  {
  }

  /** The bound is sharp: after 2^32 changes the counters agree again and the
      contents need not. */
  lemma WrapBreaksSafety<V>(v: V, x: V, y: V) returns (events: seq<Event<V>>)
    requires v != x && x != y && v != y
    ensures var s := Exec(Init(v), events);
      && s.edit.Idle? && s.stored.Some? && s.stored.value.seqNo == CurrentSeq(s)
      && |s.history| - (s.stored.value.at + 1) == TWO_32
      && s.stored.value.content != s.current
  {
    var sync := [SendHeartbeat, Deliver(0), Deliver(0), Deliver(0)];
    var s1 := Step(Init(v), SendHeartbeat);
    var s2 := Step(s1, Deliver(0));
    assert s2.wire == [Request];
    var s3 := Step(s2, Deliver(0));
    assert s3.wire == [Response(Snapshot(1, v, 0))];
    var s4 := Step(s3, Deliver(0));
    ExecFour(Init(v), SendHeartbeat, Deliver(0), Deliver(0), Deliver(0));
    var s, flips := AlternateChanges(s4, x, y, TWO_32);
    ExecAppend(Init(v), sync, flips);
    events := sync + flips;
  }

  lemma ExecCons<V>(s: System<V>, e: Event<V>, rest: seq<Event<V>>)
    requires s.history != []
    ensures Exec(s, [e] + rest) == Exec(Step(s, e), rest)
  {
    hide Step;
    assert ([e] + rest)[1..] == rest;
  }

  lemma ExecOne<V>(s: System<V>, e: Event<V>)
    requires s.history != []
    ensures Exec(s, [e]) == Step(s, e)
  {
    ExecCons(s, e, []);
    assert [e] + [] == [e];
  }

  lemma ExecTwo<V>(s: System<V>, a: Event<V>, b: Event<V>)
    requires s.history != []
    ensures Exec(s, [a, b]) == Step(Step(s, a), b)
  {
    hide Step, Exec;
    ExecCons(s, a, [b]);
    assert [a] + [b] == [a, b];
    ExecOne(Step(s, a), b);
  }

  lemma ExecFour<V>(s: System<V>, a: Event<V>, b: Event<V>, c: Event<V>, d: Event<V>)
    requires s.history != []
    ensures Exec(s, [a, b, c, d]) == Step(Step(Step(Step(s, a), b), c), d)
  {
    hide Step, Exec;
    ExecTwo(s, a, b);
    ExecTwo(Step(Step(s, a), b), c, d);
    ExecAppend(s, [a, b], [c, d]);
    assert [a, b] + [c, d] == [a, b, c, d];
  }

  lemma {:induction false} AlternateChanges<V>(s: System<V>, x: V, y: V, n: nat)
    returns (t: System<V>, events: seq<Event<V>>)
    requires s.history != [] && s.edit.Idle? && x != y
    ensures t == Exec(s, events) && t.edit.Idle? && t.stored == s.stored
    ensures |t.history| == |s.history| + n
    ensures n == 0 ==> t == s
    ensures n > 0 ==> t.current == if n % 2 == 0 then y else x
    decreases n
  {
    if n == 0 {
      t, events := s, [];
    } else {
      var later;
      t, later := AlternateChanges(Step(s, Change(x)), y, x, n - 1);
      events := [Change(x)] + later;
      assert events[1..] == later;
    }
  }

  function Changes<V>(vs: seq<V>): seq<Event<V>> {
    seq(|vs|, i requires 0 <= i < |vs| => Change(vs[i]))
  }

  /** A history that grows by some contents is a run of as many changes. */
  lemma {:induction false} HistoryOfChanges<V>(s: System<V>, vs: seq<V>)
    requires s.history != [] && s.edit.Idle?
    ensures Exec(s, Changes(vs))
      == s.(history := s.history + vs, current := if vs == [] then s.current else vs[|vs| - 1])
    decreases |vs|
  {
    if vs == [] {
      assert s.history + vs == s.history;
    } else {
      var t := Step(s, Change(vs[0]));
      assert Changes(vs)[1..] == Changes(vs[1..]);
      assert t.history + vs[1..] == s.history + vs;
      HistoryOfChanges(t, vs[1..]);
    }
  }

  // --------------------------------------------------------------- convergence

  /** Steps while the publisher does not change and the peers stay connected. */
  predicate Quiet<V>(e: Event<V>) {
    e.SendHeartbeat? || e.Deliver? || e.Lose?
  }

  ghost predicate UpToDate<V>(s: System<V>, r: Snapshot<V>) {
    r.seqNo == CurrentSeq(s) && r.content == s.current
  }

  ghost predicate InSync<V>(s: System<V>) {
    s.stored.Some? && UpToDate(s, s.stored.value)
  }

  ghost predicate Stale<V>(s: System<V>, p: Packet<V>) {
    p.Response? && !UpToDate(s, p.report)
  }

  /** How many stale responses are among packets. */
  ghost function StaleIn<V>(s: System<V>, packets: seq<Packet<V>>): nat {
    if packets == [] then 0
    else StaleIn(s, packets[..|packets| - 1]) + if Stale(s, packets[|packets| - 1]) then 1 else 0
  }

  lemma {:induction false} StaleWithout<V>(s: System<V>, packets: seq<Packet<V>>, i: nat)
    requires i < |packets|
    ensures StaleIn(s, packets)
      == StaleIn(s, Without(packets, i)) + if Stale(s, packets[i]) then 1 else 0
    decreases |packets|
  {
    var n := |packets| - 1;
    if i == n {
      assert Without(packets, i) == packets[..n];
    } else {
      StaleWithout(s, packets[..n], i);
      assert Without(packets, i) == Without(packets[..n], i) + [packets[n]];
      StaleSnoc(s, Without(packets[..n], i), packets[n]);
    }
  }

  lemma StaleSnoc<V>(s: System<V>, packets: seq<Packet<V>>, p: Packet<V>)
    ensures StaleIn(s, packets + [p]) == StaleIn(s, packets) + if Stale(s, p) then 1 else 0
  {
    assert (packets + [p])[..|packets|] == packets;
  }

  lemma {:induction false} StaleFrame<V>(s: System<V>, t: System<V>, packets: seq<Packet<V>>)
    requires s.history == t.history && s.current == t.current
    ensures StaleIn(s, packets) == StaleIn(t, packets)
    decreases |packets|
  {
    if packets != [] {
      StaleFrame(s, t, packets[..|packets| - 1]);
    }
  }

  /** While the publisher is quiet the number of stale responses under way never
      grows, and with none left a subscriber in sync stays in sync. */
  lemma QuietStep<V>(s: System<V>, e: Event<V>)
    requires s.history != [] && s.edit.Idle? && Quiet(e)
    ensures var t := Step(s, e);
      && t.history == s.history && t.current == s.current && t.edit.Idle?
      && StaleIn(t, t.wire) <= StaleIn(s, s.wire)
      && (StaleIn(s, s.wire) == 0 && InSync(s) ==> InSync(t))
  {
    var t := Step(s, e);
    match e {
      case SendHeartbeat => StaleSnoc(s, s.wire, Heartbeat(CurrentSeq(s)));
      case Lose(i) => if i < |s.wire| { StaleWithout(s, s.wire, i); }
      case Deliver(i) => QuietDeliver(s, i);
    }
    StaleFrame(s, t, t.wire);
  }

  lemma QuietDeliver<V>(s: System<V>, i: nat)
    requires s.history != [] && s.edit.Idle?
    ensures var t := Step(s, Deliver(i));
      && t.history == s.history && t.current == s.current && t.edit.Idle?
      && StaleIn(s, t.wire) <= StaleIn(s, s.wire)
      && (StaleIn(s, s.wire) == 0 && InSync(s) ==> InSync(t))
  {
    if i < |s.wire| {
      StaleWithout(s, s.wire, i);
      var rest := Without(s.wire, i);
      match s.wire[i]
      case Heartbeat(_) => StaleSnoc(s, rest, Request);
      case Request => StaleSnoc(s, rest, Response(Take(s)));
      case Response(r) => assert Stale(s, s.wire[i]) <==> !UpToDate(s, r);
    }
  }

  /** Main convergence result: once the publisher is quiet, no stale response is
      under way and the subscriber is in sync, this is so in every later state,
      and a heartbeat sent since then causes no request. */
  lemma {:induction false} StaysInSync<V>(s: System<V>, events: seq<Event<V>>)
    requires s.history != [] && s.edit.Idle? && StaleIn(s, s.wire) == 0 && InSync(s)
    requires forall e :: e in events ==> Quiet(e)
    ensures var t := Exec(s, events);
      && t.history == s.history && t.current == s.current
      && InSync(t) && StaleIn(t, t.wire) == 0
      && !SeqChanged(t.stored, CurrentSeq(s))
    decreases |events|
  {
    if events != [] {
      QuietStep(s, events[0]);
      StaysInSync(Step(s, events[0]), events[1..]);
    }
  }

  /** Every response under way carries v. */
  predicate AllCarry<V(==)>(packets: seq<Packet<V>>, v: V) {
    forall i :: 0 <= i < |packets| && packets[i].Response? ==> packets[i].report.content == v
  }

  /** A counter that never rests, as that of the topics: once the content is v at the
      publisher, at the subscriber and in every response under way, it stays v at
      the subscriber, however often the publisher counts without changing it. */
  lemma {:induction false} ContentStays<V>(s: System<V>, v: V, events: seq<Event<V>>)
    requires s.history != [] && s.edit.Idle? && s.current == v
    requires s.stored.Some? && s.stored.value.content == v && AllCarry(s.wire, v)
    requires forall e :: e in events ==> Quiet(e) || e == Change(v)
    ensures var t := Exec(s, events);
      t.current == v && t.stored.Some? && t.stored.value.content == v && AllCarry(t.wire, v)
    decreases |events|
  {
    if events != [] {
      assert events[0] in events && forall e :: e in events[1..] ==> e in events;
      ContentStep(s, v, events[0]);
      hide Step, AllCarry;
      ContentStays(Step(s, events[0]), v, events[1..]);
    }
  }

  lemma ContentStep<V>(s: System<V>, v: V, e: Event<V>)
    requires s.history != [] && s.edit.Idle? && s.current == v && (Quiet(e) || e == Change(v))
    requires s.stored.Some? && s.stored.value.content == v && AllCarry(s.wire, v)
    ensures var t := Step(s, e);
      && t.edit.Idle? && t.current == v
      && t.stored.Some? && t.stored.value.content == v && AllCarry(t.wire, v)
  {
  }

  /** One heartbeat and what it causes, delivered at once. */
  function Round<V>(s: System<V>): seq<Event<V>> {
    var n := |s.wire|;
    [SendHeartbeat, Deliver(n)] + if SeqChanged(s.stored, CurrentSeq(s)) then [Deliver(n), Deliver(n)] else []
  }

  /** From every reachable state outside a sweep, whatever else is under way, one
      such round brings the subscriber in sync. */
  lemma RoundSynchronises<V>(s: System<V>)
    requires Inv(s) && s.edit.Idle?
    requires s.stored.Some? ==> |s.history| - (s.stored.value.at + 1) < TWO_32
    ensures InSync(Exec(s, Round(s)))
    ensures Exec(s, Round(s)).wire == s.wire
  {
    var w, n := s.wire, |s.wire|;
    DeliverLast(s, w, Heartbeat(CurrentSeq(s)));
    if SeqChanged(s.stored, CurrentSeq(s)) {
      DeliverLast(s, w, Request);
      DeliverLast(s, w, Response(Take(s)));
      ExecFour(s, SendHeartbeat, Deliver(n), Deliver(n), Deliver(n));
      assert Round(s) == [SendHeartbeat, Deliver(n), Deliver(n), Deliver(n)];
    } else {
      SafeIn(s);
      ExecTwo(s, SendHeartbeat, Deliver(n));
      assert Round(s) == [SendHeartbeat, Deliver(n)];
    }
  }

  lemma DeliverLast<V>(s: System<V>, w: seq<Packet<V>>, p: Packet<V>)
    requires s.history != []
    ensures Step(s.(wire := w + [p]), Deliver(|w|)) == Handle(s.(wire := w), p)
  {
    assert Without(w + [p], |w|) == w;
  }

  // ------------------------------------------------------------ without sweeps

  /** The content is the one published under the counter value. */
  ghost predicate Genuine<V>(s: System<V>, r: Snapshot<V>) {
    r.at < |s.history| && r.seqNo == (r.at + 1) % TWO_32 && r.content == s.history[r.at]
  }

  ghost predicate AllGenuine<V>(s: System<V>) {
    && s.history != [] && s.edit.Idle? && s.current == s.history[|s.history| - 1]
    && (s.stored.Some? ==> Genuine(s, s.stored.value))
    && forall i :: 0 <= i < |s.wire| && s.wire[i].Response? ==> Genuine(s, s.wire[i].report)
  }

  lemma GenuineStep<V>(s: System<V>, e: Event<V>)
    requires AllGenuine(s) && !e.BeginSweep?
    ensures AllGenuine(Step(s, e))
  {
    var t := Step(s, e);
    forall i | 0 <= i < |t.wire| && t.wire[i].Response?
      ensures Genuine(t, t.wire[i].report)
    {
      if t.wire[i] !in s.wire {
        assert t.wire[i].report.at == |t.history| - 1;
      }
    }
  }

  /** A publisher that changes and counts under one lock never lets a mixed
      report out: every report, wherever it is and in whatever order it arrived,
      is a content the publisher had, with the counter it had then. */
  lemma {:induction false} GenuineWithoutSweeps<V>(s: System<V>, events: seq<Event<V>>)
    requires AllGenuine(s)
    requires forall e :: e in events ==> !e.BeginSweep?
    ensures AllGenuine(Exec(s, events))
    decreases |events|
  {
    if events != [] {
      GenuineStep(s, events[0]);
      GenuineWithoutSweeps(Step(s, events[0]), events[1..]);
    }
  }

  /** Below the wrap, a counter value belongs to one content only. */
  lemma OneContentPerSeq<V>(s: System<V>, a: Snapshot<V>, b: Snapshot<V>)
    requires Genuine(s, a) && Genuine(s, b) && a.seqNo == b.seqNo
    requires |s.history| <= TWO_32
    ensures a.content == b.content
  {
    assert a.at == b.at;
  }
}
