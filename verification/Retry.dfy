/** The Retry object of Gateway::asyncSendMessageByNodeID: one message is sent to
    the gateways of its destination, one after the other in a random order, until
    one of them accepts it. */
module Retries {
  import opened Sequences
  import opened Bytes
  import opened P2PMessages
  import Callbacks
  import opened Sessions
  import opened Services

  /** What a send calls back with. */
  datatype Answer =
    | NetworkError
    | Refused       // a code other than SUCCESS
    | Unreadable    // the body is not a number
    | Accepted      // SUCCESS

  /** What the response function is told. */
  datatype Response = Delivered | Failed

  datatype Progress = Progress(
    left: seq<string>,                  // m_p2pIDs
    open: multiset<string>,             // sends that may still call back
    responses: seq<Response>,           // the calls of m_respFunc
    tried: seq<string>,                 // history: the gateways sent to, in order
    answers: seq<(string, Answer)>,     // history: the callbacks that ran
    swallowed: seq<string>,             // history: sends the service dropped with their callback
    repeats: nat,                       // history: callbacks of a send that calls back again
    caught: nat)                        // history: responses that threw into the handler's catch

  function Fresh(ids: seq<string>): Progress {
    Progress(ids, multiset{}, [], [], [], [], 0, 0)
  }

  /** A send to p; up: the service has a running session to p. Without one it drops
      the message and its callback. */
  function SentTo(r: Progress, p: string, up: bool): Progress {
    var s := r.(tried := r.tried + [p]);
    if up then s.(open := s.open + multiset{p}) else s.(swallowed := s.swallowed + [p])
  }

  /** trySendMessage; order is what the shuffle makes of the list. */
  function TrySend(r: Progress, order: seq<string>, up: bool): Progress {
    if order == [] then r.(responses := r.responses + [Failed])
    else SentTo(r.(left := order[1..]), order[0], up)
  }

  /** What one callback brings with it: the gateway it is for and its answer, what
      the shuffle makes of the list, whether the session will call back once more,
      whether the response function throws at the first response made here, and
      whether the gateway chosen next has a running session. */
  datatype Event = CalledBack(
    p: string, answer: Answer, order: seq<string>, again: bool, throws: bool, up: bool)

  /** The callback of a send.

      The handler looks at the code, and tells of a success, inside a try whose
      catch tries again; it deals with a network error outside of it. What a
      response throws in the catch, or after a network error, leaves the handler
      and changes nothing here. */
  function CallBack(r: Progress, e: Event): Progress {
    Answering(Noted(r, e.p, e.answer, e.again), e)
  }

  function Answering(s: Progress, e: Event): Progress {
    match e.answer
    case NetworkError => TrySend(s, e.order, e.up)
    case Unreadable => TrySend(s, e.order, e.up)
    case Refused =>
      var t := TrySend(s, e.order, e.up);
      if e.order == [] && e.throws then TrySend(t.(caught := t.caught + 1), [], e.up) else t
    case Accepted =>
      var t := s.(responses := s.responses + [Delivered]);
      if e.throws then TrySend(t.(caught := t.caught + 1), e.order, e.up) else t
  }

  /** An event that is not possible in r changes nothing. */
  function Step(r: Progress, e: Event): Progress {
    if e.p in r.open && multiset(e.order) == multiset(r.left) then CallBack(r, e) else r
  }

  function Exec(r: Progress, events: seq<Event>): Progress
    decreases |events|
  {
    if events == [] then r else Exec(Step(r, events[0]), events[1..])
  }

  // ----------------------------------------------------------------- invariant

  ghost predicate Answered(r: Progress, p: string) {
    exists a :: a in r.answers && a.0 == p
  }

  ghost predicate SomeAccepted(r: Progress) {
    exists a :: a in r.answers && a.1.Accepted?
  }

  /** Everything but the number of responses. */
  ghost predicate Tracked(ids: seq<string>, r: Progress) {
    && multiset(r.tried) + multiset(r.left) == multiset(ids)
    && |r.open| + |r.answers| + |r.swallowed| == |r.tried| + r.repeats
    && (Failed in r.responses ==> r.left == [])
    && (Delivered in r.responses <==> SomeAccepted(r))
    && (forall p :: p in r.tried ==> p in r.open || p in r.swallowed || Answered(r, p))
  }

  function Balance(r: Progress): int {
    |r.responses| + |r.open| + |r.swallowed| - r.repeats - r.caught
  }

  /** A send, a swallowed send and a response each stand for the one response owed. */
  ghost predicate Inv(ids: seq<string>, r: Progress) {
    Tracked(ids, r) && Balance(r) == 1
  }

  lemma TrySendInv(ids: seq<string>, r: Progress, order: seq<string>, up: bool)
    requires Tracked(ids, r) && Balance(r) == 0 && multiset(order) == multiset(r.left)
    ensures Inv(ids, TrySend(r, order, up))
  {
    if order == [] {
      NoneLeft(order, r.left);
      FailedInv(ids, r);
    } else {
      SentInv(ids, r, order, up);
    }
  }

  lemma FailedInv(ids: seq<string>, r: Progress)
    requires Tracked(ids, r) && Balance(r) == 0 && r.left == []
    ensures Inv(ids, r.(responses := r.responses + [Failed]))
  {
    var s := r.(responses := r.responses + [Failed]);
    assert (SomeAccepted(s) <==> SomeAccepted(r)) && forall p :: Answered(s, p) <==> Answered(r, p);
    hide SomeAccepted, Answered;
  }

  lemma SentInv(ids: seq<string>, r: Progress, order: seq<string>, up: bool)
    requires Tracked(ids, r) && Balance(r) == 0 && order != [] && multiset(order) == multiset(r.left)
    ensures Inv(ids, TrySend(r, order, up))
  {
    var s := TrySend(r, order, up);
    assert (SomeAccepted(s) <==> SomeAccepted(r)) && forall p :: Answered(s, p) <==> Answered(r, p);
    hide SomeAccepted, Answered;
    assert order == [order[0]] + s.left;
    assert forall p :: p in s.tried ==> p in r.tried || p == order[0];
    assert forall p :: p in r.swallowed ==> p in s.swallowed;
    assert !up ==> order[0] in s.swallowed;
  }

  /** The callback as it starts: its answer is noted and the send may be closed. */
  function Noted(r: Progress, p: string, answer: Answer, again: bool): Progress {
    r.(open := if again then r.open else r.open - multiset{p},
       repeats := if again then r.repeats + 1 else r.repeats,
       answers := r.answers + [(p, answer)])
  }

  lemma NotedAnswers(r: Progress, p: string, answer: Answer, again: bool)
    ensures var s := Noted(r, p, answer, again);
      && (SomeAccepted(s) <==> SomeAccepted(r) || answer.Accepted?)
      && (forall q :: Answered(s, q) <==> Answered(r, q) || q == p)
  {
    var s := Noted(r, p, answer, again);
    assert (p, answer) in s.answers;
    assert forall a :: a in s.answers <==> a in r.answers || a == (p, answer);
  }

  lemma RefusedInv(ids: seq<string>, r: Progress, p: string, answer: Answer, again: bool)
    requires Inv(ids, r) && p in r.open && !answer.Accepted?
    ensures Tracked(ids, Noted(r, p, answer, again)) && Balance(Noted(r, p, answer, again)) == 0
  {
    NotedAnswers(r, p, answer, again);
    hide SomeAccepted, Answered;
    assert forall q :: q in r.open ==> q in Noted(r, p, answer, again).open || q == p;
  }

  lemma AcceptedInv(ids: seq<string>, r: Progress, p: string, answer: Answer, again: bool)
    requires Inv(ids, r) && p in r.open && answer.Accepted?
    ensures var s := Noted(r, p, answer, again); var t := s.(responses := s.responses + [Delivered]);
      Tracked(ids, t) && Balance(t) == 1 && Inv(ids, t)
  {
    NotedAnswers(r, p, answer, again);
    var s := Noted(r, p, answer, again);
    var t := s.(responses := s.responses + [Delivered]);
    assert SomeAccepted(t) && forall q :: Answered(s, q) ==> Answered(t, q);
    hide SomeAccepted, Answered;
    assert forall q :: q in r.open ==> q in t.open || q == p;
  }

  lemma CallBackInv(ids: seq<string>, r: Progress, e: Event)
    requires Inv(ids, r) && e.p in r.open && multiset(e.order) == multiset(r.left)
    ensures Inv(ids, CallBack(r, e))
  {
    hide Inv, Tracked, Balance, TrySend, Noted;
    var s := Noted(r, e.p, e.answer, e.again);
    NotedLeft(r, e);
    if e.answer.Accepted? {
      AcceptedInv(ids, r, e.p, e.answer, e.again);
      if e.throws {
        CaughtInv(ids, s.(responses := s.responses + [Delivered]), e.order, e.up);
      }
    } else {
      RefusedInv(ids, r, e.p, e.answer, e.again);
      TrySendInv(ids, s, e.order, e.up);
      if e.answer.Refused? && e.order == [] && e.throws {
        NoneLeft(e.order, s.left);
        NothingToTry(s, e.up);
        CaughtInv(ids, TrySend(s, e.order, e.up), [], e.up);
      }
    }
  }

  lemma NotedLeft(r: Progress, e: Event)
    ensures Noted(r, e.p, e.answer, e.again).left == r.left
  {
  }

  lemma NoneLeft(order: seq<string>, left: seq<string>)
    requires order == [] && multiset(order) == multiset(left)
    ensures left == []
  {
    assert |multiset(left)| == |multiset(order)| == 0;
  }

  /** A response that threw into the catch is followed by another attempt. */
  lemma CaughtInv(ids: seq<string>, t: Progress, order: seq<string>, up: bool)
    requires Inv(ids, t) && multiset(order) == multiset(t.left)
    ensures Inv(ids, TrySend(t.(caught := t.caught + 1), order, up))
  {
    var u := t.(caught := t.caught + 1);
    assert (SomeAccepted(u) <==> SomeAccepted(t)) && forall q :: Answered(u, q) <==> Answered(t, q);
    hide SomeAccepted, Answered;
    assert Tracked(ids, u) && Balance(u) == 0;
    TrySendInv(ids, u, order, up);
  }

  lemma StepKeepsInv(ids: seq<string>, r: Progress, e: Event)
    requires Inv(ids, r)
    ensures Inv(ids, Step(r, e))
  {
    if e.p in r.open && multiset(e.order) == multiset(r.left) {
      CallBackInv(ids, r, e);
    }
  }

  lemma {:induction false} ExecKeepsInv(ids: seq<string>, r: Progress, events: seq<Event>)
    requires Inv(ids, r)
    ensures Inv(ids, Exec(r, events))
    decreases |events|
  {
    if events != [] {
      StepKeepsInv(ids, r, events[0]);
      ExecKeepsInv(ids, Step(r, events[0]), events[1..]);
    }
  }

  /** The state after the first trySendMessage of a retry on ids. */
  function Begin(ids: seq<string>, order: seq<string>, up: bool): Progress {
    TrySend(Fresh(ids), order, up)
  }

  lemma FirstTried(ids: seq<string>, order: seq<string>, up: bool)
    requires order != []
    ensures Begin(ids, order, up) == TrySend(Fresh(ids), order, up) && Begin(ids, order, up).tried == [order[0]]
  {
  }

  lemma RunInv(ids: seq<string>, order: seq<string>, up: bool, events: seq<Event>)
    requires multiset(order) == multiset(ids)
    ensures Inv(ids, Exec(Begin(ids, order, up), events))
  {
    TrySendInv(ids, Fresh(ids), order, up);
    ExecKeepsInv(ids, Begin(ids, order, up), events);
  }

  /** Main result on the retries, over every run: the gateways tried are distinct
      members of the list, so there are at most as many sends; failure is reported
      only when none is left; success if and only if some gateway accepted. And
      the responses are counted exactly: one, plus one for every response that
      threw into the catch and every callback that came again, less one for every
      send that is still open or that the service dropped. */
  lemma RetrySafety(ids: seq<string>, order: seq<string>, up: bool, events: seq<Event>)
    requires Distinct(ids) && multiset(order) == multiset(ids)
    ensures var r := Exec(Begin(ids, order, up), events);
      && Distinct(r.tried) && |r.tried| <= |ids| && (forall p :: p in r.tried ==> p in ids)
      && |r.answers| <= |ids| + r.repeats
      && (Failed in r.responses ==> forall p :: p in ids ==> p in r.tried)
      && (Delivered in r.responses <==> SomeAccepted(r))
      && |r.responses| == 1 + r.caught + r.repeats - |r.open| - |r.swallowed|
  {
    RunInv(ids, order, up, events);
    var r := Exec(Begin(ids, order, up), events);
    DistinctPart(ids, r.tried, r.left);
    assert multiset(r.tried + r.left) == multiset(ids);
    assert |r.tried + r.left| == |multiset(r.tried + r.left)| == |multiset(ids)| == |ids|;
    forall p | p in ids && Failed in r.responses ensures p in r.tried {
      assert p in multiset(ids) && r.left == [];
    }
    forall p | p in r.tried ensures p in ids {
      assert p in multiset(r.tried) + multiset(r.left);
    }
  }

  lemma DistinctPart(ids: seq<string>, a: seq<string>, b: seq<string>)
    requires Distinct(ids) && multiset(a) + multiset(b) == multiset(ids)
    ensures Distinct(a)
  {
    forall i, j | 0 <= i < j < |a| ensures a[i] != a[j] {
      if a[i] == a[j] {
        TwiceCounts(a, i, j);
        OnceCounts(ids, a[i]);
      }
    }
  }

  lemma TwiceCounts(a: seq<string>, i: nat, j: nat)
    requires i < j < |a| && a[i] == a[j]
    ensures multiset(a)[a[i]] >= 2
  {
    assert a == a[..j] + [a[j]] + a[j + 1..];
    assert a[i] in a[..j];
  }

  lemma OnceCounts(ids: seq<string>, p: string)
    requires Distinct(ids)
    ensures multiset(ids)[p] <= 1
  {
    if ids != [] {
      OnceCounts(ids[1..], p);
      assert ids == [ids[0]] + ids[1..];
      assert ids[0] !in ids[1..];
    }
  }

  /** Once every callback has run, the response function was called exactly once
      if and only if the responses that threw into the catch and the callbacks
      that came again are as many as the sends the service dropped. */
  lemma AnsweredOnceExactly(ids: seq<string>, order: seq<string>, up: bool, events: seq<Event>)
    requires multiset(order) == multiset(ids)
    requires Exec(Begin(ids, order, up), events).open == multiset{}
    ensures var r := Exec(Begin(ids, order, up), events);
      |r.responses| == 1 <==> r.caught + r.repeats == |r.swallowed|
  {
    RunInv(ids, order, up, events);
  }

  // --------------------------------------------------------- what may go wrong

  /** What the surroundings of a retry may do: the response function may throw, a
      session may call back more than once, a gateway may be without a running
      session when it is its turn. */
  datatype Faults = Faults(mayThrow: bool, mayRepeat: bool, mayBeDown: bool)

  predicate Allowed(f: Faults, e: Event) {
    (e.throws ==> f.mayThrow) && (e.again ==> f.mayRepeat) && (!e.up ==> f.mayBeDown)
  }

  /** Every retry on ids that has come to its end answered exactly once. */
  ghost predicate AlwaysOnce(ids: seq<string>, f: Faults) {
    forall order, up, events |
      && multiset(order) == multiset(ids) && (!up ==> f.mayBeDown)
      && (forall e :: e in events ==> Allowed(f, e))
      && Exec(Begin(ids, order, up), events).open == multiset{}
      :: |Exec(Begin(ids, order, up), events).responses| == 1
  }

  /** A retry is sure to answer exactly once if and only if none of the three may
      happen. */
  lemma OneAnswerExactly(ids: seq<string>, f: Faults)
    requires ids != []
    ensures AlwaysOnce(ids, f) <==> !f.mayThrow && !f.mayRepeat && !f.mayBeDown
  {
    if f.mayThrow || f.mayRepeat {
      TwoAnswers(ids, f);
    } else if f.mayBeDown {
      NoAnswer(ids);
    } else {
      forall order, up, events |
        && multiset(order) == multiset(ids) && (!up ==> f.mayBeDown)
        && (forall e :: e in events ==> Allowed(f, e))
        && Exec(Begin(ids, order, up), events).open == multiset{}
        ensures |Exec(Begin(ids, order, up), events).responses| == 1
      {
        NoFaults(Begin(ids, order, up), events);
        AnsweredOnceExactly(ids, order, up, events);
      }
    }
  }

  lemma {:induction false} NoFaults(r: Progress, events: seq<Event>)
    requires forall e :: e in events ==> Allowed(Faults(false, false, false), e)
    ensures SameFaults(r, Exec(r, events))
    decreases |events|
  {
    if events != [] {
      assert events[0] in events && forall e :: e in events[1..] ==> e in events;
      NoFault(r, events[0]);
      hide Step, Allowed;
      NoFaults(Step(r, events[0]), events[1..]);
    }
  }

  predicate SameFaults(r: Progress, t: Progress) {
    t.caught == r.caught && t.repeats == r.repeats && t.swallowed == r.swallowed
  }

  lemma NoFault(r: Progress, e: Event)
    requires Allowed(Faults(false, false, false), e)
    ensures SameFaults(r, Step(r, e))
  {
    var s := Noted(r, e.p, e.answer, e.again);
    assert SameFaults(r, s) && SameFaults(s, TrySend(s, e.order, true));
    hide TrySend, Noted;
  }

  /** A run that answers twice: a first gateway accepts, and calls back again or the
      response throws; then the send that this leaves open, if any, accepts. */
  lemma TwoAnswers(ids: seq<string>, f: Faults)
    requires ids != [] && (f.mayThrow || f.mayRepeat)
    ensures !AlwaysOnce(ids, f)
  {
    FirstAnswer(ids, f.mayThrow);
    hide Step, Begin;
    var r := Begin(ids, ids, true);
    var first := CalledBack(ids[0], Accepted, ids[1..], !f.mayThrow, f.mayThrow, true);
    var s := Step(r, first);
    if f.mayThrow && ids[1..] == [] {
      assert [first][1..] == [] && Exec(r, [first]) == s;
    } else {
      var q := if f.mayThrow then ids[1..][0] else ids[0];
      var second := CalledBack(q, Accepted, s.left, false, false, true);
      assert [first, second][1..] == [second] && [second][1..] == [];
      assert Exec(s, [second]) == Step(s, second) && Exec(r, [first, second]) == Step(s, second);
    }
  }

  lemma FirstAnswer(ids: seq<string>, throws: bool)
    requires ids != []
    ensures var p, rest := ids[0], ids[1..];
      var s := Step(Begin(ids, ids, true), CalledBack(p, Accepted, rest, !throws, throws, true));
      if throws && rest == [] then s.responses == [Delivered, Failed] && s.open == multiset{}
      else
        var q := if throws then rest[0] else p;
        var t := Step(s, CalledBack(q, Accepted, s.left, false, false, true));
        && s.responses == [Delivered] && s.open == multiset{q}
        && t.responses == [Delivered, Delivered] && t.open == multiset{}
  {
    var p, rest := ids[0], ids[1..];
    var r := Begin(ids, ids, true);
    assert r.left == rest && r.open == multiset{p} && r.responses == [];
    var s := Step(r, CalledBack(p, Accepted, rest, !throws, throws, true));
    assert s.responses == if throws && rest == [] then [Delivered, Failed] else [Delivered];
  }

  /** The run that never answers: the first gateway chosen has no running session. */
  lemma NoAnswer(ids: seq<string>)
    requires ids != []
    ensures !AlwaysOnce(ids, Faults(false, false, true))
  {
    assert Exec(Begin(ids, ids, false), []) == Begin(ids, ids, false);
    assert |Exec(Begin(ids, ids, false), []).responses| == 0;
  }

  /** What that one answer is: success if some gateway accepted, else failure,
      after every gateway turned the message down. */
  lemma ExactlyOneVerdict(ids: seq<string>, order: seq<string>, events: seq<Event>)
    requires multiset(order) == multiset(ids)
    requires forall e :: e in events ==> Allowed(Faults(false, false, false), e)
    requires Exec(Begin(ids, order, true), events).open == multiset{}
    ensures var r := Exec(Begin(ids, order, true), events);
      && r.responses == [if SomeAccepted(r) then Delivered else Failed]
      && (!SomeAccepted(r) ==> forall p :: p in ids ==> Answered(r, p))
  {
    RunInv(ids, order, true, events);
    NoFaults(Begin(ids, order, true), events);
    VerdictOf(ids, Exec(Begin(ids, order, true), events));
  }

  lemma VerdictOf(ids: seq<string>, r: Progress)
    requires Inv(ids, r) && r.open == multiset{} && r.swallowed == [] && r.caught == r.repeats == 0
    ensures r.responses == [if SomeAccepted(r) then Delivered else Failed]
    ensures !SomeAccepted(r) ==> forall p :: p in ids ==> Answered(r, p)
  {
    assert |r.responses| == 1 && r.responses == [r.responses[0]];
    if !SomeAccepted(r) {
      assert r.responses[0] != Delivered && r.responses[0] == Failed;
      forall p | p in ids ensures Answered(r, p) {
        assert p in multiset(ids) && p in r.tried;
      }
    }
  }

  /** A response function that never throws is never caught throwing. */
  lemma {:induction false} NeverThrowsNeverCaught(r: Progress, events: seq<Event>)
    requires forall e :: e in events ==> !e.throws
    ensures Exec(r, events).caught == r.caught
    decreases |events|
  {
    if events != [] {
      assert events[0] in events && forall e :: e in events[1..] ==> e in events;
      NoThrow(r, events[0]);
      hide Step;
      NeverThrowsNeverCaught(Step(r, events[0]), events[1..]);
    }
  }

  lemma NoThrow(r: Progress, e: Event)
    requires !e.throws
    ensures Step(r, e).caught == r.caught
  {
    var s := Noted(r, e.p, e.answer, e.again);
    assert s.caught == r.caught && TrySend(s, e.order, e.up).caught == s.caught;
    hide TrySend, Noted;
  }

  /** The shortest runs with which the count goes wrong, or might seem to. A success
      response that throws is followed by a failure. A failure response that throws
      is repeated after a refusal, and is not after a network error. A send without
      a running session ends the retry unanswered although a gateway is left. */
  lemma ThrowAndSwallow(p: string, q: string)
    ensures OneEvent([p], CalledBack(p, Accepted, [], false, true, true)).responses == [Delivered, Failed]
    ensures OneEvent([p], CalledBack(p, Refused, [], false, true, true)).responses == [Failed, Failed]
    ensures OneEvent([p], CalledBack(p, NetworkError, [], false, true, true)).responses == [Failed]
    ensures OneEvent([p], CalledBack(p, Unreadable, [], false, true, true)).responses == [Failed]
    ensures var r := Begin([p, q], [p, q], false); r.responses == [] && r.open == multiset{} && r.left == [q]
  {
    assert [p][1..] == [] && [p, q][1..] == [q];
  }

  /** A throw and a dropped send can make up for each other. */
  lemma OneAnswerAfterAll(p: string, q: string)
    ensures var r := OneEvent([p, q], CalledBack(p, Accepted, [q], false, true, false));
      r.responses == [Delivered] && r.open == multiset{} && r.caught == 1 && r.swallowed == [q]
  {
    assert [p, q][1..] == [q] && [q][1..] == [];
  }

  /** The start of a retry and one event. */
  function OneEvent(ids: seq<string>, e: Event): (r: Progress)
    ensures r == Exec(Begin(ids, ids, true), [e])
  {
    var s := Begin(ids, ids, true);
    assert [e][1..] == [] && Exec(Step(s, e), []) == Step(s, e);
    Step(s, e)
  }

  // ----------------------------------------------------------------- the class

  ghost predicate Permutes(f: seq<string> -> seq<string>) {
    forall s :: multiset(f(s)) == multiset(s)
  }

  /** What std::shuffle may do. */
  type Shuffle = f: seq<string> -> seq<string> | Permutes(f)
    witness (s: seq<string>) => s

  lemma ShuffleSize(shuffle: Shuffle, ids: seq<string>)
    ensures |shuffle(ids)| == |ids|
  {
    assert |multiset(shuffle(ids))| == |multiset(ids)|;
  }

  lemma SendStep(r: Progress, p: string, rest: seq<string>, up: bool)
    requires r.left == rest
    ensures forall left :: SentTo(r, p, up) == TrySend(r.(left := left), [p] + rest, up)
  {
    assert ([p] + rest)[1..] == rest;
  }

  lemma NothingToTry(r: Progress, up: bool)
    ensures TrySend(r, [], up).left == r.left
  {
  }

  class Retry {
    const service: Service
    var p2pIDs: seq<string>
    var message: Message
    var sent: seq<string>                  // the gateways it was sent to, in order
    var responses: seq<Response>
    ghost var past: Progress               // the rest of State()

    constructor (s: Service, ids: seq<string>, m: Message)
      ensures service == s && message == m && State() == Fresh(ids)
    {
      service, message := s, m;
      p2pIDs, sent, responses := ids, [], [];
      past := Fresh(ids);
    }

    ghost function State(): Progress
      reads this
    {
      past.(left := p2pIDs, tried := sent, responses := responses)
    }

    /** The service can be called. */
    ghost predicate Ready()
      reads this, service, service.created, set s | s in service.created :: s.session
    {
      service.Valid() && forall s :: s in service.created && s.run ==> s.session.host
    }

    /** The service has a running session to the first of order. */
    ghost predicate FirstIsUp(order: seq<string>)
      reads service, service.created
    {
      order != [] && Alive(service.State(), order[0])
    }

    /** The empty string when none is left. */
    method RandomChooseP2pID(shuffle: Shuffle) returns (p: string)
      modifies `p2pIDs
      ensures var order := shuffle(old(p2pIDs));
        if order == [] then p == "" && p2pIDs == old(p2pIDs) else p == order[0] && p2pIDs == order[1..]
    {
      hide Permutes;
      ShuffleSize(shuffle, p2pIDs);
      p := "";
      if p2pIDs != [] {
        p2pIDs := shuffle(p2pIDs);
        p := p2pIDs[0];
        p2pIDs := p2pIDs[1..];
      }
    }

    /** throws: whether the response function throws if it is called. The message
        goes on the write queue of the running session to the gateway chosen, and
        the callback into its map; no other session is touched. */
    method TrySendMessage(shuffle: Shuffle, throws: bool) returns (raised: bool)
      requires Ready()
      modifies this, service`seqCounter, set s | s in service.created :: s.session
      ensures Ready() && service.State() == old(service.State())
      ensures raised <==> old(p2pIDs) == [] && throws
      ensures var order := shuffle(old(p2pIDs)); State() == TrySend(old(State()), order, FirstIsUp(order))
      ensures var order := shuffle(old(p2pIDs)); sent == old(sent) + if order == [] then [] else [order[0]]
      ensures var numbered := FirstIsUp(shuffle(old(p2pIDs))) && old(message).seqNo == 0;
        && message == (if numbered then old(message).(seqNo := service.seqCounter) else old(message))
        && service.seqCounter == if numbered then (old(service.seqCounter) + 1) % TWO_32 else old(service.seqCounter)
      ensures var order, m := shuffle(old(p2pIDs)), message;
        forall s :: s in service.created ==>
          if order != [] && s.run && s.p2pID == order[0] then
            && s.session.State() == Callbacks.Send(old(s.session.State()), m.seqNo, old(s.session.Up()))
            && s.session.WriteSide() == old(s.session.AfterSend(Frame(s.session.wire, m)))
          else unchanged(s.session)
    {
      hide Permutes, Frame, Callbacks.Send, Services.Inv, Services.Apart;
      hide Session.State, Session.WriteSide, Session.AfterSend;
      ShuffleSize(shuffle, p2pIDs);
      if p2pIDs == [] {
        responses := responses + [Failed];
        return throws;
      }
      assert forall s :: s in service.created ==> (s.session as object) != this;
      var p := RandomChooseP2pID(shuffle);
      hide TrySend;
      SendStep(State(), p, p2pIDs, Alive(service.State(), p));
      SendTo(p);
      raised := false;
    }

    /** Records a send to p and hands the message with the retry's callback to the
        service. */
    method SendTo(p: string)
      requires Ready()
      modifies `message, `sent, `past, service`seqCounter, set s | s in service.created :: s.session
      ensures Ready() && service.State() == old(service.State())
      ensures State() == SentTo(old(State()), p, Alive(service.State(), p))
      ensures var numbered := Alive(service.State(), p) && old(message).seqNo == 0;
        && message == (if numbered then old(message).(seqNo := service.seqCounter) else old(message))
        && service.seqCounter == if numbered then (old(service.seqCounter) + 1) % TWO_32 else old(service.seqCounter)
      ensures var m := message; forall s :: s in service.created ==>
        if s.run && s.p2pID == p then
          && s.session.State() == Callbacks.Send(old(s.session.State()), m.seqNo, old(s.session.Up()))
          && s.session.WriteSide() == old(s.session.AfterSend(Frame(s.session.wire, m)))
        else unchanged(s.session)
    {
      hide Frame, Callbacks.Send, Session.AfterSend, Services.Inv, Services.Apart;
      assert forall s :: s in service.created ==> (s.session as object) != this;
      var numbered := HandToService(service, p, message);
      sent, message := sent + [p], numbered;
      past := if Alive(service.State(), p) then past.(open := past.open + multiset{p})
        else past.(swallowed := past.swallowed + [p]);
    }

    static method HandToService(service: Service, p: string, m: Message) returns (message: Message)
      requires service.Valid() && forall s :: s in service.created && s.run ==> s.session.host
      modifies service`seqCounter, set s | s in service.created :: s.session
      ensures service.Valid() && service.State() == old(service.State())
      ensures forall s :: s in service.created ==> s.session.host == old(s.session.host)
      ensures var numbered := Alive(service.State(), p) && m.seqNo == 0;
        && message == (if numbered then m.(seqNo := service.seqCounter) else m)
        && service.seqCounter == if numbered then (old(service.seqCounter) + 1) % TWO_32 else old(service.seqCounter)
      ensures forall s :: s in service.created ==>
        if s.run && s.p2pID == p then
          && s.session.State() == Callbacks.Send(old(s.session.State()), message.seqNo, old(s.session.Up()))
          && s.session.WriteSide() == old(s.session.AfterSend(Frame(s.session.wire, message)))
        else unchanged(s.session)
    {
      hide Frame, Callbacks.Send, Session.WriteSide, Session.AfterSend, Session.State, Services.Inv, Services.Apart;
      RunningIsEntry(service.id, service.State());
      assert forall s :: s in service.created && s.run ==> s in service.State().running;
      message := service.AsyncSendMessageByNodeID(p, m, true);
    }

    /** The callback given to the service with a send to p. throws and throwsAgain:
        whether the response function throws at the first and at a second
        response; escapes: whether that leaves the handler. */
    method OnCallback(p: string, answer: Answer, shuffle: Shuffle, ghost again: bool, throws: bool, throwsAgain: bool)
      returns (escapes: bool)
      requires Ready()
      modifies this, service`seqCounter, set s | s in service.created :: s.session
      ensures Ready() && service.State() == old(service.State())
      ensures var order := shuffle(old(p2pIDs));
        State() == CallBack(old(State()), CalledBack(p, answer, order, again, throws, FirstIsUp(order)))
      ensures escapes <==>
        old(p2pIDs) == [] && throws && (answer.NetworkError? || answer.Unreadable? || throwsAgain)
      ensures |old(sent)| <= |sent| <= |old(sent)| + 1
      ensures var m := message; forall s :: s in service.created ==>
        if |sent| > |old(sent)| && s.run && s.p2pID == sent[|sent| - 1] then
          && s.session.State() == Callbacks.Send(old(s.session.State()), m.seqNo, old(s.session.Up()))
          && s.session.WriteSide() == old(s.session.AfterSend(Frame(s.session.wire, m)))
        else unchanged(s.session)
    {
      hide Answering, Permutes, Frame, Callbacks.Send, Services.Inv, Services.Apart;
      hide Session.State, Session.WriteSide, Session.AfterSend;
      assert forall s :: s in service.created ==> (s.session as object) != this;
      ghost var s := Noted(State(), p, answer, again);
      past := Noted(past, p, answer, again);
      assert State() == s;
      hide Noted;
      escapes := OnAnswer(p, answer, shuffle, again, throws, throwsAgain);
    }

    /** What the handler does about the answer, with the callback noted. */
    method OnAnswer(ghost p: string, answer: Answer, shuffle: Shuffle, ghost again: bool,
        throws: bool, throwsAgain: bool)
      returns (escapes: bool)
      requires Ready()
      modifies this, service`seqCounter, set s | s in service.created :: s.session
      ensures Ready() && service.State() == old(service.State())
      ensures var order := shuffle(old(p2pIDs));
        State() == Answering(old(State()), CalledBack(p, answer, order, again, throws, FirstIsUp(order)))
      ensures escapes <==>
        old(p2pIDs) == [] && throws && (answer.NetworkError? || answer.Unreadable? || throwsAgain)
      ensures |old(sent)| <= |sent| <= |old(sent)| + 1
      ensures var m := message; forall s :: s in service.created ==>
        if |sent| > |old(sent)| && s.run && s.p2pID == sent[|sent| - 1] then
          && s.session.State() == Callbacks.Send(old(s.session.State()), m.seqNo, old(s.session.Up()))
          && s.session.WriteSide() == old(s.session.AfterSend(Frame(s.session.wire, m)))
        else unchanged(s.session)
    {
      hide TrySend, Permutes, Frame, Callbacks.Send, Services.Inv, Services.Apart;
      hide Session.State, Session.WriteSide, Session.AfterSend;
      assert forall s :: s in service.created ==> (s.session as object) != this;
      ShuffleSize(shuffle, p2pIDs);
      if answer.NetworkError? {
        escapes := TrySendMessage(shuffle, throws);
        return;
      }
      var raised := InsideTry(answer, shuffle, throws);
      escapes := false;
      if raised {
        ShuffleSize(shuffle, p2pIDs);
        escapes := TrySendMessage(shuffle, if answer.Unreadable? then throws else throwsAgain);
      }
    }

    /** The try block; raised: control goes on in the catch. */
    method InsideTry(answer: Answer, shuffle: Shuffle, throws: bool) returns (raised: bool)
      requires Ready() && !answer.NetworkError?
      modifies this, service`seqCounter, set s | s in service.created :: s.session
      ensures Ready() && service.State() == old(service.State())
      ensures |old(sent)| <= |sent| <= |old(sent)| + 1
      ensures var m := message; forall s :: s in service.created ==>
        if |sent| > |old(sent)| && s.run && s.p2pID == sent[|sent| - 1] then
          && s.session.State() == Callbacks.Send(old(s.session.State()), m.seqNo, old(s.session.Up()))
          && s.session.WriteSide() == old(s.session.AfterSend(Frame(s.session.wire, m)))
        else unchanged(s.session)
      ensures raised ==> sent == old(sent) && forall s :: s in service.created ==> unchanged(s.session)
      ensures answer.Unreadable? ==> raised && State() == old(State())
      ensures answer.Refused? ==>
        var order := shuffle(old(p2pIDs));
        var t := TrySend(old(State()), order, FirstIsUp(order));
        && (raised <==> old(p2pIDs) == [] && throws)
        && (raised ==> p2pIDs == [])
        && State() == if raised then t.(caught := t.caught + 1) else t
      ensures answer.Accepted? ==>
        var t := old(State()).(responses := old(responses) + [Delivered]);
        && raised == throws && p2pIDs == old(p2pIDs)
        && State() == if raised then t.(caught := t.caught + 1) else t
    {
      hide TrySend, Permutes, Frame, Callbacks.Send, Services.Inv, Services.Apart;
      hide Session.State, Session.WriteSide, Session.AfterSend;
      if answer.Unreadable? {
        return true;
      }
      if answer.Refused? {
        NothingToTry(State(), false);
        ShuffleSize(shuffle, p2pIDs);
        raised := TrySendMessage(shuffle, throws);
      } else {
        responses := responses + [Delivered];
        raised := throws;
      }
      if raised {
        past := past.(caught := past.caught + 1);
      }
    }
  }
}
