/** A sending session, the byte stream and a receiving session put together:
    P2PMessage::encode, the write queue, any transmission, any chunking of the
    reads, and the deframing loop. */
module Link {
  import opened Bytes
  import opened P2PMessages
  import opened Deframer
  import opened WriteQueue

  datatype Link = Link(
    writer: Writer,
    sent: seq<Message>,   // history: the messages whose buffers were pushed, in order
    reader: Reader,
    read: nat)            // how many bytes of the wire have been read

  const CONNECTED := Link(WriteQueue.INIT, [], Deframer.START, 0)

  /** The buffers asyncSendMessage sends: it does not look at encode's result. */
  function Buffers(w: Wire, ms: seq<Message>): (r: seq<bytes>)
    ensures |r| == |ms|
  {
    seq(|ms|, i requires 0 <= i < |ms| => Frame(w, ms[i]))
  }

  datatype LinkEvent =
    | Encode(m: Message)     // asyncSendMessage up to the check in send()
    | Enqueue(m: Message)    // send(): the push
    | Write(e: Event)        // any other step of the write side
    | Receive(n: nat)        // a read completes with the next n bytes

  function LinkStep(w: Wire, s: Link, e: LinkEvent): Link {
    match e
    case Encode(m) => s.(writer := Step(s.writer, SendCheck(Frame(w, m))))
    case Enqueue(m) =>
      if Frame(w, m) !in s.writer.passed then s
      else s.(writer := Step(s.writer, Push(Frame(w, m))), sent := s.sent + [m])
    case Write(we) =>
      if we.SendCheck? || we.Push? then s else s.(writer := Step(s.writer, we))
    case Receive(n) =>
      if s.reader.ending == Waiting && s.read + n <= |s.writer.wire| then
        s.(reader := Read(w, s.reader, s.writer.wire[s.read..s.read + n]), read := s.read + n)
      else s
  }

  function LinkExec(w: Wire, s: Link, events: seq<LinkEvent>): Link
    decreases |events|
  {
    if events == [] then s else LinkExec(w, LinkStep(w, s, events[0]), events[1..])
  }

  /** How many messages precede the first one whose encode failed. */
  function UntilFailure(w: Wire, ms: seq<Message>): (k: nat)
    ensures k <= |ms|
    ensures forall i :: 0 <= i < k ==> Encodable(w, ms[i])
    ensures k < |ms| ==> !Encodable(w, ms[k])
  {
    if ms == [] || !Encodable(w, ms[0]) then 0 else 1 + UntilFailure(w, ms[1..])
  }

  /** The messages up to the first failed encode can be read back. */
  predicate Clean(w: Wire, ms: seq<Message>) {
    AllSendable(w, ms[..UntilFailure(w, ms)])
  }

  /** The reader has delivered the first messages sent and holds the bytes after
      their frames. */
  predicate InStep(w: Wire, s: Link)
    requires s.read <= |s.writer.wire|
  {
    var k, j := UntilFailure(w, s.sent), |s.reader.inbox|;
    && j <= k
    && s.reader.inbox == AllCarried(w, s.sent[..j])
    && s.writer.wire[..s.read] == Frames(w, s.sent[..j]) + s.reader.data
    && (k == |s.sent| ==> s.reader.ending == Waiting)
  }

  predicate LinkInv(w: Wire, s: Link) {
    && Inv(s.writer)
    && s.writer.accepted == Buffers(w, s.sent)
    && s.read <= |s.writer.wire|
    && Settled(w, s.reader)
    && (Clean(w, s.sent) ==> InStep(w, s))
  }

  lemma UntilFailureAppend(w: Wire, ms: seq<Message>, m: Message)
    ensures var k := UntilFailure(w, ms);
      UntilFailure(w, ms + [m]) == if k < |ms| || !Encodable(w, m) then k else |ms| + 1
  {
    hide Encodable;
    if ms != [] {
      UntilFailureAppend(w, ms[1..], m);
      assert (ms + [m])[1..] == ms[1..] + [m];
    } else {
      assert ms + [m] == [m];
    }
  }

  lemma FlattenBuffers(w: Wire, ms: seq<Message>)
    ensures Flatten(Buffers(w, ms)) == Frames(w, ms)
  {
    hide Frame;
    if ms != [] {
      FlattenBuffers(w, ms[1..]);
      assert Buffers(w, ms)[1..] == Buffers(w, ms[1..]);
    }
  }

  lemma FramesSplit(w: Wire, ms: seq<Message>, j: nat)
    requires j <= |ms|
    ensures Frames(w, ms) == Frames(w, ms[..j]) + Frames(w, ms[j..])
  {
    hide Frame;
    if j == 0 {
      assert ms[..0] == [] && ms[0..] == ms;
    } else {
      FramesSplit(w, ms[1..], j - 1);
      assert ms[..j][1..] == ms[1..][..j - 1];
      assert ms[1..][j - 1..] == ms[j..];
    }
  }

  /** All bytes ever accepted: the frames before the first failed encode, and then
      nothing or a frame whose length field is zero. */
  lemma StreamShape(w: Wire, ms: seq<Message>) returns (tail: bytes)
    ensures var k := UntilFailure(w, ms);
      && Flatten(Buffers(w, ms)) == Frames(w, ms[..k]) + tail
      && ZeroLengthOrEmpty(tail) && (k == |ms| ==> tail == [])
  {
    var k := UntilFailure(w, ms);
    FlattenBuffers(w, ms);
    FramesSplit(w, ms, k);
    tail := Frames(w, ms[k..]);
    if k < |ms| {
      ZeroLengthHeader(ms[k], Frames(w, ms[k..][1..]));
    }
  }

  lemma ZeroLengthHeader(m: Message, t: bytes)
    ensures MESSAGE_HEADER_LENGTH <= |Header(m, 0) + t| && GetU32(Header(m, 0) + t) == 0
  {
    HeaderRoundTrip(m, FRESH, 0, t);
  }

  lemma EnqueueKeepsInv(w: Wire, s: Link, m: Message)
    requires LinkInv(w, s)
    ensures LinkInv(w, LinkStep(w, s, Enqueue(m)))
  {
    hide Inv, Step, Settled, Frame, Encodable, Sendable, Carried, Frames;
    var s' := LinkStep(w, s, Enqueue(m));
    EnqueueWriter(w, s, m);
    if s' != s {
      UntilFailureAppend(w, s.sent, m);
      if Clean(w, s'.sent) {
        var k := UntilFailure(w, s.sent);
        assert s'.sent[..k] == s.sent[..k];
        assert s.sent[..k] == s'.sent[..UntilFailure(w, s'.sent)][..k];
        assert s'.sent[..|s.reader.inbox|] == s.sent[..|s.reader.inbox|];
      }
    }
  }

  lemma EnqueueWriter(w: Wire, s: Link, m: Message)
    requires LinkInv(w, s)
    ensures var s' := LinkStep(w, s, Enqueue(m));
      && Inv(s'.writer) && s'.writer.wire == s.writer.wire
      && s'.writer.accepted == Buffers(w, s'.sent)
  {
    hide Frame, Inv, Settled, Clean, InStep;
    StepKeepsInv(s.writer, Push(Frame(w, m)));
    BuffersAppend(w, s.sent, m);
    hide Buffers;
  }

  lemma BuffersAppend(w: Wire, ms: seq<Message>, m: Message)
    ensures Buffers(w, ms + [m]) == Buffers(w, ms) + [Frame(w, m)]
  {
    hide Frame;
  }

  lemma WriteKeepsInv(w: Wire, s: Link, e: LinkEvent)
    requires LinkInv(w, s) && (e.Write? || e.Encode?)
    ensures LinkInv(w, LinkStep(w, s, e))
  {
    hide Inv, Settled, Frames, AllCarried, Frame, Clean;
    var s' := LinkStep(w, s, e);
    if e.Encode? {
      StepKeepsInv(s.writer, SendCheck(Frame(w, e.m)));
    } else {
      StepKeepsInv(s.writer, e.e);
    }
    assert s'.writer.wire[..s.read] == s.writer.wire[..s.read];
    assert s'.writer.accepted == s.writer.accepted;
  }

  lemma ReceiveKeepsInv(w: Wire, s: Link, n: nat)
    requires LinkInv(w, s)
    ensures LinkInv(w, LinkStep(w, s, Receive(n)))
  {
    hide Deframe, Encodable, Sendable, Frames, AllCarried;
    var s' := LinkStep(w, s, Receive(n));
    if s' != s {
      var wire, chunk := s.writer.wire, s.writer.wire[s.read..s.read + n];
      ReadSettles(w, s.reader.data + chunk);
      if Clean(w, s.sent) {
        var k, j := UntilFailure(w, s.sent), |s.reader.inbox|;
        var good := s.sent[..k];
        var tail := StreamShape(w, s.sent);
        WireIsPrefix(s.writer);
        assert wire[..s.read + n] == wire[..s.read] + chunk;
        assert good[..j] == s.sent[..j];
        ReadInStep(w, good, tail, j, s.reader, chunk, wire[..s.read + n]);
        var i := |s'.reader.inbox|;
        assert good[..i] == s.sent[..i];
      }
    }
  }

  /** One read of a stream of frames, seen from the j messages delivered so far. */
  lemma ReadInStep(w: Wire, good: seq<Message>, tail: bytes, j: nat, r: Reader, chunk: bytes, seen: bytes)
    requires AllSendable(w, good) && ZeroLengthOrEmpty(tail) && j <= |good|
    requires r.ending == Waiting && r.inbox == AllCarried(w, good[..j])
    requires seen == Frames(w, good[..j]) + r.data + chunk && seen <= Frames(w, good) + tail
    ensures var r' := Read(w, r, chunk); var i := |r'.inbox|;
      && i <= |good|
      && r'.inbox == AllCarried(w, good[..i])
      && seen == Frames(w, good[..i]) + r'.data
      && (tail == [] ==> r'.ending == Waiting)
  {
    hide Deframe, Frames, AllCarried, Sendable, ZeroLengthOrEmpty;
    var rest, data := good[j..], r.data + chunk;
    FramesSplit(w, good, j);
    CancelFront(Frames(w, good[..j]), data, Frames(w, rest), tail, seen);
    DeframeFrames(w, rest, tail, data);
    var n := |Deframe(w, data).messages|;
    FramesSplit(w, rest, n);
    SplitFront(data, Frames(w, rest[..n]), Frames(w, rest[n..]), tail);
    JoinFrames(w, good, j, n);
    Regroup(Frames(w, good[..j]), Frames(w, rest[..n]), Deframe(w, data).rest);
    assert seen == Frames(w, good[..j]) + data;
  }

  lemma Regroup(a: bytes, b: bytes, c: bytes)
    ensures a + (b + c) == a + b + c
  {
  }

  lemma CancelFront(a: bytes, d: bytes, b: bytes, t: bytes, seen: bytes)
    requires seen == a + d && seen <= a + b + t
    ensures d <= b + t
  {
    assert d == seen[|a|..] && (a + b + t)[|a|..] == b + t;
  }

  lemma SplitFront(d: bytes, a: bytes, b: bytes, t: bytes)
    requires d <= a + b + t && |a| <= |d|
    ensures d == a + d[|a|..]
  {
    assert d == (a + b + t)[..|d|];
  }

  lemma JoinFrames(w: Wire, ms: seq<Message>, j: nat, n: nat)
    requires j + n <= |ms|
    ensures Frames(w, ms[..j + n]) == Frames(w, ms[..j]) + Frames(w, ms[j..][..n])
    ensures AllCarried(w, ms[..j + n]) == AllCarried(w, ms[..j]) + AllCarried(w, ms[j..][..n])
  {
    hide Frames, Carried;
    var all := ms[..j + n];
    assert all[..j] == ms[..j] && all[j..] == ms[j..][..n];
    FramesSplit(w, all, j);
  }

  lemma LinkStepKeepsInv(w: Wire, s: Link, e: LinkEvent)
    requires LinkInv(w, s)
    ensures LinkInv(w, LinkStep(w, s, e))
  {
    hide LinkInv, LinkStep;
    match e
    case Enqueue(m) => EnqueueKeepsInv(w, s, m);
    case Receive(n) => ReceiveKeepsInv(w, s, n);
    case _ => WriteKeepsInv(w, s, e);
  }

  lemma {:induction false} LinkExecKeepsInv(w: Wire, s: Link, events: seq<LinkEvent>)
    requires LinkInv(w, s)
    ensures LinkInv(w, LinkExec(w, s, events))
    decreases |events|
  {
    hide LinkInv, LinkStep;
    if events != [] {
      LinkStepKeepsInv(w, s, events[0]);
      LinkExecKeepsInv(w, LinkStep(w, s, events[0]), events[1..]);
    }
  }

  lemma ReachableInv(w: Wire, events: seq<LinkEvent>)
    ensures LinkInv(w, LinkExec(w, CONNECTED, events))
  {
    assert Flatten([]) == [] && InFlight(WriteQueue.INIT) == [];
    LinkExecKeepsInv(w, CONNECTED, events);
  }

  /** Main result on the link, over every interleaving of the write side and every
      way the stream is cut into reads: the messages passed to onMessage are the
      first ones sent, in order and field for field, and none from the first
      failed encode on. */
  lemma EndToEnd(w: Wire, events: seq<LinkEvent>)
    requires Clean(w, LinkExec(w, CONNECTED, events).sent)
    ensures var s := LinkExec(w, CONNECTED, events); var j := |s.reader.inbox|;
      && j <= UntilFailure(w, s.sent)
      && s.reader.inbox == AllCarried(w, s.sent[..j])
  {
    hide Inv, LinkStep, Deframe, Frames, AllCarried, Sendable;
    ReachableInv(w, events);
  }

  /** Exactly the messages before the first failed encode are delivered, each as
      soon as the last byte of its frame has been read; so with all bytes read,
      message i is delivered if and only if i precedes that failure. The reader
      never stops before it has delivered them all. */
  lemma DeliveredExactly(w: Wire, events: seq<LinkEvent>)
    requires Clean(w, LinkExec(w, CONNECTED, events).sent)
    ensures var s := LinkExec(w, CONNECTED, events); var j, k := |s.reader.inbox|, UntilFailure(w, s.sent);
      && j <= k && s.reader.inbox == AllCarried(w, s.sent[..j])
      && |Frames(w, s.sent[..j])| <= s.read
      && (j < k ==> s.read < |Frames(w, s.sent[..j + 1])|)
      && (s.read == |Flatten(s.writer.accepted)| ==> j == k)
      && (j < k || k == |s.sent| ==> s.reader.ending == Waiting)
  {
    hide Inv, LinkStep, LinkExec, Deframe, Frames, AllCarried, Sendable;
    ReachableInv(w, events);
    DeliveredIn(w, LinkExec(w, CONNECTED, events));
  }

  lemma DeliveredIn(w: Wire, s: Link)
    requires LinkInv(w, s) && Clean(w, s.sent)
    ensures var j, k := |s.reader.inbox|, UntilFailure(w, s.sent);
      && j <= k && s.reader.inbox == AllCarried(w, s.sent[..j])
      && |Frames(w, s.sent[..j])| <= s.read
      && (j < k ==> s.read < |Frames(w, s.sent[..j + 1])|)
      && (s.read == |Flatten(s.writer.accepted)| ==> j == k)
      && (j < k || k == |s.sent| ==> s.reader.ending == Waiting)
  {
    hide Inv, Deframe, Frames, AllCarried, Sendable, ZeroLengthOrEmpty;
    var j, k := |s.reader.inbox|, UntilFailure(w, s.sent);
    var good := s.sent[..k];
    var tail := StreamShape(w, s.sent);
    WireIsPrefix(s.writer);
    assert good[..j] == s.sent[..j];
    StillMissing(w, good, tail, j, s.reader.data, s.writer.wire[..s.read]);
    assert j < k ==> good[..j + 1] == s.sent[..j + 1];
  }

  lemma StillMissing(w: Wire, ms: seq<Message>, tail: bytes, j: nat, data: bytes, seen: bytes)
    requires AllSendable(w, ms) && ZeroLengthOrEmpty(tail) && j <= |ms|
    requires Deframe(w, data).messages == []
    requires seen == Frames(w, ms[..j]) + data && seen <= Frames(w, ms) + tail
    ensures j < |ms| ==> |seen| < |Frames(w, ms[..j + 1])| <= |Frames(w, ms)| && Deframe(w, data).ending == Waiting
  {
    hide Deframe, Encoded, Sendable, Carried, ZeroLengthOrEmpty, Frames;
    if j < |ms| {
      FramesSplit(w, ms, j);
      var rest := ms[j..];
      CancelFront(Frames(w, ms[..j]), data, Frames(w, rest), tail, seen);
      DeframeFrames(w, rest, tail, data);
      FramesSplit(w, ms[..j + 1], j);
      assert ms[..j + 1][..j] == ms[..j] && ms[..j + 1][j..] == rest[..1];
      FramesSplit(w, ms, j + 1);
    }
  }
}
