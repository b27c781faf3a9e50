/** The read side of Session: the loop of doRead that cuts frames off m_data,
    as a function of the bytes received. */
module Deframer {
  import opened Bytes
  import opened P2PMessages

  /** How the loop ended: it asked for more bytes, or it stopped for good and
      reported the half-decoded message as a protocol error. */
  datatype Ending = Waiting | ProtocolError(message: Message)

  /** What one run of the loop hands to onMessage, what stays in m_data, and how
      the loop ended. */
  datatype Deframed = Deframed(messages: seq<Message>, rest: bytes, ending: Ending)

  function Deframe(w: Wire, data: bytes): Deframed
    decreases |data|
  {
    DecodeResult(w, FRESH, data);
    var (r, m) := Decoded(w, FRESH, data);
    if r > 0 then
      var d := Deframe(w, data[r..]);
      d.(messages := [m] + d.messages)
    else if r == 0 then Deframed([], data, Waiting)
    else Deframed([], data, ProtocolError(m))
  }

  function TotalLength(ms: seq<Message>): nat {
    if ms == [] then 0 else ms[0].length + TotalLength(ms[1..])
  }

  lemma DecodedLength(w: Wire, b: bytes)
    ensures var (r, m) := Decoded(w, FRESH, b); r > 0 ==> r == m.length
  {
  }

  /** On arbitrary bytes the loop loses nothing: what it keeps is what it did not
      consume, and every message it delivers consumed at least one byte. */
  lemma {:induction false} Conservation(w: Wire, data: bytes)
    ensures var d := Deframe(w, data);
      && TotalLength(d.messages) <= |data|
      && d.rest == data[TotalLength(d.messages)..]
      && (forall i :: 0 <= i < |d.messages| ==> d.messages[i].length > 0)
      && Decoded(w, FRESH, d.rest).0 <= 0
    decreases |data|
  {
    DecodeResult(w, FRESH, data);
    DecodedLength(w, data);
    var (r, m) := Decoded(w, FRESH, data);
    if r > 0 {
      Conservation(w, data[r..]);
      var d := Deframe(w, data[r..]);
      assert data[r..][TotalLength(d.messages)..] == data[r + TotalLength(d.messages)..];
    }
  }

  /** The loop stops at bytes that do not decode to a message, and reports them as
      an error exactly if decode does. */
  lemma {:induction false} HowItEnds(w: Wire, data: bytes)
    ensures var d := Deframe(w, data); var (r, m) := Decoded(w, FRESH, d.rest);
      r <= 0 && d.ending == if r < 0 then ProtocolError(m) else Waiting
    decreases |data|
  {
    hide Decoded;
    DecodeResult(w, FRESH, data);
    if Decoded(w, FRESH, data).0 > 0 {
      HowItEnds(w, data[Decoded(w, FRESH, data).0..]);
    }
  }

  /** Each message is what decode makes of the bytes left by those before it. */
  lemma {:induction false} MessageAt(w: Wire, data: bytes, i: nat)
    requires i < |Deframe(w, data).messages|
    ensures var ms := Deframe(w, data).messages; var at := TotalLength(ms[..i]);
      at <= |data| && ms[i] == Decoded(w, FRESH, data[at..]).1 && ms[i].length == Decoded(w, FRESH, data[at..]).0
    decreases i
  {
    hide Decoded;
    DecodeResult(w, FRESH, data);
    DecodedLength(w, data);
    var (r, m) := Decoded(w, FRESH, data);
    var ms, rest := Deframe(w, data).messages, data[r..];
    if i == 0 {
      assert ms[..0] == [] && data[0..] == data;
    } else {
      MessageAt(w, rest, i - 1);
      var later := Deframe(w, rest).messages;
      assert ms[..i] == [m] + later[..i - 1] && ([m] + later[..i - 1])[1..] == later[..i - 1];
      assert rest[TotalLength(later[..i - 1])..] == data[r + TotalLength(later[..i - 1])..];
    }
  }

  // ------------------------------------------------------- chunk independence

  /** The loop waits on data, and every frame it cut off on the way was closed. */
  predicate ClosedStream(w: Wire, data: bytes)
    decreases |data|
  {
    DecodeResult(w, FRESH, data);
    var r := Decoded(w, FRESH, data).0;
    if r > 0 then Closed(w, data) && ClosedStream(w, data[r..])
    else |data| < MESSAGE_HEADER_LENGTH || |data| < GetU32(data)
  }

  /** Every prefix of a closed stream is one. */
  lemma {:induction false} ClosedStreamPrefix(w: Wire, data: bytes, more: bytes)
    requires ClosedStream(w, data + more)
    ensures ClosedStream(w, data)
    decreases |data|
  {
    hide Decoded;
    DecodeResult(w, FRESH, data);
    DecodeResult(w, FRESH, data + more);
    if Complete(data) {
      assert Decoded(w, FRESH, data + more).0 > 0;
      ClosedFront(w, data, more);
      ClosedTail(w, data, more);
      var r := GetU32(data);
      assert (data + more)[r..] == data[r..] + more;
      ClosedStreamPrefix(w, data[r..], more);
    }
  }

  predicate Complete(data: bytes) {
    MESSAGE_HEADER_LENGTH <= |data| && GetU32(data) <= |data|
  }

  lemma ClosedFront(w: Wire, data: bytes, more: bytes)
    requires Complete(data) && Closed(w, data + more)
    ensures Closed(w, data)
  {
    HeaderPrefix(data, more);
    assert (data + more)[MESSAGE_HEADER_LENGTH..GetU32(data)] == data[MESSAGE_HEADER_LENGTH..GetU32(data)];
  }

  /** More bytes arriving after data: the loop goes on where it stopped. */
  lemma {:induction false} DeframeMore(w: Wire, data: bytes, more: bytes)
    requires ClosedStream(w, data)
    ensures Deframe(w, data).ending == Waiting
    ensures var (d, all) := (Deframe(w, data), Deframe(w, data + more));
      var e := Deframe(w, d.rest + more);
      all == e.(messages := d.messages + e.messages)
    decreases |data|
  {
    hide Decoded, Closed;
    DecodeResult(w, FRESH, data);
    var r := Decoded(w, FRESH, data).0;
    if r > 0 {
      ClosedTail(w, data, more);
      DeframeMore(w, data[r..], more);
      assert (data + more)[r..] == data[r..] + more;
    }
  }

  /** What the reader keeps between two reads, and all it has delivered. */
  datatype Reader = Reader(data: bytes, inbox: seq<Message>, ending: Ending)

  const START := Reader([], [], Waiting)

  /** One completed read; after a protocol error no read is ever asked for. */
  function Read(w: Wire, s: Reader, chunk: bytes): Reader {
    if s.ending != Waiting then s
    else
      var d := Deframe(w, s.data + chunk);
      Reader(d.rest, s.inbox + d.messages, d.ending)
  }

  function ReadAll(w: Wire, s: Reader, chunks: seq<bytes>): Reader
    decreases |chunks|
  {
    if chunks == [] then s else ReadAll(w, Read(w, s, chunks[0]), chunks[1..])
  }

  /** Between two reads, the loop has nothing more to cut off m_data. */
  predicate Settled(w: Wire, s: Reader) {
    Deframe(w, s.data) == Deframed([], s.data, s.ending)
  }

  lemma {:induction false} ReadSettles(w: Wire, data: bytes)
    ensures var d := Deframe(w, data); Deframe(w, d.rest) == Deframed([], d.rest, d.ending)
    decreases |data|
  {
    hide Decoded;
    DecodeResult(w, FRESH, data);
    var r := Decoded(w, FRESH, data).0;
    if r > 0 {
      ReadSettles(w, data[r..]);
    }
  }

  /** Main result on chunking: however a stream of closed frames is cut into
      reads, the outcome is the one of a single read of all its bytes. */
  lemma {:induction false} ChunkIndependence(w: Wire, s: Reader, chunks: seq<bytes>)
    requires s.ending == Waiting && Settled(w, s)
    requires ClosedStream(w, s.data + Flatten(chunks))
    ensures ReadAll(w, s, chunks) == Read(w, s, Flatten(chunks))
    decreases |chunks|
  {
    hide Deframe, ClosedStream;
    if chunks == [] {
      assert s.data + [] == s.data && s.inbox + [] == s.inbox;
    } else {
      var first, later := chunks[0], Flatten(chunks[1..]);
      var data, s' := s.data + first, Read(w, s, first);
      assert s.data + Flatten(chunks) == data + later;
      ClosedStreamPrefix(w, data, later);
      ReadSettles(w, data);
      DeframeMore(w, data, later);
      ClosedStreamSuffix(w, data, later);
      ChunkIndependence(w, s', chunks[1..]);
    }
  }

  lemma {:induction false} ClosedStreamSuffix(w: Wire, data: bytes, more: bytes)
    requires ClosedStream(w, data + more)
    ensures ClosedStream(w, Deframe(w, data).rest + more)
    decreases |data|
  {
    hide Decoded;
    DecodeResult(w, FRESH, data);
    ClosedStreamPrefix(w, data, more);
    if Decoded(w, FRESH, data).0 > 0 {
      var r := GetU32(data);
      ClosedTail(w, data, more);
      assert (data + more)[r..] == data[r..] + more;
      ClosedStreamSuffix(w, data[r..], more);
    }
  }

  // -------------------------------------------------------- streams of frames

  predicate AllSendable(w: Wire, ms: seq<Message>) {
    forall i :: 0 <= i < |ms| ==> Sendable(w, ms[i])
  }

  function Frames(w: Wire, ms: seq<Message>): bytes {
    if ms == [] then [] else Frame(w, ms[0]) + Frames(w, ms[1..])
  }

  function AllCarried(w: Wire, ms: seq<Message>): (r: seq<Message>)
    ensures |r| == |ms|
  {
    seq(|ms|, i requires 0 <= i < |ms| => Carried(w, ms[i]))
  }

  /** Nothing, or what a failed encode leaves behind and anything after that. */
  predicate ZeroLengthOrEmpty(tail: bytes) {
    tail == [] || (MESSAGE_HEADER_LENGTH <= |tail| && GetU32(tail) == 0)
  }

  /** Main result on deframing: from any prefix of the frames of ms, the loop
      delivers exactly the messages whose frames are wholly there, and keeps
      exactly the other bytes. A frame with length zero after them is never
      passed. */
  lemma {:induction false} DeframeFrames(w: Wire, ms: seq<Message>, tail: bytes, data: bytes)
    requires AllSendable(w, ms) && ZeroLengthOrEmpty(tail)
    requires data <= Frames(w, ms) + tail
    ensures var d := Deframe(w, data);
      var j := |d.messages|;
      && j <= |ms|
      && d.messages == AllCarried(w, ms[..j])
      && |Frames(w, ms[..j])| <= |data| && d.rest == data[|Frames(w, ms[..j])|..]
      && d.rest <= Frames(w, ms[j..]) + tail
      && (j < |ms| ==> |data| < |Frames(w, ms[..j + 1])|)
      && (tail == [] || j < |ms| ==> d.ending == Waiting)
  {
    hide Decoded, Encoded, Encodable, Sendable, Carried, Frame;
    DecodeResult(w, FRESH, data);
    if ms == [] {
      ZeroLengthStalls(w, tail, data);
      assert ms[..0] == [] && ms[0..] == [];
    } else {
      var f, later := Frame(w, ms[0]), Frames(w, ms[1..]) + tail;
      assert Frames(w, ms) + tail == f + later;
      if |data| < |f| {
        assert data <= f;
        ShortFrame(w, ms[0], data);
        assert ms[..0] == [] && ms[0..] == ms;
        FramesOne(w, ms);
      } else {
        var next := data[|f|..];
        assert data == f + next && next <= later;
        FirstFrame(w, ms[0], next);
        DeframeFrames(w, ms[1..], tail, next);
        DeframeOne(w, ms, data, next);
      }
    }
  }

  lemma ShortFrame(w: Wire, m: Message, data: bytes)
    requires Sendable(w, m) && data < Frame(w, m)
    ensures Deframe(w, data) == Deframed([], data, Waiting)
  {
    PrefixIncomplete(w, m, |data|);
    assert data == Frame(w, m)[..|data|];
  }

  lemma FirstFrame(w: Wire, m: Message, next: bytes)
    requires Sendable(w, m)
    ensures |Frame(w, m)| > 0 && Decoded(w, FRESH, Frame(w, m) + next) == (|Frame(w, m)|, Carried(w, m))
  {
    EncodedIsClosed(w, m);
    FrameRoundTrip(w, m, next);
  }

  lemma FramesOne(w: Wire, ms: seq<Message>)
    requires ms != []
    ensures Frames(w, ms[..1]) == Frame(w, ms[0])
  {
    assert ms[..1][1..] == [];
  }

  lemma FramesCons(w: Wire, ms: seq<Message>, j: nat)
    requires 0 < j <= |ms|
    ensures Frames(w, ms[..j]) == Frame(w, ms[0]) + Frames(w, ms[1..][..j - 1])
    ensures AllCarried(w, ms[..j]) == [Carried(w, ms[0])] + AllCarried(w, ms[1..][..j - 1])
    ensures ms[1..][j - 1..] == ms[j..]
  {
    hide Frame, Carried;
    assert ms[..j][1..] == ms[1..][..j - 1];
  }

  lemma DeframeOne(w: Wire, ms: seq<Message>, data: bytes, next: bytes)
    requires ms != []
    requires data == Frame(w, ms[0]) + next && |Frame(w, ms[0])| > 0
    requires Decoded(w, FRESH, data) == (|Frame(w, ms[0])|, Carried(w, ms[0]))
    requires var d := Deframe(w, next); var j := |d.messages|;
      && j < |ms| && d.messages == AllCarried(w, ms[1..][..j])
      && |Frames(w, ms[1..][..j])| <= |next|
      && d.rest == next[|Frames(w, ms[1..][..j])|..]
      && (j < |ms| - 1 ==> |next| < |Frames(w, ms[1..][..j + 1])|)
    ensures var d, d' := Deframe(w, next), Deframe(w, data); var j := |d'.messages|;
      && j == |d.messages| + 1 && d'.messages == AllCarried(w, ms[..j])
      && |Frames(w, ms[..j])| <= |data| && d'.rest == d.rest == data[|Frames(w, ms[..j])|..]
      && (j < |ms| ==> |data| < |Frames(w, ms[..j + 1])|)
      && d'.ending == d.ending && ms[1..][j - 1..] == ms[j..]
  {
    hide Decoded, Encoded, Carried;
    var f, j := Frame(w, ms[0]), |Deframe(w, next).messages|;
    assert data[|f|..] == next;
    FramesCons(w, ms, j + 1);
    if j + 1 < |ms| {
      FramesCons(w, ms, j + 2);
    }
  }

  /** Once a length field of zero is at the front of m_data, nothing is delivered
      any more, whatever arrives. */
  lemma ZeroLengthStalls(w: Wire, tail: bytes, data: bytes)
    requires ZeroLengthOrEmpty(tail) && data <= tail
    ensures Deframe(w, data).messages == [] && Deframe(w, data).rest == data
    ensures tail == [] ==> Deframe(w, data).ending == Waiting
  {
    hide Decoded;
    DecodeResult(w, FRESH, data);
    if MESSAGE_HEADER_LENGTH <= |data| {
      assert GetU32(data) == GetU32(tail) == 0;
      DecodedCode(w, data);
    }
  }

  lemma DecodedCode(w: Wire, b: bytes)
    ensures var r := Decoded(w, FRESH, b).0; r > 0 ==> MESSAGE_HEADER_LENGTH <= |b| && r == GetU32(b)
  {
  }
}
