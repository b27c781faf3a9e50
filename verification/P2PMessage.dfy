/** The gateway wire format: what P2PMessage::encode writes and what
    P2PMessage::decode makes of an arbitrary buffer.

    The functions say what the two classes at the end of the file compute; the
    lemmas are about those functions. */
module P2PMessages {
  import opened Bytes

  const MESSAGE_HEADER_LENGTH := 14
  const OPTIONS_MIN_LENGTH := 5
  const MAX_GROUPID_LENGTH := 65535
  const MAX_NODEID_LENGTH := 65535
  const MAX_DST_NODEID_COUNT := 255
  const MESSAGE_ERROR := -1
  const MESSAGE_INCOMPLETE := 0

  /** getCroppedData(begin, count): the slice when it lies inside the data.
      What it yields otherwise is not fixed here. */
  type Cropper = crop: (bytes, nat, nat) -> bytes
    | forall s, begin: nat, count: nat :: begin + count <= |s| ==> crop(s, begin, count) == s[begin..begin + count]
    witness (s: bytes, begin: nat, count: nat) => if begin + count <= |s| then s[begin..begin + count] else []

  /** The parts of the format defined outside this repository: the two packet
      types that carry options, and the cropping function. */
  datatype Wire = Wire(peerToPeerMessage: uint16, broadcastMessage: uint16, crop: Cropper) {
    predicate HasOptions(packetType: uint16) {
      packetType == peerToPeerMessage || packetType == broadcastMessage
    }
  }

  datatype Options = Options(groupID: bytes, srcNodeID: bytes, dstNodeIDs: seq<bytes>)

  datatype Message = Message(
    length: uint32, version: uint16, packetType: uint16, seqNo: uint32, ext: uint16,
    options: Options, payload: bytes)

  const NO_OPTIONS := Options([], [], [])

  /** A message as MessageFactory::buildMessage returns it. */
  const FRESH := Message(0, 0, 0, 0, 0, NO_OPTIONS, [])

  // ---------------------------------------------------------------- encoding

  predicate NodeIDOk(id: bytes) {
    0 < |id| <= MAX_NODEID_LENGTH
  }

  predicate OptionsOk(o: Options) {
    && |o.groupID| <= MAX_GROUPID_LENGTH
    && NodeIDOk(o.srcNodeID)
    && |o.dstNodeIDs| <= MAX_DST_NODEID_COUNT
    && forall i :: 0 <= i < |o.dstNodeIDs| ==> NodeIDOk(o.dstNodeIDs[i])
  }

  function OptionBytes(o: Options): bytes
    requires OptionsOk(o)
  {
    PutU16(|o.groupID|) + o.groupID
    + PutU16(|o.srcNodeID|) + o.srcNodeID
    + [|o.dstNodeIDs|] + Flatten(o.dstNodeIDs)
  }

  function Header(m: Message, length: uint32): (h: bytes)
    ensures |h| == MESSAGE_HEADER_LENGTH
  {
    PutU32(length) + PutU16(m.version) + PutU16(m.packetType) + PutU32(m.seqNo) + PutU16(m.ext)
  }

  predicate Encodable(w: Wire, m: Message) {
    w.HasOptions(m.packetType) ==> OptionsOk(m.options)
  }

  function Body(w: Wire, m: Message): bytes
    requires Encodable(w, m)
  {
    (if w.HasOptions(m.packetType) then OptionBytes(m.options) else []) + m.payload
  }

  /** The frame of m; its length field keeps the low 32 bits of the size. */
  function Encoded(w: Wire, m: Message): (f: bytes)
    requires Encodable(w, m)
    ensures |f| == MESSAGE_HEADER_LENGTH + |Body(w, m)|
  {
    Header(m, (MESSAGE_HEADER_LENGTH + |Body(w, m)|) % TWO_32) + Body(w, m)
  }

  // ---------------------------------------------------------------- decoding

  /** The bytes that count ids of size bytes take (see IDBytesIsProduct). */
  function IDBytes(size: nat, count: nat): nat {
    if count == 0 then 0 else size + IDBytes(size, count - 1)
  }

  /** The first count pieces of b, each size bytes long. */
  function Pieces(b: bytes, size: nat, count: nat): (ids: seq<bytes>)
    requires IDBytes(size, count) <= |b|
    ensures |ids| == count && forall i :: 0 <= i < count ==> |ids[i]| == size
    decreases count
  {
    if count == 0 then []
    else
      [b[..size]] + Pieces(b[size..], size, count - 1)
  }

  /** P2PMessageOptions::decode on options o: the offset reached, or
      MESSAGE_ERROR, and the options as they are left. */
  function DecodeOptions(o: Options, b: bytes): (int, Options) {
    if OPTIONS_MIN_LENGTH > |b| then (MESSAGE_ERROR, o) else
    var groupLen := GetU16(b);
    if groupLen > 0 && 2 + groupLen > |b| then (MESSAGE_ERROR, o) else
    var o1 := if groupLen > 0 then o.(groupID := b[2..2 + groupLen]) else o;
    var p := 2 + groupLen;
    if p + 2 > |b| then (MESSAGE_ERROR, o1) else
    var idLen := GetU16(b[p..]);
    if p + 2 + idLen > |b| then (MESSAGE_ERROR, o1) else
    var o2 := o1.(srcNodeID := b[p + 2..p + 2 + idLen] + o1.srcNodeID);
    var c := p + 2 + idLen;
    if c + 1 > |b| then (MESSAGE_ERROR, o2) else
    var count := b[c];
    if c + 1 + IDBytes(idLen, count) > |b| then (MESSAGE_ERROR, o2) else
    (c + 1 + IDBytes(idLen, count), o2.(dstNodeIDs := Pieces(b[c + 1..], idLen, count)))
  }

  function DecodeHeader(m: Message, b: bytes): Message
    requires MESSAGE_HEADER_LENGTH <= |b|
  {
    m.(length := GetU32(b), version := GetU16(b[4..]), packetType := GetU16(b[6..]),
       seqNo := GetU32(b[8..]), ext := GetU16(b[12..]))
  }

  /** The payload taken from offset on. length - offset is computed on 32-bit
      unsigned numbers, so it wraps when the offset is past the length. */
  function Payload(w: Wire, b: bytes, offset: nat, length: uint32): bytes {
    w.crop(b, offset, (length - offset) % TWO_32)
  }

  /** P2PMessage::decode on message m: the result code and m as it is left. */
  function Decoded(w: Wire, m: Message, b: bytes): (int, Message) {
    if |b| < MESSAGE_HEADER_LENGTH then (MESSAGE_INCOMPLETE, m) else
    var h := DecodeHeader(m, b);
    if |b| < h.length then (MESSAGE_INCOMPLETE, h) else
    if !w.HasOptions(h.packetType) then
      (h.length, h.(payload := Payload(w, b, MESSAGE_HEADER_LENGTH, h.length)))
    else
      var (r, o) := DecodeOptions(h.options, b[MESSAGE_HEADER_LENGTH..]);
      if r < 0 then (MESSAGE_ERROR, h.(options := o))
      else (h.length, h.(options := o, payload := Payload(w, b, MESSAGE_HEADER_LENGTH + r, h.length)))
  }

  // ------------------------------------------------- offsets and result codes

  /** The sum of the ids' sizes is the product that decode checks. */
  lemma IDBytesIsProduct(size: nat, count: nat)
    ensures IDBytes(size, count) == count * size
  {
  }

  lemma IDBytesBound(idLen: uint16, count: nat)
    ensures IDBytes(idLen, count) <= 0xFFFF * count
  {
  }

  /** The int32 offset of decode stays below 2^31 on every buffer. */
  lemma OffsetFitsInt32(o: Options, b: bytes)
    ensures var r := DecodeOptions(o, b).0;
      r == MESSAGE_ERROR || (OPTIONS_MIN_LENGTH <= r <= |b| && MESSAGE_HEADER_LENGTH + r < 0x8000_0000)
  {
    var r := DecodeOptions(o, b).0;
    if r != MESSAGE_ERROR {
      var p := 2 + GetU16(b);
      var idLen := GetU16(b[p..]);
      IDBytesBound(idLen, b[p + 2 + idLen]);
    }
  }

  /** The result is -1, 0 or a count of bytes that are really there, and it is 0
      exactly when the frame is incomplete or its length field is 0. */
  lemma DecodeResult(w: Wire, m: Message, b: bytes)
    ensures var r := Decoded(w, m, b).0; r == MESSAGE_ERROR || 0 <= r <= |b|
    ensures Decoded(w, m, b).0 == MESSAGE_INCOMPLETE <==>
      || |b| < MESSAGE_HEADER_LENGTH
      || |b| < GetU32(b)
      || (GetU32(b) == 0
          && (w.HasOptions(GetU16(b[6..]))
              ==> DecodeOptions(m.options, b[MESSAGE_HEADER_LENGTH..]).0 != MESSAGE_ERROR))
  {
    if MESSAGE_HEADER_LENGTH <= |b| {
      OffsetFitsInt32(m.options, b[MESSAGE_HEADER_LENGTH..]);
    }
  }

  // --------------------------------------------------------------- round trip

  /** What encode leaves in the buffer: the frame, or after a failed check the
      header with a length field of zero. */
  function Frame(w: Wire, m: Message): bytes {
    if Encodable(w, m) then Encoded(w, m) else Header(m, 0)
  }

  /** What the frame of m carries: options only for the two types that have them. */
  function Carried(w: Wire, m: Message): Message {
    m.(length := |Frame(w, m)| % TWO_32,
       options := if w.HasOptions(m.packetType) then m.options else NO_OPTIONS)
  }

  /** All destination ids have the length of the source id. */
  predicate SameIDLength(o: Options) {
    forall i :: 0 <= i < |o.dstNodeIDs| ==> |o.dstNodeIDs[i]| == |o.srcNodeID|
  }

  /** The messages whose frames can be read back. */
  predicate Sendable(w: Wire, m: Message) {
    && Encodable(w, m)
    && |Encoded(w, m)| < TWO_32
    && (w.HasOptions(m.packetType) ==> SameIDLength(m.options))
  }

  lemma {:induction false} PiecesOfFlatten(ids: seq<bytes>, size: nat, t: bytes)
    requires forall i :: 0 <= i < |ids| ==> |ids[i]| == size
    ensures |Flatten(ids)| == IDBytes(size, |ids|)
    ensures Pieces(Flatten(ids) + t, size, |ids|) == ids
  {
    if ids != [] {
      var rest := ids[1..];
      PiecesOfFlatten(rest, size, t);
      assert Flatten(ids) + t == ids[0] + (Flatten(rest) + t);
      assert (Flatten(ids) + t)[size..] == Flatten(rest) + t;
      assert ids == [ids[0]] + rest;
    }
  }

  lemma {:induction false} FlattenOfPieces(b: bytes, size: nat, count: nat)
    requires IDBytes(size, count) <= |b|
    ensures Flatten(Pieces(b, size, count)) == b[..IDBytes(size, count)]
    decreases count
  {
    if count > 0 {
      FlattenOfPieces(b[size..], size, count - 1);
      assert b[..IDBytes(size, count)] == b[..size] + b[size..][..IDBytes(size, count - 1)];
    }
  }

  /** The sub-fields of a buffer that starts with the bytes of options o. */
  lemma OptionFields(o: Options, t: bytes)
    requires OptionsOk(o)
    ensures var b := OptionBytes(o) + t;
      var p, n := 2 + |o.groupID|, |o.srcNodeID|;
      && p + 3 + n <= |b|
      && GetU16(b) == |o.groupID| && b[2..p] == o.groupID
      && GetU16(b[p..]) == n && b[p + 2..p + 2 + n] == o.srcNodeID
      && b[p + 2 + n] == |o.dstNodeIDs|
      && b[p + 3 + n..] == Flatten(o.dstNodeIDs) + t
  {
    hide Flatten, GetU16, PutU16;
    var p, n := 2 + |o.groupID|, |o.srcNodeID|;
    var ids := Flatten(o.dstNodeIDs) + t;
    var s3 := o.srcNodeID + ([|o.dstNodeIDs|] + ids);
    var s1 := o.groupID + (PutU16(n) + s3);
    var b := PutU16(|o.groupID|) + s1;
    assert OptionBytes(o) + t == b;
    GetPutU16(|o.groupID|, s1);
    GetPutU16(n, s3);
    assert b[2..p] == s1[..p - 2] && b[p..] == s1[p - 2..];
    assert b[p + 2..p + 2 + n] == s3[..n];
    assert b[p + 3 + n..] == s3[n + 1..] == ids;
  }

  lemma OptionsRoundTrip(o: Options, t: bytes)
    requires OptionsOk(o) && SameIDLength(o)
    ensures DecodeOptions(NO_OPTIONS, OptionBytes(o) + t) == (|OptionBytes(o)|, o)
  {
    OptionFields(o, t);
    PiecesOfFlatten(o.dstNodeIDs, |o.srcNodeID|, t);
    var b := OptionBytes(o) + t;
    var c := 4 + |o.groupID| + |o.srcNodeID|;
    assert b[c] == |o.dstNodeIDs|;
    assert |OptionBytes(o)| == c + 1 + IDBytes(|o.srcNodeID|, |o.dstNodeIDs|);
    assert b[c + 1..] == Flatten(o.dstNodeIDs) + t;
    assert o.srcNodeID + [] == o.srcNodeID;
    assert |o.groupID| == 0 ==> o.groupID == [];
  }

  lemma HeaderRoundTrip(m: Message, m0: Message, length: uint32, t: bytes)
    ensures DecodeHeader(m0, Header(m, length) + t)
      == m0.(length := length, version := m.version, packetType := m.packetType,
             seqNo := m.seqNo, ext := m.ext)
  {
    var b := Header(m, length) + t;
    var t4 := PutU16(m.ext) + t;
    var t3 := PutU32(m.seqNo) + t4;
    var t2 := PutU16(m.packetType) + t3;
    var t1 := PutU16(m.version) + t2;
    assert b == PutU32(length) + t1;
    GetPutU32(length, t1);
    assert b[4..] == t1;
    GetPutU16(m.version, t2);
    assert b[6..] == t2;
    GetPutU16(m.packetType, t3);
    assert b[8..] == t3;
    GetPutU32(m.seqNo, t4);
    assert b[12..] == t4;
    GetPutU16(m.ext, t);
  }

  /** What decode finds at the front of a buffer that starts with a frame of m. */
  lemma FrameFields(w: Wire, m: Message, t: bytes)
    requires Encodable(w, m)
    ensures var f := Encoded(w, m);
      && |f + t| == |f| + |t|
      && DecodeHeader(FRESH, f + t)
         == FRESH.(length := |f| % TWO_32, version := m.version, packetType := m.packetType,
                   seqNo := m.seqNo, ext := m.ext)
      && (f + t)[MESSAGE_HEADER_LENGTH..] == Body(w, m) + t
  {
    var f, h := Encoded(w, m), Header(m, |Encoded(w, m)| % TWO_32);
    assert f + t == h + (Body(w, m) + t);
    HeaderRoundTrip(m, FRESH, |f| % TWO_32, Body(w, m) + t);
  }

  /** Decode of a complete frame, from what its header and its options decode to. */
  lemma DecodeComplete(w: Wire, b: bytes, h: Message, start: nat, o: Options)
    requires MESSAGE_HEADER_LENGTH <= |b| && h == DecodeHeader(FRESH, b)
    requires start <= h.length <= |b|
    requires if w.HasOptions(h.packetType)
      then MESSAGE_HEADER_LENGTH <= start
           && DecodeOptions(NO_OPTIONS, b[MESSAGE_HEADER_LENGTH..]) == (start - MESSAGE_HEADER_LENGTH, o)
      else start == MESSAGE_HEADER_LENGTH && o == NO_OPTIONS
    ensures Decoded(w, FRESH, b) == (h.length, h.(options := o, payload := b[start..h.length]))
  {
    hide DecodeOptions;
    assert Payload(w, b, start, h.length) == b[start..h.length];
  }

  /** Decoding a frame with anything after it. */
  lemma FrameRoundTrip(w: Wire, m: Message, t: bytes)
    requires Sendable(w, m)
    ensures Decoded(w, FRESH, Encoded(w, m) + t) == (|Encoded(w, m)|, Carried(w, m))
  {
    hide DecodeOptions, DecodeHeader, Decoded, OptionBytes;
    var f, body := Encoded(w, m), Body(w, m);
    var b, frameLen := f + t, |f|;
    FrameFields(w, m, t);
    var h, n, o := DecodeHeader(FRESH, b), 0, NO_OPTIONS;
    if w.HasOptions(m.packetType) {
      var opts := OptionBytes(m.options);
      assert body + t == opts + (m.payload + t);
      OptionsRoundTrip(m.options, m.payload + t);
      n, o := |opts|, m.options;
    }
    assert m.payload == body[n..];
    PayloadSlice(b, body, t, n, frameLen);
    DecodeComplete(w, b, h, MESSAGE_HEADER_LENGTH + n, o);
  }

  lemma PayloadSlice(b: bytes, body: bytes, t: bytes, n: nat, frameLen: nat)
    requires n <= |body| && frameLen == MESSAGE_HEADER_LENGTH + |body| <= |b|
    requires b[MESSAGE_HEADER_LENGTH..] == body + t
    ensures b[MESSAGE_HEADER_LENGTH + n..frameLen] == body[n..]
  {
    assert b[MESSAGE_HEADER_LENGTH + n..frameLen] == b[MESSAGE_HEADER_LENGTH..][n..|body|];
  }

  /** Main result on encode followed by decode: every field comes back, and the
      whole frame is consumed, exactly for the sendable messages. */
  lemma RoundTripExactly(w: Wire, m: Message)
    requires Encodable(w, m)
    ensures Decoded(w, FRESH, Encoded(w, m)) == (|Encoded(w, m)|, Carried(w, m)) <==> Sendable(w, m)
  {
    hide DecodeOptions, DecodeHeader, OptionBytes;
    var f := Encoded(w, m);
    if Sendable(w, m) {
      FrameRoundTrip(w, m, []);
      assert f + [] == f;
    } else {
      FrameFields(w, m, []);
      assert f + [] == f && Body(w, m) + [] == Body(w, m);
      if |f| < TWO_32 && DecodeOptions(NO_OPTIONS, Body(w, m)).0 != MESSAGE_ERROR {
        DecodedSameIDLength(NO_OPTIONS, Body(w, m));
      }
    }
  }

  // -------------------------------------------------------- canonical encoding

  /** Buffer b starts with a complete frame whose length field covers the header
      and the options. */
  predicate Closed(w: Wire, b: bytes) {
    && MESSAGE_HEADER_LENGTH <= |b|
    && MESSAGE_HEADER_LENGTH <= GetU32(b) <= |b|
    && (w.HasOptions(GetU16(b[6..])) ==>
          var r := DecodeOptions(NO_OPTIONS, b[MESSAGE_HEADER_LENGTH..GetU32(b)]).0;
          r != MESSAGE_ERROR)
  }

  lemma HeaderBytes(m0: Message, b: bytes)
    requires MESSAGE_HEADER_LENGTH <= |b|
    ensures Header(DecodeHeader(m0, b), GetU32(b)) == b[..MESSAGE_HEADER_LENGTH]
  {
    PutGetU32(b);
    PutGetU16(b[4..]);
    PutGetU16(b[6..]);
    PutGetU32(b[8..]);
    PutGetU16(b[12..]);
    assert b[..14] == b[..4] + b[4..][..2] + b[6..][..2] + b[8..][..4] + b[12..][..2];
  }

  /** Options that decode from b are the ones b spells out. */
  lemma OptionsCanonical(b: bytes)
    requires DecodeOptions(NO_OPTIONS, b).0 != MESSAGE_ERROR
    requires DecodeOptions(NO_OPTIONS, b).1.srcNodeID != []
    ensures var (r, o) := DecodeOptions(NO_OPTIONS, b);
      0 <= r <= |b| && OptionsOk(o) && OptionBytes(o) == b[..r]
  {
    hide OptionBytes, OptionsOk, Pieces;
    OffsetFitsInt32(NO_OPTIONS, b);
    var (r, o) := DecodeOptions(NO_OPTIONS, b);
    var p := 2 + GetU16(b);
    var n := GetU16(b[p..]);
    var c := p + 2 + n;
    assert b[2..2] == [] && b[p + 2..c] + [] == b[p + 2..c];
    assert o == Options(b[2..p], b[p + 2..c], Pieces(b[c + 1..], n, b[c]));
    assert r == c + 1 + IDBytes(n, b[c]) <= |b|;
    OptionsSpelled(b, p, n, b[c], o);
  }

  lemma OptionsSpelled(b: bytes, p: nat, n: nat, count: nat, o: Options)
    requires 2 <= |b| && p == 2 + GetU16(b) && p + 2 <= |b| && 0 < n == GetU16(b[p..])
    requires p + 3 + n + IDBytes(n, count) <= |b| && count == b[p + 2 + n]
    requires o == Options(b[2..p], b[p + 2..p + 2 + n], Pieces(b[p + 3 + n..], n, count))
    ensures OptionsOk(o) && OptionBytes(o) == b[..p + 3 + n + IDBytes(n, count)]
  {
    PutGetU16(b);
    PutGetU16(b[p..]);
    FlattenOfPieces(b[p + 3 + n..], n, count);
    SplitAt(b, p, p + 2 + n, p + 3 + n + IDBytes(n, count));
  }

  lemma SplitAt(b: bytes, p: nat, c: nat, r: nat)
    requires 2 <= p && p + 2 <= c < r <= |b|
    ensures b[..r] == b[..2] + b[2..p] + b[p..][..2] + b[p + 2..c] + [b[c]] + b[c + 1..][..r - c - 1]
  {
  }

  /** Decoding options looks at no byte after the ones it consumes. */
  lemma OptionsPrefix(o: Options, b: bytes, t: bytes)
    ensures DecodeOptions(o, b).0 != MESSAGE_ERROR ==> DecodeOptions(o, b + t) == DecodeOptions(o, b)
  {
    if DecodeOptions(o, b).0 != MESSAGE_ERROR {
      var p := 2 + GetU16(b);
      assert (b + t)[2..p] == b[2..p];
      assert (b + t)[p..] == b[p..] + t;
      var n := GetU16(b[p..]);
      var c := p + 2 + n;
      assert (b + t)[p + 2..c] == b[p + 2..c];
      assert (b + t)[c + 1..] == b[c + 1..] + t;
      PiecesPrefix(b[c + 1..], n, b[c], t);
    }
  }

  lemma {:induction false} PiecesPrefix(b: bytes, size: nat, count: nat, t: bytes)
    requires IDBytes(size, count) <= |b|
    ensures Pieces(b + t, size, count) == Pieces(b, size, count)
    decreases count
  {
    if count > 0 {
      assert (b + t)[..size] == b[..size];
      assert (b + t)[size..] == b[size..] + t;
      PiecesPrefix(b[size..], size, count - 1, t);
    }
  }

  lemma HeaderPrefix(b: bytes, t: bytes)
    requires MESSAGE_HEADER_LENGTH <= |b|
    ensures DecodeHeader(FRESH, b + t) == DecodeHeader(FRESH, b) && GetU32(b + t) == GetU32(b)
  {
  }

  lemma ClosedDecode(w: Wire, b: bytes, t: bytes)
    requires Closed(w, b)
    ensures var (h, len) := (DecodeHeader(FRESH, b), GetU32(b));
      var (r, o) := if w.HasOptions(h.packetType)
        then DecodeOptions(NO_OPTIONS, b[MESSAGE_HEADER_LENGTH..len]) else (0, NO_OPTIONS);
      && 0 <= r && MESSAGE_HEADER_LENGTH + r <= len
      && Decoded(w, FRESH, b + t)
         == (len, h.(options := o, payload := b[MESSAGE_HEADER_LENGTH + r..len]))
  {
    hide DecodeOptions, Decoded;
    var h, len := DecodeHeader(FRESH, b), GetU32(b);
    HeaderPrefix(b, t);
    var start, o := MESSAGE_HEADER_LENGTH, NO_OPTIONS;
    if w.HasOptions(h.packetType) {
      var inner := b[MESSAGE_HEADER_LENGTH..len];
      OffsetFitsInt32(NO_OPTIONS, inner);
      OptionsPrefix(NO_OPTIONS, inner, b[len..] + t);
      assert (b + t)[MESSAGE_HEADER_LENGTH..] == inner + (b[len..] + t);
      start, o := start + DecodeOptions(NO_OPTIONS, inner).0, DecodeOptions(NO_OPTIONS, inner).1;
    }
    DecodeComplete(w, b + t, h, start, o);
    assert (b + t)[start..len] == b[start..len];
  }

  /** Main result on decode followed by encode: the bytes come back exactly for
      closed frames that name a source. */
  lemma CanonicalExactly(w: Wire, b: bytes)
    requires Decoded(w, FRESH, b).0 > 0
    ensures var (r, m) := Decoded(w, FRESH, b);
      Encodable(w, m) && Encoded(w, m) == b[..r]
      <==> Closed(w, b) && (w.HasOptions(m.packetType) ==> m.options.srcNodeID != [])
  {
    DecodeResult(w, FRESH, b);
    var (r, m) := Decoded(w, FRESH, b);
    if Closed(w, b) && (w.HasOptions(m.packetType) ==> m.options.srcNodeID != []) {
      ReEncode(w, b);
    }
    if Encodable(w, m) && Encoded(w, m) == b[..r] {
      assert r == GetU32(b) == MESSAGE_HEADER_LENGTH + |Body(w, m)|;
      assert b[MESSAGE_HEADER_LENGTH..r] == b[..r][MESSAGE_HEADER_LENGTH..] == Body(w, m);
      if w.HasOptions(m.packetType) {
        DecodedSameIDLength(NO_OPTIONS, b[MESSAGE_HEADER_LENGTH..]);
        OptionsRoundTrip(m.options, m.payload);
      }
    }
  }

  lemma ReEncode(w: Wire, b: bytes)
    requires Closed(w, b)
    requires var m := Decoded(w, FRESH, b).1; w.HasOptions(m.packetType) ==> m.options.srcNodeID != []
    ensures var (r, m) := Decoded(w, FRESH, b);
      r == GetU32(b) && Encodable(w, m) && Encoded(w, m) == b[..r]
  {
    ClosedDecode(w, b, []);
    assert b + [] == b;
    var (r, m) := Decoded(w, FRESH, b);
    var inner := b[MESSAGE_HEADER_LENGTH..r];
    assert Encodable(w, m) && Body(w, m) == inner by {
      BodyOfClosed(w, inner, m, if w.HasOptions(m.packetType) then DecodeOptions(NO_OPTIONS, inner).0 else 0);
    }
    assert Header(m, r) == b[..MESSAGE_HEADER_LENGTH] by {
      HeaderBytes(m, b);
      assert DecodeHeader(m, b) == m;
    }
    Reassemble(w, b, m, r);
  }

  lemma Reassemble(w: Wire, b: bytes, m: Message, r: uint32)
    requires MESSAGE_HEADER_LENGTH <= r <= |b| && Encodable(w, m)
    requires Header(m, r) == b[..MESSAGE_HEADER_LENGTH] && Body(w, m) == b[MESSAGE_HEADER_LENGTH..r]
    ensures Encoded(w, m) == b[..r]
  {
    hide Header, Body, Encodable;
    assert b[..r] == b[..MESSAGE_HEADER_LENGTH] + b[MESSAGE_HEADER_LENGTH..r];
  }

  lemma BodyOfClosed(w: Wire, inner: bytes, m: Message, n: nat)
    requires n <= |inner| && m.payload == inner[n..]
    requires if w.HasOptions(m.packetType)
      then DecodeOptions(NO_OPTIONS, inner) == (n, m.options) && m.options.srcNodeID != []
      else n == 0
    ensures Encodable(w, m) && Body(w, m) == inner
  {
    if w.HasOptions(m.packetType) {
      OptionsCanonical(inner);
    }
    assert inner == inner[..n] + inner[n..];
  }

  lemma DecodedSameIDLength(o: Options, b: bytes)
    requires o == NO_OPTIONS && DecodeOptions(o, b).0 != MESSAGE_ERROR
    ensures SameIDLength(DecodeOptions(o, b).1)
  {
  }

  /** Two closed frames that decode alike are the same bytes. */
  lemma DecodeInjective(w: Wire, b: bytes, c: bytes)
    requires Closed(w, b) && Closed(w, c) && Decoded(w, FRESH, b) == Decoded(w, FRESH, c)
    requires var m := Decoded(w, FRESH, b).1; w.HasOptions(m.packetType) ==> m.options.srcNodeID != []
    ensures b[..GetU32(b)] == c[..GetU32(c)]
  {
    ClosedDecode(w, b, []);
    ClosedDecode(w, c, []);
    assert b + [] == b && c + [] == c;
    CanonicalExactly(w, b);
    CanonicalExactly(w, c);
  }

  // ------------------------------------------------------ what follows a frame

  lemma ClosedTail(w: Wire, b: bytes, t: bytes)
    requires Closed(w, b)
    ensures Decoded(w, FRESH, b + t) == Decoded(w, FRESH, b) && Decoded(w, FRESH, b).0 == GetU32(b)
    ensures Closed(w, b + t)
  {
    ClosedDecode(w, b, t);
    ClosedDecode(w, b, []);
    assert b + [] == b;
    assert (b + t)[MESSAGE_HEADER_LENGTH..GetU32(b)] == b[MESSAGE_HEADER_LENGTH..GetU32(b)];
    HeaderPrefix(b, t);
  }

  /** Options cut short decode once enough zero bytes follow. */
  lemma OptionsCompletable(b: bytes)
    ensures DecodeOptions(NO_OPTIONS, b + seq(0x200_0000, _ => 0)).0 != MESSAGE_ERROR
  {
    var c := b + seq(0x200_0000, _ => 0);
    var p := 2 + GetU16(c);
    var idLen := GetU16(c[p..]);
    IDBytesBound(idLen, c[p + 2 + idLen]);
    assert |c| == |b| + 0x200_0000;
  }

  /** What decode makes of a complete frame is independent of the bytes after it
      exactly when the frame is closed: option decoding is not limited to the
      frame, so options that overrun it read into the next one. */
  lemma TailIndependenceExactly(w: Wire, f: bytes)
    requires MESSAGE_HEADER_LENGTH <= |f| == GetU32(f)
    ensures Closed(w, f) <==> forall t :: Decoded(w, FRESH, f + t) == Decoded(w, FRESH, f)
  {
    if Closed(w, f) {
      forall t ensures Decoded(w, FRESH, f + t) == Decoded(w, FRESH, f) {
        ClosedTail(w, f, t);
      }
    } else {
      var t := seq(0x200_0000, _ => 0);
      var inner := f[MESSAGE_HEADER_LENGTH..];
      assert inner == f[MESSAGE_HEADER_LENGTH..|f|];
      assert (f + t)[MESSAGE_HEADER_LENGTH..] == inner + t;
      OptionsCompletable(inner);
      OffsetFitsInt32(NO_OPTIONS, inner + t);
      HeaderPrefix(f, t);
      assert Decoded(w, FRESH, f + t).0 == |f| != Decoded(w, FRESH, f).0;
    }
  }

  lemma EncodedIsClosed(w: Wire, m: Message)
    requires Sendable(w, m)
    ensures Closed(w, Encoded(w, m)) && GetU32(Encoded(w, m)) == |Encoded(w, m)|
  {
    var f := Encoded(w, m);
    FrameFields(w, m, []);
    assert f + [] == f && Body(w, m) + [] == Body(w, m);
    if w.HasOptions(m.packetType) {
      OptionsRoundTrip(m.options, m.payload);
      assert f[MESSAGE_HEADER_LENGTH..|f|] == f[MESSAGE_HEADER_LENGTH..];
    }
  }

  /** Every proper prefix of a frame is reported as incomplete. */
  lemma PrefixIncomplete(w: Wire, m: Message, k: nat)
    requires Sendable(w, m) && k < |Encoded(w, m)|
    ensures Decoded(w, FRESH, Encoded(w, m)[..k]).0 == MESSAGE_INCOMPLETE
  {
    EncodedIsClosed(w, m);
    if MESSAGE_HEADER_LENGTH <= k {
      assert GetU32(Encoded(w, m)[..k]) == GetU32(Encoded(w, m));
    }
  }

  lemma {:induction false} PiecesSnoc(b: bytes, size: nat, n: nat, count: nat)
    requires n < count && IDBytes(size, count) <= |b|
    ensures IDBytes(size, n) + size == IDBytes(size, n + 1) <= IDBytes(size, count)
    ensures Pieces(b, size, n + 1)
      == Pieces(b, size, n) + [b[IDBytes(size, n)..IDBytes(size, n) + size]]
    decreases n
  {
    IDBytesMonotonic(size, n + 1, count);
    if n > 0 {
      PiecesSnoc(b[size..], size, n - 1, count - 1);
      var at := IDBytes(size, n - 1);
      assert b[size..][at..at + size] == b[size + at..size + at + size];
    }
  }

  lemma IDBytesMonotonic(size: nat, n: nat, count: nat)
    requires n <= count
    ensures IDBytes(size, n) <= IDBytes(size, count)
  {
  }

  lemma OverwriteLength(m: Message, body: bytes, n: uint32)
    ensures PutU32(n) + (Header(m, 0) + body)[4..] == Header(m, n) + body
  {
  }

  // ------------------------------------------------------------- the classes

  class P2PMessageOptions {
    var groupID: bytes
    var srcNodeID: bytes
    var dstNodeIDs: seq<bytes>

    constructor ()
      ensures Value() == NO_OPTIONS
    {
      groupID, srcNodeID, dstNodeIDs := [], [], [];
    }

    constructor From(o: Options)
      ensures Value() == o
    {
      groupID, srcNodeID, dstNodeIDs := o.groupID, o.srcNodeID, o.dstNodeIDs;
    }

    function Value(): Options
      reads this
    {
      Options(groupID, srcNodeID, dstNodeIDs)
    }

    /** Appends the options to buffer; a failed check leaves buffer as it was. */
    method Encode(buffer: bytes) returns (ok: bool, out: bytes)
      ensures ok == OptionsOk(Value())
      ensures out == if ok then buffer + OptionBytes(Value()) else buffer
    {
      out := buffer;
      if |groupID| > MAX_GROUPID_LENGTH { return false, out; }
      if |srcNodeID| == 0 || |srcNodeID| > MAX_NODEID_LENGTH { return false, out; }
      if |dstNodeIDs| > MAX_DST_NODEID_COUNT { return false, out; }
      for i := 0 to |dstNodeIDs|
        invariant forall j :: 0 <= j < i ==> NodeIDOk(dstNodeIDs[j])
      {
        if |dstNodeIDs[i]| == 0 || |dstNodeIDs[i]| > MAX_NODEID_LENGTH {
          assert !NodeIDOk(dstNodeIDs[i]);
          return false, out;
        }
      }
      out := out + PutU16(|groupID|);
      out := out + groupID;
      out := out + PutU16(|srcNodeID|);
      out := out + srcNodeID;
      out := out + [|dstNodeIDs|];
      ghost var front := out;
      for i := 0 to |dstNodeIDs|
        invariant out == front + Flatten(dstNodeIDs[..i])
      {
        out := out + dstNodeIDs[i];
        assert dstNodeIDs[..i + 1] == dstNodeIDs[..i] + [dstNodeIDs[i]];
        FlattenAppend(dstNodeIDs[..i], [dstNodeIDs[i]]);
        assert Flatten([dstNodeIDs[i]]) == dstNodeIDs[i];
      }
      assert dstNodeIDs[..|dstNodeIDs|] == dstNodeIDs;
      ok := true;
    }

    method Decode(b: bytes) returns (result: int)
      modifies this
      ensures (result, Value()) == DecodeOptions(old(Value()), b)
    {
      var offset := 0;
      if offset + OPTIONS_MIN_LENGTH > |b| { return MESSAGE_ERROR; }
      var groupIDLength := GetU16(b[offset..]);
      offset := offset + 2;
      if groupIDLength > 0 {
        if offset + groupIDLength > |b| { return MESSAGE_ERROR; }
        groupID := b[offset..offset + groupIDLength];
        offset := offset + groupIDLength;
      }
      if offset + 2 > |b| { return MESSAGE_ERROR; }
      var nodeIDLength := GetU16(b[offset..]);
      offset := offset + 2;
      if offset + nodeIDLength > |b| { return MESSAGE_ERROR; }
      srcNodeID := b[offset..offset + nodeIDLength] + srcNodeID;
      offset := offset + nodeIDLength;
      if offset + 1 > |b| { return MESSAGE_ERROR; }
      var count := b[offset];
      offset := offset + 1;
      IDBytesIsProduct(nodeIDLength, count);
      if offset + count * nodeIDLength > |b| { return MESSAGE_ERROR; }
      dstNodeIDs, offset := ReadIDs(b, offset, nodeIDLength, count);
      result := offset;
    }

    /** The loop over the destination ids, from offset on. */
    static method ReadIDs(b: bytes, start: nat, size: nat, count: nat)
      returns (ids: seq<bytes>, offset: nat)
      requires start + IDBytes(size, count) <= |b|
      ensures ids == Pieces(b[start..], size, count) && offset == start + IDBytes(size, count)
    {
      ids, offset := [], start;
      for i := 0 to count
        invariant offset == start + IDBytes(size, i)
        invariant IDBytes(size, i) <= |b[start..]| && ids == Pieces(b[start..], size, i)
      {
        PiecesSnoc(b[start..], size, i, count);
        assert b[start..][IDBytes(size, i)..IDBytes(size, i) + size] == b[offset..offset + size];
        ids := ids + [b[offset..offset + size]];
        offset := offset + size;
      }
    }
  }

  class P2PMessage {
    const wire: Wire
    var length: uint32
    var version: uint16
    var packetType: uint16
    var seqNo: uint32
    var ext: uint16
    var options: P2PMessageOptions
    var payload: bytes

    constructor (w: Wire)
      ensures wire == w && Value() == FRESH && fresh(options)
    {
      wire := w;
      length, version, packetType, seqNo, ext, payload := 0, 0, 0, 0, 0, [];
      options := new P2PMessageOptions();
    }

    /** A message with the fields of m. */
    constructor From(w: Wire, m: Message)
      ensures wire == w && Value() == m && fresh(options)
    {
      wire := w;
      length, version, packetType, seqNo, ext := m.length, m.version, m.packetType, m.seqNo, m.ext;
      payload := m.payload;
      options := new P2PMessageOptions.From(m.options);
    }

    function Value(): Message
      reads this, options
    {
      Message(length, version, packetType, seqNo, ext, options.Value(), payload)
    }

    /** Builds the frame in a buffer: a length of zero first, overwritten at the
        end. */
    method Encode() returns (ok: bool, buffer: bytes)
      ensures ok == Encodable(wire, Value())
      ensures buffer == Frame(wire, Value())
    {
      hide Flatten, OptionBytes;
      buffer := PutU32(0);
      buffer := buffer + PutU16(version);
      buffer := buffer + PutU16(packetType);
      buffer := buffer + PutU32(seqNo);
      buffer := buffer + PutU16(ext);
      assert buffer == Header(Value(), 0);
      hide Header, PutU32, PutU16;
      if wire.HasOptions(packetType) {
        ok, buffer := options.Encode(buffer);
        if !ok { return; }
      }
      buffer := buffer + payload;
      assert buffer == Header(Value(), 0) + Body(wire, Value());
      OverwriteLength(Value(), Body(wire, Value()), |buffer| % TWO_32);
      buffer := PutU32(|buffer| % TWO_32) + buffer[4..];
      ok := true;
    }

    method DecodeHeaderFields(b: bytes) returns (offset: int)
      requires MESSAGE_HEADER_LENGTH <= |b|
      modifies this
      ensures options == old(options)
      ensures Value() == DecodeHeader(old(Value()), b) && offset == MESSAGE_HEADER_LENGTH
    {
      offset := 0;
      length := GetU32(b[offset..]);
      offset := offset + 4;
      version := GetU16(b[offset..]);
      offset := offset + 2;
      packetType := GetU16(b[offset..]);
      offset := offset + 2;
      seqNo := GetU32(b[offset..]);
      offset := offset + 4;
      ext := GetU16(b[offset..]);
      offset := offset + 2;
    }

    method Decode(b: bytes) returns (result: int)
      modifies this, options
      ensures options == old(options)
      ensures (result, Value()) == Decoded(wire, old(Value()), b)
    {
      if |b| < MESSAGE_HEADER_LENGTH { return MESSAGE_INCOMPLETE; }
      var offset := DecodeHeaderFields(b);
      if |b| < length { return MESSAGE_INCOMPLETE; }
      if wire.HasOptions(packetType) {
        OffsetFitsInt32(options.Value(), b[MESSAGE_HEADER_LENGTH..]);
        var optionsOffset := options.Decode(b[offset..]);
        if optionsOffset < 0 { return MESSAGE_ERROR; }
        offset := offset + optionsOffset;
      }
      payload := wire.crop(b, offset, (length - offset) % TWO_32);
      result := length;
    }
  }
}
