/** The wire format byte by byte: where each field of a message stands, with its
    most significant byte first, and what a buffer's bytes are read as. */
module WireLayout {
  import opened Bytes
  import opened P2PMessages

  // ------------------------------------------------------------ single numbers

  lemma TwoBytes(n: uint16, s: bytes)
    ensures PutU16(n)[0] as int * 0x100 + PutU16(n)[1] == n
    ensures 2 <= |s| ==> GetU16(s) == s[0] as int * 0x100 + s[1]
  {
  }

  lemma FourBytes(n: uint32, s: bytes)
    ensures var p := PutU32(n);
      p[0] as int * 0x100_0000 + p[1] as int * 0x1_0000 + p[2] as int * 0x100 + p[3] == n
    ensures 4 <= |s| ==>
      GetU32(s) == s[0] as int * 0x100_0000 + s[1] as int * 0x1_0000 + s[2] as int * 0x100 + s[3]
  {
    var p := PutU32(n);
    TwoBytes(n / TWO_16, p);
    TwoBytes(n % TWO_16, p[2..]);
  }

  // ------------------------------------------------------------------ encoding

  /** The fourteen bytes of a header. */
  lemma HeaderLayout(m: Message, length: uint32, t: bytes)
    ensures var f := Header(m, length) + t;
      && f[0] as int * 0x100_0000 + f[1] as int * 0x1_0000 + f[2] as int * 0x100 + f[3] == length
      && f[4] as int * 0x100 + f[5] == m.version
      && f[6] as int * 0x100 + f[7] == m.packetType
      && f[8] as int * 0x100_0000 + f[9] as int * 0x1_0000 + f[10] as int * 0x100 + f[11] == m.seqNo
      && f[12] as int * 0x100 + f[13] == m.ext
  {
    FourBytes(length, []);
    TwoBytes(m.version, []);
    TwoBytes(m.packetType, []);
    FourBytes(m.seqNo, []);
    TwoBytes(m.ext, []);
    hide PutU16, PutU32;
    var f := Header(m, length) + t;
    assert f[..4] == PutU32(length) && f[4..6] == PutU16(m.version) && f[6..8] == PutU16(m.packetType);
    assert f[8..12] == PutU32(m.seqNo) && f[12..14] == PutU16(m.ext);
  }

  /** Every byte of the frame that encode writes, in numbers. The limits of the
      fields are those of their length prefixes. */
  lemma FrameLayout(w: Wire, m: Message)
    ensures Encodable(w, m) <==> (w.HasOptions(m.packetType) ==>
      && |m.options.groupID| <= 65535 && 1 <= |m.options.srcNodeID| <= 65535 && |m.options.dstNodeIDs| <= 255
      && forall i :: 0 <= i < |m.options.dstNodeIDs| ==> 1 <= |m.options.dstNodeIDs[i]| <= 65535)
    ensures var f := Frame(w, m);
      && 14 <= |f|
      && f[0] as int * 0x100_0000 + f[1] as int * 0x1_0000 + f[2] as int * 0x100 + f[3]
         == (if Encodable(w, m) then |f| % 0x1_0000_0000 else 0)
      && f[4] as int * 0x100 + f[5] == m.version
      && f[6] as int * 0x100 + f[7] == m.packetType
      && f[8] as int * 0x100_0000 + f[9] as int * 0x1_0000 + f[10] as int * 0x100 + f[11] == m.seqNo
      && f[12] as int * 0x100 + f[13] == m.ext
    ensures !Encodable(w, m) ==> |Frame(w, m)| == 14
    ensures Encodable(w, m) && !w.HasOptions(m.packetType) ==> Frame(w, m)[14..] == m.payload
    ensures Encodable(w, m) && w.HasOptions(m.packetType) ==>
      var f, o := Frame(w, m), m.options;
      var n, k := |o.groupID|, |o.srcNodeID|;
      && 19 + n + k <= |f|
      && f[14] as int * 0x100 + f[15] == n && f[16..16 + n] == o.groupID
      && f[16 + n] as int * 0x100 + f[17 + n] == k && f[18 + n..18 + n + k] == o.srcNodeID
      && f[18 + n + k] == |o.dstNodeIDs|
      && f[19 + n + k..] == Flatten(o.dstNodeIDs) + m.payload
  {
    var f := Frame(w, m);
    if Encodable(w, m) {
      HeaderLayout(m, |f| % 0x1_0000_0000, Body(w, m));
      assert f[14..] == Body(w, m);
      if w.HasOptions(m.packetType) {
        OptionsLayout(m.options, m.payload);
        OptionPositions(f, m);
      }
    } else {
      HeaderLayout(m, 0, []);
      assert f + [] == f;
    }
  }

  lemma OptionsLayout(o: Options, t: bytes)
    requires OptionsOk(o)
    ensures var b := OptionBytes(o) + t; var n, k := |o.groupID|, |o.srcNodeID|;
      && 5 + n + k <= |b|
      && b[0] as int * 0x100 + b[1] == n && b[2..2 + n] == o.groupID
      && b[2 + n] as int * 0x100 + b[3 + n] == k && b[4 + n..4 + n + k] == o.srcNodeID
      && b[4 + n + k] == |o.dstNodeIDs|
      && b[5 + n + k..] == Flatten(o.dstNodeIDs) + t
  {
    OptionFields(o, t);
    var b, n := OptionBytes(o) + t, |o.groupID|;
    TwoBytes(0, b);
    TwoBytes(0, b[2 + n..]);
  }

  /** The options seen from the start of the frame. */
  lemma OptionPositions(f: bytes, m: Message)
    requires OptionsOk(m.options) && 14 <= |f| && f[14..] == OptionBytes(m.options) + m.payload
    ensures var o := m.options; var n, k := |o.groupID|, |o.srcNodeID|;
      && 19 + n + k <= |f|
      && f[14] as int * 0x100 + f[15] == n && f[16..16 + n] == o.groupID
      && f[16 + n] as int * 0x100 + f[17 + n] == k && f[18 + n..18 + n + k] == o.srcNodeID
      && f[18 + n + k] == |o.dstNodeIDs|
      && f[19 + n + k..] == Flatten(o.dstNodeIDs) + m.payload
  {
    OptionsLayout(m.options, m.payload);
    hide OptionBytes, Flatten, OptionsOk;
    var b, n, k := f[14..], |m.options.groupID|, |m.options.srcNodeID|;
    assert f[16..16 + n] == b[2..2 + n] && f[18 + n..18 + n + k] == b[4 + n..4 + n + k];
    assert f[19 + n + k..] == b[5 + n + k..];
  }

  /** Destination ids follow each other in their order: the i-th of ids that are k
      bytes long each stands i * k bytes after the first. */
  lemma {:induction false} IDPositions(ids: seq<bytes>, k: nat, t: bytes, i: nat)
    requires i < |ids| && forall j :: 0 <= j < |ids| ==> |ids[j]| == k
    ensures 0 <= i * k && i * k + k <= |Flatten(ids) + t|
    ensures (Flatten(ids) + t)[i * k..i * k + k] == ids[i]
    decreases i
  {
    var rest := ids[1..];
    assert Flatten(ids) + t == ids[0] + (Flatten(rest) + t);
    if i > 0 {
      IDPositions(rest, k, t, i - 1);
      assert i * k == (i - 1) * k + k;
      var b := Flatten(rest) + t;
      assert (ids[0] + b)[i * k..i * k + k] == b[(i - 1) * k..(i - 1) * k + k];
    }
  }

  // ------------------------------------------------------------------ decoding

  /** What decodeHeader reads. */
  lemma HeaderReads(m: Message, b: bytes)
    requires 14 <= |b|
    ensures var h := DecodeHeader(m, b);
      && h.length == b[0] as int * 0x100_0000 + b[1] as int * 0x1_0000 + b[2] as int * 0x100 + b[3]
      && h.version == b[4] as int * 0x100 + b[5]
      && h.packetType == b[6] as int * 0x100 + b[7]
      && h.seqNo == b[8] as int * 0x100_0000 + b[9] as int * 0x1_0000 + b[10] as int * 0x100 + b[11]
      && h.ext == b[12] as int * 0x100 + b[13]
      && h.options == m.options && h.payload == m.payload
  {
    FourBytes(0, b);
    TwoBytes(0, b[4..]);
    TwoBytes(0, b[6..]);
    FourBytes(0, b[8..]);
    TwoBytes(0, b[12..]);
  }

  /** Whether the options at the front of b lie inside b. */
  predicate OptionsFit(b: bytes) {
    && 5 <= |b|
    && var n := b[0] as int * 0x100 + b[1];
       && 4 + n <= |b|
       && var k := b[2 + n] as int * 0x100 + b[3 + n];
          5 + n + k <= |b| && 5 + n + k + b[4 + n + k] as int * k <= |b|
  }

  /** What decode reads of the options: an error exactly if they do not fit; else
      the group id, the source id in front of what was there, and the destination
      ids in their order. */
  lemma OptionsRead(o: Options, b: bytes)
    ensures DecodeOptions(o, b).0 == -1 <==> !OptionsFit(b)
    ensures OptionsFit(b) ==>
      var (r, d) := DecodeOptions(o, b);
      var n := b[0] as int * 0x100 + b[1];
      var k := b[2 + n] as int * 0x100 + b[3 + n];
      var c := b[4 + n + k] as int;
      && r == 5 + n + k + c * k
      && d.groupID == (if n > 0 then b[2..2 + n] else o.groupID)
      && d.srcNodeID == b[4 + n..4 + n + k] + o.srcNodeID
      && |d.dstNodeIDs| == c
      && forall i :: 0 <= i < c ==>
        0 <= i * k && 5 + n + k + i * k + k <= |b|
        && d.dstNodeIDs[i] == b[5 + n + k + i * k..5 + n + k + i * k + k]
  {
    hide GetU16, IDBytes, Pieces;
    if 5 <= |b| {
      TwoBytes(0, b);
      var n := GetU16(b);
      if 4 + n <= |b| {
        TwoBytes(0, b[2 + n..]);
        var k := GetU16(b[2 + n..]);
        if 5 + n + k <= |b| {
          var c := b[4 + n + k];
          IDBytesIsProduct(k, c);
          if 5 + n + k + IDBytes(k, c) <= |b| {
            PiecePositions(b, 5 + n + k, k, c);
          }
        }
      }
    }
  }

  lemma PiecePositions(b: bytes, start: nat, k: nat, c: nat)
    requires start <= |b| && IDBytes(k, c) <= |b[start..]|
    ensures forall i :: 0 <= i < c ==>
      0 <= i * k && start + i * k + k <= |b| && Pieces(b[start..], k, c)[i] == b[start + i * k..start + i * k + k]
  {
    forall i | 0 <= i < c
      ensures 0 <= i * k && start + i * k + k <= |b|
      ensures Pieces(b[start..], k, c)[i] == b[start + i * k..start + i * k + k]
    {
      PieceAt(b[start..], k, c, i);
      assert b[start..][i * k..i * k + k] == b[start + i * k..start + i * k + k];
    }
  }

  lemma {:induction false} PieceAt(b: bytes, k: nat, c: nat, i: nat)
    requires IDBytes(k, c) <= |b| && i < c
    ensures 0 <= i * k && i * k + k <= |b| && Pieces(b, k, c)[i] == b[i * k..i * k + k]
    decreases i
  {
    if i > 0 {
      PieceAt(b[k..], k, c - 1, i - 1);
      assert i * k == (i - 1) * k + k;
      assert b[k..][(i - 1) * k..(i - 1) * k + k] == b[i * k..i * k + k];
    }
  }

  /** The result code and the payload of decode. The payload's size is taken on
      32-bit numbers, so it wraps when the options end past the length. */
  lemma DecodeReads(w: Wire, m: Message, b: bytes)
    ensures |b| < 14 ==> Decoded(w, m, b) == (0, m)
    ensures 14 <= |b| ==>
      var h, (r, d) := DecodeHeader(m, b), Decoded(w, m, b);
      && (d.length, d.version, d.packetType, d.seqNo, d.ext) == (h.length, h.version, h.packetType, h.seqNo, h.ext)
      && (|b| < h.length ==> r == 0 && d == h)
      && (h.length <= |b| && !w.HasOptions(h.packetType) ==>
        r == h.length && d.options == m.options
        && d.payload == w.crop(b, 14, (h.length - 14) % 0x1_0000_0000))
      && (h.length <= |b| && w.HasOptions(h.packetType) ==>
        var (n, o) := DecodeOptions(m.options, b[14..]);
        && d.options == o
        && (if n == -1 then r == -1 && d.payload == m.payload
            else n >= 0 && r == h.length && d.payload == w.crop(b, 14 + n, (h.length - 14 - n) % 0x1_0000_0000)))
  {
    if 14 <= |b| {
      OffsetFitsInt32(m.options, b[14..]);
      hide DecodeOptions;
    }
  }
}
