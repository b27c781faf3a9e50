/** Byte strings, the fixed-width unsigned fields of the wire format, and the
    big-endian (network order) encoding of those fields. */
module Bytes {

  const TWO_16 := 0x1_0000
  const TWO_32 := 0x1_0000_0000

  type byte = b: int | 0 <= b < 0x100
  type bytes = seq<byte>
  type uint16 = n: int | 0 <= n < TWO_16
  type uint32 = n: int | 0 <= n < TWO_32

  /** host_to_network_short, as the two bytes appended to a buffer. */
  function PutU16(n: uint16): (s: bytes)
    ensures |s| == 2
  {
    [n / 0x100, n % 0x100]
  }

  /** network_to_host_short of the two bytes at the front of a buffer. */
  function GetU16(s: bytes): uint16
    requires 2 <= |s|
  {
    (s[0] as int) * 0x100 + s[1]
  }

  /** host_to_network_long, as the four bytes appended to a buffer. */
  function PutU32(n: uint32): (s: bytes)
    ensures |s| == 4
  {
    PutU16(n / TWO_16) + PutU16(n % TWO_16)
  }

  /** network_to_host_long of the four bytes at the front of a buffer. */
  function GetU32(s: bytes): uint32
    requires 4 <= |s|
  {
    (GetU16(s) as int) * TWO_16 + GetU16(s[2..])
  }

  lemma GetPutU16(n: uint16, t: bytes)
    ensures GetU16(PutU16(n) + t) == n
  {
  }

  lemma PutGetU16(s: bytes)
    requires 2 <= |s|
    ensures PutU16(GetU16(s)) == s[..2]
  {
  }

  lemma GetPutU32(n: uint32, t: bytes)
    ensures GetU32(PutU32(n) + t) == n
  {
    var hi, lo := n / TWO_16, n % TWO_16;
    assert PutU32(n) + t == PutU16(hi) + (PutU16(lo) + t);
    assert (PutU32(n) + t)[2..] == PutU16(lo) + t;
    GetPutU16(hi, PutU16(lo) + t);
    GetPutU16(lo, t);
  }

  lemma PutGetU32(s: bytes)
    requires 4 <= |s|
    ensures PutU32(GetU32(s)) == s[..4]
  {
    PutGetU16(s);
    PutGetU16(s[2..]);
    assert s[..4] == s[..2] + s[2..][..2];
  }

  /** The concatenation of a list of byte strings. */
  function Flatten(parts: seq<bytes>): bytes {
    if parts == [] then [] else parts[0] + Flatten(parts[1..])
  }

  lemma FlattenAppend(a: seq<bytes>, b: seq<bytes>)
    ensures Flatten(a + b) == Flatten(a) + Flatten(b)
  {
    if a == [] {
      assert a + b == b;
    } else {
      FlattenAppend(a[1..], b);
      assert (a + b)[1..] == a[1..] + b;
    }
  }
}
