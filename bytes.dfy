/** Byte-level primitives of the host/worker wire protocol: every
    integer on the wire (a message kind, a length, a status, a ready
    signal) is an unsigned 32-bit value in four big-endian bytes, and the
    resynchronisation sentinel is the four bytes FF FF FF FF. */
module Bytes {

  newtype byte = x: int | 0 <= x < 256

  /** 2^32: every integer written with `struct.pack('>I', ...)` is below it. */
  const U32Limit: nat := 0x1_0000_0000

  /** The numeric value whose encoding is the sentinel. */
  const SentinelWord: nat := 0xFFFF_FFFF

  /** The resynchronisation sentinel written after every response and
      expected after every request. */
  const Sentinel: seq<byte> := [0xFF, 0xFF, 0xFF, 0xFF]

  /** `write_int`: the four big-endian bytes of `v`. */
  function EncodeU32(v: nat): (r: seq<byte>)
    requires v < U32Limit
    ensures |r| == 4
  {
    [(v / 0x100_0000) as byte,
     (v / 0x1_0000 % 0x100) as byte,
     (v / 0x100 % 0x100) as byte,
     (v % 0x100) as byte]
  }

  /** `read_int` once four bytes have arrived: the big-endian value. */
  function DecodeU32(b: seq<byte>): (v: nat)
    requires |b| == 4
    ensures v < U32Limit
  {
    b[0] as nat * 0x100_0000 + b[1] as nat * 0x1_0000 + b[2] as nat * 0x100 + b[3] as nat
  }

  /** Decoding the encoding of any 32-bit value gives the value back. */
  lemma DecodeEncode(v: nat)
    requires v < U32Limit
    ensures DecodeU32(EncodeU32(v)) == v
  {
    assert v / 0x100 == v / 0x1_0000 * 0x100 + v / 0x100 % 0x100;
  }

  /** Encoding the decoding of any four bytes gives the bytes back, so the
      codec is a bijection between 32-bit values and 4-byte words. */
  lemma EncodeDecode(b: seq<byte>)
    requires |b| == 4
    ensures EncodeU32(DecodeU32(b)) == b
  {
    var v := DecodeU32(b);
    var r := EncodeU32(v);
    var hi := b[0] as nat * 0x100_0000 + b[1] as nat * 0x1_0000 + b[2] as nat * 0x100;
    assert v == hi + b[3] as nat;
    assert v / 0x100 == b[0] as nat * 0x1_0000 + b[1] as nat * 0x100 + b[2] as nat;
    assert v / 0x1_0000 == b[0] as nat * 0x100 + b[1] as nat;
    assert v / 0x100_0000 == b[0] as nat;
    assert r[0] == b[0] && r[1] == b[1] && r[2] == b[2] && r[3] == b[3];
  }

  /** Distinct values have distinct encodings. */
  lemma EncodeInjective(v: nat, w: nat)
    requires v < U32Limit && w < U32Limit
    ensures EncodeU32(v) == EncodeU32(w) <==> v == w
  {
    if EncodeU32(v) == EncodeU32(w) {
      DecodeEncode(v);
      DecodeEncode(w);
    }
  }

  /** The sentinel is the encoding of 0xFFFFFFFF, and only of that value:
      on the wire it is indistinguishable from a length, status or kind of
      0xFFFFFFFF. */
  lemma SentinelIsWord(v: nat)
    requires v < U32Limit
    ensures EncodeU32(v) == Sentinel <==> v == SentinelWord
  {
    assert EncodeU32(SentinelWord) == Sentinel;
    EncodeInjective(v, SentinelWord);
  }

  /** Four bytes read from the wire are the sentinel exactly when they
      decode to 0xFFFFFFFF. */
  lemma SentinelCheck(b: seq<byte>)
    requires |b| == 4
    ensures b == Sentinel <==> DecodeU32(b) == SentinelWord
  {
    EncodeDecode(b);
    SentinelIsWord(DecodeU32(b));
  }

  /** A slice of a slice is a slice of the whole. */
  lemma SliceOfSlice(s: seq<byte>, a: nat, b: nat, i: nat, j: nat)
    requires a <= b <= |s| && i <= j <= b - a
    ensures s[a..b][i..j] == s[a + i..a + j]
  {
    assert forall k :: 0 <= k < j - i ==> s[a..b][i..j][k] == s[a + i..a + j][k];
  }
}
