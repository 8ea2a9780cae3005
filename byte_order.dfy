/** Big-endian 32-bit unsigned integers over byte strings: the
    readUInt32/writeUInt32 primitives every field of the clipboard wire
    format is built from. */
module ByteOrder {

  /** An octet, as the `unsigned char` the source reinterprets its buffer as. */
  type byte = b: int | 0 <= b < 0x100

  /** The source's `UInt32`. */
  type uint32 = v: int | 0 <= v < 0x1_0000_0000

  /** readUInt32: the four bytes starting at `at`, most significant first.
      The source performs no bounds check; here the caller must prove that
      four bytes remain. */
  function ReadUInt32(buf: seq<byte>, at: nat): (v: uint32)
    requires at + 4 <= |buf|
  {
    (buf[at] as int) * 0x100_0000 + (buf[at + 1] as int) * 0x1_0000
      + (buf[at + 2] as int) * 0x100 + buf[at + 3] as int
  }

  /** The four bytes writeUInt32 appends for `v`: each is `(v >> k) & 0xff`
      for k = 24, 16, 8, 0. */
  function EncodeUInt32(v: uint32): (r: seq<byte>)
    ensures |r| == 4
  {
    [(v / 0x100_0000) % 0x100, (v / 0x1_0000) % 0x100, (v / 0x100) % 0x100, v % 0x100]
  }

  /** Round trip: reading back the four bytes written for `v` yields `v`. */
  lemma EncodeUInt32Reads(v: uint32)
    ensures ReadUInt32(EncodeUInt32(v), 0) == v
  {
    DigitsRebuild(v);
  }

  /** The four base-256 digits of `v`, weighted back, give `v`. */
  lemma DigitsRebuild(v: uint32)
    ensures ((v / 0x100_0000) % 0x100) * 0x100_0000 + ((v / 0x1_0000) % 0x100) * 0x1_0000
      + ((v / 0x100) % 0x100) * 0x100 + v % 0x100 == v
  {
    var q1, q2, q3 := v / 0x100, v / 0x1_0000, v / 0x100_0000;
    assert q2 == q1 / 0x100;
    assert q3 == q2 / 0x100;
    assert q3 < 0x100;
    assert v == q1 * 0x100 + v % 0x100;
    assert q1 == q2 * 0x100 + q1 % 0x100;
    assert q2 == q3 * 0x100 + q2 % 0x100;
  }

  /** The converse of EncodeUInt32's contract: any four bytes are the
      encoding of the value read from them, so the two are inverse
      bijections between `uint32` and four-byte strings. */
  lemma ReadUInt32Encodes(buf: seq<byte>, at: nat)
    requires at + 4 <= |buf|
    ensures EncodeUInt32(ReadUInt32(buf, at)) == buf[at..at + 4]
  {
    var v := ReadUInt32(buf, at);
    var e := EncodeUInt32(v);
    assert v / 0x100_0000 == buf[at];
    assert v / 0x1_0000 == (buf[at] as int) * 0x100 + buf[at + 1] as int;
    assert v / 0x100 == (buf[at] as int) * 0x1_0000 + (buf[at + 1] as int) * 0x100 + buf[at + 2] as int;
    assert e[0] == buf[at] && e[1] == buf[at + 1] && e[2] == buf[at + 2] && e[3] == buf[at + 3];
  }

  /** ReadUInt32 looks only at the four bytes it reads. */
  lemma ReadUInt32OfEncoded(buf: seq<byte>, at: nat, v: uint32)
    requires at + 4 <= |buf| && buf[at..at + 4] == EncodeUInt32(v)
    ensures ReadUInt32(buf, at) == v
  {
    var e := EncodeUInt32(v);
    EncodeUInt32Reads(v);
    assert buf[at] == e[0] && buf[at + 1] == e[1] && buf[at + 2] == e[2] && buf[at + 3] == e[3];
  }

  /** The source's `String`, which writeUInt32 appends to in place. */
  class ByteString {
    var bytes: seq<byte>

    constructor ()
      ensures bytes == []
    {
      bytes := [];
    }
  }

  /** writeUInt32: appends exactly the four big-endian bytes of `v`. */
  method WriteUInt32(buf: ByteString, v: uint32)
    modifies buf
    ensures buf.bytes == old(buf.bytes) + EncodeUInt32(v)
  {
    buf.bytes := buf.bytes + [(v / 0x100_0000) % 0x100];
    buf.bytes := buf.bytes + [(v / 0x1_0000) % 0x100];
    buf.bytes := buf.bytes + [(v / 0x100) % 0x100];
    buf.bytes := buf.bytes + [v % 0x100];
  }
}
