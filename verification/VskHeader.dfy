/** The 64-byte header of a .vsk file (engine/src/vsk-format/header.ts). */
module VskHeader {
  import opened Bytes

  const HEADER_SIZE := 64
  const VSK_VERSION := 1

  /** "VSK!" */
  const MAGIC: seq<byte> := [0x56, 0x53, 0x4b, 0x21]

  datatype Header = Header(
    formatVersion: nat,
    manifestOffset: nat,
    manifestLength: nat,
    dataOffset: nat,
    dataLength: nat,
    envelopeOffset: nat,
    envelopeLength: nat)

  datatype HeaderError = HeaderTruncated | BadMagic | BadVersion

  datatype HeaderResult = HeaderOk(header: Header) | HeaderErr(error: HeaderError)

  /** Every field fits the bytes it is stored in. */
  predicate Fits(h: Header) {
    && h.formatVersion < 0x1_0000
    && h.manifestOffset < 0x1_0000_0000_0000_0000 && h.manifestLength < 0x1_0000_0000_0000_0000
    && h.dataOffset < 0x1_0000_0000_0000_0000 && h.dataLength < 0x1_0000_0000_0000_0000
    && h.envelopeOffset < 0x1_0000_0000_0000_0000 && h.envelopeLength < 0x1_0000_0000_0000_0000
  }

  function HeaderBytes(h: Header): (r: seq<byte>)
    ensures |r| == HEADER_SIZE
  {
    MAGIC + LeBytes(VSK_VERSION, 2) + LeBytes(h.formatVersion, 2)
    + LeBytes(h.manifestOffset, 8) + LeBytes(h.manifestLength, 8)
    + LeBytes(h.dataOffset, 8) + LeBytes(h.dataLength, 8)
    + LeBytes(h.envelopeOffset, 8) + LeBytes(h.envelopeLength, 8)
    + Zeros(8)
  }

  /** The n-byte little-endian field at off. */
  function Field(buf: seq<byte>, off: nat, n: nat): nat
    requires off + n <= |buf|
  {
    LeValue(buf[off..off + n])
  }

  function ReadHeader(buf: seq<byte>): HeaderResult {
    if |buf| < HEADER_SIZE then HeaderErr(HeaderTruncated)
    else if buf[..4] != MAGIC then HeaderErr(BadMagic)
    else if Field(buf, 4, 2) != VSK_VERSION then HeaderErr(BadVersion)
    else
      HeaderOk(Header(
        Field(buf, 6, 2),
        Field(buf, 8, 8), Field(buf, 16, 8),
        Field(buf, 24, 8), Field(buf, 32, 8),
        Field(buf, 40, 8), Field(buf, 48, 8)))
  }

  method SetLe(buf: array<byte>, off: nat, v: nat, n: nat)
    requires off + n <= buf.Length
    modifies buf
    ensures buf[..] == old(buf[..off]) + LeBytes(v, n) + old(buf[off + n..])
  {
    ghost var bytes := LeBytes(v, n);
    var w := v;
    assert bytes[0..] == bytes;
    for i := 0 to n
      invariant LeBytes(w, n - i) == bytes[i..]
      invariant forall k :: 0 <= k < i ==> buf[off + k] == bytes[k]
      invariant forall k :: 0 <= k < off || off + i <= k < buf.Length ==> buf[k] == old(buf[k])
    {
      buf[off + i] := w % 256;
      assert bytes[i..][0] == bytes[i] && bytes[i..][1..] == bytes[i + 1..];
      w := w / 256;
    }
    assert buf[off..off + n] == bytes;
    assert buf[..] == buf[..off] + buf[off..off + n] + buf[off + n..];
    assert buf[..off] == old(buf[..off]) && buf[off + n..] == old(buf[off + n..]);
  }

  /** One field of a buffer whose first off bytes are written and the rest zero. */
  method PutField(buf: array<byte>, off: nat, v: nat, n: nat, ghost pre: seq<byte>)
    requires off + n <= buf.Length && |pre| == off && buf[..] == pre + Zeros(buf.Length - off)
    modifies buf
    ensures buf[..] == pre + LeBytes(v, n) + Zeros(buf.Length - off - n)
  {
    ghost var zeros := Zeros(buf.Length - off);
    assert (pre + zeros)[..off] == pre && (pre + zeros)[off + n..] == Zeros(buf.Length - off - n);
    assert buf[..off] == buf[..][..off] && buf[off + n..] == buf[..][off + n..];
    SetLe(buf, off, v, n);
  }

  /** Fills a zeroed buffer field by field. */
  method WriteHeader(h: Header) returns (buf: array<byte>)
    ensures fresh(buf) && buf[..] == HeaderBytes(h)
  {
    hide LeBytes;
    buf := new byte[HEADER_SIZE](_ => 0);
    for i := 0 to 4
      invariant buf[..] == MAGIC[..i] + Zeros(HEADER_SIZE - i)
    {
      buf[i] := MAGIC[i];
    }
    ghost var p := MAGIC;
    assert MAGIC[..4] == MAGIC;
    PutField(buf, 4, VSK_VERSION, 2, p);
    p := p + LeBytes(VSK_VERSION, 2);
    PutField(buf, 6, h.formatVersion, 2, p);
    p := p + LeBytes(h.formatVersion, 2);
    PutField(buf, 8, h.manifestOffset, 8, p);
    p := p + LeBytes(h.manifestOffset, 8);
    PutField(buf, 16, h.manifestLength, 8, p);
    p := p + LeBytes(h.manifestLength, 8);
    PutField(buf, 24, h.dataOffset, 8, p);
    p := p + LeBytes(h.dataOffset, 8);
    PutField(buf, 32, h.dataLength, 8, p);
    p := p + LeBytes(h.dataLength, 8);
    PutField(buf, 40, h.envelopeOffset, 8, p);
    p := p + LeBytes(h.envelopeOffset, 8);
    PutField(buf, 48, h.envelopeLength, 8, p);
  }

  /** What the reader sees of a header whose fields were cut to their stored width. */
  function Wrap(h: Header): Header {
    Header(
      h.formatVersion % 0x1_0000,
      h.manifestOffset % 0x1_0000_0000_0000_0000, h.manifestLength % 0x1_0000_0000_0000_0000,
      h.dataOffset % 0x1_0000_0000_0000_0000, h.dataLength % 0x1_0000_0000_0000_0000,
      h.envelopeOffset % 0x1_0000_0000_0000_0000, h.envelopeLength % 0x1_0000_0000_0000_0000)
  }

  lemma Pow256Values()
    ensures Pow256(2) == 0x1_0000 && Pow256(8) == 0x1_0000_0000_0000_0000
  {
    assert Pow256(4) == 0x1_0000_0000;
    assert Pow256(6) == 0x1_0000_0000_0000;
  }

  /** The last field of a written prefix, and the prefix before it. */
  lemma FieldAtEnd(b: seq<byte>, p: seq<byte>, v: nat, n: nat)
    requires |p| + n <= |b| && b[..|p| + n] == p + LeBytes(v, n)
    ensures b[..|p|] == p && Field(b, |p|, n) == v % Pow256(n)
  {
    hide LeBytes;
    var k := |p| + n;
    assert b[..|p|] == b[..k][..|p|];
    assert b[|p|..k] == b[..k][|p|..] == LeBytes(v, n);
    LeRoundTrip(v, n);
  }

  /** A written header reads back exactly, field by field, if and only if every field fits. */
  lemma HeaderRoundTrip(h: Header)
    ensures ReadHeader(HeaderBytes(h)) == HeaderOk(Wrap(h))
    ensures ReadHeader(HeaderBytes(h)) == HeaderOk(h) <==> Fits(h)
  {
    hide LeBytes, Field;
    var p4 := MAGIC;
    var p6 := p4 + LeBytes(VSK_VERSION, 2);
    var p8 := p6 + LeBytes(h.formatVersion, 2);
    var p16 := p8 + LeBytes(h.manifestOffset, 8);
    var p24 := p16 + LeBytes(h.manifestLength, 8);
    var p32 := p24 + LeBytes(h.dataOffset, 8);
    var p40 := p32 + LeBytes(h.dataLength, 8);
    var p48 := p40 + LeBytes(h.envelopeOffset, 8);
    var b := HeaderBytes(h);
    assert b[..56] == p48 + LeBytes(h.envelopeLength, 8);
    FieldAtEnd(b, p48, h.envelopeLength, 8);
    FieldAtEnd(b, p40, h.envelopeOffset, 8);
    FieldAtEnd(b, p32, h.dataLength, 8);
    FieldAtEnd(b, p24, h.dataOffset, 8);
    FieldAtEnd(b, p16, h.manifestLength, 8);
    FieldAtEnd(b, p8, h.manifestOffset, 8);
    FieldAtEnd(b, p6, h.formatVersion, 2);
    FieldAtEnd(b, p4, VSK_VERSION, 2);
    Pow256Values();
  }

  /** A 64-byte header that reads is what writing its fields gives, up to the reserved bytes. */
  lemma HeaderCanonical(buf: seq<byte>)
    requires |buf| == HEADER_SIZE && ReadHeader(buf).HeaderOk?
    ensures HeaderBytes(ReadHeader(buf).header) == buf[..56] + Zeros(8)
    ensures HeaderBytes(ReadHeader(buf).header) == buf <==> buf[56..] == Zeros(8)
  {
    LeCanonical(buf[4..6]);
    LeCanonical(buf[6..8]);
    LeCanonical(buf[8..16]);
    LeCanonical(buf[16..24]);
    LeCanonical(buf[24..32]);
    LeCanonical(buf[32..40]);
    LeCanonical(buf[40..48]);
    LeCanonical(buf[48..56]);
    assert buf[..56] == buf[..4] + buf[4..6] + buf[6..8] + buf[8..16] + buf[16..24]
                        + buf[24..32] + buf[32..40] + buf[40..48] + buf[48..56];
    assert buf == buf[..56] + buf[56..];
  }
}
