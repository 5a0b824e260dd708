/** The additional authenticated data of an encrypted sandbox (engine/src/crypto/aad.ts). */
module Aad {
  import opened Common
  import opened Bytes

  /** Sandbox id (UTF-8), its version number, and the recipient's public key. */
  datatype Context = Context(sandboxId: seq<byte>, version: nat, recipient: seq<byte>)

  const NUL: byte := 0

  /** "VSK", "AAD" and "v1", each followed by NUL. */
  const DOMAIN: seq<byte> := [86, 83, 75, 0, 65, 65, 68, 0, 118, 49, 0]

  /** The decimal digits of n. */
  function Decimal(n: nat): (r: seq<byte>)
    ensures r != [] && forall i :: 0 <= i < |r| ==> 48 <= r[i] <= 57
  {
    if n < 10 then [48 + n] else Decimal(n / 10) + [48 + n % 10]
  }

  function DecimalValue(ds: seq<byte>): int {
    if ds == [] then 0 else 10 * DecimalValue(ds[..|ds| - 1]) + ds[|ds| - 1] as int - 48
  }

  lemma DecimalRoundTrip(n: nat)
    ensures DecimalValue(Decimal(n)) == n
  {
    if n >= 10 {
      DecimalRoundTrip(n / 10);
      var d: byte := 48 + n % 10;
      assert (Decimal(n / 10) + [d])[..|Decimal(n)| - 1] == Decimal(n / 10);
    } else {
      assert DecimalValue([]) == 0;
    }
  }

  function VersionBytes(formatVersion: nat): seq<byte> {
    [(formatVersion / 256) % 256, formatVersion % 256]
  }

  function AadBytes(c: Context, formatVersion: nat): seq<byte> {
    var tail := c.recipient + ([NUL] + VersionBytes(formatVersion));
    DOMAIN + (c.sandboxId + ([NUL] + (Decimal(c.version) + ([NUL] + tail))))
  }

  /** The parts, in order. */
  function Parts(c: Context, formatVersion: nat): seq<seq<byte>> {
    [DOMAIN, c.sandboxId, [NUL], Decimal(c.version), [NUL], c.recipient, [NUL], VersionBytes(formatVersion)]
  }

  lemma ConcatFrom(p: seq<seq<byte>>, i: nat)
    requires i < |p|
    ensures Concat(p[i..]) == p[i] + Concat(p[i + 1..])
  {
    assert p[i..][1..] == p[i + 1..];
  }

  lemma ConcatParts(c: Context, formatVersion: nat)
    ensures Concat(Parts(c, formatVersion)) == AadBytes(c, formatVersion)
  {
    var p := Parts(c, formatVersion);
    var last := VersionBytes(formatVersion);
    assert Concat(p[8..]) == [] && last + [] == last;
    hide Concat, Decimal, VersionBytes;
    ConcatFrom(p, 7);
    ConcatFrom(p, 6);
    ConcatFrom(p, 5);
    ConcatFrom(p, 4);
    ConcatFrom(p, 3);
    ConcatFrom(p, 2);
    ConcatFrom(p, 1);
    ConcatFrom(p, 0);
    assert p[0..] == p;
  }

  /** Fills the output part by part; a NUL in the sandbox id is an error. */
  method BuildAad(c: Context, formatVersion: nat) returns (r: Option<seq<byte>>)
    ensures r == if NUL in c.sandboxId then None else Some(AadBytes(c, formatVersion))
  {
    hide Concat, Decimal, VersionBytes, AadBytes, Parts;
    if NUL in c.sandboxId {
      return None;
    }
    ConcatNone();
    var parts := Parts(c, formatVersion);
    var total := 0;
    assert parts[..0] == [];
    for i := 0 to |parts|
      invariant total == |Concat(parts[..i])|
    {
      ConcatSnoc(parts[..i], parts[i]);
      assert parts[..i + 1] == parts[..i] + [parts[i]];
      total := total + |parts[i]|;
    }
    assert parts[..|parts|] == parts;
    var out := new byte[total](_ => 0);
    var offset := 0;
    for i := 0 to |parts|
      invariant offset == |Concat(parts[..i])| <= total
      invariant out[..offset] == Concat(parts[..i])
    {
      var p := parts[i];
      ConcatSnoc(parts[..i], p);
      assert parts[..i + 1] == parts[..i] + [p];
      ConcatGrows(parts, i + 1);
      SetAt(out, offset, p);
      offset := offset + |p|;
    }
    ConcatParts(c, formatVersion);
    assert out[..total] == out[..];
    r := Some(out[..]);
  }

  lemma ConcatNone()
    ensures Concat([]) == []
  {
  }

  lemma ConcatGrows(parts: seq<seq<byte>>, i: nat)
    requires i <= |parts|
    ensures |Concat(parts[..i])| <= |Concat(parts)|
    decreases |parts| - i
  {
    if i < |parts| {
      ConcatSnoc(parts[..i], parts[i]);
      assert parts[..i + 1] == parts[..i] + [parts[i]];
      ConcatGrows(parts, i + 1);
    } else {
      assert parts[..i] == parts;
    }
  }

  method SetAt(out: array<byte>, offset: nat, p: seq<byte>)
    requires offset + |p| <= out.Length
    modifies out
    ensures out[..offset + |p|] == old(out[..offset]) + p
  {
    for k := 0 to |p|
      invariant out[..offset] == old(out[..offset])
      invariant out[offset..offset + k] == p[..k]
    {
      out[offset + k] := p[k];
    }
    assert out[..offset + |p|] == out[..offset] + out[offset..offset + |p|];
  }

  // ---- The binding is unambiguous -------------------------------------------------

  function FirstNul(s: seq<byte>): nat {
    if s == [] || s[0] == NUL then 0 else 1 + FirstNul(s[1..])
  }

  lemma FirstNulAfter(a: seq<byte>, b: seq<byte>)
    requires NUL !in a
    ensures FirstNul(a + ([NUL] + b)) == |a|
  {
    var s := a + ([NUL] + b);
    if a != [] {
      assert s[1..] == a[1..] + ([NUL] + b);
      FirstNulAfter(a[1..], b);
    }
  }

  /** A NUL-free prefix and what follows its NUL are determined by the whole. */
  lemma SplitAtNul(a: seq<byte>, b: seq<byte>, a': seq<byte>, b': seq<byte>)
    requires NUL !in a && NUL !in a'
    requires a + ([NUL] + b) == a' + ([NUL] + b')
    ensures a == a' && b == b'
  {
    var s, s' := a + ([NUL] + b), a' + ([NUL] + b');
    FirstNulAfter(a, b);
    FirstNulAfter(a', b');
    assert s[..|a|] == a && s'[..|a|] == a';
    assert s[|a| + 1..] == b && s'[|a| + 1..] == b';
  }

  /** The tail has fixed width, so it comes off whatever the key's length is. */
  lemma SplitTail(a: seq<byte>, t: seq<byte>, a': seq<byte>, t': seq<byte>)
    requires |t| == |t'| && a + t == a' + t'
    ensures a == a' && t == t'
  {
    var s, s' := a + t, a' + t';
    assert s[..|a|] == a && s'[..|a|] == a';
    assert s[|a|..] == t && s'[|a|..] == t';
  }

  /**
   * Two authenticated contexts give the same bytes only if they are the same sandbox,
   * version and recipient, and the same format version in its 16 stored bits.
   */
  lemma AadInjective(c: Context, f: nat, c': Context, f': nat)
    requires NUL !in c.sandboxId && NUL !in c'.sandboxId
    ensures AadBytes(c, f) == AadBytes(c', f') <==> c == c' && f % 0x1_0000 == f' % 0x1_0000
  {
    hide Decimal;
    VersionBytesInjective(f, f');
    if AadBytes(c, f) == AadBytes(c', f') {
      var k, k' := c.recipient + ([NUL] + VersionBytes(f)), c'.recipient + ([NUL] + VersionBytes(f'));
      var v, v' := Decimal(c.version) + ([NUL] + k), Decimal(c'.version) + ([NUL] + k');
      assert AadBytes(c, f)[|DOMAIN|..] == c.sandboxId + ([NUL] + v);
      assert AadBytes(c', f')[|DOMAIN|..] == c'.sandboxId + ([NUL] + v');
      SplitAtNul(c.sandboxId, v, c'.sandboxId, v');
      SplitAtNul(Decimal(c.version), k, Decimal(c'.version), k');
      SplitTail(c.recipient, [NUL] + VersionBytes(f), c'.recipient, [NUL] + VersionBytes(f'));
      assert ([NUL] + VersionBytes(f))[1..] == VersionBytes(f);
      assert ([NUL] + VersionBytes(f'))[1..] == VersionBytes(f');
      DecimalRoundTrip(c.version);
      DecimalRoundTrip(c'.version);
    }
  }

  lemma VersionBytesInjective(f: nat, f': nat)
    ensures VersionBytes(f) == VersionBytes(f') <==> f % 0x1_0000 == f' % 0x1_0000
  {
    SixteenBits(f);
    SixteenBits(f');
    assert VersionBytes(f)[0] == (f / 256) % 256 && VersionBytes(f)[1] == f % 256;
    assert VersionBytes(f')[0] == (f' / 256) % 256 && VersionBytes(f')[1] == f' % 256;
  }

  lemma SixteenBits(f: nat)
    ensures f % 0x1_0000 == 256 * ((f / 256) % 256) + f % 256
  {
    ModOfDiv(f, 256);
  }
}
