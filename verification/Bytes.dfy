/** Bytes, and unsigned integers laid out in them. */
module Bytes {

  type byte = x: int | 0 <= x < 256

  function Pow256(n: nat): (r: nat)
    ensures r > 0
  {
    if n == 0 then 1 else 256 * Pow256(n - 1)
  }

  /** The low n bytes of v, least significant first: what DataView setters store. */
  function LeBytes(v: nat, n: nat): (r: seq<byte>)
    ensures |r| == n
  {
    if n == 0 then [] else [v % 256] + LeBytes(v / 256, n - 1)
  }

  function LeValue(bs: seq<byte>): nat {
    if bs == [] then 0 else bs[0] + 256 * LeValue(bs[1..])
  }

  /** The bytes of an ASCII text. */
  function Ascii(s: string): (r: seq<byte>)
    requires forall i :: 0 <= i < |s| ==> s[i] < '\U{0080}'
    ensures |r| == |s| && forall i :: 0 <= i < |s| ==> r[i] == s[i] as int
  {
    seq(|s|, i requires 0 <= i < |s| => s[i] as int)
  }

  function Concat(parts: seq<seq<byte>>): seq<byte> {
    if parts == [] then [] else parts[0] + Concat(parts[1..])
  }

  lemma ConcatSnoc(parts: seq<seq<byte>>, p: seq<byte>)
    ensures Concat(parts + [p]) == Concat(parts) + p
  {
    if parts == [] {
      assert parts + [p] == [p];
      assert Concat([p]) == p + Concat([]);
    } else {
      assert (parts + [p])[1..] == parts[1..] + [p];
      ConcatSnoc(parts[1..], p);
    }
  }

  function Zeros(n: nat): (r: seq<byte>)
    ensures |r| == n && forall i :: 0 <= i < n ==> r[i] == 0
  {
    seq(n, _ => 0)
  }

  /** Reading back what was stored gives the value, cut to n bytes. */
  lemma {:induction false} LeRoundTrip(v: nat, n: nat)
    ensures LeValue(LeBytes(v, n)) == v % Pow256(n)
  {
    if n > 0 {
      LeRoundTrip(v / 256, n - 1);
      ModOfDiv(v, Pow256(n - 1));
      assert LeBytes(v, n)[1..] == LeBytes(v / 256, n - 1);
    }
  }

  lemma ModOfDiv(v: nat, m: nat)
    requires m > 0
    ensures v % (256 * m) == v % 256 + 256 * ((v / 256) % m)
  {
    var q, r := (v / 256) / m, (v / 256) % m;
    assert v == 256 * (q * m + r) + v % 256;
    assert v == (256 * m) * q + (256 * r + v % 256) by {
      assert 256 * (q * m + r) == (256 * m) * q + 256 * r;
    }
    assert 0 <= 256 * r + v % 256 < 256 * m;
    ModUnique(v, 256 * m, q, 256 * r + v % 256);
  }

  lemma PositiveMultiple(k: int, m: int)
    requires k > 0 && m > 0
    ensures k * m >= m
  {
    var j := k - 1;
    assert k * m == j * m + m;
    assert j * m >= 0;
  }

  lemma NonZeroMultiple(k: int, m: int)
    requires k != 0 && m > 0
    ensures k * m >= m || (0 - k) * m >= m
  {
    if k > 0 {
      PositiveMultiple(k, m);
    } else {
      PositiveMultiple(0 - k, m);
    }
  }

  lemma ModUnique(v: nat, m: nat, q: nat, r: nat)
    requires m > 0 && v == m * q + r && r < m
    ensures v % m == r
  {
    var k := v / m - q;
    assert v == m * (v / m) + v % m;
    assert k * m == m * (v / m) - m * q;
    assert (0 - k) * m == 0 - k * m;
    if k != 0 {
      NonZeroMultiple(k, m);
    }
  }

  /** Storing what was read gives the same bytes. */
  lemma {:induction false} LeCanonical(bs: seq<byte>)
    ensures LeBytes(LeValue(bs), |bs|) == bs
    ensures LeValue(bs) < Pow256(|bs|)
  {
    if bs != [] {
      LeCanonical(bs[1..]);
      assert (bs[0] + 256 * LeValue(bs[1..])) / 256 == LeValue(bs[1..]);
      assert (bs[0] + 256 * LeValue(bs[1..])) % 256 == bs[0];
      assert bs == [bs[0]] + bs[1..];
    }
  }
}
