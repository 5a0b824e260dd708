/**
 * The data section of a .vsk file: one frame per table, each a tag line, an 8-byte size
 * and the payload (engine/src/vsk-format/writer.ts, reader.ts, errors.ts).
 */
module VskFrames {
  import opened Common
  import opened Bytes

  /** A table's name (UTF-8) and its parquet bytes. */
  datatype Frame = Frame(name: seq<byte>, payload: seq<byte>)

  datatype VskError =
    | FileTooLarge | Truncated | BadMagic | BadVersion | BadTag | BadTableName
    | ManifestBounds | DataBounds | EnvelopeBounds
    | MalformedManifest | UnsupportedFormat | BadKey | NulInId | AuthFailed

  datatype Result<+T> = Ok(value: T) | Err(error: VskError)

  const NEWLINE: byte := 10

  /** "__VSK_TABLE__" */
  const TAG: seq<byte> := [95, 95, 86, 83, 75, 95, 84, 65, 66, 76, 69, 95, 95]

  // ---- Table names ----------------------------------------------------------------

  predicate IsNameStart(b: byte) {
    65 <= b <= 90 || 97 <= b <= 122 || b == 95
  }

  predicate IsNameChar(b: byte) {
    IsNameStart(b) || 48 <= b <= 57 || b == 36
  }

  predicate IsIdentifier(name: seq<byte>, max: nat) {
    && 0 < |name| <= max && IsNameStart(name[0])
    && forall i :: 0 <= i < |name| ==> IsNameChar(name[i])
  }

  /**
   * What follows the reserved prefix __vsk_ in any case, if the name has it. The source
   * lower-cases the name first, so the Kelvin sign (three bytes) passes for a k.
   */
  function SystemSuffix(name: seq<byte>): (r: Option<seq<byte>>)
    ensures r.Some? ==> |r.value| <= |name| && r.value == name[|name| - |r.value|..]
  {
    if |name| < 6 || name[..2] != [95, 95] || (name[2] != 86 && name[2] != 118) || (name[3] != 83 && name[3] != 115)
    then None
    else if (name[4] == 75 || name[4] == 107) && name[5] == 95 then Some(name[6..])
    else if |name| >= 8 && name[4..8] == [0xE2, 0x84, 0xAA, 95] then Some(name[8..])
    else None
  }

  /** The reader's check: a reserved name needs a clean suffix, any other a clean name. */
  predicate ValidName(name: seq<byte>) {
    match SystemSuffix(name)
    case Some(suffix) => IsIdentifier(suffix, 121)
    case None => IsIdentifier(name, 128)
  }

  lemma ValidNameHasNoNewline(name: seq<byte>)
    requires ValidName(name)
    ensures NEWLINE !in name
  {
    match SystemSuffix(name)
    case None =>
    case Some(suffix) =>
      var k := |name| - |suffix|;
      assert name == name[..k] + suffix;
      assert forall i :: 0 <= i < k ==> name[i] != NEWLINE;
  }

  // ---- Writing --------------------------------------------------------------------

  function EncodeFrame(f: Frame): seq<byte> {
    TAG + f.name + [NEWLINE] + LeBytes(|f.payload|, 8) + f.payload
  }

  function EncodeFrames(fs: seq<Frame>): seq<byte> {
    if fs == [] then [] else EncodeFrame(fs[0]) + EncodeFrames(fs[1..])
  }

  predicate ValidFrame(f: Frame) {
    ValidName(f.name) && |f.payload| < 0x1_0000_0000_0000_0000
  }

  predicate ValidFrames(fs: seq<Frame>) {
    forall i :: 0 <= i < |fs| ==> ValidFrame(fs[i])
  }

  // ---- Reading --------------------------------------------------------------------

  /** The first newline at or after p, or end. */
  function NewlineFrom(buf: seq<byte>, p: nat, end: nat): (i: nat)
    requires p <= end <= |buf|
    ensures p <= i <= end
    ensures forall k :: p <= k < i ==> buf[k] != NEWLINE
    ensures i < end ==> buf[i] == NEWLINE
    decreases end - p
  {
    if p == end || buf[p] == NEWLINE then p else NewlineFrom(buf, p + 1, end)
  }

  datatype Step = Step(frame: Frame, next: nat)

  /** The frame at p. The bound on the tag is the buffer's, all others the section's. */
  function ParseFrame(buf: seq<byte>, p: nat, end: nat): (r: Result<Step>)
    requires p < end <= |buf|
    ensures r.Ok? ==> p < r.value.next <= end
  {
    if |buf| - p < |TAG| then Err(Truncated)
    else if buf[p..p + |TAG|] != TAG then Err(BadTag)
    else
      var nl := NewlineFrom(buf, p, end);
      if nl >= end then Err(Truncated)
      else
        var name := if nl < p + |TAG| then [] else buf[p + |TAG|..nl];
        if !ValidName(name) then Err(BadTableName)
        else if nl + 9 > end then Err(Truncated)
        else
          var size := LeValue(buf[nl + 1..nl + 9]);
          if nl + 9 + size > end then Err(Truncated)
          else Ok(Step(Frame(name, buf[nl + 9..nl + 9 + size]), nl + 9 + size))
  }

  function ParseFrames(buf: seq<byte>, p: nat, end: nat): Result<seq<Frame>>
    requires p <= end <= |buf|
    decreases end - p
  {
    if p == end then Ok([])
    else
      match ParseFrame(buf, p, end)
      case Err(e) => Err(e)
      case Ok(Step(f, next)) =>
        match ParseFrames(buf, next, end)
        case Err(e) => Err(e)
        case Ok(fs) => Ok([f] + fs)
  }

  method TagStandsAt(buf: seq<byte>, p: nat) returns (ok: bool)
    requires p + |TAG| <= |buf|
    ensures ok <==> buf[p..p + |TAG|] == TAG
  {
    for i := 0 to |TAG|
      invariant forall k :: 0 <= k < i ==> buf[p + k] == TAG[k]
    {
      if buf[p + i] != TAG[i] {
        assert buf[p..p + |TAG|][i] != TAG[i];
        return false;
      }
    }
    return true;
  }

  method FindNewline(buf: seq<byte>, p: nat, end: nat) returns (nl: nat)
    requires p <= end <= |buf|
    ensures nl == NewlineFrom(buf, p, end)
  {
    nl := p;
    while nl < end && buf[nl] != NEWLINE
      invariant p <= nl <= end
      invariant NewlineFrom(buf, p, end) == NewlineFrom(buf, nl, end)
    {
      nl := nl + 1;
    }
  }

  /** One turn of the reader's loop. */
  method ReadFrame(buf: seq<byte>, p: nat, end: nat) returns (r: Result<Step>)
    requires p < end <= |buf|
    ensures r == ParseFrame(buf, p, end)
  {
    hide NewlineFrom, ValidName, LeValue;
    if |buf| - p < |TAG| {
      return Err(Truncated);
    }
    var tagged := TagStandsAt(buf, p);
    if !tagged {
      return Err(BadTag);
    }
    var nl := FindNewline(buf, p, end);
    if nl >= end {
      return Err(Truncated);
    }
    var name := if nl < p + |TAG| then [] else buf[p + |TAG|..nl];
    if !ValidName(name) {
      return Err(BadTableName);
    }
    if nl + 9 > end {
      return Err(Truncated);
    }
    var size := LeValue(buf[nl + 1..nl + 9]);
    if nl + 9 + size > end {
      return Err(Truncated);
    }
    return Ok(Step(Frame(name, buf[nl + 9..nl + 9 + size]), nl + 9 + size));
  }

  method ReadFrames(buf: seq<byte>, start: nat, end: nat) returns (r: Result<seq<Frame>>)
    requires start <= end <= |buf|
    ensures r == ParseFrames(buf, start, end)
  {
    hide ParseFrame;
    var p := start;
    var frames: seq<Frame> := [];
    PrependNone(ParseFrames(buf, start, end));
    while p < end
      invariant start <= p <= end
      invariant ParseFrames(buf, start, end) == Prepend(frames, ParseFrames(buf, p, end))
    {
      var step := ReadFrame(buf, p, end);
      if step.Err? {
        return Err(step.error);
      }
      PrependOne(frames, step.value.frame, ParseFrames(buf, step.value.next, end));
      frames := frames + [step.value.frame];
      p := step.value.next;
    }
    assert frames + [] == frames;
    r := Ok(frames);
  }

  function Prepend(fs: seq<Frame>, r: Result<seq<Frame>>): Result<seq<Frame>> {
    match r
    case Err(e) => Err(e)
    case Ok(gs) => Ok(fs + gs)
  }

  lemma PrependNone(r: Result<seq<Frame>>)
    ensures Prepend([], r) == r
  {
    if r.Ok? {
      assert [] + r.value == r.value;
    }
  }

  lemma PrependOne(fs: seq<Frame>, f: Frame, r: Result<seq<Frame>>)
    ensures Prepend(fs, Prepend([f], r)) == Prepend(fs + [f], r)
  {
    if r.Ok? {
      assert fs + ([f] + r.value) == fs + [f] + r.value;
    }
  }

  // ---- The section is canonical ---------------------------------------------------

  lemma EncodeFrameParts(f: Frame)
    ensures var e, n := EncodeFrame(f), |f.name|;
      && |e| == |TAG| + n + 9 + |f.payload|
      && e[..|TAG|] == TAG
      && e[|TAG|..|TAG| + n] == f.name
      && e[|TAG| + n] == NEWLINE
      && e[|TAG| + n + 1..|TAG| + n + 9] == LeBytes(|f.payload|, 8)
      && e[|TAG| + n + 9..] == f.payload
  {
    hide LeBytes;
  }

  /** A byte string cut in five parts is the frame made of those parts. */
  lemma FrameFromParts(e: seq<byte>, f: Frame)
    requires var n := |f.name|;
      && |e| == |TAG| + n + 9 + |f.payload|
      && e[..|TAG|] == TAG
      && e[|TAG|..|TAG| + n] == f.name
      && e[|TAG| + n] == NEWLINE
      && e[|TAG| + n + 1..|TAG| + n + 9] == LeBytes(|f.payload|, 8)
      && e[|TAG| + n + 9..] == f.payload
    ensures e == EncodeFrame(f)
  {
    hide LeBytes;
    var n := |f.name|;
    var t := |TAG| + n;
    assert e == e[..|TAG|] + e[|TAG|..t] + [e[t]] + e[t + 1..t + 9] + e[t + 9..];
  }

  lemma NewlineUnique(buf: seq<byte>, p: nat, end: nat, i: nat)
    requires p <= i < end <= |buf| && buf[i] == NEWLINE
    requires forall k :: p <= k < i ==> buf[k] != NEWLINE
    ensures NewlineFrom(buf, p, end) == i
    decreases i - p
  {
    if p < i {
      NewlineUnique(buf, p + 1, end, i);
    }
  }

  lemma SliceOfSlice<T>(s: seq<T>, p: nat, q: nat, i: nat, j: nat)
    requires p <= q <= |s| && i <= j <= q - p
    ensures s[p..q][i..j] == s[p + i..p + j]
  {
    var x, y := s[p..q][i..j], s[p + i..p + j];
    assert |x| == |y|;
    forall k | 0 <= k < |x|
      ensures x[k] == y[k]
    {
      assert x[k] == s[p..q][i + k];
    }
  }

  /** What a successful parse step has checked. */
  lemma ParsedParts(buf: seq<byte>, p: nat, end: nat)
    requires p < end <= |buf| && ParseFrame(buf, p, end).Ok?
    ensures var s := ParseFrame(buf, p, end).value; var nl := NewlineFrom(buf, p, end);
      && p + |TAG| <= |buf| && buf[p..p + |TAG|] == TAG && p <= nl < end && buf[nl] == NEWLINE && nl + 9 <= end
      && ValidName(s.frame.name) && (nl >= p + |TAG| ==> s.frame.name == buf[p + |TAG|..nl])
      && LeValue(buf[nl + 1..nl + 9]) == |s.frame.payload|
      && s.next == nl + 9 + |s.frame.payload| <= end && s.frame.payload == buf[nl + 9..s.next]
  {
    hide ValidName, LeValue;
  }

  /** What a successful parse step consumed is the encoding of what it found. */
  lemma ParseFrameSound(buf: seq<byte>, p: nat, end: nat)
    requires p < end <= |buf| && ParseFrame(buf, p, end).Ok?
    ensures var s := ParseFrame(buf, p, end).value;
      ValidFrame(s.frame) && buf[p..s.next] == EncodeFrame(s.frame)
  {
    hide ValidName, LeValue, LeBytes, ParseFrame, NewlineFrom, EncodeFrame;
    ParsedParts(buf, p, end);
    var s := ParseFrame(buf, p, end).value;
    var nl := NewlineFrom(buf, p, end);
    TagBeforeNewline(buf, p, nl);
    LeCanonical(buf[nl + 1..nl + 9]);
    Pow256Of8();
    assert ValidFrame(s.frame);
    PartsEncode(buf, p, nl, s.frame);
  }

  /** A frame's parts, where they stand. */
  lemma PartsEncode(buf: seq<byte>, p: nat, nl: nat, f: Frame)
    requires ValidFrame(f) && p + |TAG| <= nl && nl + 9 + |f.payload| <= |buf|
    requires buf[p..p + |TAG|] == TAG && buf[p + |TAG|..nl] == f.name && buf[nl] == NEWLINE
    requires buf[nl + 1..nl + 9] == LeBytes(|f.payload|, 8) && buf[nl + 9..nl + 9 + |f.payload|] == f.payload
    ensures buf[p..nl + 9 + |f.payload|] == EncodeFrame(f)
  {
    hide ValidName, LeBytes, EncodeFrame;
    var t, n, next := |TAG|, |f.name|, nl + 9 + |f.payload|;
    var e := buf[p..next];
    SliceOfSlice(buf, p, next, 0, t);
    SliceOfSlice(buf, p, next, t, t + n);
    SliceOfSlice(buf, p, next, t + n + 1, t + n + 9);
    SliceOfSlice(buf, p, next, t + n + 9, |e|);
    assert e[t + n..][0] == e[t + n] == buf[nl];
    assert e[t + n + 9..] == e[t + n + 9..|e|];
    FrameFromParts(e, f);
  }

  lemma Pow256Of8()
    ensures Pow256(8) == 0x1_0000_0000_0000_0000
  {
    assert Pow256(4) == 0x1_0000_0000;
    assert Pow256(6) == 0x1_0000_0000_0000;
  }

  lemma TagBeforeNewline(buf: seq<byte>, p: nat, nl: nat)
    requires p <= nl < |buf| && p + |TAG| <= |buf| && buf[p..p + |TAG|] == TAG && buf[nl] == NEWLINE
    ensures nl >= p + |TAG|
  {
    TagIsSolid();
    forall k | p <= k < p + |TAG|
      ensures buf[k] != NEWLINE
    {
      assert buf[k] == buf[p..p + |TAG|][k - p];
    }
  }

  lemma TagIsSolid()
    ensures forall k :: 0 <= k < |TAG| ==> TAG[k] != NEWLINE
  {
  }

  /** The parts of an encoded frame, at their places in a buffer. */
  lemma EncodedAt(buf: seq<byte>, p: nat, f: Frame)
    requires p + |EncodeFrame(f)| <= |buf| && buf[p..p + |EncodeFrame(f)|] == EncodeFrame(f)
    ensures var t, n, q := |TAG|, |f.name|, p + |EncodeFrame(f)|;
      && q == p + t + n + 9 + |f.payload|
      && buf[p..p + t] == TAG
      && buf[p + t..p + t + n] == f.name
      && buf[p + t + n] == NEWLINE
      && buf[p + t + n + 1..p + t + n + 9] == LeBytes(|f.payload|, 8)
      && buf[p + t + n + 9..q] == f.payload
  {
    hide LeBytes, EncodeFrame;
    EncodeFrameParts(f);
    var t, n, q := |TAG|, |f.name|, p + |EncodeFrame(f)|;
    SliceOfSlice(buf, p, q, 0, t);
    SliceOfSlice(buf, p, q, t, t + n);
    SliceOfSlice(buf, p, q, t + n + 1, t + n + 9);
    SliceOfSlice(buf, p, q, t + n + 9, q - p);
    assert buf[p..q][..t] == buf[p..q][0..t];
    assert buf[p..q][t + n + 9..] == buf[p..q][t + n + 9..q - p];
    assert buf[p + t + n] == buf[p..q][t + n];
  }

  lemma NoNewlineBefore(buf: seq<byte>, p: nat, name: seq<byte>)
    requires var t, n := |TAG|, |name|;
      p + t + n <= |buf| && buf[p..p + t] == TAG && buf[p + t..p + t + n] == name && ValidName(name)
    ensures forall k :: p <= k < p + |TAG| + |name| ==> buf[k] != NEWLINE
  {
    hide ValidName;
    var t, n := |TAG|, |name|;
    ValidNameHasNoNewline(name);
    TagIsSolid();
    forall k | p <= k < p + t + n
      ensures buf[k] != NEWLINE
    {
      if k < p + t {
        assert buf[k] == buf[p..p + t][k - p] == TAG[k - p];
      } else {
        assert buf[k] == buf[p + t..p + t + n][k - p - t];
      }
    }
  }

  /** An encoded frame parses to itself wherever it stands. */
  lemma ParseFrameComplete(buf: seq<byte>, p: nat, end: nat, f: Frame)
    requires ValidFrame(f) && p + |EncodeFrame(f)| <= end <= |buf|
    requires buf[p..p + |EncodeFrame(f)|] == EncodeFrame(f)
    ensures p < end && ParseFrame(buf, p, end) == Ok(Step(f, p + |EncodeFrame(f)|))
  {
    hide ValidName, LeValue, LeBytes, EncodeFrame, NewlineFrom;
    EncodedAt(buf, p, f);
    NoNewlineBefore(buf, p, f.name);
    var nl := p + |TAG| + |f.name|;
    NewlineUnique(buf, p, end, nl);
    LeRoundTrip(|f.payload|, 8);
    Pow256Of8();
  }

  /**
   * The loop accepts exactly the encodings of valid frame lists, stops exactly at the end
   * of the section, and recovers the list: what it accepts re-encodes to the same bytes.
   */
  lemma {:induction false} FramesCanonical(buf: seq<byte>, p: nat, end: nat, fs: seq<Frame>)
    requires p <= end <= |buf|
    ensures ParseFrames(buf, p, end) == Ok(fs) <==> ValidFrames(fs) && EncodeFrames(fs) == buf[p..end]
    decreases end - p, |fs|
  {
    hide ParseFrame, EncodeFrame, ValidFrame;
    if ParseFrames(buf, p, end) == Ok(fs) {
      FramesSound(buf, p, end);
    }
    if ValidFrames(fs) && EncodeFrames(fs) == buf[p..end] {
      FramesComplete(buf, p, end, fs);
    }
  }

  lemma {:induction false} FramesSound(buf: seq<byte>, p: nat, end: nat)
    requires p <= end <= |buf| && ParseFrames(buf, p, end).Ok?
    ensures var fs := ParseFrames(buf, p, end).value;
      ValidFrames(fs) && EncodeFrames(fs) == buf[p..end]
    decreases end - p
  {
    hide ParseFrame, EncodeFrame, ValidFrame;
    if p < end {
      var s := ParseFrame(buf, p, end).value;
      ParseFrameSound(buf, p, end);
      FramesSound(buf, s.next, end);
      var gs := ParseFrames(buf, s.next, end).value;
      assert ([s.frame] + gs)[1..] == gs;
      assert buf[p..end] == buf[p..s.next] + buf[s.next..end];
    }
  }

  lemma {:induction false} FramesComplete(buf: seq<byte>, p: nat, end: nat, fs: seq<Frame>)
    requires p <= end <= |buf| && ValidFrames(fs) && EncodeFrames(fs) == buf[p..end]
    ensures ParseFrames(buf, p, end) == Ok(fs)
    decreases |fs|
  {
    hide ParseFrame, EncodeFrame, ValidFrame;
    if fs != [] {
      var e := EncodeFrame(fs[0]);
      var rest := EncodeFrames(fs[1..]);
      var q := p + |e|;
      assert buf[p..end] == e + rest;
      assert buf[p..q] == buf[p..end][..|e|] == e;
      assert buf[q..end] == buf[p..end][|e|..] == rest;
      ParseFrameComplete(buf, p, end, fs[0]);
      FramesComplete(buf, q, end, fs[1..]);
      assert [fs[0]] + fs[1..] == fs;
    }
  }
}
