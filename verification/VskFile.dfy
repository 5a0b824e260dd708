/** Whole plain .vsk files: header, manifest, data section (writer.ts, reader.ts). */
module VskFile {
  import opened Common
  import opened Bytes
  import opened VskHeader
  import opened VskFrames

  const MAX_VSK_BYTES := 16 * 1024 * 1024 * 1024
  const FORMAT_V1 := 1

  /** Header fields of a plain file with this manifest and data. */
  function PlainHeader(manifest: seq<byte>, data: seq<byte>): Header {
    Header(FORMAT_V1, HEADER_SIZE, |manifest|, HEADER_SIZE + |manifest|, |data|, 0, 0)
  }

  function FileBytes(manifest: seq<byte>, frames: seq<Frame>): seq<byte> {
    var data := EncodeFrames(frames);
    HeaderBytes(PlainHeader(manifest, data)) + manifest + data
  }

  // ---- Writing --------------------------------------------------------------------

  datatype Written = Written(file: seq<byte>) | InvalidName | ReservedName

  /** The system tables, in the order they are packed; a missing one is skipped. */
  function SystemName(i: nat): seq<byte>
    requires i < 3
  {
    Ascii(["__vsk_objects", "__vsk_source", "__vsk_dependencies"][i])
  }

  function SystemFrames(system: seq<Option<seq<byte>>>): seq<Frame>
    requires |system| <= 3
  {
    if system == [] then []
    else
      var k := |system| - 1;
      SystemFrames(system[..k]) + (if system[k].Some? then [Frame(SystemName(k), system[k].value)] else [])
  }

  predicate WritableName(name: seq<byte>) {
    IsIdentifier(name, 128)
  }

  method WriteOneTable(f: Frame, dataParts: seq<seq<byte>>) returns (r: seq<seq<byte>>)
    ensures Concat(r) == Concat(dataParts) + EncodeFrame(f)
  {
    var tag := TAG + f.name + [NEWLINE];
    var size := LeBytes(|f.payload|, 8);
    ConcatSnoc(dataParts, tag);
    ConcatSnoc(dataParts + [tag], size);
    ConcatSnoc(dataParts + [tag] + [size], f.payload);
    r := dataParts + [tag] + [size] + [f.payload];
  }

  lemma EncodeFramesSnoc(fs: seq<Frame>, f: Frame)
    ensures EncodeFrames(fs + [f]) == EncodeFrames(fs) + EncodeFrame(f)
  {
    hide EncodeFrame;
    if fs == [] {
      assert fs + [f] == [f];
      assert EncodeFrames([f]) == EncodeFrame(f) + EncodeFrames([]);
    } else {
      assert (fs + [f])[1..] == fs[1..] + [f];
      EncodeFramesSnoc(fs[1..], f);
    }
  }

  method PackTables(tables: seq<Frame>) returns (reserved: bool, dataParts: seq<seq<byte>>)
    ensures reserved <==> exists i :: 0 <= i < |tables| && SystemSuffix(tables[i].name).Some?
    ensures !reserved ==> Concat(dataParts) == EncodeFrames(tables)
  {
    hide EncodeFrame, SystemSuffix;
    reserved, dataParts := false, [];
    for i := 0 to |tables|
      invariant forall k :: 0 <= k < i ==> SystemSuffix(tables[k].name).None?
      invariant Concat(dataParts) == EncodeFrames(tables[..i])
    {
      if SystemSuffix(tables[i].name).Some? {
        return true, dataParts;
      }
      dataParts := WriteOneTable(tables[i], dataParts);
      EncodeFramesSnoc(tables[..i], tables[i]);
      assert tables[..i + 1] == tables[..i] + [tables[i]];
    }
    assert tables[..|tables|] == tables;
  }

  method PackSystem(system: seq<Option<seq<byte>>>, ghost tables: seq<Frame>, parts: seq<seq<byte>>)
    returns (dataParts: seq<seq<byte>>)
    requires |system| == 3 && Concat(parts) == EncodeFrames(tables)
    ensures Concat(dataParts) == EncodeFrames(tables + SystemFrames(system))
  {
    hide EncodeFrame, EncodeFrames, Concat;
    dataParts := parts;
    assert tables + [] == tables && system[..0] == [];
    for i := 0 to 3
      invariant Concat(dataParts) == EncodeFrames(tables + SystemFrames(system[..i]))
    {
      ghost var before := SystemFrames(system[..i]);
      assert system[..i + 1][..i] == system[..i];
      if system[i].Some? {
        var f := Frame(SystemName(i), system[i].value);
        dataParts := WriteOneTable(f, dataParts);
        EncodeFramesSnoc(tables + before, f);
        assert tables + (before + [f]) == tables + before + [f];
      } else {
        assert before + [] == before;
      }
    }
    assert system[..3] == system;
  }

  method WriteVsk(manifest: seq<byte>, tables: seq<Frame>, system: seq<Option<seq<byte>>>) returns (r: Written)
    requires |system| == 3
    ensures r ==
      if exists i :: 0 <= i < |tables| && !WritableName(tables[i].name) then InvalidName
      else if exists i :: 0 <= i < |tables| && SystemSuffix(tables[i].name).Some? then ReservedName
      else Written(FileBytes(manifest, tables + SystemFrames(system)))
  {
    hide EncodeFrames, HeaderBytes, WritableName, SystemSuffix, Concat;
    for i := 0 to |tables|
      invariant forall k :: 0 <= k < i ==> WritableName(tables[k].name)
    {
      if !WritableName(tables[i].name) {
        return InvalidName;
      }
    }
    var reserved, parts := PackTables(tables);
    if reserved {
      return ReservedName;
    }
    var dataParts := PackSystem(system, tables, parts);
    var data := Concat(dataParts);
    var header := WriteHeader(PlainHeader(manifest, data));
    r := Written(header[..] + manifest + data);
  }

  // ---- Reading --------------------------------------------------------------------

  datatype Loaded = Loaded(manifest: seq<byte>, frames: seq<Frame>)

  function HeaderFailure(e: HeaderError): VskError {
    match e
    case HeaderTruncated => Truncated
    case BadMagic => VskError.BadMagic
    case BadVersion => VskError.BadVersion
  }

  function Prefix(file: seq<byte>, n: nat): seq<byte> {
    if n <= |file| then file[..n] else file
  }

  /** `accepts` stands for the manifest's JSON checks and its engine-version fence. */
  function ReadFile(file: seq<byte>, accepts: seq<byte> -> bool): Result<Loaded> {
    if |file| > MAX_VSK_BYTES then Err(FileTooLarge)
    else
      match ReadHeader(Prefix(file, HEADER_SIZE))
      case HeaderErr(e) => Err(HeaderFailure(e))
      case HeaderOk(h) =>
        if h.manifestOffset + h.manifestLength > |file| || h.manifestLength > MAX_VSK_BYTES then Err(ManifestBounds)
        else if h.dataOffset + h.dataLength > |file| || h.dataLength > MAX_VSK_BYTES then Err(DataBounds)
        else
          var manifest := file[h.manifestOffset..h.manifestOffset + h.manifestLength];
          if !accepts(manifest) then Err(MalformedManifest)
          else
            match ParseFrames(file, h.dataOffset, h.dataOffset + h.dataLength)
            case Err(e) => Err(e)
            case Ok(frames) => Ok(Loaded(manifest, frames))
  }

  method ReadVsk(file: seq<byte>, accepts: seq<byte> -> bool) returns (r: Result<Loaded>)
    ensures r == ReadFile(file, accepts)
  {
    hide ReadHeader, ParseFrames;
    if |file| > MAX_VSK_BYTES {
      return Err(FileTooLarge);
    }
    var head := ReadHeader(Prefix(file, HEADER_SIZE));
    if head.HeaderErr? {
      return Err(HeaderFailure(head.error));
    }
    var h := head.header;
    if h.manifestOffset + h.manifestLength > |file| || h.manifestLength > MAX_VSK_BYTES {
      return Err(ManifestBounds);
    }
    if h.dataOffset + h.dataLength > |file| || h.dataLength > MAX_VSK_BYTES {
      return Err(DataBounds);
    }
    var manifest := file[h.manifestOffset..h.manifestOffset + h.manifestLength];
    if !accepts(manifest) {
      return Err(MalformedManifest);
    }
    var frames := ReadFrames(file, h.dataOffset, h.dataOffset + h.dataLength);
    r := match frames
      case Err(e) => Err(e)
      case Ok(fs) => Ok(Loaded(manifest, fs));
  }

  // ---- The round trip -------------------------------------------------------------

  predicate ValidNames(frames: seq<Frame>) {
    forall i :: 0 <= i < |frames| ==> ValidName(frames[i].name)
  }

  lemma PayloadFits(frames: seq<Frame>, i: nat)
    requires i < |frames|
    ensures |frames[i].payload| <= |EncodeFrames(frames)|
  {
    if i > 0 {
      PayloadFits(frames[1..], i - 1);
    }
  }

  /**
   * Reading a written file returns the manifest bytes and the table list, in order and for
   * any payloads, exactly when the file is within the size limit and its manifest accepted.
   */
  lemma FileRoundTrip(manifest: seq<byte>, frames: seq<Frame>, accepts: seq<byte> -> bool)
    requires ValidNames(frames)
    ensures var file := FileBytes(manifest, frames);
      ReadFile(file, accepts) ==
        if |file| > MAX_VSK_BYTES then Err(FileTooLarge)
        else if !accepts(manifest) then Err(MalformedManifest)
        else Ok(Loaded(manifest, frames))
  {
    hide HeaderBytes, ReadHeader, ParseFrames, EncodeFrames;
    var data := EncodeFrames(frames);
    var h := PlainHeader(manifest, data);
    var file := FileBytes(manifest, frames);
    if |file| <= MAX_VSK_BYTES {
      assert Fits(h);
      HeaderRoundTrip(h);
      assert Prefix(file, HEADER_SIZE) == HeaderBytes(h);
      assert file[HEADER_SIZE..HEADER_SIZE + |manifest|] == manifest;
      assert file[h.dataOffset..h.dataOffset + h.dataLength] == data;
      forall i | 0 <= i < |frames|
        ensures ValidFrame(frames[i])
      {
        PayloadFits(frames, i);
      }
      FramesCanonical(file, h.dataOffset, h.dataOffset + h.dataLength, frames);
    }
  }

  /** A file the reader accepts is the file its contents would be written to, layout permitting. */
  lemma FileCanonical(file: seq<byte>, accepts: seq<byte> -> bool)
    requires ReadFile(file, accepts).Ok?
    ensures var l := ReadFile(file, accepts).value;
      var h := ReadHeader(Prefix(file, HEADER_SIZE)).header;
      && ValidFrames(l.frames)
      && EncodeFrames(l.frames) == file[h.dataOffset..h.dataOffset + h.dataLength]
      && (file == FileBytes(l.manifest, l.frames) <==>
            && h == PlainHeader(l.manifest, EncodeFrames(l.frames))
            && |file| == h.dataOffset + h.dataLength
            && file[56..64] == Zeros(8))
  {
    hide HeaderBytes, ParseFrames, EncodeFrames, Field;
    var l := ReadFile(file, accepts).value;
    var head := Prefix(file, HEADER_SIZE);
    var h := ReadHeader(head).header;
    FramesCanonical(file, h.dataOffset, h.dataOffset + h.dataLength, l.frames);
    HeaderCanonical(head);
    var data := EncodeFrames(l.frames);
    var p := PlainHeader(l.manifest, data);
    HeaderRoundTrip(p);
    assert head[56..] == file[56..64];
    var written := FileBytes(l.manifest, l.frames);
    assert written[..64] == HeaderBytes(p);
    if h == p && |file| == h.dataOffset + h.dataLength {
      var d := h.dataOffset;
      assert l.manifest == file[64..d] && data == file[d..d + h.dataLength] == file[d..];
      assert file == file[..64] + file[64..d] + file[d..];
    }
  }

  /** Every file the writer produces has names the reader accepts. */
  lemma WrittenNamesAreValid(tables: seq<Frame>, system: seq<Option<seq<byte>>>)
    requires |system| <= 3
    requires forall i :: 0 <= i < |tables| ==> WritableName(tables[i].name) && SystemSuffix(tables[i].name).None?
    ensures ValidNames(tables + SystemFrames(system))
  {
    hide ValidName, WritableName, SystemSuffix, SystemName;
    if system != [] {
      var k := |system| - 1;
      WrittenNamesAreValid(tables, system[..k]);
      SystemNameValid(k);
      var fs := tables + SystemFrames(system[..k]);
      if system[k].Some? {
        assert tables + SystemFrames(system) == fs + [Frame(SystemName(k), system[k].value)];
      } else {
        assert tables + SystemFrames(system) == fs;
      }
    } else {
      assert tables + [] == tables;
      forall i | 0 <= i < |tables|
        ensures ValidName(tables[i].name)
      {
        WritableIsValid(tables[i].name);
      }
    }
  }

  lemma WritableIsValid(name: seq<byte>)
    requires WritableName(name) && SystemSuffix(name).None?
    ensures ValidName(name)
  {
  }

  lemma SystemNameValid(k: nat)
    requires k < 3
    ensures ValidName(SystemName(k))
  {
    var name := SystemName(k);
    assert name[..2] == [95, 95];
    assert SystemSuffix(name) == Some(name[6..]);
  }

  // ---- The Kelvin sign in the reserved prefix -------------------------------------

  /** The UTF-8 bytes of the Kelvin sign, which lower-cases to k. */
  const KELVIN: seq<byte> := [0xE2, 0x84, 0xAA]

  predicate IsLetter(b: byte, lower: byte)
    requires lower >= 32
  {
    b == lower || b == lower - 32
  }

  /** The bytes of __vs in any case, then k, then an underscore. */
  predicate HasPrefix(name: seq<byte>, k: seq<byte>) {
    && |name| >= 5 + |k| && name[..2] == [95, 95] && IsLetter(name[2], 118) && IsLetter(name[3], 115)
    && name[4..4 + |k|] == k && name[4 + |k|] == 95
  }

  /**
   * The reserved prefix is seen exactly where its letters stand, a Kelvin sign counting
   * as a k; the name is then accepted exactly when the rest of it is clean.
   */
  lemma ReservedPrefixes(name: seq<byte>)
    ensures SystemSuffix(name).Some? <==> HasPrefix(name, [75]) || HasPrefix(name, [107]) || HasPrefix(name, KELVIN)
    ensures HasPrefix(name, KELVIN) ==> (ValidName(name) <==> IsIdentifier(name[8..], 121))
  {
    if |name| >= 6 {
      assert name[4..5] == [name[4]];
    }
    if |name| >= 8 {
      assert name[4..8] == name[4..7] + [name[7]] && KELVIN + [95] == [0xE2, 0x84, 0xAA, 95];
      assert name[4..8][..3] == name[4..7] && name[4..8][3] == name[7];
      assert (KELVIN + [95])[..3] == KELVIN && (KELVIN + [95])[3] == 95;
      assert name[4..8] == KELVIN + [95] <==> name[4..7] == KELVIN && name[7] == 95;
    }
  }

  /** A table named with a Kelvin sign is read as a system table; the writer would have refused it. */
  lemma KelvinNameIsRead(payload: seq<byte>)
    requires |payload| < 0x1_0000_0000_0000_0000
    ensures var name := [95, 95, 86, 83] + KELVIN + [95, 120];
      && SystemSuffix(name) == Some([120]) && !WritableName(name)
      && ParseFrames(EncodeFrames([Frame(name, payload)]), 0, |EncodeFrames([Frame(name, payload)])|)
         == Ok([Frame(name, payload)])
  {
    hide EncodeFrames, ParseFrames;
    var name: seq<byte> := [95, 95, 86, 83] + KELVIN + [95, 120];
    assert name[..2] == [95, 95] && name[4..8] == [0xE2, 0x84, 0xAA, 95] && name[8..] == [120];
    assert ValidName(name);
    var fs := [Frame(name, payload)];
    var buf := EncodeFrames(fs);
    assert buf[0..|buf|] == buf;
    FramesCanonical(buf, 0, |buf|, fs);
  }
}
