/**
 * Encrypted .vsk files: the sealed content key and the sealed plain file, bound to a
 * sandbox, a version and a recipient (writer.ts, reader.ts, blob.ts, envelope.ts).
 */
module VskEncrypted {
  import opened Common
  import opened Bytes
  import opened VskHeader
  import opened VskFrames
  import opened VskFile
  import opened Aad

  /*
   * The cipher is ideal and the JSON of the envelope block an inverse pair; both are
   * parameters. The two ends of the key agreement share one secret.
   */

  type Data = seq<byte>

  const FORMAT_V2 := 2
  const KEY_BYTES := 32

  /** Key, nonce, authenticated data if any, text. */
  type Seal = (Data, Data, Option<Data>, Data) -> Data
  type Unseal = (Data, Data, Option<Data>, Data) -> Option<Data>

  /** Opening inverts sealing, and fails under any other authenticated data. */
  ghost predicate IdealAead(seal: Seal, unseal: Unseal) {
    forall k, n, a, a', p :: unseal(k, n, a', seal(k, n, a, p)) == if a' == a then Some(p) else None
  }

  datatype Envelope = Envelope(nonce: Data, ciphertext: Data)

  /** The envelope block; the format version and the context may be missing. */
  datatype Meta = Meta(
    envelope: Envelope,
    blobNonce: Data,
    formatVersion: Option<nat>,
    sandboxId: Option<Data>,
    sandboxVersion: Option<nat>,
    recipient: Option<Data>)

  ghost predicate IdealJson(encode: Meta -> Data, decode: Data -> Option<Meta>) {
    forall m :: decode(encode(m)) == Some(m) && encode(m) != []
  }

  // ---- Writing --------------------------------------------------------------------

  function FormatOf(context: Option<Context>): nat {
    if context.Some? then FORMAT_V2 else FORMAT_V1
  }

  function AadOf(context: Option<Context>): Option<Data> {
    if context.Some? then Some(AadBytes(context.value, FORMAT_V2)) else None
  }

  function MetaOf(envelope: Envelope, blobNonce: Data, context: Option<Context>): Meta {
    match context
    case None => Meta(envelope, blobNonce, Some(FORMAT_V1), None, None, None)
    case Some(c) => Meta(envelope, blobNonce, Some(FORMAT_V2), Some(c.sandboxId), Some(c.version), Some(c.recipient))
  }

  function EncryptedFile(format: nat, block: Data, cipher: Data): Data {
    HeaderBytes(Header(format, 0, 0, HEADER_SIZE + |block|, |cipher|, HEADER_SIZE, |block|)) + block + cipher
  }

  datatype Sealed = SealedFile(file: Data) | BadSandboxId | BadContentKey

  function WriteEncrypted(
    plain: Data, contentKey: Data, envelope: Envelope, context: Option<Context>, blobNonce: Data,
    seal: Seal, encode: Meta -> Data): Sealed
  {
    if context.Some? && NUL in context.value.sandboxId then BadSandboxId
    else if |contentKey| != KEY_BYTES then BadContentKey
    else
      var cipher := seal(contentKey, blobNonce, AadOf(context), plain);
      SealedFile(EncryptedFile(FormatOf(context), encode(MetaOf(envelope, blobNonce, context)), cipher))
  }

  // ---- Reading --------------------------------------------------------------------

  predicate IsSupported(v: nat) {
    v == FORMAT_V1 || v == FORMAT_V2
  }

  /** The context a version-2 block names, or why it cannot be used. */
  function ContextOf(m: Meta): Result<Context> {
    if m.sandboxId.None? || m.sandboxId.value == [] || m.sandboxVersion.None?
       || m.recipient.None? || m.recipient.value == [] then Err(MalformedManifest)
    else if |m.recipient.value| != KEY_BYTES then Err(BadKey)
    else if NUL in m.sandboxId.value then Err(NulInId)
    else Ok(Context(m.sandboxId.value, m.sandboxVersion.value, m.recipient.value))
  }

  /** The block's own version decides the binding; the header's is only checked for support. */
  function AadFromMeta(m: Meta, headerFormat: nat): Result<Option<Data>> {
    var envelopeFormat := if m.formatVersion.Some? then m.formatVersion.value else FORMAT_V1;
    var fileFormat := if headerFormat == 0 then FORMAT_V1 else headerFormat;
    if !IsSupported(envelopeFormat) || !IsSupported(fileFormat) then Err(UnsupportedFormat)
    else if envelopeFormat != FORMAT_V2 then Ok(None)
    else
      match ContextOf(m)
      case Err(e) => Err(e)
      case Ok(c) => Ok(Some(AadBytes(c, FORMAT_V2)))
  }

  /** The plain file inside, once the authenticated data is known. */
  function OpenBlob(
      m: Meta, external: Option<Envelope>, aad: Option<Data>, cipher: Data, shared: Data,
      unseal: Unseal): Result<Data> {
    var envelope := if external.Some? then external.value else m.envelope;
    match unseal(shared, envelope.nonce, aad, envelope.ciphertext)
    case None => Err(AuthFailed)
    case Some(contentKey) =>
      match unseal(contentKey, m.blobNonce, aad, cipher)
      case None => Err(AuthFailed)
      case Some(plain) => Ok(plain)
  }

  datatype Sections = Sections(format: nat, block: Data, cipher: Data)

  /** Header and bounds checks of an encrypted file. */
  function FindSections(file: Data): Result<Sections> {
    if |file| > MAX_VSK_BYTES then Err(FileTooLarge)
    else
      match ReadHeader(Prefix(file, HEADER_SIZE))
      case HeaderErr(e) => Err(HeaderFailure(e))
      case HeaderOk(h) =>
        if h.envelopeLength == 0 then Err(BadTag)
        else if h.envelopeOffset + h.envelopeLength > |file| || h.envelopeLength > MAX_VSK_BYTES
        then Err(EnvelopeBounds)
        else if h.dataOffset + h.dataLength > |file| || h.dataLength > MAX_VSK_BYTES then Err(DataBounds)
        else
          Ok(Sections(h.formatVersion,
                      file[h.envelopeOffset..h.envelopeOffset + h.envelopeLength],
                      file[h.dataOffset..h.dataOffset + h.dataLength]))
  }

  /** The plain file inside an encrypted one. */
  function Decrypt(
      file: Data, shared: Data, external: Option<Envelope>, unseal: Unseal,
      decode: Data -> Option<Meta>): Result<Data> {
    match FindSections(file)
    case Err(e) => Err(e)
    case Ok(s) =>
      match decode(s.block)
      case None => Err(MalformedManifest)
      case Some(m) =>
        match AadFromMeta(m, s.format)
        case Err(e) => Err(e)
        case Ok(aad) => OpenBlob(m, external, aad, s.cipher, shared, unseal)
  }

  function ReadEncrypted(
    file: Data, shared: Data, external: Option<Envelope>, unseal: Unseal, decode: Data -> Option<Meta>,
    accepts: Data -> bool): Result<Loaded>
  {
    match Decrypt(file, shared, external, unseal, decode)
    case Err(e) => Err(e)
    case Ok(plain) => ReadFile(plain, accepts)
  }

  // ---- Round trip -----------------------------------------------------------------

  lemma SectionsRoundTrip(format: nat, block: Data, cipher: Data)
    requires format < 0x1_0000 && block != []
    ensures var file := EncryptedFile(format, block, cipher);
      FindSections(file) == if |file| > MAX_VSK_BYTES then Err(FileTooLarge) else Ok(Sections(format, block, cipher))
  {
    hide HeaderBytes, ReadHeader;
    var file := EncryptedFile(format, block, cipher);
    var h := Header(format, 0, 0, HEADER_SIZE + |block|, |cipher|, HEADER_SIZE, |block|);
    if |file| <= MAX_VSK_BYTES {
      assert Fits(h);
      HeaderRoundTrip(h);
      assert Prefix(file, HEADER_SIZE) == HeaderBytes(h);
      assert file[HEADER_SIZE..HEADER_SIZE + |block|] == block;
      assert file[h.dataOffset..h.dataOffset + h.dataLength] == cipher;
    }
  }

  /** What stops the reader from using the context the writer stored. */
  function ContextFault(context: Option<Context>): Option<VskError> {
    match context
    case None => None
    case Some(c) =>
      if c.sandboxId == [] || c.recipient == [] then Some(MalformedManifest)
      else if |c.recipient| != KEY_BYTES then Some(BadKey)
      else None
  }

  /**
   * With an ideal cipher, and an envelope sealed to the reader under the file's own
   * binding, reading an encrypted file gives what reading the plain file gives. The
   * writer accepts an empty sandbox id and a key of any length; the reader does not.
   */
  lemma EncryptedRoundTrip(
    plain: Data, contentKey: Data, keyNonce: Data, context: Option<Context>, blobNonce: Data, shared: Data,
    seal: Seal, unseal: Unseal, encode: Meta -> Data, decode: Data -> Option<Meta>, accepts: Data -> bool)
    requires IdealAead(seal, unseal) && IdealJson(encode, decode)
    requires |contentKey| == KEY_BYTES
    requires context.Some? ==> NUL !in context.value.sandboxId
    ensures var envelope := Envelope(keyNonce, seal(shared, keyNonce, AadOf(context), contentKey));
      var written := WriteEncrypted(plain, contentKey, envelope, context, blobNonce, seal, encode);
      && written.SealedFile?
      && ReadEncrypted(written.file, shared, None, unseal, decode, accepts) ==
           if |written.file| > MAX_VSK_BYTES then Err(FileTooLarge)
           else if ContextFault(context).Some? then Err(ContextFault(context).value)
           else ReadFile(plain, accepts)
  {
    hide AadBytes, ReadFile, FindSections, EncryptedFile;
    var aad := AadOf(context);
    var envelope := Envelope(keyNonce, seal(shared, keyNonce, aad, contentKey));
    var m := MetaOf(envelope, blobNonce, context);
    var cipher := seal(contentKey, blobNonce, aad, plain);
    SectionsRoundTrip(FormatOf(context), encode(m), cipher);
    assert decode(encode(m)) == Some(m);
  }

  /**
   * A blob sealed for one context opens only from a block that names that same context:
   * moving it to another sandbox, version or recipient, or claiming the unbound format,
   * makes the reader fail.
   */
  lemma BoundToContext(
    file: Data, shared: Data, keyNonce: Data, external: Option<Envelope>, sealedFor: Context, contentKey: Data,
    seal: Seal, unseal: Unseal, decode: Data -> Option<Meta>)
    requires IdealAead(seal, unseal) && NUL !in sealedFor.sandboxId
    requires Decrypt(file, shared, external, unseal, decode).Ok?
    requires var s := FindSections(file).value;
      var m := decode(s.block).value;
      var envelope := if external.Some? then external.value else m.envelope;
      envelope == Envelope(keyNonce, seal(shared, keyNonce, Some(AadBytes(sealedFor, FORMAT_V2)), contentKey))
    ensures var m := decode(FindSections(file).value.block).value;
      m.formatVersion == Some(FORMAT_V2) && ContextOf(m) == Ok(sealedFor)
  {
    hide AadBytes, FindSections;
    var s := FindSections(file).value;
    var m := decode(s.block).value;
    var sealedAad := Some(AadBytes(sealedFor, FORMAT_V2));
    var aad := AadFromMeta(m, s.format).value;
    assert unseal(shared, keyNonce, aad, seal(shared, keyNonce, sealedAad, contentKey)) ==
      if aad == sealedAad then Some(contentKey) else None;
    AadInjective(ContextOf(m).value, FORMAT_V2, sealedFor, FORMAT_V2);
  }

  // ---- The header's format version ------------------------------------------------

  /**
   * The reader asks of the header's version only that it be 0, 1 or 2; beyond that it does
   * not matter which of them it is, and it need not be the envelope's.
   */
  lemma HeaderVersionIsNotCompared(
    format: nat, block: Data, cipher: Data, shared: Data, external: Option<Envelope>, unseal: Unseal,
    decode: Data -> Option<Meta>)
    requires format < 0x1_0000 && block != []
    ensures var file := EncryptedFile(format, block, cipher);
      |file| <= MAX_VSK_BYTES && decode(block).Some? ==>
        Decrypt(file, shared, external, unseal, decode) ==
          if format <= FORMAT_V2 then Decrypt(EncryptedFile(FORMAT_V1, block, cipher), shared, external, unseal, decode)
          else Err(UnsupportedFormat)
  {
    hide HeaderBytes, FindSections, ContextOf, OpenBlob;
    SectionsRoundTrip(format, block, cipher);
    SectionsRoundTrip(FORMAT_V1, block, cipher);
  }

  /** A file whose header says version 1 and whose envelope says version 2 is read like any other. */
  lemma MixedVersionsAreRead(
    plain: Data, contentKey: Data, keyNonce: Data, context: Context, blobNonce: Data, shared: Data,
    seal: Seal, unseal: Unseal, encode: Meta -> Data, decode: Data -> Option<Meta>, accepts: Data -> bool)
    requires IdealAead(seal, unseal) && IdealJson(encode, decode)
    requires |contentKey| == KEY_BYTES && NUL !in context.sandboxId && ContextFault(Some(context)).None?
    ensures var aad := AadOf(Some(context));
      var m := MetaOf(Envelope(keyNonce, seal(shared, keyNonce, aad, contentKey)), blobNonce, Some(context));
      var file := EncryptedFile(FORMAT_V1, encode(m), seal(contentKey, blobNonce, aad, plain));
      && m.formatVersion == Some(FORMAT_V2)
      && (|file| <= MAX_VSK_BYTES ==>
            FindSections(file).Ok? && FindSections(file).value.format == FORMAT_V1
            && ReadEncrypted(file, shared, None, unseal, decode, accepts) == ReadFile(plain, accepts))
  {
    hide AadBytes, ReadFile, FindSections, HeaderBytes, OpenBlob, ContextOf, IdealAead, IdealJson, AadOf;
    EncryptedRoundTrip(
      plain, contentKey, keyNonce, Some(context), blobNonce, shared, seal, unseal, encode, decode, accepts);
    var aad := AadOf(Some(context));
    var m := MetaOf(Envelope(keyNonce, seal(shared, keyNonce, aad, contentKey)), blobNonce, Some(context));
    var block, cipher := encode(m), seal(contentKey, blobNonce, aad, plain);
    JsonReadsBack(encode, decode, m);
    HeaderVersionIsNotCompared(FORMAT_V2, block, cipher, shared, None, unseal, decode);
    SectionsRoundTrip(FORMAT_V1, block, cipher);
  }

  lemma JsonReadsBack(encode: Meta -> Data, decode: Data -> Option<Meta>, m: Meta)
    requires IdealJson(encode, decode)
    ensures decode(encode(m)) == Some(m) && encode(m) != []
  {
  }
}
