/**
  Compression-kind detection, the decode cascade and the compress dispatch of
  `CompressionService`. The stream codecs themselves (GZip, ZLib and raw
  Deflate streams, and UTF-8) belong to the platform; they enter the model as
  the function-valued fields of `Codecs`, and nothing is assumed about them
  except where a lemma states an assumption in its `requires`.
 */
module CompressionService {
  import opened Results
  import opened CompressionKinds

  type Bytes = seq<bv8>

  /** The platform codecs. A decoder returning `None` is a decoder that threw. */
  datatype Codecs = Codecs(
    utf8Encode: string -> Bytes,                 // Encoding.UTF8.GetBytes
    utf8Decode: Bytes -> Option<string>,         // Encoding.UTF8.GetString
    gzipCompress: Bytes -> Bytes,                // GZipStream, SmallestSize
    zlibCompress: Bytes -> Bytes,                // ZLibStream, SmallestSize
    deflateCompress: Bytes -> Bytes,             // DeflateStream, SmallestSize
    gzipDecompress: Bytes -> Option<string>,     // GZipStream read through a UTF-8 StreamReader
    zlibDecompress: Bytes -> Option<string>,     // ZLibStream read through a UTF-8 StreamReader
    deflateDecompress: Bytes -> Option<string>)  // DeflateStream read through a UTF-8 StreamReader

  datatype CompressionError =
    | UndecodableContent                   // every attempt of the cascade failed
    | UnsupportedKind(kind: CompressionKind)

  /** The returned text (or the exception) together with the `out` kind. */
  datatype Decompressed = Decompressed(text: Result<string, CompressionError>, detected: CompressionKind)

  /** The first two bytes of every gzip member (ID1, ID2), section 2.3.1 of RFC 1952. */
  const GZipId1: bv8 := 0x1F
  const GZipId2: bv8 := 0x8B
  /** CMF of a zlib stream with CM = 8 (deflate) and CINFO = 7 (32K window), section 2.2 of RFC 1950. */
  const ZLibCmf: bv8 := 0x78

  /**
    The signature sniff. Only GZip and ZLib have signatures; a ZLib match
    looks at the first byte alone, yet a one-byte buffer is never sniffed.
   */
  function DetectCompressionByHeader(data: Bytes): (kind: CompressionKind)
    ensures |data| < 2 ==> kind == Unknown
    ensures kind == GZip <==> |data| >= 2 && data[0] == GZipId1 && data[1] == GZipId2
    ensures kind == ZLib <==> |data| >= 2 && data[0] == ZLibCmf
    ensures kind != Plain && kind != Deflate
  {
    if |data| < 2 then Unknown
    else if data[0] == GZipId1 && data[1] == GZipId2 then GZip
    else if data[0] == ZLibCmf then ZLib
    else Unknown
  }

  /** The decoder that recovers text of each kind; Unknown has none. */
  function Decoder(c: Codecs, kind: CompressionKind): Bytes -> Option<string> {
    match kind
    case GZip => c.gzipDecompress
    case ZLib => c.zlibDecompress
    case Deflate => c.deflateDecompress
    case Plain => c.utf8Decode
    case Unknown => (_: Bytes) => None
  }

  /** The encoder each kind applies to the UTF-8 bytes of the text. */
  function Encoder(c: Codecs, kind: CompressionKind): Bytes -> Bytes
    requires kind.IsScheme()
  {
    match kind
    case GZip => c.gzipCompress
    case ZLib => c.zlibCompress
    case Deflate => c.deflateCompress
    case Plain => (b: Bytes) => b
  }

  /** Step 1 of the cascade: the decompressor the header names, if it names one. */
  function HeaderAttempt(c: Codecs, data: Bytes): Option<string> {
    var header := DetectCompressionByHeader(data);
    if header == GZip || header == ZLib then Decoder(c, header)(data) else None
  }

  /**
    The decode cascade: the header-matched decompressor, then raw Deflate,
    then plain UTF-8, then failure. Every attempt reads the original bytes.
   */
  function DecompressAuto(c: Codecs, data: Bytes): (r: Decompressed)
    ensures r.detected == GZip <==> DetectCompressionByHeader(data) == GZip && c.gzipDecompress(data).Some?
    ensures r.detected == ZLib <==> DetectCompressionByHeader(data) == ZLib && c.zlibDecompress(data).Some?
    ensures r.detected == Deflate <==> HeaderAttempt(c, data).None? && c.deflateDecompress(data).Some?
    ensures r.detected == Plain <==>
              HeaderAttempt(c, data).None? && c.deflateDecompress(data).None? && c.utf8Decode(data).Some?
    ensures r.detected == Unknown <==> r.text.Failure?
    ensures r.text.Failure? ==> r.text.error == UndecodableContent
    ensures r.text.Success? ==> Decoder(c, r.detected)(data) == Some(r.text.value)
  {
    var header := DetectCompressionByHeader(data);
    var fromHeader := HeaderAttempt(c, data);
    if fromHeader.Some? then
      Decompressed(Success(fromHeader.value), header)
    else if c.deflateDecompress(data).Some? then
      Decompressed(Success(c.deflateDecompress(data).value), Deflate)
    else if c.utf8Decode(data).Some? then
      Decompressed(Success(c.utf8Decode(data).value), Plain)
    else
      Decompressed(Failure(UndecodableContent), Unknown)
  }

  /**
    The cascade as an ordered list of fallible strategies: the first kind in
    `kinds` whose decoder accepts `data` wins, and failure follows only when
    all of them refuse.
   */
  function FirstSuccess(c: Codecs, kinds: seq<CompressionKind>, data: Bytes): (r: Decompressed)
    ensures r.text.Success? ==>
              exists j :: 0 <= j < |kinds| && kinds[j] == r.detected
                && Decoder(c, kinds[j])(data) == Some(r.text.value)
                && forall k :: 0 <= k < j ==> Decoder(c, kinds[k])(data).None?
    ensures r.text.Failure? ==>
              r == Decompressed(Failure(UndecodableContent), Unknown)
              && forall k :: 0 <= k < |kinds| ==> Decoder(c, kinds[k])(data).None?
  {
    if |kinds| == 0 then
      Decompressed(Failure(UndecodableContent), Unknown)
    else if Decoder(c, kinds[0])(data).Some? then
      Decompressed(Success(Decoder(c, kinds[0])(data).value), kinds[0])
    else
      var rest := FirstSuccess(c, kinds[1..], data);
      assert rest.text.Success? ==>
        (exists j :: 1 <= j < |kinds| && kinds[j] == rest.detected
           && Decoder(c, kinds[j])(data) == Some(rest.text.value)
           && forall k :: 0 <= k < j ==> Decoder(c, kinds[k])(data).None?) by {
        if rest.text.Success? {
          var j :| 0 <= j < |kinds[1..]| && kinds[1..][j] == rest.detected
            && Decoder(c, kinds[1..][j])(data) == Some(rest.text.value)
            && forall k :: 0 <= k < j ==> Decoder(c, kinds[1..][k])(data).None?;
          assert forall k :: 0 <= k < j + 1 ==> Decoder(c, kinds[k])(data).None? by {
            forall k | 0 <= k < j + 1 ensures Decoder(c, kinds[k])(data).None? {
              if k > 0 { assert kinds[k] == kinds[1..][k - 1]; }
            }
          }
        }
      }
      rest
  }

  /** The strategies the cascade tries on `data`, in order. */
  function Strategies(data: Bytes): seq<CompressionKind> {
    var header := DetectCompressionByHeader(data);
    (if header == GZip || header == ZLib then [header] else []) + [Deflate, Plain]
  }

  /** The cascade is exactly "first success" over its strategy list. */
  lemma DecompressAutoIsFirstSuccess(c: Codecs, data: Bytes)
    ensures DecompressAuto(c, data) == FirstSuccess(c, Strategies(data), data)
  {
    var header := DetectCompressionByHeader(data);
    var tail: seq<CompressionKind> := [Deflate, Plain];
    assert tail[1..] == [Plain] && [Plain][1..] == [];
    assert FirstSuccess(c, [Plain], data) == (
      if c.utf8Decode(data).Some? then Decompressed(Success(c.utf8Decode(data).value), Plain)
      else Decompressed(Failure(UndecodableContent), Unknown));
    if header == GZip || header == ZLib {
      assert Strategies(data) == [header] + tail;
      assert ([header] + tail)[1..] == tail;
    } else {
      assert Strategies(data) == tail;
    }
  }

  /**
    When the cascade stops at `kind`: the stage that tries `kind` is reached
    only when every earlier stage declined the bytes.
   */
  ghost predicate ReachesStage(c: Codecs, kind: CompressionKind, data: Bytes) {
    match kind
    case GZip => DetectCompressionByHeader(data) == GZip
    case ZLib => DetectCompressionByHeader(data) == ZLib
    case Deflate => HeaderAttempt(c, data).None?
    case Plain => HeaderAttempt(c, data).None? && c.deflateDecompress(data).None?
    case Unknown => false
  }

  /** The cascade returns `text` as `kind` exactly when the stage for `kind` is reached and its decoder yields `text`. */
  lemma CascadeSelects(c: Codecs, data: Bytes, kind: CompressionKind, text: string)
    ensures DecompressAuto(c, data) == Decompressed(Success(text), kind)
            <==> ReachesStage(c, kind, data) && Decoder(c, kind)(data) == Some(text)
  {
  }

  /** With a lenient UTF-8 decoder (the .NET default replaces bad sequences instead of throwing) the cascade never fails. */
  lemma LenientUtf8NeverFails(c: Codecs, data: Bytes)
    requires c.utf8Decode(data).Some?
    ensures DecompressAuto(c, data).text.Success?
    ensures DecompressAuto(c, data).detected.IsScheme()
  {
  }

  /** Compression dispatch: encode the text as UTF-8, then apply the kind's compressor. */
  function Compress(c: Codecs, text: string, kind: CompressionKind): (r: Result<Bytes, CompressionError>)
    ensures r.Failure? <==> kind == Unknown
    ensures r.Failure? ==> r.error == UnsupportedKind(kind)
    ensures kind == Plain ==> r == Success(c.utf8Encode(text))
    ensures kind == GZip ==> r == Success(c.gzipCompress(c.utf8Encode(text)))
    ensures kind == ZLib ==> r == Success(c.zlibCompress(c.utf8Encode(text)))
    ensures kind == Deflate ==> r == Success(c.deflateCompress(c.utf8Encode(text)))
  {
    var textBytes := c.utf8Encode(text);
    match kind
    case Plain => Success(textBytes)
    case GZip => Success(c.gzipCompress(textBytes))
    case ZLib => Success(c.zlibCompress(textBytes))
    case Deflate => Success(c.deflateCompress(textBytes))
    case Unknown => Failure(UnsupportedKind(kind))
  }

  /**
    The decoder of `kind` recovers `text` from what `Compress` wrote for it with
    `kind`. This is a property of one text, not of every text: the stream
    decoders read through a `StreamReader`, which drops a leading U+FEFF.
   */
  predicate Inverts(c: Codecs, kind: CompressionKind, text: string)
    requires kind.IsScheme()
  {
    Decoder(c, kind)(Encoder(c, kind)(c.utf8Encode(text))) == Some(text)
  }

  /** Every gzip stream starts with ID1 ID2. */
  ghost predicate GZipFramed(c: Codecs) {
    forall b :: |c.gzipCompress(b)| >= 2 && c.gzipCompress(b)[0] == GZipId1 && c.gzipCompress(b)[1] == GZipId2
  }

  /** Every zlib stream written at maximum compression starts with CMF 0x78 and a FLG byte. */
  ghost predicate ZLibFramed(c: Codecs) {
    forall b :: |c.zlibCompress(b)| >= 2 && c.zlibCompress(b)[0] == ZLibCmf
  }

  /**
    Round trip through the cascade. GZip and ZLib need only their framing;
    Deflate and Plain have no signature, so they round-trip only when the
    earlier stages decline the stream.
   */
  lemma RoundTrip(c: Codecs, text: string, kind: CompressionKind)
    requires kind.IsScheme() && Inverts(c, kind, text)
    requires kind == GZip ==> GZipFramed(c)
    requires kind == ZLib ==> ZLibFramed(c)
    requires kind == Deflate || kind == Plain ==> ReachesStage(c, kind, Encoder(c, kind)(c.utf8Encode(text)))
    ensures Compress(c, text, kind).Success?
    ensures DecompressAuto(c, Compress(c, text, kind).value) == Decompressed(Success(text), kind)
  {
  }

  /**
    Plain text whose UTF-8 bytes happen to inflate as raw Deflate comes back
    labelled Deflate, with the inflated text: Plain is the last resort.
   */
  lemma PlainShadowedByDeflate(c: Codecs, text: string)
    requires HeaderAttempt(c, c.utf8Encode(text)).None?
    requires c.deflateDecompress(c.utf8Encode(text)).Some?
    ensures DecompressAuto(c, Compress(c, text, Plain).value)
            == Decompressed(Success(c.deflateDecompress(c.utf8Encode(text)).value), Deflate)
  {
  }

  /** GetHumanReadableName: a total label map. */
  function GetHumanReadableName(kind: CompressionKind): (name: string)
    ensures |name| > 0
  {
    match kind
    case GZip => "GZip (1F 8B)"
    case ZLib => "ZLib (78 ??)"
    case Deflate => "Raw Deflate"
    case Plain => "Нет (plain UTF-8)"
    case Unknown => "Неизвестно"
  }

  /** Different kinds never share a label, so the label identifies the kind. */
  lemma HumanReadableNamesDistinct(a: CompressionKind, b: CompressionKind)
    ensures GetHumanReadableName(a) == GetHumanReadableName(b) ==> a == b
  {
  }
}
