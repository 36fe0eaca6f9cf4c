/** Content sniffing over a file's leading bytes (at most `HEADER_CAP` of
    them): the container detectors, the JSON shape test, the fixed signature
    table, the text/binary ratio heuristic, and the reconciliation of the
    detected label with the file's declared extension. */
module Detect {
  import opened Common
  import opened Prompt

  /** How many leading bytes of a file are ever read. */
  const HEADER_CAP: nat := 64

  /** The bytes the prefix reader returns: never more than the cap. */
  type Prefix = b: seq<byte> | |b| <= HEADER_CAP

  /** A literal byte pattern expected at a fixed offset, and the label it gives. */
  datatype Sig = Sig(pattern: seq<byte>, offset: nat, ext: string)

  /** Signatures used to label a file, in priority order: the first match wins. */
  const FIXED_SIGNATURES: seq<Sig> := [
    Sig([0x89, 0x50, 0x4E, 0x47, 0x0D, 0x0A, 0x1A, 0x0A], 0, "png"),  // \x89PNG\r\n\x1A\n
    Sig([0xFF, 0xD8, 0xFF], 0, "jpg"),
    Sig([0x47, 0x49, 0x46, 0x38, 0x37, 0x61], 0, "gif"),              // GIF87a
    Sig([0x47, 0x49, 0x46, 0x38, 0x39, 0x61], 0, "gif"),              // GIF89a
    Sig([0x42, 0x4D], 0, "bmp"),                                      // BM
    Sig([0x25, 0x50, 0x44, 0x46], 0, "pdf"),                          // %PDF
    Sig([0x25, 0x21, 0x50, 0x53, 0x2D, 0x41, 0x64, 0x6F, 0x62, 0x65, 0x2D], 0, "ps"),  // %!PS-Adobe-
    Sig([0x50, 0x4B, 0x03, 0x04], 0, "zip"),                          // PK\x03\x04
    Sig([0x1F, 0x8B, 0x08], 0, "gz"),
    Sig([0x1A, 0x45, 0xDF, 0xA3], 0, "mkv"),
    Sig([0x57, 0x45, 0x42, 0x50], 8, "webp"),                         // WEBP at offset 8
    Sig([0x49, 0x44, 0x33], 0, "mp3"),                                // ID3
    Sig([0x4F, 0x67, 0x67, 0x53], 0, "ogg"),                          // OggS
    Sig([0x66, 0x4C, 0x61, 0x43], 0, "flac"),                         // fLaC
    Sig([0x00, 0x00, 0x01, 0x00], 0, "ico"),
    Sig([0x49, 0x49, 0x2A, 0x00], 0, "tif"),                          // II*\0
    Sig([0x4D, 0x4D, 0x00, 0x2A], 0, "tif"),                          // MM\0*
    Sig([0x52, 0x61, 0x72, 0x21, 0x1A, 0x07, 0x00], 0, "rar"),        // Rar!\x1A\x07\0
    Sig([0x37, 0x7A, 0xBC, 0xAF, 0x27, 0x1C], 0, "7z")
  ]

  /** Signatures that mark a file as binary (executables); never used for labels. */
  const BINARY_SIGNATURES: seq<Sig> := [
    Sig([0x4D, 0x5A], 0, "exe"),                                      // MZ
    Sig([0x7F, 0x45, 0x4C, 0x46], 0, "elf"),                          // \x7FELF
    Sig([0xCA, 0xFE, 0xBA, 0xBE], 0, "mach-o"),
    Sig([0xCF, 0xFA, 0xED, 0xFE], 0, "mach-o"),
    Sig([0xFE, 0xED, 0xFA, 0xCF], 0, "mach-o"),
    Sig([0xFE, 0xED, 0xFA, 0xCE], 0, "mach-o"),
    Sig([0x00, 0x61, 0x73, 0x6D], 0, "wasm")                          // \0asm
  ]

  // ---------------------------------------------------------------------------
  // Byte matching

  /** `pat` occurs in `buf` exactly at `offset`; false when `buf` is too short. */
  predicate StartsWithAt(buf: seq<byte>, offset: nat, pat: seq<byte>) {
    |buf| >= offset + |pat| && buf[offset..offset + |pat|] == pat
  }

  /** Byte-wise reading of `StartsWithAt`. */
  lemma StartsWithAtBytes(buf: seq<byte>, offset: nat, pat: seq<byte>)
    ensures StartsWithAt(buf, offset, pat) <==>
      |buf| >= offset + |pat| && forall k :: 0 <= k < |pat| ==> buf[offset + k] == pat[k]
  {
    if |buf| >= offset + |pat| && forall k :: 0 <= k < |pat| ==> buf[offset + k] == pat[k] {
      assert buf[offset..offset + |pat|] == pat;
    }
  }

  /** The window scan of `contains`: slide a `|pat|`-byte window from the left. */
  function Contains(buf: seq<byte>, pat: seq<byte>): bool
    decreases |buf|
  {
    if |pat| == 0 || |buf| < |pat| then false
    else buf[..|pat|] == pat || Contains(buf[1..], pat)
  }

  /** `contains` holds exactly when the pattern is non-empty and occurs at some offset. */
  lemma {:induction false} ContainsIff(buf: seq<byte>, pat: seq<byte>)
    ensures Contains(buf, pat) <==> |pat| > 0 && exists i: nat :: StartsWithAt(buf, i, pat)
    decreases |buf|
  {
    if |pat| == 0 {
    } else if |buf| < |pat| {
      forall i: nat ensures !StartsWithAt(buf, i, pat) {
      }
    } else {
      ContainsIff(buf[1..], pat);
      if buf[..|pat|] == pat {
        assert StartsWithAt(buf, 0, pat);
      } else if Contains(buf[1..], pat) {
        var j: nat :| StartsWithAt(buf[1..], j, pat);
        assert buf[1..][j..j + |pat|] == buf[j + 1..j + 1 + |pat|];
        assert StartsWithAt(buf, j + 1, pat);
      } else {
        forall i: nat ensures !StartsWithAt(buf, i, pat) {
          if i > 0 && StartsWithAt(buf, i, pat) {
            assert buf[1..][i - 1..i - 1 + |pat|] == buf[i..i + |pat|];
            assert StartsWithAt(buf[1..], i - 1, pat);
          }
        }
      }
    }
  }

  // ---------------------------------------------------------------------------
  // Container detectors

  const FTYP: seq<byte> := [0x66, 0x74, 0x79, 0x70]           // "ftyp"

  /** ISO-BMFF major brands that name plain MP4. */
  const MP4_BRANDS: set<seq<byte>> := {
    [0x69, 0x73, 0x6F, 0x6D],  // isom
    [0x69, 0x73, 0x6F, 0x32],  // iso2
    [0x6D, 0x70, 0x34, 0x31],  // mp41
    [0x6D, 0x70, 0x34, 0x32],  // mp42
    [0x61, 0x76, 0x63, 0x31],  // avc1
    [0x4D, 0x53, 0x4E, 0x56],  // MSNV
    [0x6D, 0x70, 0x37, 0x31]   // mp71
  }
  const BRAND_M4V: seq<byte> := [0x4D, 0x34, 0x56, 0x20]      // "M4V "
  const BRAND_M4A: seq<byte> := [0x4D, 0x34, 0x41, 0x20]      // "M4A "
  const BRAND_M4B: seq<byte> := [0x4D, 0x34, 0x42, 0x20]      // "M4B "
  const BRAND_QT: seq<byte> := [0x71, 0x74, 0x20, 0x20]       // "qt  "

  /** The labels the MP4 detector can give. */
  predicate IsMp4Label(l: string) {
    l == "mp4" || l == "m4v" || l == "m4a" || l == "m4b" || l == "mov"
  }

  /** `detect_mp4_like`: an `ftyp` box at offset 4; the brand at 8..12 picks the
      label and an unknown brand still gives "mp4". */
  function DetectMp4Like(buf: seq<byte>): (r: Option<string>)
    ensures r.Some? <==> |buf| >= 12 && StartsWithAt(buf, 4, FTYP)
    ensures r.Some? ==> IsMp4Label(r.value)
  {
    if |buf| < 12 || !StartsWithAt(buf, 4, FTYP) then None
    else
      var brand := buf[8..12];
      Some(
        if brand in MP4_BRANDS then "mp4"
        else if brand == BRAND_M4V then "m4v"
        else if brand == BRAND_M4A then "m4a"
        else if brand == BRAND_M4B then "m4b"
        else if brand == BRAND_QT then "mov"
        else "mp4")
  }

  /** A recognised `ftyp` marker never yields "no match": a brand outside the
      table falls back to "mp4". */
  lemma Mp4UnknownBrandDefaults(buf: seq<byte>)
    requires |buf| >= 12 && StartsWithAt(buf, 4, FTYP)
    requires buf[8..12] !in {BRAND_M4V, BRAND_M4A, BRAND_M4B, BRAND_QT}
    ensures DetectMp4Like(buf) == Some("mp4")
  {
  }

  const RIFF: seq<byte> := [0x52, 0x49, 0x46, 0x46]           // "RIFF"
  const FOURCC_WEBP: seq<byte> := [0x57, 0x45, 0x42, 0x50]    // "WEBP"
  const FOURCC_WAVE: seq<byte> := [0x57, 0x41, 0x56, 0x45]    // "WAVE"
  const FOURCC_AVI: seq<byte> := [0x41, 0x56, 0x49, 0x20]     // "AVI "

  /** The labels the RIFF detector can give. */
  predicate IsRiffLabel(l: string) {
    l == "webp" || l == "wav" || l == "avi"
  }

  /** `detect_riff_typed`: a RIFF header whose form type at 8..12 is one of
      three known fourCCs; any other fourCC is no match. */
  function DetectRiffTyped(buf: seq<byte>): (r: Option<string>)
    ensures r.Some? <==>
      |buf| >= 12 && StartsWithAt(buf, 0, RIFF) && buf[8..12] in {FOURCC_WEBP, FOURCC_WAVE, FOURCC_AVI}
    ensures r.Some? ==> IsRiffLabel(r.value)
  {
    if |buf| < 12 || !StartsWithAt(buf, 0, RIFF) then None
    else if buf[8..12] == FOURCC_WEBP then Some("webp")
    else if buf[8..12] == FOURCC_WAVE then Some("wav")
    else if buf[8..12] == FOURCC_AVI then Some("avi")
    else None
  }

  const ZIP_MAGIC: seq<byte> := [0x50, 0x4B, 0x03, 0x04]      // "PK\x03\x04"
  const CONTENT_TYPES: seq<byte> := [0x5B, 0x43, 0x6F, 0x6E, 0x74, 0x65, 0x6E, 0x74, 0x5F, 0x54,
                                     0x79, 0x70, 0x65, 0x73, 0x5D, 0x2E, 0x78, 0x6D, 0x6C]  // "[Content_Types].xml"
  const WORD_DIR: seq<byte> := [0x77, 0x6F, 0x72, 0x64, 0x2F]  // "word/"
  const XL_DIR: seq<byte> := [0x78, 0x6C, 0x2F]                // "xl/"
  const PPT_DIR: seq<byte> := [0x70, 0x70, 0x74, 0x2F]         // "ppt/"
  const ANDROID_MANIFEST: seq<byte> := [0x41, 0x6E, 0x64, 0x72, 0x6F, 0x69, 0x64, 0x4D, 0x61, 0x6E,
                                        0x69, 0x66, 0x65, 0x73, 0x74, 0x2E, 0x78, 0x6D, 0x6C]  // "AndroidManifest.xml"
  const META_INF: seq<byte> := [0x4D, 0x45, 0x54, 0x41, 0x2D, 0x49, 0x4E, 0x46, 0x2F]  // "META-INF/"

  /** The labels the ZIP detector can give. */
  predicate IsZipLabel(l: string) {
    l == "docx" || l == "xlsx" || l == "pptx" || l == "apk" || l == "jar" || l == "zip"
  }

  /** `detect_zip_like`: a local-file header at offset 0, refined by the first
      member-name marker found anywhere in the prefix. */
  function DetectZipLike(buf: seq<byte>): (r: Option<string>)
    ensures r.Some? <==> StartsWithAt(buf, 0, ZIP_MAGIC)
    ensures r.Some? ==> IsZipLabel(r.value)
  {
    if !StartsWithAt(buf, 0, ZIP_MAGIC) then None
    else if Contains(buf, CONTENT_TYPES) || Contains(buf, WORD_DIR) then Some("docx")
    else if Contains(buf, XL_DIR) then Some("xlsx")
    else if Contains(buf, PPT_DIR) then Some("pptx")
    else if Contains(buf, ANDROID_MANIFEST) then Some("apk")
    else if Contains(buf, META_INF) then Some("jar")
    else Some("zip")
  }

  /** The ZIP refinement in terms of occurrences: docx before xlsx before pptx
      before apk before jar, and plain "zip" only when no marker occurs. */
  lemma ZipPriority(buf: seq<byte>)
    requires StartsWithAt(buf, 0, ZIP_MAGIC)
    ensures var occurs := (pat: seq<byte>) => exists i: nat :: StartsWithAt(buf, i, pat);
      DetectZipLike(buf) == Some(
        if occurs(CONTENT_TYPES) || occurs(WORD_DIR) then "docx"
        else if occurs(XL_DIR) then "xlsx"
        else if occurs(PPT_DIR) then "pptx"
        else if occurs(ANDROID_MANIFEST) then "apk"
        else if occurs(META_INF) then "jar"
        else "zip")
  {
    ContainsIff(buf, CONTENT_TYPES);
    ContainsIff(buf, WORD_DIR);
    ContainsIff(buf, XL_DIR);
    ContainsIff(buf, PPT_DIR);
    ContainsIff(buf, ANDROID_MANIFEST);
    ContainsIff(buf, META_INF);
  }

  // ---------------------------------------------------------------------------
  // JSON shape

  /** `u8::is_ascii_whitespace`: space, tab, line feed, form feed, carriage
      return (not vertical tab). */
  predicate IsAsciiWhitespace(b: byte) {
    b == 0x20 || b == 0x09 || b == 0x0A || b == 0x0C || b == 0x0D
  }

  /** `"`, `:` or `,`. */
  predicate IsJsonPunct(b: byte) {
    b == 0x22 || b == 0x3A || b == 0x2C
  }

  /** `{` or `[`. */
  predicate IsJsonOpener(b: byte) {
    b == 0x7B || b == 0x5B
  }

  const UTF8_BOM: seq<byte> := [0xEF, 0xBB, 0xBF]

  /** The length of the leading whitespace run of `s`. */
  function SkipWhitespace(s: seq<byte>): (k: nat)
    ensures k <= |s|
    ensures forall j :: 0 <= j < k ==> IsAsciiWhitespace(s[j])
    ensures k < |s| ==> !IsAsciiWhitespace(s[k])
  {
    if s == [] || !IsAsciiWhitespace(s[0]) then 0 else 1 + SkipWhitespace(s[1..])
  }

  /** The part of the prefix the JSON test looks at: a UTF-8 BOM is dropped. */
  function JsonBody(buf: seq<byte>): (body: seq<byte>)
    ensures StartsWithAt(buf, 0, UTF8_BOM) ==> body == buf[3..]
    ensures !StartsWithAt(buf, 0, UTF8_BOM) ==> body == buf
  {
    if StartsWithAt(buf, 0, UTF8_BOM) then buf[3..] else buf
  }

  /** `detect_json`: the first non-whitespace byte after an optional BOM opens
      an object or array, and a quote, colon or comma occurs after the BOM. */
  function DetectJson(buf: seq<byte>): (r: Option<string>)
    ensures r.Some? ==> r.value == "json"
  {
    var body := JsonBody(buf);
    var k := SkipWhitespace(body);
    if k < |body| && IsJsonOpener(body[k]) && exists i | 0 <= i < |body| :: IsJsonPunct(body[i])
    then Some("json")
    else None
  }

  /** The JSON test stated without the whitespace scan: some position is
      preceded only by whitespace and holds an opener, and punctuation occurs. */
  lemma DetectJsonIff(buf: seq<byte>)
    ensures var body := JsonBody(buf);
      DetectJson(buf).Some? <==>
        (exists k | 0 <= k < |body| ::
           IsJsonOpener(body[k]) && forall j | 0 <= j < k :: IsAsciiWhitespace(body[j]))
        && (exists i | 0 <= i < |body| :: IsJsonPunct(body[i]))
  {
    var body := JsonBody(buf);
    var k0 := SkipWhitespace(body);
    if exists k | 0 <= k < |body| :: IsJsonOpener(body[k]) && forall j | 0 <= j < k :: IsAsciiWhitespace(body[j]) {
      var k :| 0 <= k < |body| && IsJsonOpener(body[k]) && forall j | 0 <= j < k :: IsAsciiWhitespace(body[j]);
      // the opener is not whitespace, so the scan stops exactly there
      assert !IsAsciiWhitespace(body[k]);
      assert k0 == k;
    }
  }

  /** A prefix that is empty or whitespace after the optional BOM is never JSON. */
  lemma DetectJsonBlank(buf: seq<byte>)
    requires forall j | 0 <= j < |JsonBody(buf)| :: IsAsciiWhitespace(JsonBody(buf)[j])
    ensures DetectJson(buf) == None
  {
  }

  // ---------------------------------------------------------------------------
  // Fixed signature table

  predicate Matches(sig: Sig, buf: seq<byte>) {
    StartsWithAt(buf, sig.offset, sig.pattern)
  }

  /** `iter().find(...).map(|sig| sig.ext)`: the label of the first matching
      signature. */
  function FindSig(sigs: seq<Sig>, buf: seq<byte>): (r: Option<string>)
    ensures r.Some? <==> exists i | 0 <= i < |sigs| :: Matches(sigs[i], buf)
    ensures r.Some? ==> exists i | 0 <= i < |sigs| ::
      Matches(sigs[i], buf) && r.value == sigs[i].ext &&
      forall j | 0 <= j < i :: !Matches(sigs[j], buf)
  {
    if sigs == [] then None
    else if Matches(sigs[0], buf) then Some(sigs[0].ext)
    else
      var r := FindSig(sigs[1..], buf);
      assert forall i | 1 <= i < |sigs| :: sigs[1..][i - 1] == sigs[i];
      r
  }

  /** `detect_fixed`. */
  function DetectFixed(buf: seq<byte>): (r: Option<string>)
    ensures r.Some? ==> IsFixedLabel(r.value)
  {
    FixedLabelsListed();
    FindSig(FIXED_SIGNATURES, buf)
  }

  /** `BINARY_SIGNATURES.iter().any(...)`. */
  predicate MatchesBinarySignature(buf: seq<byte>) {
    exists i | 0 <= i < |BINARY_SIGNATURES| :: Matches(BINARY_SIGNATURES[i], buf)
  }

  // ---------------------------------------------------------------------------
  // Text/binary ratio

  /** Tab, line feed, carriage return and printable ASCII. */
  predicate IsTextByte(b: byte) {
    b == 0x09 || b == 0x0A || b == 0x0D || 0x20 <= b <= 0x7E
  }

  /** How many bytes of `s` are not text bytes. */
  function NonTextCount(s: seq<byte>): (n: nat)
    ensures n <= |s|
    ensures n == 0 <==> forall i | 0 <= i < |s| :: IsTextByte(s[i])
    ensures n == |s| <==> forall i | 0 <= i < |s| :: !IsTextByte(s[i])
  {
    if s == [] then 0
    else
      var n := (if IsTextByte(s[0]) then 0 else 1) + NonTextCount(s[1..]);
      assert forall i | 1 <= i < |s| :: s[1..][i - 1] == s[i];
      n
  }

  /** The count splits over concatenation, so it does not depend on where the
      prefix is cut. */
  lemma {:induction false} NonTextCountAppend(a: seq<byte>, b: seq<byte>)
    ensures NonTextCount(a + b) == NonTextCount(a) + NonTextCount(b)
  {
    if a == [] {
      assert a + b == b;
    } else {
      assert (a + b)[0] == a[0] && (a + b)[1..] == a[1..] + b;
      NonTextCountAppend(a[1..], b);
    }
  }

  /** `looks_binary`: any zero byte, or more than 30% non-text bytes. The
      source divides in `f32`; for the at most 64 bytes of a prefix the
      integer comparison below gives the same answer. */
  function LooksBinary(buf: seq<byte>): (r: bool)
    ensures |buf| == 0 ==> !r
    ensures (exists i | 0 <= i < |buf| :: buf[i] == 0) ==> r
    ensures (forall i | 0 <= i < |buf| :: buf[i] != 0) ==> (r <==> 10 * NonTextCount(buf) > 3 * |buf|)
  {
    if |buf| == 0 then false
    else if exists i | 0 <= i < |buf| :: buf[i] == 0 then true
    else 10 * NonTextCount(buf) > 3 * |buf|
  }

  /** Printable text is never binary. */
  lemma TextIsNotBinary(buf: seq<byte>)
    requires forall i | 0 <= i < |buf| :: IsTextByte(buf[i])
    ensures !LooksBinary(buf)
  {
  }

  // ---------------------------------------------------------------------------
  // Signature detection and the binary verdict

  /** The labels of the fixed table, written out. */
  predicate IsFixedLabel(l: string) {
    l == "png" || l == "jpg" || l == "gif" || l == "bmp" || l == "pdf" || l == "ps" || l == "zip"
    || l == "gz" || l == "mkv" || l == "webp" || l == "mp3" || l == "ogg" || l == "flac" || l == "ico"
    || l == "tif" || l == "rar" || l == "7z"
  }

  /** The labels of the binary-indicating table, written out. */
  predicate IsBinaryOnlyLabel(l: string) {
    l == "exe" || l == "elf" || l == "mach-o" || l == "wasm"
  }

  /** Every label signature detection can give. */
  predicate IsDetectableLabel(l: string) {
    IsMp4Label(l) || IsRiffLabel(l) || IsZipLabel(l) || l == "json" || IsFixedLabel(l)
  }

  lemma FixedLabelsListed()
    ensures forall i | 0 <= i < |FIXED_SIGNATURES| :: IsFixedLabel(FIXED_SIGNATURES[i].ext)
  {
  }

  lemma BinaryLabelsListed()
    ensures forall i | 0 <= i < |BINARY_SIGNATURES| :: IsBinaryOnlyLabel(BINARY_SIGNATURES[i].ext)
  {
  }

  /** No detectable label is an executable label. */
  lemma DetectableNotBinaryOnly(l: string)
    requires IsDetectableLabel(l)
    ensures !IsBinaryOnlyLabel(l)
  {
  }

  /** `detect_by_signature_buf`: nothing for an empty prefix; otherwise the
      MP4, RIFF, ZIP and JSON detectors and then the fixed table, the first
      answer winning. The binary-indicating table is not consulted. */
  function DetectBySignatureBuf(buf: seq<byte>): (r: Option<string>)
    ensures |buf| == 0 ==> r == None
    ensures r.Some? ==> IsDetectableLabel(r.value)
  {
    if |buf| == 0 then None
    else if DetectMp4Like(buf).Some? then DetectMp4Like(buf)
    else if DetectRiffTyped(buf).Some? then DetectRiffTyped(buf)
    else if DetectZipLike(buf).Some? then DetectZipLike(buf)
    else if DetectJson(buf).Some? then DetectJson(buf)
    else DetectFixed(buf)
  }

  /** A prefix gets no label exactly when it is empty or no detector
      recognises it: no `ftyp` box, no known RIFF form, no ZIP magic, no
      JSON shape, and no entry of the fixed table. */
  lemma DetectNoneIff(buf: seq<byte>)
    ensures DetectBySignatureBuf(buf).None? <==>
      |buf| == 0 ||
      (&& !(|buf| >= 12 && StartsWithAt(buf, 4, FTYP))
       && !(|buf| >= 12 && StartsWithAt(buf, 0, RIFF) && buf[8..12] in {FOURCC_WEBP, FOURCC_WAVE, FOURCC_AVI})
       && !StartsWithAt(buf, 0, ZIP_MAGIC)
       && DetectJson(buf).None?
       && forall i | 0 <= i < |FIXED_SIGNATURES| :: !Matches(FIXED_SIGNATURES[i], buf))
  {
  }

  /** On a non-empty prefix the detectors are tried in the order MP4, RIFF,
      ZIP, JSON, fixed table, and the first that answers decides. */
  lemma DetectOrder(buf: seq<byte>)
    requires |buf| > 0
    ensures DetectMp4Like(buf).Some? ==> DetectBySignatureBuf(buf) == DetectMp4Like(buf)
    ensures DetectMp4Like(buf).None? && DetectRiffTyped(buf).Some? ==>
      DetectBySignatureBuf(buf) == DetectRiffTyped(buf)
    ensures DetectMp4Like(buf).None? && DetectRiffTyped(buf).None? && DetectZipLike(buf).Some? ==>
      DetectBySignatureBuf(buf) == DetectZipLike(buf)
    ensures (DetectMp4Like(buf).None? && DetectRiffTyped(buf).None? && DetectZipLike(buf).None? && DetectJson(buf).Some?)
      ==> DetectBySignatureBuf(buf) == Some("json")
    ensures (DetectMp4Like(buf).None? && DetectRiffTyped(buf).None? && DetectZipLike(buf).None? && DetectJson(buf).None?)
      ==> DetectBySignatureBuf(buf) == DetectFixed(buf)
  {
  }

  /** A label detected from the signature is never one of the executable
      labels of the binary-indicating table. */
  lemma DetectNeverBinaryOnlyLabel(buf: seq<byte>)
    ensures DetectBySignatureBuf(buf).Some? ==>
      forall i | 0 <= i < |BINARY_SIGNATURES| :: DetectBySignatureBuf(buf).value != BINARY_SIGNATURES[i].ext
  {
    var r := DetectBySignatureBuf(buf);
    if r.Some? {
      BinaryLabelsListed();
      DetectableNotBinaryOnly(r.value);
    }
  }

  /** A prefix with the ZIP magic is decided by the MP4 or the ZIP detector,
      so the fixed table's own "zip" entry is never the one that answers. */
  lemma ZipMagicDecidedByContainers(buf: seq<byte>)
    requires StartsWithAt(buf, 0, ZIP_MAGIC)
    ensures DetectBySignatureBuf(buf) ==
      if DetectMp4Like(buf).Some? then DetectMp4Like(buf) else DetectZipLike(buf)
    ensures DetectBySignatureBuf(buf).Some?
  {
    assert buf[0] == ZIP_MAGIC[0] != RIFF[0];
  }

  /** The labels of the fixed table that `is_binary` treats as binary. */
  predicate IsBinaryFixedLabel(l: string) {
    l == "png" || l == "jpg" || l == "gif" || l == "bmp" || l == "pdf" || l == "ps" || l == "webp"
    || l == "mkv" || l == "ico" || l == "tif" || l == "gz" || l == "rar" || l == "7z" || l == "mp3"
    || l == "ogg" || l == "flac" || l == "zip"
  }

  /** The signature part of `is_binary`: an executable signature, a container,
      or a fixed-table label from its list. */
  predicate HasBinarySignature(buf: seq<byte>) {
    || MatchesBinarySignature(buf)
    || DetectMp4Like(buf).Some?
    || DetectRiffTyped(buf).Some?
    || DetectZipLike(buf).Some?
    || (DetectFixed(buf).Some? && IsBinaryFixedLabel(DetectFixed(buf).value))
  }

  /** The verdict of `is_binary` on the prefix it read: never for an empty
      prefix; always for a binary-indicating or container signature or a
      listed fixed label; never for a JSON-shaped prefix without one; and the
      ratio heuristic otherwise. */
  function IsBinaryBuf(buf: seq<byte>): (r: bool)
    ensures |buf| == 0 ==> !r
    ensures |buf| > 0 && HasBinarySignature(buf) ==> r
    ensures !HasBinarySignature(buf) && DetectJson(buf).Some? ==> !r
    ensures !HasBinarySignature(buf) && DetectJson(buf).None? ==> r == LooksBinary(buf)
  {
    if |buf| == 0 then false
    else if MatchesBinarySignature(buf) then true
    else if DetectMp4Like(buf).Some? || DetectRiffTyped(buf).Some? || DetectZipLike(buf).Some?
            || (DetectFixed(buf).Some? && IsBinaryFixedLabel(DetectFixed(buf).value)) then true
    else if DetectJson(buf).Some? then false
    else LooksBinary(buf)
  }

  /** Every fixed-table label is on the list, so any fixed match is binary. */
  lemma FixedMatchIsBinary(buf: seq<byte>)
    requires DetectFixed(buf).Some?
    ensures IsBinaryBuf(buf)
  {
    FixedLabelIsBinary(DetectFixed(buf).value);
    assert HasBinarySignature(buf);
    FixedPatternsNonEmpty();
  }

  lemma FixedPatternsNonEmpty()
    ensures forall i | 0 <= i < |FIXED_SIGNATURES| :: |FIXED_SIGNATURES[i].pattern| > 0
  {
  }

  /** Every fixed-table label is on the binary list. */
  lemma FixedLabelIsBinary(l: string)
    requires IsFixedLabel(l)
    ensures IsBinaryFixedLabel(l)
  {
  }

  /** Whatever label other than "json" signature detection gives, `is_binary`
      agrees that the file is binary. */
  lemma SignatureLabelImpliesBinary(buf: seq<byte>)
    requires DetectBySignatureBuf(buf).Some? && DetectBySignatureBuf(buf).value != "json"
    ensures IsBinaryBuf(buf)
  {
    if DetectMp4Like(buf).None? && DetectRiffTyped(buf).None? && DetectZipLike(buf).None? {
      FixedMatchIsBinary(buf);
    }
  }

  /** `is_binary`: read the prefix (a failure propagates), then judge it. */
  function IsBinary(header: Option<Prefix>): (r: Result<bool>)
    ensures r.Err? <==> header.None?
    ensures r.Err? ==> r.error == ReadFailed
    ensures r.Ok? ==> r.value == IsBinaryBuf(header.value)
  {
    match header
    case None => Err(ReadFailed)
    case Some(buf) => Ok(IsBinaryBuf(buf))
  }

  // ---------------------------------------------------------------------------
  // Reconciling the signature with the extension

  /** `ext_from_path` given the raw extension of the path: lower-cased. */
  function ExtFromPath(declared: Option<string>): (r: Option<string>)
    ensures r.Some? <==> declared.Some?
    ensures r.Some? ==> r.value == AsciiLower(declared.value) && HasNoAsciiUpper(r.value)
  {
    match declared
    case None => None
    case Some(e) => AsciiLowerHasNoUpper(e); Some(AsciiLower(e))
  }

  /** The lower-cased extension, or "unknown" for a file without one. */
  function ExtOrUnknown(declared: Option<string>): string {
    match ExtFromPath(declared)
    case None => "unknown"
    case Some(e) => e
  }

  datatype ResolveResult = ResolveResult(ext: Option<string>, mismatch: Option<(string, string)>)

  /** The detected label and the declared extension disagree. */
  predicate Conflicting(sig: Option<string>, declared: Option<string>) {
    sig.Some? && ExtFromPath(declared).Some? && ExtFromPath(declared).value != sig.value
  }

  /** The resolution asks the user: a live run over a readable prefix whose
      label conflicts with the extension. */
  predicate AsksUser(declared: Option<string>, header: Option<Prefix>, extOnly: bool, dryRun: bool) {
    !extOnly && !dryRun && header.Some? && Conflicting(DetectBySignatureBuf(header.value), declared)
  }

  /** The branch of `resolve_extension` taken once a signature label `sig`
      was found; `actual` is the lower-cased declared extension. */
  function ResolveDetected(sig: string, actual: Option<string>, dryRun: bool, input: Script)
    : (r: Result<Answer<ResolveResult>>)
    ensures r.Err? <==> actual.Some? && actual.value != sig && !dryRun && input == []
    ensures r.Err? ==> r.error == InputFailed
    ensures r.Ok? && actual.Some? && actual.value != sig && !dryRun ==> input != [] && r.value.rest == input[1..]
    ensures r.Ok? && !(actual.Some? && actual.value != sig && !dryRun) ==> r.value.rest == input
    ensures r.Ok? && r.value.got.mismatch.Some? ==>
      actual.Some? && r.value.got.mismatch.value == (sig, actual.value) && sig != actual.value
    ensures r.Ok? && r.value.got.ext.Some? ==>
      r.value.got.ext.value == sig || r.value.got.ext.value == "mismatch" || r.value.got.ext == actual
  {
    if actual.Some? && actual.value != sig then
      if dryRun then
        Ok(Answer(ResolveResult(Some(sig), Some((sig, actual.value))), input))
      else
        var a :- AskConflictResolution(sig, actual.value, input);
        var res := match a.got
          case Skip => ResolveResult(None, None)
          case BySignature(chosen) => ResolveResult(Some(chosen), None)
          case ByExtension(chosen) => ResolveResult(Some(chosen), None)
          case Mismatched => ResolveResult(Some("mismatch"), Some((sig, actual.value)));
        Ok(Answer(res, a.rest))
    else
      Ok(Answer(ResolveResult(Some(sig), None), input))
  }

  /** `resolve_extension`, with the raw extension, the prefix read (None when
      reading fails) and the user's answers given as inputs. */
  function ResolveExtension(declared: Option<string>, header: Option<Prefix>, extOnly: bool, dryRun: bool, input: Script)
    : (r: Result<Answer<ResolveResult>>)
    ensures extOnly ==> r == Ok(Answer(ResolveResult(Some(ExtOrUnknown(declared)), None), input))
    ensures r.Err? <==> !extOnly && (header.None? || (AsksUser(declared, header, extOnly, dryRun) && input == []))
    ensures r.Err? ==> r.error == (if header.None? then ReadFailed else InputFailed)
    ensures r.Ok? && AsksUser(declared, header, extOnly, dryRun) ==> input != [] && r.value.rest == input[1..]
    ensures r.Ok? && !AsksUser(declared, header, extOnly, dryRun) ==> r.value.rest == input
    ensures r.Ok? && r.value.got.mismatch.Some? ==>
      && !extOnly && header.Some?
      && DetectBySignatureBuf(header.value).Some? && ExtFromPath(declared).Some?
      && r.value.got.mismatch.value == (DetectBySignatureBuf(header.value).value, ExtFromPath(declared).value)
      && r.value.got.mismatch.value.0 != r.value.got.mismatch.value.1
    ensures r.Ok? && r.value.got.ext.Some? ==>
      || r.value.got.ext.value == ExtOrUnknown(declared)
      || r.value.got.ext.value == "mismatch"
      || (!extOnly && header.Some? && r.value.got.ext == DetectBySignatureBuf(header.value))
  {
    if extOnly then
      Ok(Answer(ResolveResult(Some(ExtOrUnknown(declared)), None), input))
    else if header.None? then
      Err(ReadFailed)
    else match DetectBySignatureBuf(header.value)
      case None => Ok(Answer(ResolveResult(Some(ExtOrUnknown(declared)), None), input))
      case Some(sig) => ResolveDetected(sig, ExtFromPath(declared), dryRun, input)
  }

  /** With no signature the extension decides, and nothing is reported. */
  lemma ResolveWithoutSignature(declared: Option<string>, buf: Prefix, dryRun: bool, input: Script)
    requires DetectBySignatureBuf(buf).None?
    ensures ResolveExtension(declared, Some(buf), false, dryRun, input) ==
      Ok(Answer(ResolveResult(Some(ExtOrUnknown(declared)), None), input))
  {
  }

  /** A signature with no extension, or with an equal one, decides silently. */
  lemma ResolveAgreeing(declared: Option<string>, buf: Prefix, dryRun: bool, input: Script)
    requires DetectBySignatureBuf(buf).Some?
    requires !Conflicting(DetectBySignatureBuf(buf), declared)
    ensures ResolveExtension(declared, Some(buf), false, dryRun, input) ==
      Ok(Answer(ResolveResult(DetectBySignatureBuf(buf), None), input))
  {
  }

  /** A conflict in a dry run takes the signature and reports the pair,
      without asking. */
  lemma ResolveConflictDryRun(declared: Option<string>, buf: Prefix, input: Script)
    requires Conflicting(DetectBySignatureBuf(buf), declared)
    ensures var sig := DetectBySignatureBuf(buf).value;
      ResolveExtension(declared, Some(buf), false, true, input) ==
        Ok(Answer(ResolveResult(Some(sig), Some((sig, ExtFromPath(declared).value))), input))
  {
  }

  /** A conflict in a live run follows the user's answer: skip, the
      signature, the declared extension, or the "mismatch" folder with the
      pair reported. */
  lemma ResolveConflictAsked(declared: Option<string>, buf: Prefix, input: Script)
    requires Conflicting(DetectBySignatureBuf(buf), declared)
    requires input != []
    ensures var sig := DetectBySignatureBuf(buf).value;
      var decl := ExtFromPath(declared).value;
      ResolveExtension(declared, Some(buf), false, false, input) ==
        Ok(Answer(
          match input[0]
          case 0 => ResolveResult(None, None)
          case 1 => ResolveResult(Some(sig), None)
          case 2 => ResolveResult(Some(decl), None)
          case 3 => ResolveResult(Some("mismatch"), Some((sig, decl))),
          input[1..]))
  {
  }

  /** The declared extension is compared case-insensitively: only its
      lower-case form matters. */
  lemma ResolveIgnoresExtensionCase(e: string, header: Option<Prefix>, extOnly: bool, dryRun: bool, input: Script)
    ensures ResolveExtension(Some(e), header, extOnly, dryRun, input) ==
      ResolveExtension(Some(AsciiLower(e)), header, extOnly, dryRun, input)
  {
    AsciiLowerIdempotent(e);
  }

  // ---------------------------------------------------------------------------
  // Two prefixes worked through

  /** "%PDF-1.7", the start of a PDF document. */
  const PDF_PREFIX: Prefix := [0x25, 0x50, 0x44, 0x46, 0x2D, 0x31, 0x2E, 0x37]

  /** "MZ\x90\0", the start of a Windows executable. */
  const MZ_PREFIX: Prefix := [0x4D, 0x5A, 0x90, 0x00]

  /** No container or JSON detector answers for a short prefix that starts
      with neither "P" nor an opener. */
  lemma ShortPrefixNoContainer(buf: seq<byte>)
    requires 0 < |buf| < 12 && buf[0] != 0x50 && !IsAsciiWhitespace(buf[0]) && !IsJsonOpener(buf[0])
    requires buf[0] != UTF8_BOM[0]
    ensures DetectMp4Like(buf) == None && DetectRiffTyped(buf) == None
    ensures DetectZipLike(buf) == None && DetectJson(buf) == None
  {
    assert !StartsWithAt(buf, 0, ZIP_MAGIC) by { assert buf[0] != ZIP_MAGIC[0]; }
    assert !StartsWithAt(buf, 0, UTF8_BOM) by { assert buf[0] != UTF8_BOM[0]; }
    assert SkipWhitespace(buf) == 0;
  }

  /** Entries 0 to 4 of the fixed table differ from a PDF header in their
      first byte, and entry 5 matches it. */
  lemma PdfFirstFixedMatch()
    ensures Matches(FIXED_SIGNATURES[5], PDF_PREFIX)
    ensures forall j | 0 <= j < 5 :: !Matches(FIXED_SIGNATURES[j], PDF_PREFIX)
  {
    forall j | 0 <= j < 5 ensures !Matches(FIXED_SIGNATURES[j], PDF_PREFIX) {
      FirstByteMismatch(FIXED_SIGNATURES[j], PDF_PREFIX);
    }
    assert PDF_PREFIX[0..4] == FIXED_SIGNATURES[5].pattern;
  }

  /** The fixed table labels a PDF header "pdf". */
  lemma PdfFixed()
    ensures DetectFixed(PDF_PREFIX) == Some("pdf")
  {
    PdfFirstFixedMatch();
    assert FIXED_SIGNATURES[5].ext == "pdf";
    FixedFirstMatch(PDF_PREFIX, 5);
  }

  /** The first matching entry of the fixed table gives the label. */
  lemma FixedFirstMatch(buf: seq<byte>, k: nat)
    requires k < |FIXED_SIGNATURES| && Matches(FIXED_SIGNATURES[k], buf)
    requires forall j | 0 <= j < k :: !Matches(FIXED_SIGNATURES[j], buf)
    ensures DetectFixed(buf) == Some(FIXED_SIGNATURES[k].ext)
  {
    FindSigFirst(FIXED_SIGNATURES, k, buf);
  }

  /** A pattern whose first byte differs from the prefix's byte at its offset
      does not match. */
  lemma FirstByteMismatch(sig: Sig, buf: seq<byte>)
    requires |sig.pattern| > 0 && sig.offset < |buf| && buf[sig.offset] != sig.pattern[0]
    ensures !Matches(sig, buf)
  {
  }

  /** The first matching entry gives the label. */
  lemma {:induction false} FindSigFirst(sigs: seq<Sig>, k: nat, buf: seq<byte>)
    requires k < |sigs| && Matches(sigs[k], buf)
    requires forall j | 0 <= j < k :: !Matches(sigs[j], buf)
    ensures FindSig(sigs, buf) == Some(sigs[k].ext)
    decreases k
  {
    if k > 0 {
      assert sigs[1..][k - 1] == sigs[k];
      assert forall j | 0 <= j < k - 1 :: sigs[1..][j] == sigs[j + 1];
      FindSigFirst(sigs[1..], k - 1, buf);
    }
  }

  /** A prefix no entry of the fixed table matches gets no label from it. */
  lemma NoFixedMatch(buf: seq<byte>)
    requires forall i | 0 <= i < |FIXED_SIGNATURES| :: !Matches(FIXED_SIGNATURES[i], buf)
    ensures DetectFixed(buf) == None
  {
  }

  /** No entry of the fixed table matches an executable header: entry 10
      lies beyond it, entry 16 differs in its second byte and every other
      entry in its first. */
  lemma MzNoFixedMatch()
    ensures forall i | 0 <= i < |FIXED_SIGNATURES| :: !Matches(FIXED_SIGNATURES[i], MZ_PREFIX)
  {
    forall i | 0 <= i < |FIXED_SIGNATURES| ensures !Matches(FIXED_SIGNATURES[i], MZ_PREFIX) {
      if i == 10 {
        assert |MZ_PREFIX| < 12;
      } else if i == 16 {
        assert MZ_PREFIX[1] != FIXED_SIGNATURES[16].pattern[1];
      } else {
        FirstByteMismatch(FIXED_SIGNATURES[i], MZ_PREFIX);
      }
    }
  }

  lemma MzFixed()
    ensures DetectFixed(MZ_PREFIX) == None
  {
    MzNoFixedMatch();
    NoFixedMatch(MZ_PREFIX);
  }

  /** A PDF header is labelled "pdf" by the fixed table, and a file that
      starts with it is binary. */
  lemma PdfPrefixDetected()
    ensures DetectBySignatureBuf(PDF_PREFIX) == Some("pdf")
    ensures IsBinaryBuf(PDF_PREFIX)
  {
    ShortPrefixNoContainer(PDF_PREFIX);
    PdfFixed();
    FixedMatchIsBinary(PDF_PREFIX);
  }

  /** The "MZ" entry of the binary-indicating table matches. */
  lemma MzMatchesBinarySignature()
    ensures MatchesBinarySignature(MZ_PREFIX)
  {
    var sig := BINARY_SIGNATURES[0];
    assert sig.offset == 0 && sig.pattern == [0x4D, 0x5A];
    assert MZ_PREFIX[0..2] == sig.pattern;
    assert Matches(sig, MZ_PREFIX);
  }

  /** An executable header has no label, yet the binary-indicating table
      marks the file as binary. */
  lemma MzPrefixDetected()
    ensures DetectBySignatureBuf(MZ_PREFIX) == None
    ensures IsBinaryBuf(MZ_PREFIX)
  {
    ShortPrefixNoContainer(MZ_PREFIX);
    MzFixed();
    MzMatchesBinarySignature();
  }
}
