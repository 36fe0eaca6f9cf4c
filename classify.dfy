/** The destination category of a resolved extension, and its folder name. */
module Classify {
  import opened Common

  datatype Category =
    | Video
    | Audio
    | Pictures
    | Documents
    | Archives
    | Executables
    | Code
    | Uncategorized
    | Mismatch

  /** `dir_name`: the folder a category's files are moved into. */
  function DirName(c: Category): (name: string)
    ensures name != ""
  {
    match c
    case Video => "Video"
    case Audio => "Audio"
    case Pictures => "Pictures"
    case Documents => "Documents"
    case Archives => "Archives"
    case Executables => "Executables"
    case Code => "Code"
    case Uncategorized => "Uncategorized"
    case Mismatch => "Check manually"
  }

  /** Different categories go to different folders. */
  lemma DirNameInjective(a: Category, b: Category)
    ensures DirName(a) == DirName(b) ==> a == b
  {
  }

  /** The video extensions, one arm of the `match`. */
  predicate IsVideoExt(e: string) {
    e == "mp4" || e == "m4v" || e == "mov" || e == "mkv" || e == "avi" || e == "webm" || e == "flv"
    || e == "wmv" || e == "mpg" || e == "mpeg" || e == "3gp" || e == "ogv" || e == "ts"
    || e == "vob"
  }

  /** The audio extensions, one arm of the `match`. */
  predicate IsAudioExt(e: string) {
    e == "mp3" || e == "wav" || e == "flac" || e == "ogg" || e == "m4a" || e == "aac" || e == "opus"
    || e == "wma" || e == "ape" || e == "alac" || e == "aiff" || e == "dsf" || e == "dsd"
  }

  /** The picture extensions, one arm of the `match`. */
  predicate IsPictureExt(e: string) {
    e == "png" || e == "jpg" || e == "jpeg" || e == "gif" || e == "bmp" || e == "webp"
    || e == "tiff" || e == "tif" || e == "svg" || e == "ico" || e == "heic" || e == "heif"
    || e == "raw" || e == "cr2" || e == "nef" || e == "arw" || e == "dng" || e == "psd" || e == "ai"
    || e == "eps"
  }

  /** The document extensions, one arm of the `match`. */
  predicate IsDocumentExt(e: string) {
    e == "pdf" || e == "doc" || e == "docx" || e == "xls" || e == "xlsx" || e == "ppt"
    || e == "pptx" || e == "txt" || e == "md" || e == "rtf" || e == "odt" || e == "ods"
    || e == "odp" || e == "csv" || e == "epub" || e == "mobi" || e == "djvu"
  }

  /** The archive extensions, one arm of the `match`. */
  predicate IsArchiveExt(e: string) {
    e == "zip" || e == "7z" || e == "rar" || e == "gz" || e == "tar" || e == "tgz" || e == "bz2"
    || e == "xz" || e == "zst" || e == "lz4" || e == "cab" || e == "iso" || e == "dmg"
  }

  /** The executable extensions, one arm of the `match`. */
  predicate IsExecutableExt(e: string) {
    e == "exe" || e == "msi" || e == "elf" || e == "app" || e == "mach-o" || e == "wasm"
    || e == "dll" || e == "so" || e == "dylib" || e == "bin"
  }

  /** The source-code and configuration extensions, one arm of the `match`. */
  predicate IsCodeExt(e: string) {
    e == "rs" || e == "py" || e == "js" || e == "jsx" || e == "tsx" || e == "c" || e == "cpp"
    || e == "h" || e == "hpp" || e == "java" || e == "go" || e == "rb" || e == "php" || e == "swift"
    || e == "kt" || e == "cs" || e == "html" || e == "css" || e == "scss" || e == "sass"
    || e == "less" || e == "vue" || e == "svelte" || e == "sh" || e == "bash" || e == "zsh"
    || e == "fish" || e == "ps1" || e == "bat" || e == "cmd" || e == "yaml" || e == "yml"
    || e == "json" || e == "toml" || e == "xml" || e == "ini" || e == "conf" || e == "config"
    || e == "env" || e == "gitignore" || e == "dockerfile" || e == "makefile" || e == "cmake"
    || e == "sql"
  }

  /** The lower-case extensions listed for a category; none for Uncategorized. */
  predicate InGroup(c: Category, e: string) {
    match c
    case Video => IsVideoExt(e)
    case Audio => IsAudioExt(e)
    case Pictures => IsPictureExt(e)
    case Documents => IsDocumentExt(e)
    case Archives => IsArchiveExt(e)
    case Executables => IsExecutableExt(e)
    case Code => IsCodeExt(e)
    case Uncategorized => false
    case Mismatch => e == "mismatch"
  }

  /** The extension has a category of its own. */
  predicate IsListed(e: string) {
    || e == "mismatch" || IsVideoExt(e) || IsAudioExt(e) || IsPictureExt(e) || IsDocumentExt(e)
    || IsArchiveExt(e) || IsExecutableExt(e) || IsCodeExt(e)
  }

  /** The `match` of `from_ext`, on an already lower-cased extension. */
  function Lookup(e: string): (c: Category)
    ensures c != Uncategorized ==> InGroup(c, e)
    ensures c == Uncategorized <==> !IsListed(e)
  {
    if e == "mismatch" then Mismatch
    else if IsVideoExt(e) then Video
    else if IsAudioExt(e) then Audio
    else if IsPictureExt(e) then Pictures
    else if IsDocumentExt(e) then Documents
    else if IsArchiveExt(e) then Archives
    else if IsExecutableExt(e) then Executables
    else if IsCodeExt(e) then Code
    else Uncategorized
  }

  /** `from_ext`: lower-case the extension, then look it up group by group;
      anything unlisted is Uncategorized. */
  function FromExt(ext: string): Category {
    Lookup(AsciiLower(ext))
  }

  /** A category other than Uncategorized lists the lower-cased extension;
      Uncategorized is exactly the unlisted extensions. */
  lemma FromExtGroups(ext: string)
    ensures FromExt(ext) != Uncategorized ==> InGroup(FromExt(ext), AsciiLower(ext))
    ensures FromExt(ext) == Uncategorized <==> !IsListed(AsciiLower(ext))
  {
  }

  /** The lookup ignores ASCII case. */
  lemma FromExtIgnoresCase(ext: string)
    ensures FromExt(ext) == FromExt(AsciiLower(ext))
  {
    AsciiLowerIdempotent(ext);
  }

  // One lookup fact per lemma: the examples below combine them with the lower-casing of
  // the literal.

  lemma LookupMismatch()
    ensures Lookup("mismatch") == Mismatch
  {
  }

  lemma LookupPdf()
    ensures Lookup("pdf") == Documents
  {
  }

  lemma LookupDocx()
    ensures Lookup("docx") == Documents
  {
  }

  lemma LookupMp4()
    ensures Lookup("mp4") == Video
  {
  }

  lemma LookupMov()
    ensures Lookup("mov") == Video
  {
  }

  lemma LookupJson()
    ensures Lookup("json") == Code
  {
  }

  lemma LookupExe()
    ensures Lookup("exe") == Executables
  {
  }

  lemma LookupWasm()
    ensures Lookup("wasm") == Executables
  {
  }

  lemma LookupPs()
    ensures Lookup("ps") == Uncategorized
  {
  }

  lemma LookupM4b()
    ensures Lookup("m4b") == Uncategorized
  {
  }

  lemma LookupApk()
    ensures Lookup("apk") == Uncategorized
  {
  }

  lemma LookupJar()
    ensures Lookup("jar") == Uncategorized
  {
  }

  /** The reserved "mismatch" label goes to the "Check manually" folder. */
  lemma MismatchFolder()
    ensures FromExt("mismatch") == Mismatch
    ensures DirName(FromExt("mismatch")) == "Check manually"
  {
    LookupMismatch();
    assert AsciiLower("mismatch") == "mismatch";
  }

  /** "pdf" is a document. */
  lemma PdfMapping()
    ensures FromExt("pdf") == Documents
  {
    LookupPdf();
    assert AsciiLower("pdf") == "pdf";
  }

  /** "docx" is a document. */
  lemma DocxMapping()
    ensures FromExt("docx") == Documents
  {
    LookupDocx();
    assert AsciiLower("docx") == "docx";
  }

  /** An upper-case "PDF" is a document too. */
  lemma UpperCasePdf()
    ensures FromExt("PDF") == Documents
  {
    assert AsciiLower("PDF") == "pdf";
    FromExtIgnoresCase("PDF");
    PdfMapping();
  }

  /** "mp4" and "mov" are videos. */
  lemma VideoMappings()
    ensures FromExt("mp4") == Video && FromExt("mov") == Video
  {
    LookupMp4();
    assert AsciiLower("mp4") == "mp4";
    LookupMov();
    assert AsciiLower("mov") == "mov";
  }

  /** "json" is code. */
  lemma JsonMapping()
    ensures FromExt("json") == Code
  {
    LookupJson();
    assert AsciiLower("json") == "json";
  }

  /** "exe" is an executable. */
  lemma ExeMapping()
    ensures FromExt("exe") == Executables
  {
    LookupExe();
    assert AsciiLower("exe") == "exe";
  }

  /** "wasm" is an executable. */
  lemma WasmMapping()
    ensures FromExt("wasm") == Executables
  {
    LookupWasm();
    assert AsciiLower("wasm") == "wasm";
  }

  /** The detector's "ps" label has no group and goes to Uncategorized. */
  lemma PsIsUncategorized()
    ensures FromExt("ps") == Uncategorized
  {
    LookupPs();
    assert AsciiLower("ps") == "ps";
  }

  /** The detector's "m4b" label has no group and goes to Uncategorized. */
  lemma M4bIsUncategorized()
    ensures FromExt("m4b") == Uncategorized
  {
    LookupM4b();
    assert AsciiLower("m4b") == "m4b";
  }

  /** The detector's "apk" label has no group and goes to Uncategorized. */
  lemma ApkIsUncategorized()
    ensures FromExt("apk") == Uncategorized
  {
    LookupApk();
    assert AsciiLower("apk") == "apk";
  }

  /** The detector's "jar" label has no group and goes to Uncategorized. */
  lemma JarIsUncategorized()
    ensures FromExt("jar") == Uncategorized
  {
    LookupJar();
    assert AsciiLower("jar") == "jar";
  }
}
