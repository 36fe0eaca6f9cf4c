# sortify — a verified model of the sorting core

sortify sorts the regular files of the current directory into category
folders (Video, Audio, Pictures, Documents, Archives, Executables, Code,
Uncategorized, "Check manually"). For each file it:

- reads at most 64 leading bytes;
- detects a type label from the content;
- reconciles that label with the declared extension, asking the user when they disagree;
- decides whether the file is binary, asking the user what to do with binary files;
- moves the file into the folder of its category, or only reports what it would do in a dry run.

This project models that core in Dafny:

- `common.dfy` (module `Common`): bytes, `Option`, the `Result` of an operation that can fail (`ReadFailed`, `InputFailed`, `MoveFailed`), and ASCII lower-casing.
- `prompt.dfy` (module `Prompt`): the binary-file policy and its four-entry menu, and the four-entry menu for a signature/extension conflict. The terminal is a *script*: the sequence of menu answers the user will give. An exhausted script is the input failure.
- `detect.dfy` (module `Detect`):
  - the signature tables;
  - the MP4, RIFF, ZIP and JSON detectors;
  - the first-match fixed table;
  - the text/binary ratio heuristic;
  - `is_binary`;
  - `resolve_extension`.
- `classify.dfy` (module `Classify`): extension to category, and category to folder name.
- `batch.dfy` (module `Batch`): `process_file` and the loop of `main`.
  - Specification functions `ProcessStep` and `Run` describe one file and a whole batch.
  - The imperative methods `ProcessFile` and `RunBatch` append to a `ProcessingResult` object (fields `moved`, `skipped`, `warnings`), thread the binary policy, and are proved equal to those functions.
  - Each file is an `Entry` that carries what the outside world will do with it:
    - whether it is the running executable;
    - its raw extension;
    - its prefix, or `None` when reading fails;
    - whether the move will succeed.

## Model

| member | source | states |
|---|---|---|
| Common.AsciiLower | src/classify.rs:30 | `to_ascii_lowercase`: the same length; its meaning character by character is `Common.AsciiLowerAt` |
| Common.AsciiLowerAt | src/detect.rs:253 | each character of the lower-cased string is that character lower-cased: A-Z shifted to a-z, everything else unchanged |
| Common.AsciiLowerHasNoUpper | src/detect.rs:250-254 | the lower-cased extension contains no ASCII upper-case letter |
| Common.AsciiLowerOfLower | src/classify.rs:30 | lower-casing a string with no upper-case letter returns it unchanged |
| Common.AsciiLowerIdempotent | src/classify.rs:30 | lower-casing twice is lower-casing once |
| Prompt.Select | src/prompt.rs:113-118 | a selection succeeds exactly when an answer is available, consumes exactly that one answer, and otherwise fails with the input error |
| Prompt.BinaryChoice | src/prompt.rs:62-80 | the file is skipped exactly for entries 0 and 1; the policy stays AskEvery exactly for entries 0 and 2; a sticky policy is SkipAll exactly when the action is Skip |
| Prompt.BinaryChoiceRoundTrip | src/prompt.rs:62-80 | the four entries have four different outcomes: the entry can be recovered from the outcome |
| Prompt.AskBinaryPolicyOnce | src/prompt.rs:41-83 | succeeds exactly when an answer is available, consuming it and returning the menu outcome of that entry; otherwise the input failure |
| Prompt.Decide | src/prompt.rs:25-38 | SkipAll gives (Skip, SkipAll) and NeverSkip gives (Process, NeverSkip) without reading any answer; AskEvery shows the menu |
| Prompt.DecideAbsorbing | src/prompt.rs:28-36 | from SkipAll or NeverSkip, Decide never fails, never reads an answer and keeps the policy; it skips exactly under SkipAll |
| Prompt.DecideFromAskEvery | src/prompt.rs:25-27 | from AskEvery with an answer available: skip iff the answer is below 2, policy stays AskEvery iff the answer is even, one answer consumed |
| Prompt.ConflictChoice | src/prompt.rs:120-146 | each entry gives a different resolution (index round trip); the signature and extension choices carry exactly the strings shown |
| Prompt.AskConflictResolution | src/prompt.rs:93-149 | succeeds exactly when an answer is available, consuming it and returning that entry's resolution; otherwise the input failure |
| Detect.StartsWithAt | src/detect.rs:66-68 | `starts_with_at`: false when the prefix is too short; its byte-wise meaning is `Detect.StartsWithAtBytes` |
| Detect.StartsWithAtBytes | src/detect.rs:66-68 | the pattern matches at an offset iff the prefix is long enough and agrees with it byte by byte from that offset |
| Detect.Contains | src/detect.rs:70-75 | `contains`: false for an empty pattern or a shorter prefix, else any window equal to the pattern; its meaning is `Detect.ContainsIff` |
| Detect.ContainsIff | src/detect.rs:70-75 | the window scan finds a pattern iff it is non-empty and occurs at some offset |
| Detect.DetectMp4Like | src/detect.rs:77-89 | answers iff the prefix has at least 12 bytes with "ftyp" at offset 4, and then always with one of mp4/m4v/m4a/m4b/mov |
| Detect.Mp4UnknownBrandDefaults | src/detect.rs:81-88 | a brand outside the table gives "mp4" |
| Detect.DetectRiffTyped | src/detect.rs:91-102 | answers iff the prefix has at least 12 bytes, starts with "RIFF" and has WEBP, WAVE or "AVI " at 8..12; the label is webp, wav or avi |
| Detect.DetectZipLike | src/detect.rs:104-128 | answers iff the prefix starts with the ZIP local-file magic; the label is one of docx/xlsx/pptx/apk/jar/zip |
| Detect.ZipPriority | src/detect.rs:109-127 | the ZIP label follows the marker priority: docx (content types or word/), then xlsx, pptx, apk, jar, and zip only when no marker occurs |
| Detect.SkipWhitespace | src/detect.rs:133-136 | the whitespace scan stops at the first byte that is not ASCII whitespace (tab, LF, FF, CR, space) |
| Detect.JsonBody | src/detect.rs:131 | a leading UTF-8 byte-order mark is dropped, and nothing else changes |
| Detect.DetectJson | src/detect.rs:130-149 | `detect_json`: the only label it gives is json; when it answers is `Detect.DetectJsonIff` |
| Detect.DetectJsonIff | src/detect.rs:130-149 | the prefix is JSON iff its first non-whitespace byte after the optional mark is `{` or `[` and a quote, colon or comma occurs after the mark |
| Detect.DetectJsonBlank | src/detect.rs:133-136 | an empty or all-whitespace body is never JSON |
| Detect.FindSig | src/detect.rs:151-156 | answers iff some entry matches, and then with the label of the first matching entry |
| Detect.DetectFixed | src/detect.rs:151-156 | a fixed-table answer is one of the fixed table's labels |
| Detect.NoFixedMatch | src/detect.rs:151-156 | a prefix no entry matches gets no fixed-table label |
| Detect.FixedFirstMatch | src/detect.rs:151-156 | the first matching entry of the fixed table gives the label |
| Detect.FixedLabelsListed | src/detect.rs:16-36 | every fixed-table entry's label is one of png, jpg, gif, bmp, pdf, ps, zip, gz, mkv, webp, mp3, ogg, flac, ico, tif, rar, 7z |
| Detect.BinaryLabelsListed | src/detect.rs:38-46 | every binary-indicating entry's label is one of exe, elf, mach-o, wasm |
| Detect.DetectableNotBinaryOnly | src/detect.rs:16-46 | no label the detectors or the fixed table give is one of the executable labels |
| Detect.NonTextCount | src/detect.rs:167-170 | the count of non-text bytes is at most the length, zero iff every byte is text, and the length iff no byte is |
| Detect.NonTextCountAppend | src/detect.rs:167-170 | the count is additive over concatenation |
| Detect.LooksBinary | src/detect.rs:158-173 | an empty prefix is not binary; a zero byte makes it binary; otherwise binary iff more than 30% of the bytes are non-text |
| Detect.TextIsNotBinary | src/detect.rs:158-173 | a prefix of text bytes only never looks binary |
| Detect.MatchesBinarySignature | src/detect.rs:207-210 | some entry of the binary-indicating table matches; `Detect.MzMatchesBinarySignature` and `Detect.IsBinaryBuf` use it |
| Detect.DetectBySignatureBuf | src/detect.rs:175-194 | an empty prefix has no label; any label is one the MP4, RIFF, ZIP, JSON detectors or the fixed table can give |
| Detect.DetectNoneIff | src/detect.rs:175-194 | a prefix gets no label exactly when it is empty or has no `ftyp` box, no known RIFF form, no ZIP magic, no JSON shape and no fixed-table match |
| Detect.DetectOrder | src/detect.rs:180-193 | on a non-empty prefix the first of MP4, RIFF, ZIP, JSON and the fixed table that answers gives the label |
| Detect.DetectNeverBinaryOnlyLabel | src/detect.rs:175-194 | the binary-indicating table is never consulted for labels: no detected label is exe, elf, mach-o or wasm |
| Detect.ZipMagicDecidedByContainers | src/detect.rs:180-188 | a prefix with the ZIP magic always has a label, given by the MP4 or the ZIP detector, never by the fixed table's "zip" entry |
| Detect.IsBinaryBuf | src/detect.rs:203-247 | empty is not binary; an executable or container signature or a listed fixed label is binary; a JSON-shaped prefix without one is not; otherwise the ratio heuristic decides |
| Detect.FixedLabelIsBinary | src/detect.rs:214-238 | every fixed-table label is on `is_binary`'s list of binary labels |
| Detect.FixedMatchIsBinary | src/detect.rs:214-238 | every fixed-table label is on the binary list, so any fixed match makes the file binary |
| Detect.SignatureLabelImpliesBinary | src/detect.rs:201-248 | any detected label other than json implies the file is binary |
| Detect.IsBinary | src/detect.rs:201-202 | fails with the read error exactly when the prefix cannot be read, otherwise gives the verdict on the prefix |
| Detect.ExtFromPath | src/detect.rs:250-254 | an extension is present iff the path has one, and it is AsciiLower of the raw extension, so it has no upper case |
| Detect.ExtOrUnknown | src/detect.rs:264 | the lower-cased declared extension, or "unknown" without one (the same default at src/detect.rs:319); `Detect.ResolveWithoutSignature` and `Batch.ExtOnlyStep` state its use |
| Detect.ResolveDetected | src/detect.rs:271-315 | with a label: asks iff the declared extension differs and the run is live; fails only when then no answer is available; a mismatch pair is (label, declared) and the two differ |
| Detect.ResolveExtension | src/detect.rs:262-322 | ext-only uses the declared extension or "unknown"; otherwise fails iff the prefix is unreadable or a needed answer is missing, consumes an answer iff it asks, and the chosen extension is the declared one, the label or "mismatch" |
| Detect.ResolveWithoutSignature | src/detect.rs:318-321 | with no label the declared extension (or "unknown") is used and nothing is reported |
| Detect.ResolveAgreeing | src/detect.rs:312-315 | a label with no declared extension or an equal one is used silently |
| Detect.ResolveConflictDryRun | src/detect.rs:276-280 | a conflict in a dry run takes the label and reports the pair without asking |
| Detect.ResolveConflictAsked | src/detect.rs:282-307 | a conflict in a live run follows the answer: skip, label, declared extension, or "mismatch" with the pair reported |
| Detect.ResolveIgnoresExtensionCase | src/detect.rs:250-254 | only the lower-case form of the declared extension affects the resolution |
| Detect.ShortPrefixNoContainer | src/detect.rs:77-149 | a short prefix starting with none of "P", whitespace, an opener or the byte-order mark gets no container or JSON label |
| Detect.PdfFirstFixedMatch | src/detect.rs:17-22 | entries 0 to 4 of the fixed table do not match a "%PDF-1.7" prefix and entry 5 does |
| Detect.PdfFixed | src/detect.rs:22 | the fixed table labels a "%PDF-1.7" prefix pdf |
| Detect.MzNoFixedMatch | src/detect.rs:16-36 | no entry of the fixed table matches an "MZ" executable prefix |
| Detect.MzFixed | src/detect.rs:151-156 | the fixed table gives an "MZ" executable prefix no label |
| Detect.PdfPrefixDetected | src/detect.rs:22 | a "%PDF-1.7" prefix is labelled pdf and is binary |
| Detect.MzPrefixDetected | src/detect.rs:39 | an "MZ" executable prefix has no label but is binary |
| Classify.DirName | src/classify.rs:15-27 | every category has a non-empty folder name |
| Classify.DirNameInjective | src/classify.rs:15-27 | different categories have different folder names |
| Classify.Lookup | src/classify.rs:31-62 | a category other than Uncategorized lists the extension in its match arm; Uncategorized exactly when no arm lists it |
| Classify.FromExt | src/classify.rs:29-62 | `from_ext`: lower-case, then look up; its meaning is `Classify.FromExtGroups` and `Classify.FromExtIgnoresCase` |
| Classify.FromExtGroups | src/classify.rs:29-62 | a category other than Uncategorized lists the lower-cased extension; Uncategorized exactly when no arm lists it |
| Classify.FromExtIgnoresCase | src/classify.rs:30 | the lookup depends only on the lower-case form |
| Classify.MismatchFolder | src/classify.rs:32 | "mismatch" maps to the "Check manually" folder |
| Classify.PdfMapping | src/classify.rs:44 | pdf is a document |
| Classify.DocxMapping | src/classify.rs:44 | docx is a document |
| Classify.UpperCasePdf | src/classify.rs:30-44 | PDF in upper case is a document too |
| Classify.VideoMappings | src/classify.rs:34-35 | mp4 and mov are videos |
| Classify.JsonMapping | src/classify.rs:57 | json is code |
| Classify.ExeMapping | src/classify.rs:51 | exe is an executable |
| Classify.WasmMapping | src/classify.rs:51 | wasm is an executable |
| Classify.PsIsUncategorized | src/classify.rs:61 | the detector's ps label has no group |
| Classify.M4bIsUncategorized | src/classify.rs:61 | the detector's m4b label has no group |
| Classify.ApkIsUncategorized | src/classify.rs:61 | the detector's apk label has no group |
| Classify.JarIsUncategorized | src/classify.rs:61 | the detector's jar label has no group |
| Batch.MoveStep | src/main.rs:123-127 | the move fails only in a live run whose rename fails, then recording nothing; otherwise it records the file with its category's folder; policy and answers untouched |
| Batch.ResolvedStep | src/main.rs:107-128 | after resolution: lists only grow, a finished file adds exactly one record, a failure adds none, the policy changes only when asking in a live run, at most one answer is read |
| Batch.AfterResolve | src/main.rs:90-128 | the same growth, accounting and policy facts once the mismatch warning is recorded |
| Batch.ProcessStep | src/main.rs:79-129 | one file: lists only grow; a finished file is counted once as moved or skipped, a failed one not at all; the policy changes only from AskEvery in a live non-ext-only run; dry and ext-only runs read no answer; at most two answers are read |
| Batch.Run | src/main.rs:213-220 | the loop over the entries, stopping at the first failure; `Batch.RunCons`, `Batch.RunAccounts`, `Batch.RunAppend` and `Batch.RunBatch` state what it does |
| Batch.RunCons | src/main.rs:213-220 | the batch processes the first file and, unless it failed, continues with the rest |
| Batch.SelfIsSkipped | src/main.rs:82-85 | the running executable is skipped with nothing read or asked |
| Batch.ExtOnlyStep | src/main.rs:107 | in an ext-only run a file goes straight to the folder of its own extension (or "unknown") |
| Batch.UnreadableAborts | src/main.rs:87 | an unreadable prefix aborts the file with the read error and nothing recorded |
| Batch.StepWarnings | src/main.rs:90-112 | a file adds exactly the mismatch warning of its resolution (none without a pair), followed only in a dry run by the binary-file warning |
| Batch.MismatchWarnedFirst | src/main.rs:90-97 | a reported mismatch adds exactly one mismatch warning, with the label and the declared extension, followed at most by a dry run's binary-file warning |
| Batch.UnresolvedIsSkipped | src/main.rs:99-105 | a file left without an extension is skipped, not moved, adds no warning, leaves the policy unchanged, and nothing more is asked after the resolution |
| Batch.DryRunBinary | src/main.rs:107-112 | in a dry run a binary file is skipped without asking, and exactly one binary-file warning follows its mismatch warnings |
| Batch.LiveBinary | src/main.rs:114-120 | in a live run a binary file takes the policy Decide returns and is skipped exactly when Decide says Skip |
| Batch.BinaryMovedOnlyWhenAllowed | src/main.rs:107-121 | a binary file is moved only in a live run and never under SkipAll |
| Batch.SettledStep | src/main.rs:87-107 | a resolution that settles an extension without a mismatch records nothing and hands the file to the binary check and the move |
| Batch.ResolvedStepMoves | src/main.rs:123-127 | once the extension is settled, a move records that extension's folder |
| Batch.MovedToResolvedFolder | src/main.rs:123-127 | a moved file is recorded with the folder of the extension its resolution chose |
| Batch.RunAccounts | src/main.rs:213-220 | the lists only grow, and a batch that completes accounts for every entry exactly once |
| Batch.RunKeepsStickyPolicy | src/main.rs:213-220 | once SkipAll or NeverSkip is chosen, it stays for the rest of the batch |
| Batch.RunWithoutPrompts | src/main.rs:213-220 | dry and ext-only batches read no answer and never change the policy |
| Batch.RunExtOnlyNoWarnings | src/main.rs:213-220 | an ext-only batch records no warning |
| Batch.RunAppend | src/main.rs:213-220 | running two lists one after the other is running their concatenation, and the first failure ends both |
| Batch.BinaryPdfProcessed | src/main.rs:107-127 | a binary file settled as pdf, answered "process this one" in a live run, is moved to Documents and the policy stays AskEvery |
| Batch.PdfProcessedOnRequest | src/main.rs:87-127 | a report.pdf whose header is labelled pdf and is binary is asked about; answering "process this one" moves it to Documents and keeps asking |
| Batch.DisguisedExecutableDryRun | src/main.rs:87-112 | a .png file whose header has no label but is binary keeps its png extension with no mismatch, and a dry run reports and skips it as binary |
| Batch.UncontestedSettles | src/main.rs:87-106 | a binary file whose label, if any, does not contest its extension settles on that label or its own extension in a live run, with nothing read, and goes on to the binary check |
| Batch.SkipAllAnswered | src/main.rs:114-120 | for any binary file whose label does not contest its extension, answering "skip all binary files" skips the file and makes the policy SkipAll |
| Batch.SkippedUnderSkipAll | src/main.rs:114-120 | under SkipAll any binary file whose label does not contest its extension, labelled or not, is skipped without reading an answer |
| Batch.SkipAllSkipsRest | src/main.rs:213-220 | under SkipAll every binary file of the list whose label does not contest its extension is skipped in order, with no answer read |
| Batch.SkipAllCoversLaterFiles | src/main.rs:210-220 | one "skip all" answer skips that binary file and every later binary file whose label does not contest its extension, in order, without another question |
| Batch.ProcessingResult.constructor | src/main.rs:26-33 | the three lists start empty |
| Batch.ProcessFile | src/main.rs:72-129 | the outcome, new policy, unread answers and new lists are those ProcessStep specifies |
| Batch.ProcessResolution | src/main.rs:90-105 | after resolution, the state is the one AfterResolve specifies |
| Batch.ProcessResolved | src/main.rs:107-128 | after the extension is settled, the state is the one ResolvedStep specifies |
| Batch.RunBatch | src/main.rs:209-220 | starting from AskEvery and empty lists, the outcome and the lists are those Run specifies |

## Left out

- Reading the prefix (`read_prefix`, src/detect.rs:48-64) is file I/O. Each entry carries the bytes it returns, or `None` when opening, stat or reading fails. `is_binary` reads the file a second time; the model assumes that read returns the same bytes as the first.
- `detect_by_signature` (src/detect.rs:196-199) is that read followed by `DetectBySignatureBuf`; it has no separate member.
- `Path::extension` is not modelled. Each entry carries its raw UTF-8 extension, or `None`.
- Canonicalising paths and comparing with the running executable (src/main.rs:47-49, 80-82) become the entry's `isSelf` flag.
- Listing the directory (`collect_files`) is not modelled; the batch is a sequence of entries. `main`'s early return for an empty directory is not modelled: a batch of no entries simply does nothing.
- `move_to_category` and `get_unique_path` (src/ops.rs) are file-system operations. The entry's `moveSucceeds` flag says whether the live move works. A dry run never fails, since a file from the directory listing always has a name. The unique target name is not modelled.
- The terminal UI is not modelled: the menus' texts, colours, the progress bar, banner and result printing. Menu answers come from a script; `dialoguer` can only return an index below 4.
- Warnings are datatype values rather than formatted strings.
- Detect.LooksBinary: the ratio is compared with integers (`10 * nonText > 3 * len`) instead of an `f32` division. The two agree for prefixes of at most 64 bytes, which is all the program reads.
- The command-line parser (src/cli.rs) and the self-updater (src/updater/) are outside the sorting core.
- Classify.Lookup: that the extension groups are pairwise disjoint is not proved. Only one lookup order (the source's) is modelled.

## Code and design

Some behaviour of the code differs from what a reader might expect; the model follows the code:

- One might expect an `MZ` executable named `photo.png` to be reported as a signature/extension mismatch. It is not: the executable table is never used for labels, so the file gets no label and keeps "png". It is still binary, so a dry run reports and skips it (`Batch.DisguisedExecutableDryRun`).
- One might expect only executables to count as binary files. PDF and ZIP-based documents are binary for `is_binary` too, so in a live run the user is asked about them (`Detect.PdfPrefixDetected`, `Batch.PdfProcessedOnRequest`).
- One might expect every label the detector gives to have a category. The labels ps, m4b, apk and jar have none and go to Uncategorized.
