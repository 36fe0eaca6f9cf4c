/** The per-file decision flow and the batch loop of the program's entry
    point. The file system and the terminal are inputs: each entry carries
    what reading and moving it will do, and the user's answers are a script.
    `ProcessStep` and `Run` specify one file and a whole batch; the methods
    `ProcessFile` and `RunBatch` update a `ProcessingResult` step by step and
    are proved to agree with them. */
module Batch {
  import opened Common
  import opened Prompt
  import opened Detect
  import opened Classify

  /** The command-line switches that change processing. */
  datatype Args = Args(extOnly: bool, dryRun: bool)

  /** One regular file of the directory, with what the outside world will do
      with it. */
  datatype Entry = Entry(
    path: string,              // the path as displayed
    isSelf: bool,              // its canonical path is the running executable
    declared: Option<string>,  // its raw extension, when it has a UTF-8 one
    header: Option<Prefix>,    // its leading bytes; None when reading fails
    moveSucceeds: bool)        // whether creating the folder and renaming work

  datatype Warning =
    | SignatureMismatch(path: string, sig: string, declared: string)
    | BinaryDetected(path: string)

  /** The three lists of `ProcessingResult`; a move records the path and the
      destination folder. */
  datatype Tally = Tally(moved: seq<(string, string)>, skipped: seq<string>, warnings: seq<Warning>)

  const EMPTY_TALLY := Tally([], [], [])

  datatype Outcome = Done | Failed(error: Failure)

  /** The state after a file or a batch: how it ended, the binary policy for
      what follows, the answers not yet read, and the lists. */
  datatype Step = Step(outcome: Outcome, policy: BinaryPolicy, input: Script, tally: Tally)

  /** The lists grow only at their ends. */
  predicate Extends(t: Tally, t': Tally) {
    && t.moved <= t'.moved
    && t.skipped <= t'.skipped
    && t.warnings <= t'.warnings
  }

  /** Number of files the lists account for. */
  function Accounted(t: Tally): nat {
    |t.moved| + |t.skipped|
  }

  function MismatchWarnings(path: string, mismatch: Option<(string, string)>): seq<Warning> {
    match mismatch
    case None => []
    case Some(pair) => [SignatureMismatch(path, pair.0, pair.1)]
  }

  /** The end of `process_file`: hand the file to the move collaborator (which
      does nothing in a dry run) and record the destination folder. */
  function MoveStep(e: Entry, ext: string, policy: BinaryPolicy, args: Args, input: Script, t: Tally): (s: Step)
    ensures s.policy == policy && s.input == input
    ensures s.outcome.Failed? <==> !args.dryRun && !e.moveSucceeds
    ensures s.outcome.Failed? ==> s.tally == t
    ensures s.outcome.Done? ==> s.tally == t.(moved := t.moved + [(e.path, DirName(FromExt(ext)))])
  {
    if !args.dryRun && !e.moveSucceeds then Step(Failed(MoveFailed), policy, input, t)
    else Step(Done, policy, input, t.(moved := t.moved + [(e.path, DirName(FromExt(ext)))]))
  }

  /** The binary check of `process_file` and what follows it, once the
      extension `ext` is settled. */
  function ResolvedStep(e: Entry, ext: string, policy: BinaryPolicy, args: Args, input: Script, t: Tally): (s: Step)
    ensures Extends(t, s.tally)
    ensures s.outcome.Done? ==> Accounted(s.tally) == Accounted(t) + 1
    ensures s.outcome.Failed? ==> Accounted(s.tally) == Accounted(t)
    ensures s.policy != policy ==> policy == AskEvery && !args.extOnly && !args.dryRun
    ensures args.extOnly || args.dryRun ==> s.input == input
    ensures s.input == input || (input != [] && s.input == input[1..])
  {
    if args.extOnly then
      MoveStep(e, ext, policy, args, input, t)
    else match IsBinary(e.header)
      case Err(f) => Step(Failed(f), policy, input, t)
      case Ok(binary) =>
        if !binary then
          MoveStep(e, ext, policy, args, input, t)
        else if args.dryRun then
          Step(Done, policy, input,
               t.(warnings := t.warnings + [BinaryDetected(e.path)], skipped := t.skipped + [e.path]))
        else match Decide(policy, input)
          case Err(f) => Step(Failed(f), policy, input, t)
          case Ok(d) =>
            if d.got.0.Skip? then
              Step(Done, d.got.1, d.rest, t.(skipped := t.skipped + [e.path]))
            else
              MoveStep(e, ext, d.got.1, args, d.rest, t)
  }

  /** `process_file` after `resolve_extension` returned `res`: report the
      mismatch, skip an unresolved file, otherwise go on. */
  function AfterResolve(e: Entry, res: ResolveResult, policy: BinaryPolicy, args: Args, input: Script, t: Tally): (s: Step)
    ensures Extends(t, s.tally)
    ensures s.outcome.Done? ==> Accounted(s.tally) == Accounted(t) + 1
    ensures s.outcome.Failed? ==> Accounted(s.tally) == Accounted(t)
    ensures s.policy != policy ==> policy == AskEvery && !args.extOnly && !args.dryRun
    ensures args.extOnly || args.dryRun ==> s.input == input
    ensures s.input == input || (input != [] && s.input == input[1..])
  {
    var t1 := t.(warnings := t.warnings + MismatchWarnings(e.path, res.mismatch));
    match res.ext
    case None => Step(Done, policy, input, t1.(skipped := t1.skipped + [e.path]))
    case Some(ext) => ResolvedStep(e, ext, policy, args, input, t1)
  }

  /** `process_file` for one entry, as a function of the policy, the unread
      answers and the lists before it. */
  function ProcessStep(e: Entry, policy: BinaryPolicy, args: Args, input: Script, t: Tally): (s: Step)
    ensures Extends(t, s.tally)
    ensures s.outcome.Done? ==> Accounted(s.tally) == Accounted(t) + 1
    ensures s.outcome.Failed? ==> Accounted(s.tally) == Accounted(t)
    ensures s.policy != policy ==> policy == AskEvery && !args.extOnly && !args.dryRun
    ensures args.extOnly || args.dryRun ==> s.input == input
    ensures exists k | 0 <= k <= 2 && k <= |input| :: s.input == input[k..]
  {
    if e.isSelf then
      Step(Done, policy, input, t.(skipped := t.skipped + [e.path]))
    else match ResolveExtension(e.declared, e.header, args.extOnly, args.dryRun, input)
      case Err(f) =>
        assert input == input[0..];
        Step(Failed(f), policy, input, t)
      case Ok(a) =>
        var s := AfterResolve(e, a.got, policy, args, a.rest, t);
        assert a.rest == input[0..] || a.rest == input[1..];
        assert s.input == input[0..] || s.input == input[1..] || s.input == input[2..];
        s
  }

  /** The loop of the entry point, from a given policy, answers and lists:
      files in order, the first failure ending the batch. */
  function Run(entries: seq<Entry>, policy: BinaryPolicy, args: Args, input: Script, t: Tally): (s: Step)
    decreases |entries|
  {
    if entries == [] then Step(Done, policy, input, t)
    else
      var s := ProcessStep(entries[0], policy, args, input, t);
      if s.outcome.Failed? then s else Run(entries[1..], s.policy, args, s.input, s.tally)
  }

  /** One step of `Run`. */
  lemma RunCons(e: Entry, rest: seq<Entry>, policy: BinaryPolicy, args: Args, input: Script, t: Tally)
    ensures Run([e] + rest, policy, args, input, t) ==
      var s := ProcessStep(e, policy, args, input, t);
      if s.outcome.Failed? then s else Run(rest, s.policy, args, s.input, s.tally)
  {
    assert ([e] + rest)[0] == e && ([e] + rest)[1..] == rest;
  }

  // ---------------------------------------------------------------------------
  // Properties of one file

  /** The running executable is skipped before anything is read or asked. */
  lemma SelfIsSkipped(e: Entry, policy: BinaryPolicy, args: Args, input: Script, t: Tally)
    requires e.isSelf
    ensures ProcessStep(e, policy, args, input, t) == Step(Done, policy, input, t.(skipped := t.skipped + [e.path]))
  {
  }

  /** In an extension-only run the signature and the binary check are never
      consulted: every other file goes to the folder of its own extension. */
  lemma ExtOnlyStep(e: Entry, policy: BinaryPolicy, args: Args, input: Script, t: Tally)
    requires args.extOnly && !e.isSelf
    ensures ProcessStep(e, policy, args, input, t) == MoveStep(e, ExtOrUnknown(e.declared), policy, args, input, t)
  {
  }

  /** A prefix that cannot be read aborts the file (outside extension-only
      runs) with nothing recorded. */
  lemma UnreadableAborts(e: Entry, policy: BinaryPolicy, args: Args, input: Script, t: Tally)
    requires !e.isSelf && !args.extOnly && e.header.None?
    ensures ProcessStep(e, policy, args, input, t) == Step(Failed(ReadFailed), policy, input, t)
  {
  }

  /** The warnings one file adds: the mismatch warning when its resolution
      reported a pair (none otherwise), followed only in a dry run by the
      binary-file warning. */
  lemma StepWarnings(e: Entry, policy: BinaryPolicy, args: Args, input: Script, t: Tally)
    requires !e.isSelf
    requires ResolveExtension(e.declared, e.header, args.extOnly, args.dryRun, input).Ok?
    ensures var a := ResolveExtension(e.declared, e.header, args.extOnly, args.dryRun, input).value;
      var base := t.warnings + MismatchWarnings(e.path, a.got.mismatch);
      var w := ProcessStep(e, policy, args, input, t).tally.warnings;
      && (w == base || w == base + [BinaryDetected(e.path)])
      && (w != base ==> args.dryRun && !args.extOnly)
  {
    var a := ResolveExtension(e.declared, e.header, args.extOnly, args.dryRun, input).value;
    assert ProcessStep(e, policy, args, input, t) == AfterResolve(e, a.got, policy, args, a.rest, t);
  }

  /** A reported mismatch is the one mismatch warning the file adds, naming
      the detected and the declared extension; only a dry run's binary-file
      warning may follow it. */
  lemma MismatchWarnedFirst(e: Entry, policy: BinaryPolicy, args: Args, input: Script, t: Tally)
    requires !e.isSelf
    requires ResolveExtension(e.declared, e.header, args.extOnly, args.dryRun, input).Ok?
    requires ResolveExtension(e.declared, e.header, args.extOnly, args.dryRun, input).value.got.mismatch.Some?
    ensures var pair := ResolveExtension(e.declared, e.header, args.extOnly, args.dryRun, input).value.got.mismatch.value;
      var w := ProcessStep(e, policy, args, input, t).tally.warnings;
      var mw := SignatureMismatch(e.path, pair.0, pair.1);
      w == t.warnings + [mw] || w == t.warnings + [mw, BinaryDetected(e.path)]
  {
    StepWarnings(e, policy, args, input, t);
    var pair := ResolveExtension(e.declared, e.header, args.extOnly, args.dryRun, input).value.got.mismatch.value;
    var mw := SignatureMismatch(e.path, pair.0, pair.1);
    assert t.warnings + [mw] + [BinaryDetected(e.path)] == t.warnings + [mw, BinaryDetected(e.path)];
  }

  /** A file whose extension resolves to nothing (the user chose to skip the
      conflict) is skipped, not moved, and nothing more is asked. */
  lemma UnresolvedIsSkipped(e: Entry, policy: BinaryPolicy, args: Args, input: Script, t: Tally)
    requires !e.isSelf
    requires ResolveExtension(e.declared, e.header, args.extOnly, args.dryRun, input).Ok?
    requires ResolveExtension(e.declared, e.header, args.extOnly, args.dryRun, input).value.got.ext.None?
    ensures var s := ProcessStep(e, policy, args, input, t);
      && s.outcome == Done && s.policy == policy
      && s.tally.moved == t.moved
      && s.tally.skipped == t.skipped + [e.path]
      && s.tally.warnings == t.warnings
      && s.input == ResolveExtension(e.declared, e.header, args.extOnly, args.dryRun, input).value.rest
  {
  }

  /** In a dry run a binary file is reported and skipped, and the policy is
      left alone: nothing is asked. */
  lemma DryRunBinary(e: Entry, policy: BinaryPolicy, args: Args, input: Script, t: Tally)
    requires !e.isSelf && !args.extOnly && args.dryRun
    requires e.header.Some? && IsBinaryBuf(e.header.value)
    requires ResolveExtension(e.declared, e.header, args.extOnly, args.dryRun, input).Ok?
    requires ResolveExtension(e.declared, e.header, args.extOnly, args.dryRun, input).value.got.ext.Some?
    ensures var a := ResolveExtension(e.declared, e.header, args.extOnly, args.dryRun, input).value;
      var s := ProcessStep(e, policy, args, input, t);
      && s.outcome == Done && s.policy == policy && s.input == input
      && s.tally.moved == t.moved
      && s.tally.skipped == t.skipped + [e.path]
      && s.tally.warnings == t.warnings + MismatchWarnings(e.path, a.got.mismatch) + [BinaryDetected(e.path)]
  {
  }

  /** In a live run a binary file takes the policy `Decide` returns and is
      skipped exactly when it says so; otherwise it is moved as any file. */
  lemma LiveBinary(e: Entry, policy: BinaryPolicy, args: Args, input: Script, t: Tally)
    requires !e.isSelf && !args.extOnly && !args.dryRun
    requires e.header.Some? && IsBinaryBuf(e.header.value)
    requires ResolveExtension(e.declared, e.header, args.extOnly, args.dryRun, input).Ok?
    requires ResolveExtension(e.declared, e.header, args.extOnly, args.dryRun, input).value.got.ext.Some?
    requires Decide(policy, ResolveExtension(e.declared, e.header, args.extOnly, args.dryRun, input).value.rest).Ok?
    ensures var a := ResolveExtension(e.declared, e.header, args.extOnly, args.dryRun, input).value;
      var d := Decide(policy, a.rest).value;
      var s := ProcessStep(e, policy, args, input, t);
      && s.policy == d.got.1 && s.input == d.rest
      && (d.got.0.Skip? <==> (s.outcome.Done? && |s.tally.skipped| > |t.skipped|))
      && (d.got.0.Skip? ==> s.tally.moved == t.moved)
  {
  }

  /** Safety of the binary policy: a binary file is moved only in a live run,
      and never once the policy is `SkipAll`. */
  lemma BinaryMovedOnlyWhenAllowed(e: Entry, policy: BinaryPolicy, args: Args, input: Script, t: Tally)
    requires !args.extOnly && e.header.Some? && IsBinaryBuf(e.header.value)
    requires |ProcessStep(e, policy, args, input, t).tally.moved| > |t.moved|
    ensures !e.isSelf && !args.dryRun && policy != SkipAll
  {
    if !e.isSelf {
      var a := ResolveExtension(e.declared, e.header, args.extOnly, args.dryRun, input).value;
      if a.got.ext.Some? && policy == SkipAll && !args.dryRun {
        DecideAbsorbing(policy, a.rest);
      }
    }
  }

  /** A resolution that settles an extension without a mismatch hands the
      file on to the binary check and the move, with nothing recorded yet. */
  lemma SettledStep(e: Entry, ext: string, rest: Script, policy: BinaryPolicy, args: Args, input: Script, t: Tally)
    requires !e.isSelf
    requires ResolveExtension(e.declared, e.header, args.extOnly, args.dryRun, input) ==
      Ok(Answer(ResolveResult(Some(ext), None), rest))
    ensures ProcessStep(e, policy, args, input, t) == ResolvedStep(e, ext, policy, args, rest, t)
  {
    assert t.(warnings := t.warnings + MismatchWarnings(e.path, None)) == t;
  }

  /** Once the extension is settled, a move records that extension's folder. */
  lemma ResolvedStepMoves(e: Entry, ext: string, policy: BinaryPolicy, args: Args, input: Script, t: Tally)
    requires |ResolvedStep(e, ext, policy, args, input, t).tally.moved| > |t.moved|
    ensures ResolvedStep(e, ext, policy, args, input, t).tally.moved == t.moved + [(e.path, DirName(FromExt(ext)))]
  {
  }

  /** A moved file goes to the folder of the extension its resolution chose. */
  lemma MovedToResolvedFolder(e: Entry, policy: BinaryPolicy, args: Args, input: Script, t: Tally)
    requires |ProcessStep(e, policy, args, input, t).tally.moved| > |t.moved|
    ensures !e.isSelf
    ensures var r := ResolveExtension(e.declared, e.header, args.extOnly, args.dryRun, input);
      && r.Ok? && r.value.got.ext.Some?
      && ProcessStep(e, policy, args, input, t).tally.moved == t.moved + [(e.path, DirName(FromExt(r.value.got.ext.value)))]
  {
    var r := ResolveExtension(e.declared, e.header, args.extOnly, args.dryRun, input);
    var a := r.value;
    var t1 := t.(warnings := t.warnings + MismatchWarnings(e.path, a.got.mismatch));
    assert ProcessStep(e, policy, args, input, t) == AfterResolve(e, a.got, policy, args, a.rest, t);
    ResolvedStepMoves(e, a.got.ext.value, policy, args, a.rest, t1);
  }

  // ---------------------------------------------------------------------------
  // Properties of a batch

  /** The lists only grow, and a batch that completes accounts for every
      entry exactly once, as moved or as skipped. */
  lemma {:induction false} RunAccounts(entries: seq<Entry>, policy: BinaryPolicy, args: Args, input: Script, t: Tally)
    ensures Extends(t, Run(entries, policy, args, input, t).tally)
    ensures Run(entries, policy, args, input, t).outcome.Done? ==>
      Accounted(Run(entries, policy, args, input, t).tally) == Accounted(t) + |entries|
  {
    if entries != [] {
      var s := ProcessStep(entries[0], policy, args, input, t);
      if s.outcome.Done? {
        RunAccounts(entries[1..], s.policy, args, s.input, s.tally);
      }
    }
  }

  /** Once the user chose "all", the policy stays for the rest of the batch. */
  lemma {:induction false} RunKeepsStickyPolicy(entries: seq<Entry>, policy: BinaryPolicy, args: Args, input: Script, t: Tally)
    requires policy != AskEvery
    ensures Run(entries, policy, args, input, t).policy == policy
  {
    if entries != [] {
      var s := ProcessStep(entries[0], policy, args, input, t);
      if s.outcome.Done? {
        RunKeepsStickyPolicy(entries[1..], s.policy, args, s.input, s.tally);
      }
    }
  }

  /** Dry runs and extension-only runs never ask anything: no answer is read
      and the policy never changes. */
  lemma {:induction false} RunWithoutPrompts(entries: seq<Entry>, policy: BinaryPolicy, args: Args, input: Script, t: Tally)
    requires args.extOnly || args.dryRun
    ensures Run(entries, policy, args, input, t).input == input
    ensures Run(entries, policy, args, input, t).policy == policy
  {
    if entries != [] {
      var s := ProcessStep(entries[0], policy, args, input, t);
      if s.outcome.Done? {
        RunWithoutPrompts(entries[1..], s.policy, args, s.input, s.tally);
      }
    }
  }

  /** An extension-only run records no warning. */
  lemma {:induction false} RunExtOnlyNoWarnings(entries: seq<Entry>, policy: BinaryPolicy, args: Args, input: Script, t: Tally)
    requires args.extOnly
    ensures Run(entries, policy, args, input, t).tally.warnings == t.warnings
  {
    if entries != [] {
      var s := ProcessStep(entries[0], policy, args, input, t);
      if !entries[0].isSelf {
        ExtOnlyStep(entries[0], policy, args, input, t);
      }
      if s.outcome.Done? {
        RunExtOnlyNoWarnings(entries[1..], s.policy, args, s.input, s.tally);
      }
    }
  }

  /** The batch is processed file by file: running two lists one after the
      other is running their concatenation, the first failure ending both. */
  lemma {:induction false} RunAppend(a: seq<Entry>, b: seq<Entry>, policy: BinaryPolicy, args: Args, input: Script, t: Tally)
    ensures Run(a + b, policy, args, input, t) ==
      var s := Run(a, policy, args, input, t);
      if s.outcome.Failed? then s else Run(b, s.policy, args, s.input, s.tally)
  {
    if a == [] {
      assert a + b == b;
    } else {
      assert (a + b)[0] == a[0];
      assert (a + b)[1..] == a[1..] + b;
      var s := ProcessStep(a[0], policy, args, input, t);
      if s.outcome.Done? {
        RunAppend(a[1..], b, s.policy, args, s.input, s.tally);
      }
    }
  }

  // ---------------------------------------------------------------------------
  // Worked examples

  /** A binary file whose extension is settled as "pdf", asked about in a
      live run: answering "process this one" moves it to Documents. */
  lemma BinaryPdfProcessed(e: Entry, t: Tally)
    requires e.header.Some? && IsBinaryBuf(e.header.value) && e.moveSucceeds
    ensures ResolvedStep(e, "pdf", AskEvery, Args(false, false), [2], t) ==
      Step(Done, AskEvery, [], t.(moved := t.moved + [(e.path, "Documents")]))
  {
    PdfMapping();
    assert Decide(AskEvery, [2]) == Ok(Answer((Process, AskEvery), []));
  }

  /** A PDF (any header labelled "pdf", such as `PDF_PREFIX` by
      `PdfPrefixDetected`) is binary: in a live run the user is asked, and
      answering "process this one" moves it to Documents and keeps asking. */
  lemma PdfProcessedOnRequest(h: Prefix)
    requires DetectBySignatureBuf(h) == Some("pdf") && IsBinaryBuf(h)
    ensures var e := Entry("report.pdf", false, Some("pdf"), Some(h), true);
      Run([e], AskEvery, Args(false, false), [2], EMPTY_TALLY) ==
        Step(Done, AskEvery, [], Tally([("report.pdf", "Documents")], [], []))
  {
    var e := Entry("report.pdf", false, Some("pdf"), Some(h), true);
    var live := Args(false, false);
    assert AsciiLower("pdf") == "pdf";
    ResolveAgreeing(e.declared, h, false, [2]);
    assert ProcessStep(e, AskEvery, live, [2], EMPTY_TALLY) == ResolvedStep(e, "pdf", AskEvery, live, [2], EMPTY_TALLY);
    BinaryPdfProcessed(e, EMPTY_TALLY);
    RunCons(e, [], AskEvery, live, [2], EMPTY_TALLY);
    assert [e] + [] == [e];
  }

  /** An executable named like a picture (a ".png" whose header has no label
      but is binary, such as `MZ_PREFIX` by `MzPrefixDetected`): the
      extension stands and no mismatch is reported, but a dry run reports
      the file as binary and skips it. */
  lemma DisguisedExecutableDryRun(e: Entry)
    requires !e.isSelf && e.declared == Some("png") && e.header.Some?
    requires DetectBySignatureBuf(e.header.value) == None && IsBinaryBuf(e.header.value)
    ensures ProcessStep(e, AskEvery, Args(false, true), [], EMPTY_TALLY) ==
      Step(Done, AskEvery, [], Tally([], [e.path], [BinaryDetected(e.path)]))
  {
    var dry := Args(false, true);
    ResolveWithoutSignature(e.declared, e.header.value, true, []);
    assert AsciiLower("png") == "png";
    SettledStep(e, "png", [], AskEvery, dry, [], EMPTY_TALLY);
  }

  /** A file that is not the running program, whose header is binary and
      whose label, if any, does not contest its extension: the resolution
      settles silently and the binary question is what remains. */
  predicate UncontestedBinary(e: Entry) {
    && !e.isSelf && e.header.Some? && IsBinaryBuf(e.header.value)
    && !Conflicting(DetectBySignatureBuf(e.header.value), e.declared)
  }

  /** The extension an uncontested file settles on: its label, or else its
      own extension or "unknown". */
  function SettledExt(e: Entry): string
    requires e.header.Some?
  {
    match DetectBySignatureBuf(e.header.value)
    case Some(l) => l
    case None => ExtOrUnknown(e.declared)
  }

  /** An uncontested file settles on `SettledExt` in a live run without
      reading an answer. */
  lemma UncontestedSettles(e: Entry, policy: BinaryPolicy, input: Script, t: Tally)
    requires UncontestedBinary(e)
    ensures ProcessStep(e, policy, Args(false, false), input, t) ==
      ResolvedStep(e, SettledExt(e), policy, Args(false, false), input, t)
  {
    var h := e.header.value;
    if DetectBySignatureBuf(h).Some? {
      ResolveAgreeing(e.declared, h, false, input);
    } else {
      ResolveWithoutSignature(e.declared, h, false, input);
    }
    SettledStep(e, SettledExt(e), input, policy, Args(false, false), input, t);
  }

  /** A binary file whose label does not contest its extension, asked about
      in a live run: answering "skip all" skips it and makes the policy
      `SkipAll`. */
  lemma SkipAllAnswered(e: Entry, rest: Script, t: Tally)
    requires UncontestedBinary(e)
    ensures ProcessStep(e, AskEvery, Args(false, false), [1] + rest, t) ==
      Step(Done, SkipAll, rest, t.(skipped := t.skipped + [e.path]))
  {
    var input: Script := [1] + rest;
    assert input[0] == 1 && input[1..] == rest;
    UncontestedSettles(e, AskEvery, input, t);
  }

  /** Under `SkipAll` a binary file whose label does not contest its
      extension is skipped without reading an answer. */
  lemma SkippedUnderSkipAll(e: Entry, input: Script, t: Tally)
    requires UncontestedBinary(e)
    ensures ProcessStep(e, SkipAll, Args(false, false), input, t) ==
      Step(Done, SkipAll, input, t.(skipped := t.skipped + [e.path]))
  {
    UncontestedSettles(e, SkipAll, input, t);
  }

  /** The paths of a list of entries, in order. */
  function Paths(es: seq<Entry>): seq<string> {
    if es == [] then [] else [es[0].path] + Paths(es[1..])
  }

  /** Regrouping a concatenation of path lists, kept outside
      `SkipAllSkipsRest` so that the step is proved without that lemma's
      context. */
  lemma AppendAssoc(a: seq<string>, b: seq<string>, c: seq<string>)
    ensures a + (b + c) == (a + b) + c
  {
  }

  /** Under `SkipAll` every uncontested binary file of the list is skipped in
      turn, and no answer is read. */
  lemma {:induction false} SkipAllSkipsRest(rest: seq<Entry>, input: Script, t: Tally)
    requires forall i | 0 <= i < |rest| :: UncontestedBinary(rest[i])
    ensures Run(rest, SkipAll, Args(false, false), input, t) ==
      Step(Done, SkipAll, input, t.(skipped := t.skipped + Paths(rest)))
    decreases |rest|
  {
    if rest == [] {
      assert t.(skipped := t.skipped + Paths(rest)) == t;
    } else {
      var e := rest[0];
      var t1 := t.(skipped := t.skipped + [e.path]);
      SkippedUnderSkipAll(e, input, t);
      assert forall i | 0 <= i < |rest[1..]| :: rest[1..][i] == rest[i + 1];
      SkipAllSkipsRest(rest[1..], input, t1);
      var ps := Paths(rest[1..]);
      assert Paths(rest) == [e.path] + ps;
      AppendAssoc(t.skipped, [e.path], ps);
    }
  }

  /** Answering "skip all" once skips that binary file and every later one
      without another question. */
  lemma SkipAllCoversLaterFiles(a: Entry, rest: seq<Entry>, t: Tally)
    requires UncontestedBinary(a)
    requires forall i | 0 <= i < |rest| :: UncontestedBinary(rest[i])
    ensures Run([a] + rest, AskEvery, Args(false, false), [1], t) ==
      Step(Done, SkipAll, [], t.(skipped := t.skipped + [a.path] + Paths(rest)))
  {
    var live := Args(false, false);
    var t1 := t.(skipped := t.skipped + [a.path]);
    SkipAllAnswered(a, [], t);
    assert [1] + [] == [1];
    SkipAllSkipsRest(rest, [], t1);
    RunCons(a, rest, AskEvery, live, [1], t);
  }

  // ---------------------------------------------------------------------------
  // The imperative driver

  /** The lists the batch accumulates. */
  class ProcessingResult {
    var moved: seq<(string, string)>
    var skipped: seq<string>
    var warnings: seq<Warning>

    constructor ()
      ensures moved == [] && skipped == [] && warnings == []
    {
      moved, skipped, warnings := [], [], [];
    }

    function Snapshot(): Tally
      reads this
    {
      Tally(moved, skipped, warnings)
    }
  }

  /** The part of `process_file` after the extension `ext` is settled: the
      binary check, the policy, and the move. */
  method ProcessResolved(e: Entry, ext: string, policy: BinaryPolicy, args: Args, input: Script, result: ProcessingResult)
    returns (outcome: Outcome, policy': BinaryPolicy, input': Script)
    modifies result
    ensures Step(outcome, policy', input', result.Snapshot()) == ResolvedStep(e, ext, policy, args, input, old(result.Snapshot()))
  {
    policy', input' := policy, input;
    if !args.extOnly {
      var binary := IsBinary(e.header);
      if binary.Err? {
        return Failed(binary.error), policy', input';
      }
      if binary.value {
        if args.dryRun {
          result.warnings := result.warnings + [BinaryDetected(e.path)];
          result.skipped := result.skipped + [e.path];
          return Done, policy', input';
        }
        var decision := Decide(policy', input');
        if decision.Err? {
          return Failed(decision.error), policy', input';
        }
        policy', input' := decision.value.got.1, decision.value.rest;
        if decision.value.got.0.Skip? {
          result.skipped := result.skipped + [e.path];
          return Done, policy', input';
        }
      }
    }

    var category := FromExt(ext);
    if !args.dryRun && !e.moveSucceeds {
      return Failed(MoveFailed), policy', input';
    }
    result.moved := result.moved + [(e.path, DirName(category))];
    outcome := Done;
  }

  /** `process_file`: decide one entry, appending to `result`; the policy is
      passed in and the new one returned, as are the unread answers. */
  method ProcessFile(e: Entry, policy: BinaryPolicy, args: Args, input: Script, result: ProcessingResult)
    returns (outcome: Outcome, policy': BinaryPolicy, input': Script)
    modifies result
    ensures Step(outcome, policy', input', result.Snapshot()) == ProcessStep(e, policy, args, input, old(result.Snapshot()))
  {
    if e.isSelf {
      result.skipped := result.skipped + [e.path];
      return Done, policy, input;
    }

    var res := ResolveExtension(e.declared, e.header, args.extOnly, args.dryRun, input);
    if res.Err? {
      return Failed(res.error), policy, input;
    }

    ghost var t0 := result.Snapshot();
    assert ProcessStep(e, policy, args, input, t0) == AfterResolve(e, res.value.got, policy, args, res.value.rest, t0);
    outcome, policy', input' := ProcessResolution(e, res.value.got, policy, args, res.value.rest, result);
  }

  /** The part of `process_file` after `resolve_extension` returned `res`:
      report a mismatch, skip a file left without extension, go on. */
  method ProcessResolution(e: Entry, res: ResolveResult, policy: BinaryPolicy, args: Args, input: Script, result: ProcessingResult)
    returns (outcome: Outcome, policy': BinaryPolicy, input': Script)
    modifies result
    ensures Step(outcome, policy', input', result.Snapshot()) == AfterResolve(e, res, policy, args, input, old(result.Snapshot()))
  {
    ghost var t0 := result.Snapshot();
    if res.mismatch.Some? {
      var pair := res.mismatch.value;
      result.warnings := result.warnings + [SignatureMismatch(e.path, pair.0, pair.1)];
    }
    ghost var t1 := result.Snapshot();
    assert t1 == t0.(warnings := t0.warnings + MismatchWarnings(e.path, res.mismatch));

    if res.ext.None? {
      result.skipped := result.skipped + [e.path];
      return Done, policy, input;
    }
    outcome, policy', input' := ProcessResolved(e, res.ext.value, policy, args, input, result);
  }

  /** The loop of the entry point: start from `AskEvery` and empty lists,
      process the entries in order, stop at the first failure. */
  method RunBatch(entries: seq<Entry>, args: Args, input: Script) returns (outcome: Outcome, result: ProcessingResult)
    ensures var s := Run(entries, AskEvery, args, input, EMPTY_TALLY);
      outcome == s.outcome && result.Snapshot() == s.tally
  {
    var policy := AskEvery;
    var rest := input;
    result := new ProcessingResult();
    var i := 0;
    while i < |entries|
      invariant 0 <= i <= |entries|
      invariant Run(entries, AskEvery, args, input, EMPTY_TALLY) == Run(entries[i..], policy, args, rest, result.Snapshot())
    {
      assert entries[i..][1..] == entries[i + 1..];
      var o;
      o, policy, rest := ProcessFile(entries[i], policy, args, rest, result);
      if o.Failed? {
        return o, result;
      }
      i := i + 1;
    }
    outcome := Done;
  }
}
