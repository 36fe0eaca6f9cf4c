/** The binary-file policy and the two four-entry menus of the interactive
    prompt. The terminal is replaced by a script: the answers the user will
    give, in order. Reading from an exhausted script is the input failure. */
module Prompt {
  import opened Common

  datatype BinaryAction = Skip | Process

  /** What to do with binary files; threaded through a whole batch. */
  datatype BinaryPolicy = AskEvery | SkipAll | NeverSkip

  /** A 0-based selection in a four-entry menu; the menu offers nothing else. */
  type MenuIndex = i: nat | i < 4

  /** The user's answers, in the order the menus will be shown. */
  type Script = seq<MenuIndex>

  /** Something read from the terminal, with the answers still unread. */
  datatype Answer<+T> = Answer(got: T, rest: Script)

  /** One interactive selection: the next answer, or an input failure when
      the user gives none. */
  function Select(input: Script): (r: Result<Answer<MenuIndex>>)
    ensures r.Ok? <==> input != []
    ensures r.Ok? ==> [r.value.got] + r.value.rest == input
    ensures r.Err? ==> r.error == InputFailed
  {
    if input == [] then Err(InputFailed) else Ok(Answer(input[0], input[1..]))
  }

  /** The outcome of each entry of the binary-file menu. */
  function BinaryChoice(choice: MenuIndex): (r: (BinaryAction, BinaryPolicy))
    ensures r.0.Skip? <==> choice < 2
    ensures r.1 == AskEvery <==> choice % 2 == 0
    ensures r.1 != AskEvery ==> (r.1 == SkipAll <==> r.0.Skip?)
  {
    match choice
    case 0 => (BinaryAction.Skip, AskEvery)
    case 1 => (BinaryAction.Skip, SkipAll)
    case 2 => (Process, AskEvery)
    case 3 => (Process, NeverSkip)
  }

  /** The menu entry that yields a given outcome. */
  function BinaryChoiceIndex(d: (BinaryAction, BinaryPolicy)): MenuIndex {
    (if d.0.Skip? then 0 else 2) + (if d.1 == AskEvery then 0 else 1)
  }

  /** Each entry of the binary-file menu has its own outcome: the index can be
      read back from it. */
  lemma BinaryChoiceRoundTrip(choice: MenuIndex)
    ensures BinaryChoiceIndex(BinaryChoice(choice)) == choice
  {
  }

  /** `ask_binary_policy_once`: show the binary-file menu and take one answer. */
  function AskBinaryPolicyOnce(input: Script): (r: Result<Answer<(BinaryAction, BinaryPolicy)>>)
    ensures r.Ok? <==> input != []
    ensures r.Ok? ==> r.value.got == BinaryChoice(input[0]) && r.value.rest == input[1..]
    ensures r.Err? ==> r.error == InputFailed
  {
    var a :- Select(input);
    Ok(Answer(BinaryChoice(a.got), a.rest))
  }

  /** `BinaryPolicy::decide`: the action for one binary file and the policy
      for the next one. Only `AskEvery` shows the menu. */
  function Decide(policy: BinaryPolicy, input: Script): (r: Result<Answer<(BinaryAction, BinaryPolicy)>>)
    ensures policy == SkipAll ==> r == Ok(Answer((BinaryAction.Skip, SkipAll), input))
    ensures policy == NeverSkip ==> r == Ok(Answer((Process, NeverSkip), input))
    ensures policy == AskEvery ==> r == AskBinaryPolicyOnce(input)
  {
    match policy
    case AskEvery => AskBinaryPolicyOnce(input)
    case SkipAll => Ok(Answer((BinaryAction.Skip, SkipAll), input))
    case NeverSkip => Ok(Answer((Process, NeverSkip), input))
  }

  /** `SkipAll` and `NeverSkip` are absorbing: once reached, `Decide` never
      leaves them, never fails and never reads an answer. */
  lemma DecideAbsorbing(policy: BinaryPolicy, input: Script)
    requires policy != AskEvery
    ensures Decide(policy, input).Ok?
    ensures Decide(policy, input).value.got.1 == policy
    ensures Decide(policy, input).value.rest == input
    ensures Decide(policy, input).value.got.0.Skip? <==> policy == SkipAll
  {
  }

  /** From `AskEvery` the file is skipped exactly when the answer is one of
      the two "skip" entries, and the policy becomes sticky exactly on the
      two "all" entries. */
  lemma DecideFromAskEvery(input: Script)
    requires input != []
    ensures Decide(AskEvery, input).Ok?
    ensures Decide(AskEvery, input).value.got.0.Skip? <==> input[0] < 2
    ensures Decide(AskEvery, input).value.got.1 == AskEvery <==> input[0] % 2 == 0
    ensures Decide(AskEvery, input).value.rest == input[1..]
  {
  }

  datatype ConflictResolution =
    | Skip
    | BySignature(ext: string)
    | ByExtension(ext: string)
    | Mismatched

  /** The outcome of each entry of the mismatch menu, carrying the two
      extension strings it was shown. */
  function ConflictChoice(choice: MenuIndex, sigExt: string, realExt: string): (r: ConflictResolution)
    ensures ConflictChoiceIndex(r) == choice
    ensures r.BySignature? ==> r.ext == sigExt
    ensures r.ByExtension? ==> r.ext == realExt
  {
    match choice
    case 0 => ConflictResolution.Skip
    case 1 => BySignature(sigExt)
    case 2 => ByExtension(realExt)
    case 3 => Mismatched
  }

  /** The menu entry that yields a given resolution. */
  function ConflictChoiceIndex(r: ConflictResolution): MenuIndex {
    match r
    case Skip => 0
    case BySignature(_) => 1
    case ByExtension(_) => 2
    case Mismatched => 3
  }

  /** `ask_conflict_resolution`: show the mismatch menu and take one answer. */
  function AskConflictResolution(sigExt: string, realExt: string, input: Script): (r: Result<Answer<ConflictResolution>>)
    ensures r.Ok? <==> input != []
    ensures r.Ok? ==> r.value.got == ConflictChoice(input[0], sigExt, realExt) && r.value.rest == input[1..]
    ensures r.Err? ==> r.error == InputFailed
  {
    var a :- Select(input);
    Ok(Answer(ConflictChoice(a.got, sigExt, realExt), a.rest))
  }
}
