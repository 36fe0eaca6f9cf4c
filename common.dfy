/** Types shared by every part of the model: bytes, optional values, the
    failures that abort a batch, and ASCII lower-casing of extension strings. */
module Common {

  /** One byte of a file prefix. */
  type byte = b: int | 0 <= b < 256

  datatype Option<+T> = None | Some(value: T)

  /** The errors that propagate out of a file's processing and abort the batch. */
  datatype Failure =
    | ReadFailed    // the file prefix could not be opened, stat'ed or read
    | InputFailed   // the interactive menu could not read the user's answer
    | MoveFailed    // the move collaborator could not create the folder or rename

  datatype Result<+T> = Ok(value: T) | Err(error: Failure) {
    predicate IsFailure() {
      Err?
    }

    function PropagateFailure<U>(): Result<U>
      requires Err?
    {
      Err(error)
    }

    function Extract(): T
      requires Ok?
    {
      value
    }
  }

  predicate IsAsciiUpper(c: char) {
    'A' <= c <= 'Z'
  }

  /** ASCII lower-casing of one character; every other character is kept. */
  function LowerChar(c: char): (r: char)
    ensures !IsAsciiUpper(r)
    ensures IsAsciiUpper(c) ==> r as int == c as int + 32
    ensures !IsAsciiUpper(c) ==> r == c
  {
    if IsAsciiUpper(c) then (c as int + 32) as char else c
  }

  /** `to_ascii_lowercase` on a string: character by character. */
  function AsciiLower(s: string): (r: string)
    ensures |r| == |s|
  {
    if s == [] then [] else [LowerChar(s[0])] + AsciiLower(s[1..])
  }

  predicate HasNoAsciiUpper(s: string) {
    forall i :: 0 <= i < |s| ==> !IsAsciiUpper(s[i])
  }

  lemma {:induction false} AsciiLowerAt(s: string, i: nat)
    requires i < |s|
    ensures AsciiLower(s)[i] == LowerChar(s[i])
  {
    if i > 0 {
      AsciiLowerAt(s[1..], i - 1);
    }
  }

  /** Lower-casing leaves no upper-case letter behind. */
  lemma AsciiLowerHasNoUpper(s: string)
    ensures HasNoAsciiUpper(AsciiLower(s))
  {
    forall i | 0 <= i < |s| ensures !IsAsciiUpper(AsciiLower(s)[i]) {
      AsciiLowerAt(s, i);
    }
  }

  /** A string with no upper-case letter is its own lower-case form. */
  lemma {:induction false} AsciiLowerOfLower(s: string)
    requires HasNoAsciiUpper(s)
    ensures AsciiLower(s) == s
  {
    if s != [] {
      assert HasNoAsciiUpper(s[1..]) by {
        forall i | 0 <= i < |s| - 1 ensures !IsAsciiUpper(s[1..][i]) {
          assert s[1..][i] == s[i + 1];
        }
      }
      AsciiLowerOfLower(s[1..]);
    }
  }

  /** Lower-casing is idempotent. */
  lemma AsciiLowerIdempotent(s: string)
    ensures AsciiLower(AsciiLower(s)) == AsciiLower(s)
  {
    AsciiLowerHasNoUpper(s);
    AsciiLowerOfLower(AsciiLower(s));
  }
}
