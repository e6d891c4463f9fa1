/** `InputCheck.CheckInput` (CompoundCalc/Helpers/InputCheck.cs): the
    pattern `^[0-9]*$` first, then `string.IsNullOrEmpty`; the input comes
    back unchanged. A null input makes `Regex.IsMatch` throw
    `ArgumentNullException` for its `input` parameter before either check. */
module InputCheck {
  import opened Wrappers
  import opened Faults
  import opened DigitsRegex
  import opened Text

  function CheckInput(input: Option<string>): (r: Result<string, Fault>)
    ensures input.None? ==> r == Failure(ArgumentNull("input"))
    ensures input.Some? && !IsMatch(input.value) ==> r == Failure(NotSupported)
    ensures r == Failure(NullReference) <==> input == Some("")
    ensures r.Success? <==> input.Some? && input.value != [] && IsMatch(input.value)
    ensures r.Success? ==> r.value == input.value
  {
    match input
    case None => Failure(ArgumentNull("input"))
    case Some(s) =>
      if !IsMatch(s) then Failure(NotSupported)
      else if s == [] then Failure(NullReference)
      else Success(s)
  }

  /** A character outside '0'..'9', anywhere but as a final "\n", is
      refused as not supported, never as a null reference. */
  lemma NonDigitIsNotSupported(s: string, i: nat)
    requires i < |s| && !IsDigit(s[i]) && !(i == |s| - 1 && s[i] == '\n')
    ensures CheckInput(Some(s)) == Failure(NotSupported)
  {
    IsMatchMeaning(s);
    if s[|s| - 1] == '\n' {
      assert s[..|s| - 1][i] == s[i];
    }
  }

  /** Every non-empty digit string is accepted and returned as it is. */
  lemma DigitStringsAreReturned(s: string)
    requires s != [] && AllDigits(s)
    ensures CheckInput(Some(s)) == Success(s)
  {
    IsMatchMeaning(s);
  }

  /** The empty string matches the pattern, so it reaches the emptiness
      check; "123\n" passes both checks because `$` matches before the
      final newline, and comes back with its newline. */
  lemma CheckInputExamples()
    ensures CheckInput(Some("")) == Failure(NullReference)
    ensures CheckInput(Some("123\n")) == Success("123\n")
    ensures CheckInput(Some("12a")) == Failure(NotSupported)
  {
    assert MatchesFrom("123\n", 3);
    NonDigitIsNotSupported("12a", 2);
  }

  /** As written, a lone "\n" passes both checks although it holds no digit. */
  lemma NewlineAloneIsAccepted()
    ensures CheckInput(Some("\n")) == Success("\n")
  {
    assert MatchesFrom("\n", 0);
  }

  /** The check the messages describe: a non-null, non-empty string of
      digits and nothing else. The digit check still comes first. */
  function CheckDigitsOnly(input: Option<string>): (r: Result<string, Fault>)
    ensures input.None? ==> r == Failure(ArgumentNull("input"))
    ensures r == Failure(NullReference) <==> input == Some("")
    ensures r.Success? <==> input.Some? && input.value != [] && AllDigits(input.value)
    ensures r.Success? ==> r.value == input.value
  {
    match input
    case None => Failure(ArgumentNull("input"))
    case Some(s) =>
      if !AllDigits(s) then Failure(NotSupported)
      else if s == [] then Failure(NullReference)
      else Success(s)
  }

  /** The corrected check agrees with `CheckInput` except on inputs that
      end in "\n", which it refuses as not supported. */
  lemma CheckDigitsOnlyRefinesCheckInput(input: Option<string>)
    ensures input.None? || input.value == [] || input.value[|input.value| - 1] != '\n' ==>
      CheckDigitsOnly(input) == CheckInput(input)
    ensures input.Some? && input.value != [] && input.value[|input.value| - 1] == '\n' ==>
      CheckDigitsOnly(input) == Failure(NotSupported)
    ensures CheckDigitsOnly(Some("\n")) == Failure(NotSupported)
  {
    if input.Some? {
      IsMatchMeaning(input.value);
      var s := input.value;
      if s != [] && s[|s| - 1] == '\n' {
        assert !IsDigit(s[|s| - 1]);
      }
    }
    assert !IsDigit("\n"[0]);
  }
}
