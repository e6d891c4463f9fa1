/** `InputCheck.CheckInput` of the console project
    (CompoundInterestCalculator/Helpers/InputCheck.cs): the same two checks,
    with the pattern `^[0-9]*$` compiled ahead of time by `[GeneratedRegex]`.
    A generated regex follows the same .NET matching rules. */
module GeneratedInputCheck {
  import opened Wrappers
  import opened Faults
  import DigitsRegex
  import InputCheck

  /** `MyRegex().IsMatch(input)`. */
  predicate MyRegexIsMatch(input: string) {
    DigitsRegex.IsMatch(input)
  }

  function CheckInput(input: Option<string>): (r: Result<string, Fault>)
    ensures input.None? ==> r == Failure(ArgumentNull("input"))
    ensures input.Some? && !MyRegexIsMatch(input.value) ==> r == Failure(NotSupported)
    ensures r == Failure(NullReference) <==> input == Some("")
    ensures r.Success? <==> input.Some? && input.value != [] && MyRegexIsMatch(input.value)
    ensures r.Success? ==> r.value == input.value
  {
    match input
    case None => Failure(ArgumentNull("input"))
    case Some(s) =>
      if !MyRegexIsMatch(s) then Failure(NotSupported)
      else if s == [] then Failure(NullReference)
      else Success(s)
  }

  /** Both helpers behave identically on every input. */
  lemma AgreesWithLibraryCheck(input: Option<string>)
    ensures CheckInput(input) == InputCheck.CheckInput(input)
  {
  }

  /** One trailing "\n" after digits is accepted and kept. */
  lemma TrailingNewlineIsKept()
    ensures CheckInput(Some("2024\n")) == Success("2024\n")
  {
    assert DigitsRegex.MatchesFrom("2024\n", 4);
  }
}
