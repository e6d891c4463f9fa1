/** The pattern `^[0-9]*$` under .NET regular-expression rules: `^` anchors
    at the start, `[0-9]` is an ASCII digit, and `$` (without
    `RegexOptions.Multiline`) matches at the end of the input or just before
    a final "\n". */
module DigitsRegex {
  import opened Text

  /** The matcher from position `i`: `[0-9]*` has consumed `s[..i]` and
      either `$` matches here or one more digit is taken. A final "\n" is
      not a digit, so no backtracking is ever needed. */
  predicate MatchesFrom(s: string, i: nat)
    requires i <= |s|
    decreases |s| - i
  {
    || i == |s|
    || (i == |s| - 1 && s[i] == '\n')
    || (IsDigit(s[i]) && MatchesFrom(s, i + 1))
  }

  /** `Regex.IsMatch(input, "^[0-9]*$")`. */
  predicate IsMatch(s: string) {
    MatchesFrom(s, 0)
  }

  /** What the matcher accepts: digits only, optionally followed by one
      final "\n". */
  lemma {:induction false} MatchesFromSuffix(s: string, i: nat)
    requires i <= |s|
    ensures MatchesFrom(s, i) <==>
      || (forall k | i <= k < |s| :: IsDigit(s[k]))
      || (|s| > i && s[|s| - 1] == '\n' && forall k | i <= k < |s| - 1 :: IsDigit(s[k]))
    decreases |s| - i
  {
    if i < |s| {
      MatchesFromSuffix(s, i + 1);
    }
  }

  /** The pattern accepts exactly the digit strings, with or without one
      trailing "\n"; the empty string is a digit string. */
  lemma IsMatchMeaning(s: string)
    ensures IsMatch(s) <==> AllDigits(s) || (s != [] && s[|s| - 1] == '\n' && AllDigits(s[..|s| - 1]))
  {
    MatchesFromSuffix(s, 0);
    if s != [] {
      assert forall k | 0 <= k < |s| - 1 :: s[..|s| - 1][k] == s[k];
    }
  }
}
