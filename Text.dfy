/** The .NET string operations the core uses: `char.IsWhiteSpace`,
    `string.IsNullOrWhiteSpace`, `string.Trim` and ordinal case-insensitive
    equality (`StringComparison.OrdinalIgnoreCase`, ASCII letters only). */
module Text {
  import opened Wrappers

  /** `char.IsWhiteSpace`: the Unicode space separators plus the line and
      paragraph separators, U+0009..U+000D, U+0085 and U+00A0. */
  predicate IsWhiteSpace(c: char) {
    || c == ' '
    || '\t' <= c <= '\r'
    || c == '\U{85}' || c == '\U{A0}' || c == '\U{1680}'
    || '\U{2000}' <= c <= '\U{200A}'
    || c == '\U{2028}' || c == '\U{2029}' || c == '\U{202F}' || c == '\U{205F}'
    || c == '\U{3000}'
  }

  /** An ASCII decimal digit, '0'..'9'. */
  predicate IsDigit(c: char) {
    '0' <= c <= '9'
  }

  predicate AllDigits(s: string) {
    forall i | 0 <= i < |s| :: IsDigit(s[i])
  }

  /** A non-null string that is empty or made of white space only. */
  predicate IsBlank(s: string) {
    forall i | 0 <= i < |s| :: IsWhiteSpace(s[i])
  }

  /** `string.IsNullOrWhiteSpace`: null, or white space only
      (NullOrWhiteSpaceExactlyWhenTrimmedEmpty: nothing left after trimming). */
  predicate IsNullOrWhiteSpace(s: Option<string>) {
    s.None? || IsBlank(s.value)
  }

  /** `string.TrimStart()`: drops the leading white space. */
  function TrimStart(s: string): (t: string)
    ensures |t| <= |s| && t == s[|s| - |t|..]
    ensures forall k | 0 <= k < |s| - |t| :: IsWhiteSpace(s[k])
    ensures t != [] ==> !IsWhiteSpace(t[0])
  {
    if s != [] && IsWhiteSpace(s[0]) then TrimStart(s[1..]) else s
  }

  /** `string.TrimEnd()`: drops the trailing white space. */
  function TrimEnd(s: string): (t: string)
    ensures |t| <= |s| && t == s[..|t|]
    ensures forall k | |t| <= k < |s| :: IsWhiteSpace(s[k])
    ensures t != [] ==> !IsWhiteSpace(t[|t| - 1])
  {
    if s != [] && IsWhiteSpace(s[|s| - 1]) then TrimEnd(s[..|s| - 1]) else s
  }

  /** `s` is `t`, found at position `i`, with only white space before and after it. */
  predicate IsPaddedBy(s: string, t: string, i: nat)
    requires i <= |s| - |t|
  {
    && t == s[i..i + |t|]
    && (forall k | 0 <= k < i :: IsWhiteSpace(s[k]))
    && (forall k | i + |t| <= k < |s| :: IsWhiteSpace(s[k]))
  }

  /** `string.Trim()`: a slice of `s` that neither starts nor ends with
      white space, and empty exactly when `s` is blank. */
  function Trim(s: string): (t: string)
    ensures |t| <= |s|
    ensures exists i | 0 <= i <= |s| - |t| :: IsPaddedBy(s, t, i)
    ensures t == [] <==> IsBlank(s)
    ensures t != [] ==> !IsWhiteSpace(t[0]) && !IsWhiteSpace(t[|t| - 1])
  {
    TrimIsEmptyWhenBlank(s);
    TrimIsMiddleSlice(s);
    TrimEnd(TrimStart(s))
  }

  /** Trimming keeps the slice between the leading and the trailing white space. */
  lemma {:induction false} TrimIsMiddleSlice(s: string)
    ensures exists i | 0 <= i <= |s| - |TrimEnd(TrimStart(s))| :: IsPaddedBy(s, TrimEnd(TrimStart(s)), i)
  {
    var u := TrimStart(s);
    var t := TrimEnd(u);
    PrefixOfSuffix(s, u, t);
    assert 0 <= |s| - |u| <= |s| - |t| && IsPaddedBy(s, t, |s| - |u|);
  }

  /** A prefix `t` of the suffix `u` of `s`, followed in `u` by white space only. */
  lemma {:induction false} PrefixOfSuffix(s: string, u: string, t: string)
    requires |u| <= |s| && u == s[|s| - |u|..]
    requires forall k | 0 <= k < |s| - |u| :: IsWhiteSpace(s[k])
    requires |t| <= |u| && t == u[..|t|]
    requires forall k | |t| <= k < |u| :: IsWhiteSpace(u[k])
    ensures IsPaddedBy(s, t, |s| - |u|)
  {
    var i := |s| - |u|;
    forall k | i + |t| <= k < |s|
      ensures IsWhiteSpace(s[k])
    {
      assert s[k] == u[k - i];
    }
  }

  lemma TrimIsEmptyWhenBlank(s: string)
    ensures TrimEnd(TrimStart(s)) == [] <==> IsBlank(s)
    ensures TrimEnd(TrimStart(s)) != [] ==> !IsWhiteSpace(TrimEnd(TrimStart(s))[0])
  {
    var u := TrimStart(s);
    var t := TrimEnd(u);
    if t != [] {
      assert t[0] == u[0];
    }
  }

  /** The invariant upper-case mapping, restricted to ASCII letters. */
  function FoldCase(c: char): char {
    if 'a' <= c <= 'z' then (c as int - 32) as char else c
  }

  /** `string.Equals(a, b, StringComparison.OrdinalIgnoreCase)`: same length
      and equal character by character after case folding. */
  predicate EqualsIgnoreCase(a: string, b: string)
    ensures EqualsIgnoreCase(a, b) ==> |a| == |b|
  {
    |a| == |b| && (a == [] || (FoldCase(a[0]) == FoldCase(b[0]) && EqualsIgnoreCase(a[1..], b[1..])))
  }

  /** `string?.Trim()` compared ignoring case with `target`; null never matches. */
  predicate TrimmedEqualsIgnoreCase(s: Option<string>, target: string) {
    s.Some? && EqualsIgnoreCase(Trim(s.value), target)
  }

  /** Null or white space exactly when trimming leaves nothing. */
  lemma NullOrWhiteSpaceExactlyWhenTrimmedEmpty(s: Option<string>)
    ensures IsNullOrWhiteSpace(s) <==> s.None? || Trim(s.value) == []
  {
  }

  /** Case-insensitive equality compares characters position by position. */
  lemma {:induction false} EqualsIgnoreCaseAt(a: string, b: string)
    ensures EqualsIgnoreCase(a, b) <==> |a| == |b| && forall i | 0 <= i < |a| :: FoldCase(a[i]) == FoldCase(b[i])
  {
    if a != [] && |a| == |b| {
      EqualsIgnoreCaseAt(a[1..], b[1..]);
      if EqualsIgnoreCase(a, b) {
        forall i | 0 <= i < |a| ensures FoldCase(a[i]) == FoldCase(b[i]) {
          if i > 0 { assert a[1..][i - 1] == a[i] && b[1..][i - 1] == b[i]; }
        }
      } else if forall i | 0 <= i < |a| :: FoldCase(a[i]) == FoldCase(b[i]) {
        forall i | 0 <= i < |a| - 1 ensures FoldCase(a[1..][i]) == FoldCase(b[1..][i]) {
          assert a[1..][i] == a[i + 1] && b[1..][i] == b[i + 1];
        }
      }
    }
  }

  /** Case-insensitive equality is reflexive, symmetric and transitive. */
  lemma EqualsIgnoreCaseIsEquivalence(a: string, b: string, c: string)
    ensures EqualsIgnoreCase(a, a)
    ensures EqualsIgnoreCase(a, b) ==> EqualsIgnoreCase(b, a)
    ensures EqualsIgnoreCase(a, b) && EqualsIgnoreCase(b, c) ==> EqualsIgnoreCase(a, c)
  {
    EqualsIgnoreCaseAt(a, a);
    EqualsIgnoreCaseAt(a, b);
    EqualsIgnoreCaseAt(b, a);
    EqualsIgnoreCaseAt(b, c);
    EqualsIgnoreCaseAt(a, c);
  }

  /** A string that does not start with white space is its own `TrimStart`. */
  lemma TrimStartOfUnpadded(s: string)
    requires s != [] && !IsWhiteSpace(s[0])
    ensures TrimStart(s) == s
  {
  }

  /** A string that does not end with white space is its own `TrimEnd`. */
  lemma TrimEndOfUnpadded(s: string)
    requires s != [] && !IsWhiteSpace(s[|s| - 1])
    ensures TrimEnd(s) == s
  {
  }

  /** A string that neither starts nor ends with white space is its own trim. */
  lemma TrimOfUnpadded(s: string)
    requires s != [] && !IsWhiteSpace(s[0]) && !IsWhiteSpace(s[|s| - 1])
    ensures Trim(s) == s
  {
    TrimStartOfUnpadded(s);
    TrimEndOfUnpadded(s);
  }

  /** One space on each side of such a string is trimmed away. */
  lemma TrimOfSpacePadded(w: string)
    requires w != [] && !IsWhiteSpace(w[0]) && !IsWhiteSpace(w[|w| - 1])
    ensures Trim([' '] + w + [' ']) == w
  {
    var s := [' '] + w + [' '];
    assert s[1..] == w + [' '];
    TrimStartOfUnpadded(w + [' ']);
    assert (w + [' '])[..|w|] == w;
    TrimEndOfUnpadded(w);
  }
}
