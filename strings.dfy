/** Whitespace classification and trimming as the two runtimes of the system
    do it: .NET (`string.IsNullOrWhiteSpace`, `string.Trim`, used by the task
    service) and ECMAScript (`String.prototype.trim`, used by the task form). */
module Strings {
  import opened Wrappers

  datatype Runtime = DotNet | EcmaScript

  /** .NET `char.IsWhiteSpace`: the Unicode space separators (category Zs),
      the line and paragraph separators (Zl, Zp), U+0009..U+000D and U+0085.
      ECMAScript's WhiteSpace and LineTerminator productions: U+0009..U+000D,
      the Zs characters, U+2028, U+2029 and U+FEFF, but not U+0085. */
  predicate IsWhiteSpace(rt: Runtime, c: char)
  {
    || ('\t' <= c <= '\r')
    || IsSpaceSeparator(c)
    || c == '\U{2028}' || c == '\U{2029}'
    || (rt == DotNet && c == '\U{0085}')
    || (rt == EcmaScript && c == '\U{FEFF}')
  }

  /** The characters of Unicode general category Zs. */
  predicate IsSpaceSeparator(c: char)
  {
    || c == ' ' || c == '\U{00A0}' || c == '\U{1680}'
    || ('\U{2000}' <= c <= '\U{200A}')
    || c == '\U{202F}' || c == '\U{205F}' || c == '\U{3000}'
  }

  /** Every character of `s` is whitespace (vacuously true of ""). */
  predicate IsBlank(rt: Runtime, s: string)
  {
    forall i :: 0 <= i < |s| ==> IsWhiteSpace(rt, s[i])
  }

  /** `string.IsNullOrWhiteSpace`: null, empty, or whitespace only. */
  predicate IsNullOrWhiteSpace(s: Option<string>)
  {
    s.None? || IsBlank(DotNet, s.value)
  }

  /** Drops the leading whitespace: what is left is a suffix of `s`, what was
      dropped is whitespace, and what is left does not start with whitespace. */
  function TrimStart(rt: Runtime, s: string): (r: string)
    ensures |r| <= |s| && r == s[|s| - |r|..]
    ensures forall i :: 0 <= i < |s| - |r| ==> IsWhiteSpace(rt, s[i])
    ensures r != [] ==> !IsWhiteSpace(rt, r[0])
  {
    if s != [] && IsWhiteSpace(rt, s[0]) then TrimStart(rt, s[1..]) else s
  }

  /** Drops the trailing whitespace: what is left is a prefix of `s`, what was
      dropped is whitespace, and what is left does not end with whitespace. */
  function TrimEnd(rt: Runtime, s: string): (r: string)
    ensures |r| <= |s| && r == s[..|r|]
    ensures forall i :: |r| <= i < |s| ==> IsWhiteSpace(rt, s[i])
    ensures r != [] ==> !IsWhiteSpace(rt, r[|r| - 1])
  {
    if s != [] && IsWhiteSpace(rt, s[|s| - 1]) then TrimEnd(rt, s[..|s| - 1]) else s
  }

  /** `Trim()` / `trim()`: both ends stripped of whitespace. The result is
      empty exactly when the input is blank, and otherwise starts and ends
      with a non-whitespace character (`TrimIsSlice` states what was cut). */
  function Trim(rt: Runtime, s: string): (r: string)
    ensures |r| <= |s|
    ensures r == [] <==> IsBlank(rt, s)
    ensures r != [] ==> !IsWhiteSpace(rt, r[0]) && !IsWhiteSpace(rt, r[|r| - 1])
  {
    var t := TrimStart(rt, s);
    var r := TrimEnd(rt, t);
    assert r != [] ==> r[0] == t[0];
    assert t != [] ==> t[0] == s[|s| - |t|];
    r
  }

  /** A prefix of a suffix is a slice. */
  lemma PrefixOfSuffix(s: string, t: string, r: string, i: nat)
    requires i <= |s| && t == s[i..] && |r| <= |t| && r == t[..|r|]
    ensures r == s[i..i + |r|]
  {
  }

  /** Whitespace at the end of a suffix of `s` is whitespace at the end of `s`. */
  lemma TrailingOfSuffix(rt: Runtime, s: string, t: string, i: nat, m: nat)
    requires i <= |s| && t == s[i..] && m <= |t|
    requires forall k :: m <= k < |t| ==> IsWhiteSpace(rt, t[k])
    ensures forall k :: i + m <= k < |s| ==> IsWhiteSpace(rt, s[k])
  {
    forall k | i + m <= k < |s| ensures IsWhiteSpace(rt, s[k]) {
      assert s[k] == t[k - i];
    }
  }

  /** What `Trim` removes: the result is a slice of the input, and everything
      before and after that slice is whitespace. */
  lemma TrimIsSlice(rt: Runtime, s: string)
    ensures exists i, j :: 0 <= i <= j <= |s| && Trim(rt, s) == s[i..j]
              && (forall k :: 0 <= k < i ==> IsWhiteSpace(rt, s[k]))
              && (forall k :: j <= k < |s| ==> IsWhiteSpace(rt, s[k]))
  {
    var t := TrimStart(rt, s);
    var r := Trim(rt, s);
    assert r == TrimEnd(rt, t);
    var i := |s| - |t|;
    PrefixOfSuffix(s, t, r, i);
    TrailingOfSuffix(rt, s, t, i, |r|);
  }

  /** The property the service relies on: a title or description that passes
      the `IsNullOrWhiteSpace` guard is non-empty after trimming. */
  lemma NotBlankTrimsNonEmpty(s: Option<string>)
    ensures !IsNullOrWhiteSpace(s) ==> |Trim(DotNet, s.value)| > 0
  {
  }

  /** A string that neither starts nor ends with whitespace is its own trim. */
  lemma {:induction false} TrimFixesTrimmed(rt: Runtime, s: string)
    requires s != [] ==> !IsWhiteSpace(rt, s[0]) && !IsWhiteSpace(rt, s[|s| - 1])
    ensures Trim(rt, s) == s
  {
    if s != [] {
      assert TrimStart(rt, s) == s;
      assert TrimEnd(rt, s) == s;
    }
  }

  /** Trimming twice is trimming once: a stored, trimmed value is unchanged
      by a further trim. */
  lemma TrimIdempotent(rt: Runtime, s: string)
    ensures Trim(rt, Trim(rt, s)) == Trim(rt, s)
  {
    TrimFixesTrimmed(rt, Trim(rt, s));
  }

  /** The two runtimes agree on blankness for every string that contains
      neither U+0085 nor U+FEFF. */
  lemma BlankAgreesWithoutNelAndBom(s: string)
    requires forall i :: 0 <= i < |s| ==> s[i] != '\U{0085}' && s[i] != '\U{FEFF}'
    ensures IsBlank(DotNet, s) <==> IsBlank(EcmaScript, s)
  {
  }

  /** ... and disagree on each of those two characters: U+0085 is blank for
      .NET only, U+FEFF for ECMAScript only. */
  lemma BlankDisagreesOnNelAndBom()
    ensures IsBlank(DotNet, "\U{0085}") && !IsBlank(EcmaScript, "\U{0085}")
    ensures !IsBlank(DotNet, "\U{FEFF}") && IsBlank(EcmaScript, "\U{FEFF}")
  {
    assert "\U{0085}"[0] == '\U{0085}';
    assert "\U{FEFF}"[0] == '\U{FEFF}';
  }
}
