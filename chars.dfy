/**
 * Character classes and string helpers shared by the snippet patterns and
 * the number pattern. Characters are Unicode scalar values; the classes
 * agree with JavaScript's regular expressions on the basic multilingual
 * plane, where a scalar value is one UTF-16 code unit.
 */
module Chars {

  import opened Wrappers

  /** `[a-z_]` under the `i` flag, which folds ASCII letters only. */
  predicate IsWordStart(c: char) {
    ('a' <= c <= 'z') || ('A' <= c <= 'Z') || c == '_'
  }

  /** `\d`. */
  predicate IsDigit(c: char) {
    '0' <= c <= '9'
  }

  /** `[a-z\d_]` under the `i` flag, the same class as `[a-zA-Z_0-9]`. */
  predicate IsWordChar(c: char) {
    IsWordStart(c) || IsDigit(c)
  }

  /** JavaScript line terminators: what `.` does not match. */
  predicate IsLineTerminator(c: char) {
    c == '\n' || c == '\r' || c == '\U{2028}' || c == '\U{2029}'
  }

  /** JavaScript `\s`: the WhiteSpace and LineTerminator code points. */
  predicate IsSpace(c: char) {
    || c == '\t' || c == '\U{B}' || c == '\U{C}' || c == ' '
    || c == '\U{A0}' || c == '\U{1680}' || ('\U{2000}' <= c <= '\U{200A}')
    || c == '\U{202F}' || c == '\U{205F}' || c == '\U{3000}' || c == '\U{FEFF}'
    || IsLineTerminator(c)
  }

  /** An ASCII lower-case letter's upper-case partner; other characters map to themselves. */
  function UpperAscii(c: char): char {
    if 'a' <= c <= 'z' then (c as int - 32) as char else c
  }

  /** `a` matches the lower-case literal `lower` under the `i` flag. */
  predicate EqualsIgnoringCase(a: string, lower: string) {
    |a| == |lower| && forall i :: 0 <= i < |a| ==> a[i] == lower[i] || a[i] == UpperAscii(lower[i])
  }

  predicate AllSpace(s: string) {
    forall i :: 0 <= i < |s| ==> IsSpace(s[i])
  }

  /** The length of the longest prefix of `s` whose characters all satisfy `p`. */
  function LeadingRun(p: char -> bool, s: string): (n: nat)
    ensures n <= |s|
  {
    if s == [] || !p(s[0]) then 0 else 1 + LeadingRun(p, s[1..])
  }

  /** The run holds only characters satisfying `p`, and stops at the first one that does not. */
  lemma {:induction false} LeadingRunStops(p: char -> bool, s: string)
    ensures forall i :: 0 <= i < LeadingRun(p, s) ==> p(s[i])
    ensures LeadingRun(p, s) < |s| ==> !p(s[LeadingRun(p, s)])
  {
    if s != [] && p(s[0]) {
      LeadingRunStops(p, s[1..]);
      assert forall i :: 1 <= i < |s| ==> s[i] == s[1..][i - 1];
    }
  }

  /** A run is measured up to the first character that fails `p`. */
  lemma {:induction false} LeadingRunOfConcat(p: char -> bool, a: string, b: string)
    requires forall i :: 0 <= i < |a| ==> p(a[i])
    requires b == [] || !p(b[0])
    ensures LeadingRun(p, a + b) == |a|
  {
    if a != [] {
      assert (a + b)[1..] == a[1..] + b;
      LeadingRunOfConcat(p, a[1..], b);
    }
  }

  /** A string cut at index `i`. */
  lemma CutBefore(s: string, i: nat)
    requires i <= |s|
    ensures s == s[..i] + s[i..]
  {
  }

  /** A string cut around the character at index `i`. */
  lemma CutAt(s: string, i: nat)
    requires i < |s|
    ensures s == s[..i] + ([s[i]] + s[i + 1..])
  {
    assert s[..i] + ([s[i]] + s[i + 1..]) == s[..i] + s[i..];
  }

  /** A string cut around the two characters at index `i`. */
  lemma CutPairAt(s: string, i: nat)
    requires i + 2 <= |s|
    ensures s == s[..i] + [s[i], s[i + 1]] + s[i + 2..]
  {
    assert s[..i] + [s[i], s[i + 1]] + s[i + 2..] == s[..i] + s[i..];
  }

  /** The leading run of blanks is all blanks. */
  lemma LeadingSpaces(s: string)
    ensures AllSpace(s[..LeadingRun(IsSpace, s)])
  {
    LeadingRunStops(IsSpace, s);
  }

  /** A character absent from a string is absent from each of its slices. */
  lemma AbsentFromSlice(s: string, c: char, i: nat, j: nat)
    requires c !in s && i <= j <= |s|
    ensures c !in s[i..j]
  {
    forall k | 0 <= k < j - i ensures s[i..j][k] != c {
      assert s[i..j][k] == s[i + k];
    }
  }

  /** `pat` occurs in `s` starting at index `j`. */
  predicate OccursAt(s: string, pat: string, j: nat) {
    j + |pat| <= |s| && s[j..j + |pat|] == pat
  }

  /** The first occurrence of `pat` in `s` at or after index `k`. */
  function IndexFrom(s: string, pat: string, k: nat): (r: Option<nat>)
    requires k <= |s|
    ensures r.Some? ==> k <= r.value && OccursAt(s, pat, r.value)
    ensures r.Some? ==> forall j :: k <= j < r.value ==> !OccursAt(s, pat, j)
    ensures r.None? ==> forall j :: k <= j <= |s| ==> !OccursAt(s, pat, j)
    decreases |s| - k
  {
    if k + |pat| > |s| then None
    else if s[k..k + |pat|] == pat then Some(k)
    else IndexFrom(s, pat, k + 1)
  }

  /** `String.prototype.indexOf`: the index of the first occurrence of `pat` in `s`. */
  function IndexOf(s: string, pat: string): Option<nat> {
    IndexFrom(s, pat, 0)
  }

  /** `s.replace(pat, rep)` with a string pattern: only the first occurrence is replaced. */
  function ReplaceFirst(s: string, pat: string, rep: string): string {
    match IndexOf(s, pat)
    case None => s
    case Some(i) => s[..i] + rep + s[i + |pat|..]
  }

  /** When the first character of the pattern does not occur, `replace` changes nothing. */
  lemma ReplaceFirstAbsent(s: string, pat: string, rep: string)
    requires pat != [] && pat[0] !in s
    ensures ReplaceFirst(s, pat, rep) == s
  {
    assert forall j: nat :: OccursAt(s, pat, j) ==> s[j..j + |pat|][0] == s[j];
  }
}
