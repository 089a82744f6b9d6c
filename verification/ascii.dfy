/**
 * ASCII character classes and case mapping (Go's `strings.ToLower` restricted
 * to the ASCII range).
 */
module Ascii {

  /** Every character is in the 7-bit range, so one Go byte each. */
  predicate IsAscii(s: string) {
    forall i :: 0 <= i < |s| ==> s[i] as int < 128
  }

  predicate IsUpper(c: char) {
    'A' <= c <= 'Z'
  }

  predicate IsLower(c: char) {
    'a' <= c <= 'z'
  }

  predicate HasUpper(s: string) {
    exists i :: 0 <= i < |s| && IsUpper(s[i])
  }

  predicate HasLower(s: string) {
    exists i :: 0 <= i < |s| && IsLower(s[i])
  }

  function LowerChar(c: char): (d: char)
    ensures IsUpper(c) ==> IsLower(d) && d as int == c as int + 32
    ensures !IsUpper(c) ==> d == c
    ensures !IsUpper(d)
  {
    if IsUpper(c) then (c as int + 32) as char else c
  }

  /** Each upper-case ASCII letter replaced by its lower-case form. */
  function ToLower(s: string): (t: string)
    ensures |t| == |s| && forall i :: 0 <= i < |s| ==> t[i] == LowerChar(s[i])
    ensures !HasUpper(t)
  {
    seq(|s|, i requires 0 <= i < |s| => LowerChar(s[i]))
  }

  /** A string is its own lower-case form exactly when it has no upper-case letter. */
  lemma ToLowerFixed(s: string)
    ensures ToLower(s) == s <==> !HasUpper(s)
  {
    if !HasUpper(s) {
      assert forall i :: 0 <= i < |s| ==> ToLower(s)[i] == s[i];
    }
  }

  lemma ToLowerConcat(a: string, b: string)
    ensures ToLower(a + b) == ToLower(a) + ToLower(b)
  {
  }

  lemma ToLowerAscii(s: string)
    requires IsAscii(s)
    ensures IsAscii(ToLower(s))
  {
  }

  /** Whether the first `i` characters hold an upper-case letter, one more character at a time. */
  lemma HasUpperStep(s: string, i: nat)
    requires i < |s|
    ensures HasUpper(s[..i + 1]) <==> HasUpper(s[..i]) || IsUpper(s[i])
  {
    if HasUpper(s[..i + 1]) && !IsUpper(s[i]) {
      var j :| 0 <= j < i + 1 && IsUpper(s[..i + 1][j]);
      assert s[..i][j] == s[j];
    }
    if HasUpper(s[..i]) {
      var j :| 0 <= j < i && IsUpper(s[..i][j]);
      assert s[..i + 1][j] == s[j];
    }
    if IsUpper(s[i]) {
      assert s[..i + 1][i] == s[i];
    }
  }

  lemma HasLowerStep(s: string, i: nat)
    requires i < |s|
    ensures HasLower(s[..i + 1]) <==> HasLower(s[..i]) || IsLower(s[i])
  {
    if HasLower(s[..i + 1]) && !IsLower(s[i]) {
      var j :| 0 <= j < i + 1 && IsLower(s[..i + 1][j]);
      assert s[..i][j] == s[j];
    }
    if HasLower(s[..i]) {
      var j :| 0 <= j < i && IsLower(s[..i][j]);
      assert s[..i + 1][j] == s[j];
    }
    if IsLower(s[i]) {
      assert s[..i + 1][i] == s[i];
    }
  }
}
