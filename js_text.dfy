/** The two string primitives of the browser script that the validator relies on:
    the ECMAScript white-space class (shared by `String.prototype.trim` and the
    regular-expression escape `\s`) and `trim` itself. */
module JsText {

  /** The white-space class, shared by `trim` and `\s`: the ASCII white-space
      characters TAB, LF, VT, FF, CR (U+0009 to U+000D) and SPACE. */
  predicate IsSpace(c: char) {
    c == ' ' || '\t' <= c <= '\r'
  }

  /** Every character of `s` is white space. */
  predicate AllSpace(s: string) {
    forall k :: 0 <= k < |s| ==> IsSpace(s[k])
  }

  /** `s` has at least one character that is not white space. */
  predicate HasVisible(s: string) {
    exists k :: 0 <= k < |s| && !IsSpace(s[k])
  }

  /** `String.prototype.trim`: white space is dropped from both ends. The
      result neither starts nor ends with white space. */
  function Trim(s: string): (r: string)
    ensures |r| <= |s|
    ensures r == [] || (!IsSpace(r[0]) && !IsSpace(r[|r| - 1]))
    decreases |s|
  {
    if s != [] && IsSpace(s[0]) then Trim(s[1..])
    else if s != [] && IsSpace(s[|s| - 1]) then Trim(s[..|s| - 1])
    else s
  }

  /** The trimmed string is a slice of `s` with only white space before it
      (from 0 to `i`) and after it. */
  lemma {:induction false} TrimSlice(s: string) returns (i: nat)
    ensures i + |Trim(s)| <= |s| && Trim(s) == s[i..i + |Trim(s)|]
    ensures AllSpace(s[..i]) && AllSpace(s[i + |Trim(s)|..])
    decreases |s|
  {
    var n := |Trim(s)|;
    if s != [] && IsSpace(s[0]) {
      var j := TrimSlice(s[1..]);
      i := j + 1;
      SliceOfTail(s, j, n);
      SpaceBeforeTail(s, j);
    } else if s != [] && IsSpace(s[|s| - 1]) {
      i := TrimSlice(s[..|s| - 1]);
      SliceOfInit(s, i, n);
      SpaceAfterInit(s, i + n);
    } else {
      i := 0;
      assert s[0..|s|] == s;
    }
  }

  lemma SliceOfTail(s: string, j: nat, n: nat)
    requires j + n < |s|
    ensures s[1..][j..j + n] == s[j + 1..j + 1 + n]
    ensures s[1..][j + n..] == s[j + 1 + n..]
  {
  }

  lemma SpaceBeforeTail(s: string, j: nat)
    requires j < |s| && IsSpace(s[0]) && AllSpace(s[1..][..j])
    ensures AllSpace(s[..j + 1])
  {
    var u := s[..j + 1];
    forall k | 0 <= k < |u| ensures IsSpace(u[k]) {
      if k > 0 { assert u[k] == s[1..][..j][k - 1]; }
    }
  }

  lemma SpaceAfterInit(s: string, m: nat)
    requires m < |s| && IsSpace(s[|s| - 1]) && AllSpace(s[..|s| - 1][m..])
    ensures AllSpace(s[m..])
  {
    var t, u := s[..|s| - 1], s[m..];
    forall k | 0 <= k < |u| ensures IsSpace(u[k]) {
      if k < |u| - 1 { assert u[k] == t[m..][k]; }
    }
  }

  lemma SliceOfInit(s: string, i: nat, n: nat)
    requires i + n < |s|
    ensures s[..|s| - 1][i..i + n] == s[i..i + n]
    ensures s[..|s| - 1][..i] == s[..i]
  {
  }

  /** Trimming yields the empty string exactly when `s` is all white space. */
  lemma {:induction false} TrimEmptyIff(s: string)
    ensures Trim(s) == [] <==> !HasVisible(s)
    decreases |s|
  {
    if s != [] && IsSpace(s[0]) {
      TrimEmptyIff(s[1..]);
      assert forall k :: 0 < k < |s| ==> s[k] == s[1..][k - 1];
    } else if s != [] && IsSpace(s[|s| - 1]) {
      TrimEmptyIff(s[..|s| - 1]);
      assert forall k :: 0 <= k < |s| - 1 ==> s[k] == s[..|s| - 1][k];
    } else if s != [] {
      assert !IsSpace(s[0]);
    }
  }
}
