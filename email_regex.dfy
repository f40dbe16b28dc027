/** The e-mail expression of `validateForm`, `/^[^\s@]+@[^\s@]+\.[^\s@]+$/`,
    written as the backtracking matcher that a regular-expression engine runs
    for it, and proved equal to the shape it describes. */
module EmailRegex {
  import opened JsText

  /** A character of the class `[^\s@]`; `.` is one of them. */
  predicate WordChar(c: char) {
    !IsSpace(c) && c != '@'
  }

  /** Zero or more characters of `[^\s@]`. */
  predicate WordChars(s: string) {
    forall k :: 0 <= k < |s| ==> WordChar(s[k])
  }

  /** One or more characters of `[^\s@]`. */
  predicate Word(s: string) {
    s != [] && WordChars(s)
  }

  /** The whole expression: the first character of the local part, then the
      rest. */
  function Matches(s: string): bool {
    s != [] && WordChar(s[0]) && LocalRest(s[1..])
  }

  /** `[^\s@]*@[^\s@]+\.[^\s@]+`: since `@` is outside the class, the first
      `@` ends the local part. */
  function LocalRest(s: string): bool {
    s != [] && if s[0] == '@' then Domain(s[1..]) else WordChar(s[0]) && LocalRest(s[1..])
  }

  /** `[^\s@]+\.[^\s@]+`. */
  function Domain(d: string): bool {
    d != [] && WordChar(d[0]) && DomainRest(d[1..])
  }

  /** `[^\s@]*\.[^\s@]+`: either this `.` is the one the expression matches and
      the rest is a word, or this character belongs to the host part and the
      match is retried one character later. */
  function DomainRest(d: string): bool {
    d != [] && WordChar(d[0]) && ((d[0] == '.' && Word(d[1..])) || DomainRest(d[1..]))
  }

  /** The intended shape of an address: three words joined by `@` and `.`. */
  ghost predicate EmailShape(s: string) {
    exists a: string, b: string, c: string ::
      Word(a) && Word(b) && Word(c) && s == a + "@" + b + "." + c
  }

  ghost predicate DotAt(d: string, j: int) {
    0 <= j < |d| && d[j] == '.' && WordChars(d[..j]) && Word(d[j + 1..])
  }

  lemma {:induction false} DomainRestIff(d: string)
    ensures DomainRest(d) <==> exists j :: DotAt(d, j)
  {
    if d != [] {
      DomainRestIff(d[1..]);
      if DomainRest(d) && !(d[0] == '.' && Word(d[1..])) {
        var j :| DotAt(d[1..], j);
        DotAtShift(d, j);
      }
      if d[0] == '.' && Word(d[1..]) {
        assert DotAt(d, 0);
      }
      if exists j :: DotAt(d, j) {
        var j :| DotAt(d, j);
        if j > 0 {
          assert WordChar(d[..j][0]);
          DotAtUnshift(d, j);
        }
      }
    }
  }

  lemma DotAtShift(d: string, j: int)
    requires d != [] && WordChar(d[0]) && DotAt(d[1..], j)
    ensures DotAt(d, j + 1)
  {
    var u := d[..j + 1];
    forall k | 0 <= k < |u| ensures WordChar(u[k]) {
      if k > 0 { assert u[k] == d[1..][..j][k - 1]; }
    }
    assert d[j + 2..] == d[1..][j + 1..];
  }

  lemma DotAtUnshift(d: string, j: int)
    requires DotAt(d, j) && j > 0
    ensures DotAt(d[1..], j - 1)
  {
    var u := d[1..][..j - 1];
    forall k | 0 <= k < |u| ensures WordChar(u[k]) {
      assert u[k] == d[..j][k + 1];
    }
    assert d[1..][j..] == d[j + 1..];
  }

  /** `Domain` matches a host word, a `.` and a final word. */
  lemma DomainIff(d: string)
    ensures Domain(d) <==> exists j :: 0 < j && DotAt(d, j)
  {
    if d != [] {
      DomainRestIff(d[1..]);
      if Domain(d) {
        var j :| DotAt(d[1..], j);
        DotAtShift(d, j);
      }
      if exists j :: 0 < j && DotAt(d, j) {
        var j :| 0 < j && DotAt(d, j);
        assert WordChar(d[..j][0]);
        DotAtUnshift(d, j);
      }
    }
  }

  ghost predicate AtSign(s: string, i: int) {
    0 <= i < |s| && s[i] == '@' && WordChars(s[..i]) && Domain(s[i + 1..])
  }

  lemma {:induction false} LocalRestIff(s: string)
    ensures LocalRest(s) <==> exists i :: AtSign(s, i)
  {
    if s != [] {
      LocalRestIff(s[1..]);
      if s[0] == '@' {
        if LocalRest(s) { assert AtSign(s, 0); }
        if exists i :: AtSign(s, i) {
          var i :| AtSign(s, i);
          if i > 0 { assert s[..i][0] == '@'; }
        }
      } else {
        if LocalRest(s) {
          var i :| AtSign(s[1..], i);
          AtSignShift(s, i);
        }
        if exists i :: AtSign(s, i) {
          var i :| AtSign(s, i);
          assert i > 0;
          assert WordChar(s[..i][0]);
          AtSignUnshift(s, i);
        }
      }
    }
  }

  lemma AtSignShift(s: string, i: int)
    requires s != [] && WordChar(s[0]) && AtSign(s[1..], i)
    ensures AtSign(s, i + 1)
  {
    var u := s[..i + 1];
    forall k | 0 <= k < |u| ensures WordChar(u[k]) {
      if k > 0 { assert u[k] == s[1..][..i][k - 1]; }
    }
    assert s[i + 2..] == s[1..][i + 1..];
  }

  lemma AtSignUnshift(s: string, i: int)
    requires AtSign(s, i) && i > 0
    ensures AtSign(s[1..], i - 1)
  {
    var u := s[1..][..i - 1];
    forall k | 0 <= k < |u| ensures WordChar(u[k]) {
      assert u[k] == s[..i][k + 1];
    }
    assert s[1..][i..] == s[i + 1..];
  }

  lemma JoinParts(a: string, b: string, c: string, s: string)
    requires s == a + "@" + b + "." + c
    ensures s[..|a|] == a && s[|a|] == '@'
    ensures s[|a| + 1..][..|b|] == b && s[|a| + 1..][|b|] == '.'
    ensures s[|a| + 1..][|b| + 1..] == c
  {
    assert s[|a| + 1..] == b + "." + c;
  }

  /** The expression accepts a string exactly when it is three non-empty runs
      of characters other than white space and `@`, joined by `@` and `.`. */
  lemma MatchesIff(s: string)
    ensures Matches(s) <==> EmailShape(s)
  {
    if Matches(s) { MatchesHasShape(s); }
    if EmailShape(s) { ShapeMatches(s); }
  }

  lemma MatchesHasShape(s: string)
    requires Matches(s)
    ensures EmailShape(s)
  {
    LocalRestIff(s[1..]);
    var i :| AtSign(s[1..], i);
    AtSignShift(s, i);
    var d := s[i + 2..];
    DomainIff(d);
    var j :| 0 < j && DotAt(d, j);
    var a, b, c := s[..i + 1], d[..j], d[j + 1..];
    Rejoin(s, i + 1, d, j);
    assert Word(a) && Word(b) && Word(c);
  }

  lemma Rejoin(s: string, i: int, d: string, j: int)
    requires 0 <= i < |s| && s[i] == '@' && d == s[i + 1..] && 0 <= j < |d| && d[j] == '.'
    ensures s == s[..i] + "@" + d[..j] + "." + d[j + 1..]
  {
    assert d == d[..j] + "." + d[j + 1..];
    assert s == s[..i] + "@" + d;
  }

  lemma ShapeMatches(s: string)
    requires EmailShape(s)
    ensures Matches(s)
  {
    var a: string, b: string, c: string :|
      Word(a) && Word(b) && Word(c) && s == a + "@" + b + "." + c;
    JoinParts(a, b, c, s);
    var d := s[|a| + 1..];
    assert DotAt(d, |b|);
    DomainIff(d);
    assert AtSign(s, |a|);
    assert WordChar(s[..|a|][0]);
    AtSignUnshift(s, |a|);
    LocalRestIff(s[1..]);
  }

  /** Without an `@` there is no match. */
  lemma {:induction false} NoAtNoMatch(s: string)
    requires forall k :: 0 <= k < |s| ==> s[k] != '@'
    ensures !LocalRest(s)
  {
    if s != [] {
      NoAtNoMatch(s[1..]);
    }
  }

  /** The e-mail inputs of the validation scenarios. */
  lemma MatchesExamples()
    ensures Matches("a@b.com")
    ensures !Matches("not-an-email")
  {
    assert Word("com") && Word("b") && Word("a");
    assert "a@b.com" == "a" + "@" + "b" + "." + "com";
    ShapeMatches("a@b.com");
    NoAtNoMatch("not-an-email"[1..]);
  }
}
