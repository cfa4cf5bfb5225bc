/** CourseCode: an immutable, validated course identifier. */
module CourseCodes {
  import opened Wrappers
  import opened JavaInt
  import opened JavaString

  /** The normalised code string is the only field; it always matches Pattern. */
  datatype CourseCode = CourseCode(code: string)

  predicate IsUpperLetter(c: char)
  {
    'A' <= c <= 'Z'
  }

  /** `s` is `n` letters A-Z followed by digits only. */
  predicate SplitsAt(s: string, n: nat)
  {
    n <= |s|
    && (forall i :: 0 <= i < n ==> IsUpperLetter(s[i]))
    && (forall i :: n <= i < |s| ==> IsDigit(s[i]))
  }

  /** The whole string matches `^[A-Z]{2,4}\d{3,4}$`, read as a regular expression:
      some split into 2 to 4 letters and 3 to 4 digits exists. */
  predicate MatchesPattern(s: string)
  {
    exists n :: 2 <= n <= 4 && 3 <= |s| - n <= 4 && SplitsAt(s, n)
  }

  /** The number of letters A-Z at the start of `s`. */
  function LeadingLetters(s: string): (n: nat)
    ensures n <= |s| && forall i :: 0 <= i < n ==> IsUpperLetter(s[i])
    ensures n < |s| ==> !IsUpperLetter(s[n])
  {
    if s != [] && IsUpperLetter(s[0]) then 1 + LeadingLetters(s[1..]) else 0
  }

  /** The matcher: count the leading letters, then check that digits follow. */
  predicate Recognise(s: string)
  {
    var n := LeadingLetters(s);
    2 <= n <= 4 && 3 <= |s| - n <= 4 && forall i :: n <= i < |s| ==> IsDigit(s[i])
  }

  lemma {:induction false} LeadingLettersExact(s: string, n: nat)
    requires n < |s| && (forall i :: 0 <= i < n ==> IsUpperLetter(s[i])) && !IsUpperLetter(s[n])
    ensures LeadingLetters(s) == n
    decreases n
  {
    if n > 0 {
      assert IsUpperLetter(s[0]);
      LeadingLettersExact(s[1..], n - 1);
    }
  }

  /** The matcher accepts exactly the strings the regular expression describes. */
  lemma RecogniseIff(s: string)
    ensures Recognise(s) <==> MatchesPattern(s)
  {
    if Recognise(s) {
      assert SplitsAt(s, LeadingLetters(s));
    }
    if MatchesPattern(s) {
      var n :| 2 <= n <= 4 && 3 <= |s| - n <= 4 && SplitsAt(s, n);
      assert IsDigit(s[n]);
      LeadingLettersExact(s, n);
    }
  }

  /** A course code as the constructor leaves it: one that matches the pattern. */
  type Code = c: CourseCode | Recognise(c.code) witness CourseCode("CS101")

  /** The constructor: requireNonNull, then toUpperCase().trim(), then the pattern check. */
  function New(raw: Option<string>): (r: Result<Code>)
    ensures raw.None? <==> r == Err(NullPointer)
    ensures raw.Some? ==> (r.Ok? <==> MatchesPattern(ToUpper(Trim(raw.value))))
    ensures raw.Some? && r.Err? ==> r.error == IllegalArgument
    ensures r.Ok? ==> MatchesPattern(r.value.code) && r.value.code == ToUpper(Trim(raw.value))
  {
    match raw
    case None => Err(NullPointer)
    case Some(s) =>
      var normalised := Trim(ToUpper(s));
      TrimToUpperCommute(s);
      RecogniseIff(normalised);
      if Recognise(normalised) then Ok(CourseCode(normalised)) else Err(IllegalArgument)
  }

  /** getCode and toString both return the normalised string. */
  function GetCode(c: CourseCode): string
  {
    c.code
  }

  function ToString(c: CourseCode): string
  {
    c.code
  }

  /** Objects.hash(code). */
  function HashCode(c: CourseCode): Int32
  {
    ObjectsHash([StringHash(c.code)])
  }

  /** equals compares the code strings; hashCode agrees with it. */
  predicate Equals(c: CourseCode, d: CourseCode): (r: bool)
    ensures r <==> c == d
    ensures r ==> HashCode(c) == HashCode(d)
  {
    c.code == d.code
  }

  /** A string that matches the pattern is its own normal form. */
  lemma NormalisedWhenMatching(s: string)
    requires MatchesPattern(s)
    ensures ToUpper(s) == s && Trim(s) == s
  {
    var n :| 2 <= n <= 4 && 3 <= |s| - n <= 4 && SplitsAt(s, n);
    forall i | 0 <= i < |s|
      ensures UpperChar(s[i]) == s[i]
    {
      if i < n {
        assert IsUpperLetter(s[i]);
      } else {
        assert IsDigit(s[i]);
      }
    }
    assert ToUpper(s) == s;
    assert IsUpperLetter(s[0]) && IsDigit(s[|s| - 1]);
    TrimOfTrimmed(s);
  }

  /** Normalisation is idempotent: rebuilding a code from getCode() gives an equal
      code with the same string. */
  lemma NewIdempotent(raw: Option<string>, c: CourseCode)
    requires New(raw) == Ok(c)
    ensures New(Some(GetCode(c))) == Ok(c)
  {
    var s := c.code;
    assert MatchesPattern(s);
    NormalisedWhenMatching(s);
    RecogniseIff(s);
    AcceptsNormalForm(s);
  }

  /** Inputs that differ only in characters up to U+0020 around them give the
      same result: equal codes, hence equal hash codes, or the same exception. */
  lemma NewIgnoresSurroundingSpace(s: string, w1: string, w2: string)
    requires AllTrimmable(w1) && AllTrimmable(w2)
    ensures New(Some(w1 + s + w2)) == New(Some(s))
  {
    ToUpperAppend(w1 + s, w2);
    ToUpperAppend(w1, s);
    ToUpperOfTrimmable(w1);
    ToUpperOfTrimmable(w2);
    TrimIgnoresSurroundingSpace(w1, ToUpper(s), w2);
    SameNormalForm(w1 + s + w2, s);
  }

  /** Inputs that differ only in the case of ASCII letters give the same result. */
  lemma NewIgnoresCase(s: string)
    ensures New(Some(ToLower(s))) == New(Some(s))
    ensures New(Some(ToUpper(s))) == New(Some(s))
  {
    CaseFoldings(s);
    SameNormalForm(ToLower(s), s);
    SameNormalForm(ToUpper(s), s);
  }

  /** The constructor only looks at the normalised string. */
  lemma SameNormalForm(a: string, b: string)
    requires Trim(ToUpper(a)) == Trim(ToUpper(b))
    ensures New(Some(a)) == New(Some(b))
  {
  }

  lemma AcceptsNormalised(s: string, n: nat)
    requires 2 <= n <= 4 && 3 <= |s| - n <= 4 && SplitsAt(s, n)
    ensures New(Some(s)) == Ok(CourseCode(s))
  {
    assert MatchesPattern(s);
    NormalisedWhenMatching(s);
    RecogniseIff(s);
    AcceptsNormalForm(s);
  }

  lemma AcceptsNormalForm(s: string)
    requires Recognise(s) && ToUpper(s) == s && Trim(s) == s
    ensures New(Some(s)) == Ok(CourseCode(s))
  {
    TrimToUpperCommute(s);
    assert Trim(ToUpper(s)) == s;
  }

  lemma RejectsNormalised(s: string)
    requires ToUpper(s) == s && IsTrimmed(s) && !MatchesPattern(s)
    ensures New(Some(s)) == Err(IllegalArgument)
  {
    TrimOfTrimmed(s);
  }

  /** Surrounding blanks and lower case are normalised away. */
  lemma NewAcceptsPaddedLowerCase()
    ensures New(Some(" cs101 ")) == Ok(CourseCode("CS101"))
  {
    PaddingExample();
    UpperCaseExample();
    LiteralShapes();
    AcceptsNormalised("CS101", 2);
    NewIgnoresCase("cs101");
  }

  lemma PaddingExample()
    ensures New(Some(" cs101 ")) == New(Some("cs101"))
  {
    assert " cs101 " == " " + "cs101" + " ";
    NewIgnoresSurroundingSpace("cs101", " ", " ");
  }

  lemma UpperCaseExample()
    ensures ToUpper("cs101") == "CS101"
  {
    assert ToUpper("cs101")[0] == 'C';
  }

  lemma LiteralShapes()
    ensures SplitsAt("CS101", 2) && SplitsAt("MATH2001", 4)
    ensures !MatchesPattern("C101") && !MatchesPattern("CS10")
    ensures ToUpper("C101") == "C101" && ToUpper("CS10") == "CS10"
    ensures IsTrimmed("C101") && IsTrimmed("CS10")
  {
    assert !IsUpperLetter("C101"[1]);
  }

  lemma NewAcceptsFourLetters()
    ensures New(Some("MATH2001")) == Ok(CourseCode("MATH2001"))
    ensures New(None) == Err(NullPointer)
  {
    LiteralShapes();
    AcceptsNormalised("MATH2001", 4);
  }

  /** One letter is too few, and so are two digits. */
  lemma NewRejectsExamples()
    ensures New(Some("C101")) == Err(IllegalArgument)
    ensures New(Some("CS10")) == Err(IllegalArgument)
  {
    LiteralShapes();
    RejectsNormalised("C101");
    RejectsNormalised("CS10");
  }
}
