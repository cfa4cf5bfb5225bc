/** ValidationUtils: the email pattern, the predicates built on it and the two
    range assertions. A Java `null` argument is `None`. */
module Validation {
  import opened Wrappers
  import opened JavaInt
  import opened JavaString
  import opened Grades
  import opened Sums
  import opened GradePointAverage
  import opened People
  import opened Courses
  import opened Students

  // ---------------------------------------------------------------- the email pattern

  predicate IsLetter(c: char)
  {
    'a' <= c <= 'z' || 'A' <= c <= 'Z'
  }

  /** The class `[a-zA-Z0-9._%+-]` of the part before the '@'. */
  predicate IsLocalChar(c: char)
  {
    IsLetter(c) || IsDigit(c) || c in "._%+-"
  }

  /** The class `[a-zA-Z0-9.-]` of the domain before its last dot. */
  predicate IsDomainChar(c: char)
  {
    IsLetter(c) || IsDigit(c) || c in ".-"
  }

  /** `^[a-zA-Z0-9._%+-]+@[a-zA-Z0-9.-]+\.[a-zA-Z]{2,}$` read with the '@' at `at`
      and the literal dot at `dot`. */
  predicate EmailSplit(s: string, at: int, dot: int)
  {
    0 < at && at + 1 < dot && dot + 2 < |s|
    && s[at] == '@' && s[dot] == '.'
    && (forall k :: 0 <= k < at ==> IsLocalChar(s[k]))
    && (forall k :: at < k < dot ==> IsDomainChar(s[k]))
    && (forall k :: dot < k < |s| ==> IsLetter(s[k]))
  }

  /** The whole string matches the email pattern: some reading of it exists. */
  ghost predicate MatchesEmail(s: string)
  {
    exists at, dot :: EmailSplit(s, at, dot)
  }

  /** String.lastIndexOf(c) for a character that occurs. */
  function LastIndexOf(s: string, c: char): (i: nat)
    requires c in s
    ensures i < |s| && s[i] == c && forall k :: i < k < |s| ==> s[k] != c
  {
    if s[|s| - 1] == c then |s| - 1
    else
      assert c in s[..|s| - 1] by {
        var k :| 0 <= k < |s| && s[k] == c;
        assert s[..|s| - 1][k] == c;
      }
      LastIndexOf(s[..|s| - 1], c)
  }

  /** The matcher: the first '@' ends the local part, and the last dot after it
      starts the top-level domain. */
  predicate RecogniseEmail(s: string)
  {
    '@' in s
    && var at := IndexOf(s, '@');
       var d := s[at + 1..];
       '.' in d
       && var dot := at + 1 + LastIndexOf(d, '.');
          EmailSplit(s, at, dot)
  }

  /** The matcher accepts exactly the strings the pattern describes. */
  lemma RecogniseEmailIff(s: string)
    ensures RecogniseEmail(s) <==> MatchesEmail(s)
  {
    if MatchesEmail(s) {
      var at, dot :| EmailSplit(s, at, dot);
      assert '@' in s;
      var i := IndexOf(s, '@');
      NotBeforeFirst(s, '@', i, at);
      assert !IsLocalChar('@');
      assert i == at;
      var d := s[at + 1..];
      assert d[dot - at - 1] == '.';
      var j := LastIndexOf(d, '.');
      assert s[at + 1 + j] == d[j] && !IsLetter('.');
      assert j == dot - at - 1;
    }
  }

  /** Nothing before the first occurrence is the character looked for. */
  lemma NotBeforeFirst(s: string, c: char, i: nat, p: nat)
    requires i <= |s| && c !in s[..i] && p < |s|
    ensures p < i ==> s[p] != c
  {
    if p < i {
      assert s[..i][p] == s[p];
    }
  }

  /** There is exactly one '@' in an address the pattern accepts. */
  lemma OneAt(s: string, at: int, dot: int)
    requires EmailSplit(s, at, dot)
    ensures forall k :: 0 <= k < |s| && s[k] == '@' ==> k == at
  {
    assert !IsLocalChar('@') && !IsDomainChar('@') && !IsLetter('@');
  }

  /** A split, if any, is the one the matcher finds. */
  lemma EmailSplitUnique(s: string, at: int, dot: int, at': int, dot': int)
    requires EmailSplit(s, at, dot) && EmailSplit(s, at', dot')
    ensures at == at' && dot == dot'
  {
    OneAt(s, at, dot);
    assert !IsLetter('.');
  }

  // ---------------------------------------------------------------- predicates

  /** IS_VALID_EMAIL, which validateEmail calls. */
  predicate IsValidEmail(email: Option<string>)
  {
    email.Some? && RecogniseEmail(email.value)
  }

  /** IS_NOT_EMPTY: not null, and something is left after trim(). */
  predicate IsNotEmpty(str: Option<string>)
  {
    str.Some? && !IsBlank(str.value)
  }

  /** IS_POSITIVE on an Integer. */
  predicate IsPositive(num: Option<int>)
  {
    num.Some? && num.value > 0
  }

  /** A string is non-empty in this sense exactly when some character is above
      U+0020. */
  lemma IsNotEmptyIff(s: string)
    ensures IsNotEmpty(Some(s)) <==> exists k :: 0 <= k < |s| && !IsTrimmable(s[k])
  {
    BlankIffAllTrimmable(s);
  }

  /** validateStudentId: non-blank, and a length of at least three UTF-16 code
      units counting the surrounding blanks. */
  predicate ValidateStudentId(id: Option<string>)
  {
    IsNotEmpty(id) && Utf16Length(id.value) >= 3
  }

  /** validateCredits: a positive Integer of at most 6. */
  predicate ValidateCredits(credits: Option<int>)
  {
    IsPositive(credits) && credits.value <= 6
  }

  lemma ValidateCreditsIff(credits: Option<int>)
    ensures ValidateCredits(credits) <==> credits.Some? && 1 <= credits.value <= 6
  {
  }

  /** The length check does not trim: two blanks and one letter pass, one letter
      alone does not. An emoji and a letter pass, the emoji counting twice. */
  lemma StudentIdExamples()
    ensures ValidateStudentId(Some("  a"))
    ensures !ValidateStudentId(Some("a"))
    ensures !ValidateStudentId(None)
    ensures ValidateStudentId(Some("\U{1F600}a"))
  {
    IsNotEmptyIff("  a");
    assert !IsTrimmable("  a"[2]);
    var e := "\U{1F600}a";
    IsNotEmptyIff(e);
    assert !IsTrimmable(e[1]);
    assert e[1..] == "a";
    assert Utf16Length(e) == 3;
  }

  /** validateStudent: not null, a valid id and email, and a non-blank
      registration number. */
  predicate ValidateStudent(s: Student?)
    reads s, if s != null then {s.person} else {}
  {
    s != null
    && ValidateStudentId(Some(s.person.id))
    && IsValidEmail(Some(s.person.email))
    && IsNotEmpty(Some(s.regNo))
  }

  /** validateStudent in the pattern's own terms: an id of at least three
      UTF-16 code units with a character above U+0020, an address the email pattern matches, and
      a registration number with a character above U+0020. */
  lemma ValidateStudentIff(s: Student?)
    ensures ValidateStudent(s) <==>
      s != null
      && Utf16Length(s.person.id) >= 3 && (exists k :: 0 <= k < |s.person.id| && !IsTrimmable(s.person.id[k]))
      && MatchesEmail(s.person.email)
      && (exists k :: 0 <= k < |s.regNo| && !IsTrimmable(s.regNo[k]))
  {
    if s != null {
      IsNotEmptyIff(s.person.id);
      IsNotEmptyIff(s.regNo);
      RecogniseEmailIff(s.person.email);
    }
  }

  /** validateCourse: not null, non-blank code, title, instructor and department, and
      1 to 6 credits. */
  predicate ValidateCourse(c: Course?)
    reads c
  {
    c != null
    && IsNotEmpty(Some(c.code.code))
    && IsNotEmpty(Some(c.title))
    && ValidateCredits(Some(c.credits))
    && IsNotEmpty(Some(c.instructor))
    && IsNotEmpty(Some(c.department))
  }

  /** The code check never fails: a course code always matches its pattern, so it
      starts with a letter. What decides is the credits and the three strings;
      a course with more than 6 credits, which the builder accepts, fails. */
  lemma ValidateCourseIff(c: Course?)
    ensures ValidateCourse(c) <==>
      c != null && 1 <= c.credits <= 6
      && !IsBlank(c.title) && !IsBlank(c.instructor) && !IsBlank(c.department)
  {
    if c != null {
      var code := c.code.code;
      assert CourseCodes.IsUpperLetter(code[0]);
      IsNotEmptyIff(code);
      assert !IsTrimmable(code[0]);
    }
  }

  // ---------------------------------------------------------------- assertions

  /** assertValidGPA: with assertions enabled (`-ea`), a GPA outside [0, 10] fails
      with AssertionError; otherwise nothing happens. */
  function AssertValidGPA(gpa: real, enabled: bool): (r: Outcome)
    ensures r == Fail(AssertionFailed) <==> enabled && !(0.0 <= gpa <= 10.0)
    ensures r.Fail? ==> r == Fail(AssertionFailed)
  {
    if enabled && !(0.0 <= gpa && gpa <= 10.0) then Fail(AssertionFailed) else Pass
  }

  /** assertValidCredits: the same for credits outside 1 to 6. */
  function AssertValidCredits(credits: int, enabled: bool): (r: Outcome)
    ensures r == Fail(AssertionFailed) <==> enabled && !(0 < credits <= 6)
    ensures r.Fail? ==> r == Fail(AssertionFailed)
  {
    if enabled && !(0 < credits && credits <= 6) then Fail(AssertionFailed) else Pass
  }

  /** The assertion on credits and validateCredits accept the same values. */
  lemma AssertValidCreditsAgrees(credits: int)
    ensures AssertValidCredits(credits, true) == Pass <==> ValidateCredits(Some(credits))
  {
  }

  /** Any GPA calculateGPA returns passes the GPA assertion, while the graded credits
      add up to an `int`. */
  lemma GpaPassesAssertion<K>(t: map<K, GradedCourse>)
    requires forall k :: k in t ==> 1 <= t[k].credits <= INT_MAX
    requires SumValues(CreditsOf(t)) <= INT_MAX
    ensures AssertValidGPA(Gpa(t), true) == Pass
  {
    GpaRange(t);
  }

  /** Beyond that bound the credit sum wraps and the assertion can fail. */
  lemma GpaOverflowFailsAssertion<K>(k1: K, k2: K, k3: K)
    requires k1 != k2 && k2 != k3 && k1 != k3
    ensures AssertValidGPA(Gpa(map[k1 := GradedCourse(S, INT_MAX), k2 := GradedCourse(S, INT_MAX),
                                   k3 := GradedCourse(S, 3)]), true) == Fail(AssertionFailed)
  {
    GpaOverflow(k1, k2, k3);
  }

  /** A typical address passes. */
  lemma EmailAccepted()
    ensures IsValidEmail(Some("alice@uni.edu"))
  {
    var s := "alice@uni.edu";
    assert s[..5] == "alice" && s[5] == '@' && s[6..9] == "uni" && s[9] == '.' && s[10..] == "edu";
    assert EmailSplit(s, 5, 9);
    RecogniseEmailIff(s);
  }

  /** One without a top-level domain does not, and neither does null. */
  lemma EmailRejected()
    ensures !IsValidEmail(Some("alice@uni"))
    ensures !IsValidEmail(None)
  {
    var s := "alice@uni";
    var i := IndexOf(s, '@');
    NotBeforeFirst(s, '@', i, 5);
    assert s[i] == '@' && forall k :: 0 <= k < 5 ==> s[k] in "alice";
    assert i == 5;
    assert '.' !in s[6..];
  }
}
