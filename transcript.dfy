/** TranscriptServiceImpl.TranscriptBuilder: the text of a student's transcript,
    built in a StringBuilder by three steps (header, course table, summary). */
module Transcripts {
  import opened JavaInt
  import opened JavaString
  import opened Grades
  import opened GradePointAverage
  import opened Names
  import opened People
  import opened Courses
  import opened Students
  import opened CodeOrder
  import CourseCodes

  // ---------------------------------------------------------------- cells

  /** The title cell: titles longer than 30 characters keep 27 and get "...". */
  function TitleCell(title: string): (r: string)
    ensures |r| <= 30
    ensures |title| <= 30 ==> r == title
    ensures |title| > 30 ==> |r| == 30 && r[..27] == title[..27] && r[27..] == "..."
  {
    if |title| > 30 then title[..27] + "..." else title
  }

  /** `%.2f` of a non-negative value: the hundredths rounded half up. */
  function Hundredths(x: real): (n: int)
    requires x >= 0.0
    ensures n >= 0
    ensures n as real - 0.5 <= x * 100.0 < n as real + 0.5
  {
    (x * 100.0 + 0.5).Floor
  }

  /** The `%.2f` text: the whole part, a point, two digits. Negative values, which
      a GPA never is, get a minus sign in front of the text of their magnitude. */
  function TwoDecimals(x: real): (r: string)
  {
    var n := if x >= 0.0 then Hundredths(x) else Hundredths(-x);
    (if x < 0.0 then "-" else "") + NatToString(n / 100) + "." + [DigitChar(n % 100 / 10), DigitChar(n % 10)]
  }

  /** Reading the digits of the `%.2f` text without its point gives the rounded
      hundredths of the value back. */
  lemma TwoDecimalsReadBack(x: real)
    requires x >= 0.0
    ensures var r := TwoDecimals(x);
      |r| >= 4 && r[|r| - 3] == '.'
      && var digits := r[..|r| - 3] + r[|r| - 2..];
      (forall i :: 0 <= i < |digits| ==> IsDigit(digits[i]))
      && DigitsValue(digits) == Hundredths(x)
  {
    var n := Hundredths(x);
    var w := NatToString(n / 100);
    var r := TwoDecimals(x);
    var d := [DigitChar(n % 100 / 10), DigitChar(n % 10)];
    assert r == w + "." + d;
    var digits := r[..|r| - 3] + r[|r| - 2..];
    assert digits == w + d;
    DigitsOfNat(n / 100);
    TwoMoreDigits(w, n % 100 / 10, n % 10);
  }

  /** Two more digits at the end multiply the value by a hundred and add theirs. */
  lemma TwoMoreDigits(w: string, p: nat, q: nat)
    requires (forall i :: 0 <= i < |w| ==> IsDigit(w[i])) && p < 10 && q < 10
    ensures var s := w + [DigitChar(p), DigitChar(q)];
      (forall i :: 0 <= i < |s| ==> IsDigit(s[i]))
      && DigitsValue(s) == 100 * DigitsValue(w) + 10 * p + q
  {
    var s := w + [DigitChar(p), DigitChar(q)];
    assert s[..|s| - 1] == w + [DigitChar(p)];
    assert (w + [DigitChar(p)])[..|w|] == w;
  }

  lemma TwoDecimalsExample()
    ensures TwoDecimals(17.0 / 7.0) == "2.43"
    ensures TwoDecimals(0.0) == "0.00"
  {
    assert Hundredths(17.0 / 7.0) == 243;
  }

  /** What one row of the course table shows about a graded course. */
  datatype RowData = RowData(code: string, title: string, credits: int, grade: Grade)

  /** One row of the course table: `%-10s %-30s %-8d %-5s %-5.1f`. */
  function RowText(d: RowData): string
  {
    PadRight(d.code, 10) + " " + PadRight(TitleCell(d.title), 30) + " " + PadRight(IntToString(d.credits), 8)
    + " " + PadRight(Grades.Name(d.grade), 5) + " " + PadRight(PointsText(d.grade), 5) + "\n"
  }

  /** The columns line up: a course code is at most 8 characters and a title cell at
      most 30, so the title always starts at column 11 and the credits at column 42. */
  lemma RowColumns(c: CourseCode, title: string, credits: int, g: Grade)
    ensures var r := RowText(RowData(c.code, title, credits, g));
      |r| > 42 && r[..10] == PadRight(c.code, 10) && r[10] == ' '
      && r[11..41] == PadRight(TitleCell(title), 30) && r[41] == ' '
      && r[42..42 + |IntToString(credits)|] == IntToString(credits)
  {
    assert |c.code| <= 8 by {
      assert CourseCodes.Recognise(c.code);
    }
    var a := PadRight(c.code, 10);
    var t := PadRight(TitleCell(title), 30);
    var n := PadRight(IntToString(credits), 8);
    var rest := " " + PadRight(Grades.Name(g), 5) + " " + PadRight(PointsText(g), 5) + "\n";
    assert RowText(RowData(c.code, title, credits, g)) == a + " " + t + " " + n + rest;
    PiecesAt(a, t, n, rest, IntToString(credits));
  }

  /** Where the pieces of a row sit once they are concatenated. */
  lemma PiecesAt(a: string, t: string, n: string, rest: string, x: string)
    requires |a| == 10 && |t| == 30 && |x| <= |n| && n[..|x|] == x
    ensures var r := a + " " + t + " " + n + rest;
      |r| >= 42 + |x| && r[..10] == a && r[10] == ' ' && r[11..41] == t && r[41] == ' '
      && r[42..42 + |x|] == x
  {
    var r := a + " " + t + " " + n + rest;
    assert r == a + (" " + t + " " + n + rest);
    assert r[11..] == t + " " + n + rest;
    assert r[42..] == n + rest;
    assert r[42..][..|x|] == r[42..42 + |x|];
  }

  const EqualsRule: string := Repeat('=', 60) + "\n"
  const DashRule: string := Repeat('-', 60) + "\n"

  /** addHeader. */
  function HeaderText(fullName: string, id: string, regNo: string, status: StudentStatus): string
  {
    EqualsRule + "OFFICIAL TRANSCRIPT\n" + EqualsRule
    + "Student: " + fullName + "\n" + "ID: " + id + "\n"
    + "Registration No: " + regNo + "\n" + "Status: " + StatusName(status) + "\n" + DashRule
  }

  /** The title lines of the course table. */
  const CourseHeading: string :=
    "COURSES AND GRADES:\n"
    + PadRight("Code", 10) + " " + PadRight("Title", 30) + " " + PadRight("Credits", 8) + " "
    + PadRight("Grade", 5) + " " + PadRight("Points", 5) + "\n" + DashRule

  /** A grade map entry as a row: the key course object's code, title and credits. */
  function Row(e: GradeEntry): (d: RowData)
    reads e.course
    ensures d.code == e.course.code.code && d.grade == e.grade
  {
    RowData(e.course.code.code, e.course.title, e.course.credits, e.grade)
  }

  /** The rows for `codes`, in that order. */
  function RowsOf(codes: seq<CourseCode>, grades: map<CourseCode, GradeEntry>): (r: seq<RowData>)
    requires forall i :: 0 <= i < |codes| ==> codes[i] in grades
    reads set k | k in grades :: grades[k].course
    ensures |r| == |codes| && forall i :: 0 <= i < |codes| ==> r[i] == Row(grades[codes[i]])
  {
    seq(|codes|, i requires 0 <= i < |codes| reads set k | k in grades :: grades[k].course =>
      Row(grades[codes[i]]))
  }

  function RowsText(rows: seq<RowData>): string
  {
    if rows == [] then "" else RowText(rows[0]) + RowsText(rows[1..])
  }

  /** addCourses: the title lines, then the rows. */
  function CoursesText(rows: seq<RowData>): string
  {
    CourseHeading + RowsText(rows)
  }

  /** addSummary: getTotalCredits and the GPA captured when the builder was made. */
  function SummaryText(totalCredits: int, gpa: real): string
  {
    DashRule + "Total Credits: " + IntToString(totalCredits) + "\n"
    + "GPA: " + TwoDecimals(gpa) + "\n" + EqualsRule
  }

  /** The text generateTranscript returns for a student: header, course table in
      code order, summary. */
  ghost function TranscriptOf(s: Student): string
    reads s, s.person, s.Courses()
  {
    HeaderOf(s) + CourseTableOf(s) + SummaryText(s.GetTotalCredits(), Gpa(GradeTable(s.Rec())))
  }

  /** addHeader's text for a student. */
  function HeaderOf(s: Student): string
    reads s, s.person
  {
    HeaderText(FullName(s.person.name), s.person.id, s.regNo, s.status)
  }

  /** addCourses' text for a student: the graded courses in code order. */
  function CourseTableOf(s: Student): string
    reads s, set k | k in s.grades :: s.grades[k].course
  {
    CourseTable(s.grades)
  }

  /** The heading and one row per graded course, in code order. */
  function CourseTable(grades: map<CourseCode, GradeEntry>): string
    reads set k | k in grades :: grades[k].course
  {
    CoursesText(RowsOf(CodesInOrder(grades.Keys), grades))
  }

  /** The table order does not depend on how the rows are sorted: any listing of
      the graded courses in strictly increasing code order gives the same text. */
  lemma TableOrderIsForced(s: Student, codes: seq<CourseCode>)
    requires SortedByCode(codes) && forall x :: x in codes <==> x in s.grades
    ensures TranscriptOf(s) ==
      HeaderText(FullName(s.person.name), s.person.id, s.regNo, s.status)
      + CoursesText(RowsOf(codes, s.grades))
      + SummaryText(s.GetTotalCredits(), Gpa(GradeTable(s.Rec())))
  {
    SortedByCodeUnique(codes, CodesInOrder(s.grades.Keys));
  }

  /** The builder: the text appended so far, the student, and the GPA computed when
      the builder is made. Each step appends to the builder's own text, read from
      the student and its courses, and returns the builder itself for chaining. */
  class TranscriptBuilder
  {
    var transcript: string
    const student: Student
    const gpa: real

    constructor (s: Student)
      ensures transcript == [] && student == s && gpa == old(s.CalculateGPA())
    {
      student := s;
      transcript := [];
      gpa := s.CalculateGPA();
    }

    /** addHeader: the name, id, registration number and status between rules. */
    method AddHeader() returns (b: TranscriptBuilder)
      modifies this
      ensures b == this
      ensures transcript == old(transcript + HeaderOf(student))
    {
      transcript := transcript + HeaderOf(student);
      b := this;
    }

    /** addCourses: the heading, then one row per graded course, sorted by code. */
    method AddCourses() returns (b: TranscriptBuilder)
      modifies this
      ensures b == this
      ensures transcript == old(transcript + CourseTableOf(student))
    {
      transcript := transcript + CourseTableOf(student);
      b := this;
    }

    /** addSummary: the total of the enrolled credits and the captured GPA. */
    method AddSummary() returns (b: TranscriptBuilder)
      modifies this
      ensures b == this
      ensures transcript == old(transcript + SummaryText(student.GetTotalCredits(), gpa))
    {
      transcript := transcript + SummaryText(student.GetTotalCredits(), gpa);
      b := this;
    }

    /** build: the text appended so far. */
    function Build(): string
      reads this
    {
      transcript
    }
  }

  /** The builder's texts for a student are read from the student, its person and
      its courses only, so a step that leaves those alone leaves the texts as they
      were. */
  twostate lemma TextsUnchanged(s: Student)
    requires unchanged(s, s.person)
    requires forall k :: k in s.grades ==> unchanged(s.grades[k].course)
    requires forall k :: k in s.enrolled ==> unchanged(s.enrolled[k])
    ensures HeaderOf(s) == old(HeaderOf(s))
    ensures CourseTableOf(s) == old(CourseTableOf(s))
    ensures s.GetTotalCredits() == old(s.GetTotalCredits())
  {
  }

  /** Likewise for the GPA, which is read from the graded courses. */
  twostate lemma GpaUnchanged(s: Student)
    requires unchanged(s)
    requires forall k :: k in s.grades ==> unchanged(s.grades[k].course)
    ensures s.CalculateGPA() == old(s.CalculateGPA())
  {
  }

  /** generateTranscript's chain: new builder, header, courses, summary, build. */
  method BuildTranscript(s: Student) returns (r: string)
    ensures r == TranscriptOf(s)
  {
    ghost var header, table, total, gpa := HeaderOf(s), CourseTableOf(s), s.GetTotalCredits(), s.CalculateGPA();
    label Start:
    var b := new TranscriptBuilder(s);
    TextsUnchanged@Start(s);
    GpaUnchanged@Start(s);
    label Built:
    b := b.AddHeader();
    assert b.transcript == header;
    TextsUnchanged@Built(s);
    GpaUnchanged@Built(s);
    label Headed:
    b := b.AddCourses();
    assert b.transcript == header + table;
    TextsUnchanged@Headed(s);
    GpaUnchanged@Headed(s);
    label Listed:
    b := b.AddSummary();
    r := b.Build();
    assert r == header + table + SummaryText(total, gpa);
    TextsUnchanged@Listed(s);
    GpaUnchanged@Listed(s);
  }
}
