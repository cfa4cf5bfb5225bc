/** TranscriptServiceImpl: grades are recorded through the student and course
    registries, and the GPA, the transcript and the reports over all students are
    read from them. */
module TranscriptServices {
  import opened Wrappers
  import opened JavaInt
  import opened Sums
  import opened Grades
  import opened GradePointAverage
  import opened Courses
  import opened Students
  import opened Transcripts
  import opened GpaReports
  import opened StudentServices
  import opened CourseServices

  /** `all` lists the students of the map once each, in some order: what
      getAllStudents returns. */
  ghost predicate Lists(all: seq<Student>, m: map<string, Student>)
  {
    |all| == |m|
    && (forall i :: 0 <= i < |all| ==> all[i] in m.Values)
    && (forall id :: id in m ==> m[id] in all)
  }

  /** Each student with its GPA and whether any grade is recorded. */
  function RankedList(all: seq<Student>): (r: seq<Ranked<Student>>)
    reads set i | 0 <= i < |all| :: all[i]
    reads set i, c | 0 <= i < |all| && c in all[i].Courses() :: c
    ensures |r| == |all|
    ensures forall i :: 0 <= i < |all| ==>
      r[i] == Ranked(all[i], Gpa(GradeTable(all[i].Rec())), all[i].grades != map[])
  {
    seq(|all|, i requires 0 <= i < |all|
               reads set j | 0 <= j < |all| :: all[j]
               reads set j, c | 0 <= j < |all| && c in all[j].Courses() :: c =>
      Ranked(all[i], all[i].CalculateGPA(), all[i].grades != map[]))
  }

  class TranscriptService {
    const students: StudentRegistry
    const courses: CourseRegistry

    constructor (students: StudentRegistry, courses: CourseRegistry)
      ensures this.students == students && this.courses == courses
    {
      this.students := students;
      this.courses := courses;
    }

    /** recordGrade: an unknown student, then an unknown course, is refused with
        IllegalArgumentException; otherwise Student.assignGrade decides. */
    method RecordGrade(studentId: string, courseCode: string, g: Option<Grade>) returns (r: Outcome)
      requires students.Valid()
      modifies if studentId in students.students then {students.students[studentId]} else {}
      ensures students.Valid() && students.students == old(students.students)
      ensures studentId !in students.students ==> r == Fail(IllegalArgument)
      ensures studentId in students.students && courseCode !in courses.courses ==>
        r == Fail(IllegalArgument) && students.students[studentId].Rec() == old(students.students[studentId].Rec())
      ensures studentId in students.students && courseCode in courses.courses && g.None? ==>
        r == Fail(NullPointer) && students.students[studentId].Rec() == old(students.students[studentId].Rec())
      ensures studentId in students.students && courseCode in courses.courses && g.Some? ==>
        var res := AssignGrade(old(students.students[studentId].Rec()), courses.courses[courseCode], g.value);
        (res.Err? ==> r == Fail(res.error) && students.students[studentId].Rec() == old(students.students[studentId].Rec()))
        && (res.Ok? ==> r == Pass && students.students[studentId].Rec() == res.value)
    {
      var s := students.FindById(studentId);
      if s.None? {
        return Fail(IllegalArgument);
      }
      var c := courses.FindById(courseCode);
      if c.None? {
        return Fail(IllegalArgument);
      }
      r := s.value.AssignGradeTo(c.value, g);
    }

    /** calculateGPA: an unknown student is refused; otherwise the student's GPA,
        which lies in [0, 10] while the graded credits add up to an `int`. */
    method CalculateGPA(studentId: string) returns (r: Result<real>)
      requires students.Valid()
      ensures studentId !in students.students <==> r == Err(IllegalArgument)
      ensures studentId in students.students ==>
        r == Ok(Gpa(GradeTable(students.students[studentId].Rec())))
      ensures r.Ok? && SumValues(CreditsOf(GradeTable(students.students[studentId].Rec()))) <= INT_MAX ==>
        0.0 <= r.value <= 10.0
    {
      var s := students.FindById(studentId);
      if s.None? {
        return Err(IllegalArgument);
      }
      r := Ok(s.value.CalculateGPA());
      if SumValues(CreditsOf(GradeTable(s.value.Rec()))) <= INT_MAX {
        GpaRange(GradeTable(s.value.Rec()));
      }
    }

    /** generateTranscript: an unknown student is refused; otherwise the header, the
        course table and the summary built for that student. */
    method GenerateTranscript(studentId: string) returns (r: Result<string>)
      ensures studentId !in students.students <==> r == Err(IllegalArgument)
      ensures studentId in students.students ==>
        r == Ok(TranscriptOf(students.students[studentId]))
    {
      var s := students.FindById(studentId);
      if s.None? {
        return Err(IllegalArgument);
      }
      var text := BuildTranscript(s.value);
      r := Ok(text);
    }

    /** getGPADistribution: the students grouped by GPA band, each band mapped to
        its mean GPA; by DistributionPermutation the order of the listing does not
        matter. */
    method GetGPADistribution() returns (r: map<string, real>)
      requires students.Valid()
      ensures exists all :: Lists(all, students.students) && r == Distribution(Gpas(RankedList(all)))
    {
      var all := students.GetAllStudents();
      r := Distribution(Gpas(RankedList(all)));
      assert Lists(all, students.students);
    }

    /** getTopStudents: a negative count is refused by `limit`; otherwise the first
        `count` students with a grade, by descending GPA. */
    method GetTopStudents(count: int) returns (r: Result<seq<Student>>)
      requires students.Valid()
      ensures count < 0 <==> r == Err(IllegalArgument)
      ensures count >= 0 ==>
        exists all :: Lists(all, students.students) && r == Ok(Items(Top(RankedList(all), count)))
    {
      var all := students.GetAllStudents();
      var top := TopOf(RankedList(all), count);
      if top.Err? {
        return Err(top.error);
      }
      r := Ok(Items(top.value));
      assert Lists(all, students.students);
    }
  }
}
