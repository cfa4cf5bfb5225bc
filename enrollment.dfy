/** Enrollment: a (student, course) pair with a date, an optional grade and a
    status. Nothing else in the core creates one. */
module Enrollments {
  import opened Wrappers
  import opened JavaInt
  import opened Grades
  import opened Dates
  import opened People
  import opened Courses
  import opened Students

  datatype EnrollmentStatus = ENROLLED | DROPPED | COMPLETED

  class Enrollment {
    const student: Student
    const course: Course
    const enrollmentDate: Date
    var grade: Option<Grade>
    var status: EnrollmentStatus

    constructor (student: Student, course: Course, enrollmentDate: Date)
      ensures this.student == student && this.course == course
      ensures this.enrollmentDate == enrollmentDate
      ensures grade == None && status == ENROLLED
    {
      this.student := student;
      this.course := course;
      this.enrollmentDate := enrollmentDate;
      grade := None;
      status := ENROLLED;
    }

    /** The constructor: student and course must be non-null; a new enrollment is
        ENROLLED and ungraded. `today` is LocalDate.now(). */
    static method New(student: Student?, course: Course?, today: Date) returns (r: Result<Enrollment>)
      ensures r.Err? <==> student == null || course == null
      ensures r.Err? ==> r.error == NullPointer
      ensures r.Ok? ==> fresh(r.value) && r.value.student == student && r.value.course == course
      ensures r.Ok? ==> r.value.enrollmentDate == today
      ensures r.Ok? ==> r.value.grade == None && !r.value.HasGrade() && r.value.status == ENROLLED
    {
      if student == null || course == null {
        return Err(NullPointer);
      }
      var e := new Enrollment(student, course, today);
      return Ok(e);
    }

    /** setGrade: any value; null clears the grade. */
    method SetGrade(g: Option<Grade>)
      modifies this
      ensures grade == g && status == old(status)
      ensures HasGrade() <==> g.Some?
    {
      grade := g;
    }

    /** setStatus: null is refused; every transition between the three values is allowed. */
    method SetStatus(s: Option<EnrollmentStatus>) returns (r: Outcome)
      modifies this
      ensures s.None? ==> r == Fail(NullPointer) && unchanged(this)
      ensures s.Some? ==> r == Pass && status == s.value && grade == old(grade)
    {
      if s.None? {
        return Fail(NullPointer);
      }
      status := s.value;
      return Pass;
    }

    predicate HasGrade()
      reads this
    {
      grade.Some?
    }

    /** Objects.hash(student, course). */
    function HashCode(): Int32
    {
      ObjectsHash([student.person.HashCode(), course.HashCode()])
    }

    /** equals: equal students (same id) and equal courses (same code); the date,
        grade and status do not matter. hashCode agrees with it. */
    predicate Equals(other: Enrollment?): (r: bool)
      ensures r <==>
        (other != null && student.person.kind == other.student.person.kind
         && student.person.id == other.student.person.id && course.code == other.course.code)
      ensures r ==> HashCode() == other.HashCode()
    {
      other != null && student.person.Equals(other.student.person) && course.Equals(other.course)
    }
  }
}
