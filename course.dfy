/** Course: a mutable entity identified by its code, created through CourseBuilder. */
module Courses {
  import opened Wrappers
  import opened JavaInt
  import CourseCodes
  import opened Semesters
  import opened Dates

  type CourseCode = CourseCodes.Code

  /** A positive Java `int`: every value a Course's credits can hold. */
  type Credits = c: int | 0 < c <= INT_MAX witness 1

  /** The mutable fields of a Course, for stating what a setter leaves alone. */
  datatype CourseFields = CourseFields(
    title: string, credits: Credits, instructor: string, semester: Semester,
    department: string, active: bool)

  class Course {
    const code: CourseCode
    var title: string
    var credits: Credits
    var instructor: string
    var semester: Semester
    var department: string
    const createdDate: Date
    var active: bool

    ghost function Fields(): CourseFields
      reads this
    {
      CourseFields(title, credits, instructor, semester, department, active)
    }

    /** The private constructor: copies the builder's values and starts active.
        `createdDate` is LocalDate.now(), supplied by the caller. */
    constructor (code: CourseCode, title: string, credits: Credits, instructor: string,
                 semester: Semester, department: string, createdDate: Date)
      ensures this.code == code && this.createdDate == createdDate
      ensures Fields() == CourseFields(title, credits, instructor, semester, department, true)
    {
      this.code := code;
      this.title := title;
      this.credits := credits;
      this.instructor := instructor;
      this.semester := semester;
      this.department := department;
      this.createdDate := createdDate;
      this.active := true;
    }

    /** setTitle: a null title throws; any string, empty included, is stored. */
    method SetTitle(t: Option<string>) returns (r: Outcome)
      modifies this
      ensures t.None? ==> r == Fail(NullPointer) && unchanged(this)
      ensures t.Some? ==> r == Pass && Fields() == old(Fields()).(title := t.value)
    {
      if t.None? {
        return Fail(NullPointer);
      }
      title := t.value;
      return Pass;
    }

    /** setCredits: a value that is not positive throws and keeps the old credits,
        which is why the field's type can be Credits. */
    method SetCredits(c: Int32) returns (r: Outcome)
      modifies this
      ensures c <= 0 ==> r == Fail(IllegalArgument) && unchanged(this)
      ensures c > 0 ==> r == Pass && Fields() == old(Fields()).(credits := c)
    {
      if c <= 0 {
        return Fail(IllegalArgument);
      }
      credits := c;
      return Pass;
    }

    method SetInstructor(i: Option<string>) returns (r: Outcome)
      modifies this
      ensures i.None? ==> r == Fail(NullPointer) && unchanged(this)
      ensures i.Some? ==> r == Pass && Fields() == old(Fields()).(instructor := i.value)
    {
      if i.None? {
        return Fail(NullPointer);
      }
      instructor := i.value;
      return Pass;
    }

    method SetSemester(s: Option<Semester>) returns (r: Outcome)
      modifies this
      ensures s.None? ==> r == Fail(NullPointer) && unchanged(this)
      ensures s.Some? ==> r == Pass && Fields() == old(Fields()).(semester := s.value)
    {
      if s.None? {
        return Fail(NullPointer);
      }
      semester := s.value;
      return Pass;
    }

    method SetDepartment(d: Option<string>) returns (r: Outcome)
      modifies this
      ensures d.None? ==> r == Fail(NullPointer) && unchanged(this)
      ensures d.Some? ==> r == Pass && Fields() == old(Fields()).(department := d.value)
    {
      if d.None? {
        return Fail(NullPointer);
      }
      department := d.value;
      return Pass;
    }

    method SetActive(b: bool)
      modifies this
      ensures Fields() == old(Fields()).(active := b)
    {
      active := b;
    }

    /** Objects.hash(code). */
    function HashCode(): Int32
    {
      ObjectsHash([CourseCodes.HashCode(code)])
    }

    /** equals: another Course with an equal code, whatever its other fields. */
    predicate Equals(other: Course?): (r: bool)
      ensures r ==> other != null && CourseCodes.Equals(code, other.code)
      ensures r ==> HashCode() == other.HashCode()
      ensures other != null && other.code == code ==> r
    {
      other != null && code == other.code
    }
  }

  /** Equality of courses is an equivalence relation. */
  lemma EqualsIsEquivalence(a: Course, b: Course, c: Course)
    ensures a.Equals(a)
    ensures a.Equals(b) ==> b.Equals(a)
    ensures a.Equals(b) && b.Equals(c) ==> a.Equals(c)
  {
  }

  /** The builder's settable fields. */
  datatype BuilderFields = BuilderFields(
    credits: Int32, instructor: Option<string>, semester: Option<Semester>,
    department: Option<string>)

  /** Course.Builder. The credits field starts at 0 and can only be set to a positive
      value, so "credits <= 0" at build time means "credits never set". */
  class CourseBuilder {
    const code: CourseCode
    const title: string
    var credits: Int32
    var instructor: Option<string>
    var semester: Option<Semester>
    var department: Option<string>

    ghost function Fields(): BuilderFields
      reads this
    {
      BuilderFields(credits, instructor, semester, department)
    }

    ghost predicate Valid()
      reads this
    {
      credits >= 0
    }

    constructor (code: CourseCode, title: string)
      ensures this.code == code && this.title == title
      ensures Fields() == BuilderFields(0, None, None, None) && Valid()
    {
      this.code := code;
      this.title := title;
      credits := 0;
      instructor := None;
      semester := None;
      department := None;
    }

    /** `new Builder(code, title)`: both are required non-null, code first. */
    static method New(code: Option<CourseCode>, title: Option<string>) returns (r: Result<CourseBuilder>)
      ensures r.Err? <==> code.None? || title.None?
      ensures r.Err? ==> r.error == NullPointer
      ensures r.Ok? ==> fresh(r.value) && r.value.Valid()
      ensures r.Ok? ==> r.value.code == code.value && r.value.title == title.value
      ensures r.Ok? ==> r.value.Fields() == BuilderFields(0, None, None, None)
    {
      if code.None? || title.None? {
        return Err(NullPointer);
      }
      var b := new CourseBuilder(code.value, title.value);
      return Ok(b);
    }

    /** credits(c): a value that is not positive throws and leaves the builder as it was. */
    method WithCredits(c: Int32) returns (r: Outcome)
      requires Valid()
      modifies this
      ensures Valid()
      ensures c <= 0 ==> r == Fail(IllegalArgument) && unchanged(this)
      ensures c > 0 ==> r == Pass && Fields() == old(Fields()).(credits := c)
    {
      if c <= 0 {
        return Fail(IllegalArgument);
      }
      credits := c;
      return Pass;
    }

    method WithInstructor(i: Option<string>) returns (r: Outcome)
      requires Valid()
      modifies this
      ensures Valid()
      ensures i.None? ==> r == Fail(NullPointer) && unchanged(this)
      ensures i.Some? ==> r == Pass && Fields() == old(Fields()).(instructor := i)
    {
      if i.None? {
        return Fail(NullPointer);
      }
      instructor := i;
      return Pass;
    }

    method WithSemester(s: Option<Semester>) returns (r: Outcome)
      requires Valid()
      modifies this
      ensures Valid()
      ensures s.None? ==> r == Fail(NullPointer) && unchanged(this)
      ensures s.Some? ==> r == Pass && Fields() == old(Fields()).(semester := s)
    {
      if s.None? {
        return Fail(NullPointer);
      }
      semester := s;
      return Pass;
    }

    method WithDepartment(d: Option<string>) returns (r: Outcome)
      requires Valid()
      modifies this
      ensures Valid()
      ensures d.None? ==> r == Fail(NullPointer) && unchanged(this)
      ensures d.Some? ==> r == Pass && Fields() == old(Fields()).(department := d)
    {
      if d.None? {
        return Fail(NullPointer);
      }
      department := d;
      return Pass;
    }

    /** build(): instructor, semester and department must be set, in that order of
        checking (NullPointerException), and then the credits (IllegalStateException).
        The new course carries exactly the builder's values and starts active. */
    method Build(today: Date) returns (r: Result<Course>)
      requires Valid()
      ensures instructor.None? ==> r == Err(NullPointer)
      ensures instructor.Some? && semester.None? ==> r == Err(NullPointer)
      ensures instructor.Some? && semester.Some? && department.None? ==> r == Err(NullPointer)
      ensures instructor.Some? && semester.Some? && department.Some? && credits == 0 ==>
        r == Err(IllegalState)
      ensures r.Ok? <==> instructor.Some? && semester.Some? && department.Some? && credits > 0
      ensures r.Ok? ==> fresh(r.value) && r.value.code == code && r.value.createdDate == today
      ensures r.Ok? ==>
        r.value.Fields() == CourseFields(title, credits, instructor.value, semester.value, department.value, true)
    {
      if instructor.None? || semester.None? || department.None? {
        return Err(NullPointer);
      }
      if credits <= 0 {
        return Err(IllegalState);
      }
      var c := new Course(code, title, credits, instructor.value, semester.value,
                          department.value, today);
      return Ok(c);
    }
  }
}
