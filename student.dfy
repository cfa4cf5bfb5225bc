/** Student: a Person with a registration number, a status, the enrolled courses
    (a HashSet of Course, which are equal by code) and a grade per course (a
    HashMap keyed by Course). Both collections are modelled as maps keyed by the
    course code, which is what Course equality compares. */
module Students {
  import opened Wrappers
  import opened JavaInt
  import opened Grades
  import opened Sums
  import opened GradePointAverage
  import opened Names
  import opened Dates
  import opened People
  import opened Courses
  import opened CodeOrder
  import JavaString

  datatype StudentStatus = ACTIVE | INACTIVE | GRADUATED | SUSPENDED

  /** Enum.name() of a status, which is also what `%s` prints. */
  function StatusName(s: StudentStatus): (n: string)
    ensures n != []
  {
    match s
    case ACTIVE => "ACTIVE"
    case INACTIVE => "INACTIVE"
    case GRADUATED => "GRADUATED"
    case SUSPENDED => "SUSPENDED"
  }

  lemma StatusNameInjective(s: StudentStatus, t: StudentStatus)
    ensures StatusName(s) == StatusName(t) ==> s == t
  {
  }

  /** A grade map entry: HashMap.put on a key already present keeps the stored key
      object, so the course object here is the one of the first grade. */
  datatype GradeEntry = GradeEntry(course: Course, grade: Grade)

  /** The two collections of a student. */
  datatype Record = Record(enrolled: map<CourseCode, Course>, grades: map<CourseCode, GradeEntry>)

  /** Each entry sits under its course's code and only enrolled courses are graded. */
  predicate RecordValid(r: Record)
  {
    r.grades.Keys <= r.enrolled.Keys
    && (forall k :: k in r.enrolled ==> r.enrolled[k].code == k)
    && (forall k :: k in r.grades ==> r.grades[k].course.code == k)
  }

  /** enrollInCourse: refused when a course with the same code is enrolled. */
  function Enroll(r: Record, c: Course): (res: Result<Record>)
    ensures res.Err? <==> c.code in r.enrolled
    ensures res.Err? ==> res.error == IllegalArgument
    ensures res.Ok? ==> res.value.grades == r.grades
    ensures res.Ok? ==> res.value.enrolled == r.enrolled[c.code := c]
  {
    if c.code in r.enrolled then Err(IllegalArgument)
    else Ok(r.(enrolled := r.enrolled[c.code := c]))
  }

  /** unenrollFromCourse: refused unless enrolled; drops the course and its grade. */
  function Unenroll(r: Record, c: Course): (res: Result<Record>)
    ensures res.Err? <==> c.code !in r.enrolled
    ensures res.Err? ==> res.error == IllegalArgument
    ensures res.Ok? ==> res.value.enrolled.Keys == r.enrolled.Keys - {c.code}
    ensures res.Ok? ==> res.value.grades.Keys == r.grades.Keys - {c.code}
    ensures res.Ok? ==> forall k :: k in res.value.grades ==> res.value.grades[k] == r.grades[k]
  {
    if c.code !in r.enrolled then Err(IllegalArgument)
    else Ok(Record(r.enrolled - {c.code}, r.grades - {c.code}))
  }

  /** assignGrade: refused unless enrolled; sets or overwrites that course's grade. */
  function AssignGrade(r: Record, c: Course, g: Grade): (res: Result<Record>)
    ensures res.Err? <==> c.code !in r.enrolled
    ensures res.Err? ==> res.error == IllegalArgument
    ensures res.Ok? ==> res.value.enrolled == r.enrolled
    ensures res.Ok? ==> res.value.grades.Keys == r.grades.Keys + {c.code}
    ensures res.Ok? ==> res.value.grades[c.code].grade == g
    ensures res.Ok? ==> forall k :: k in r.grades && k != c.code ==> res.value.grades[k] == r.grades[k]
  {
    if c.code !in r.enrolled then Err(IllegalArgument)
    else
      var kept := if c.code in r.grades then r.grades[c.code].course else c;
      Ok(r.(grades := r.grades[c.code := GradeEntry(kept, g)]))
  }

  /** The three operations keep the record valid. */
  lemma OperationsKeepValid(r: Record, c: Course, g: Grade)
    requires RecordValid(r)
    ensures Enroll(r, c).Ok? ==> RecordValid(Enroll(r, c).value)
    ensures Unenroll(r, c).Ok? ==> RecordValid(Unenroll(r, c).value)
    ensures AssignGrade(r, c, g).Ok? ==> RecordValid(AssignGrade(r, c, g).value)
  {
  }

  /** Unenrolling a course just enrolled gives the record back. */
  lemma UnenrollUndoesEnroll(r: Record, c: Course)
    requires RecordValid(r) && Enroll(r, c).Ok?
    ensures Unenroll(Enroll(r, c).value, c) == Ok(r)
  {
    var r' := Enroll(r, c).value;
    assert r'.enrolled - {c.code} == r.enrolled;
    assert c.code !in r.grades;
    assert r.grades - {c.code} == r.grades;
  }

  /** Grading twice keeps only the second grade. */
  lemma AssignGradeOverwrites(r: Record, c: Course, g1: Grade, g2: Grade)
    requires AssignGrade(r, c, g1).Ok?
    ensures AssignGrade(AssignGrade(r, c, g1).value, c, g2) == AssignGrade(r, c, g2)
  {
    var kept := if c.code in r.grades then r.grades[c.code].course else c;
    var r1 := AssignGrade(r, c, g1).value;
    assert r1.grades[c.code].course == kept;
    assert r1.grades[c.code := GradeEntry(kept, g2)] == r.grades[c.code := GradeEntry(kept, g2)];
  }

  /** The table the GPA is computed from: each graded course's grade and its credits
      as they are now. */
  function GradeTable(r: Record): (t: map<CourseCode, GradedCourse>)
    reads set k | k in r.grades :: r.grades[k].course
    ensures t.Keys == r.grades.Keys
  {
    map k | k in r.grades :: GradedCourse(r.grades[k].grade, r.grades[k].course.credits)
  }

  /** The current credits of each enrolled course. */
  function EnrolledCredits(r: Record): (m: map<CourseCode, int>)
    reads set k | k in r.enrolled :: r.enrolled[k]
    ensures m.Keys == r.enrolled.Keys
    ensures forall k :: k in m ==> m[k] == r.enrolled[k].credits
  {
    map k | k in r.enrolled :: r.enrolled[k].credits
  }

  class Student {
    const person: Person
    var regNo: string
    var enrolled: map<CourseCode, Course>
    var grades: map<CourseCode, GradeEntry>
    var status: StudentStatus

    function Rec(): Record
      reads this
    {
      Record(enrolled, grades)
    }

    ghost predicate Valid()
      reads this
    {
      person.kind == StudentKind && RecordValid(Rec())
    }

    /** The courses read by the GPA and by the total credits. */
    ghost function Courses(): set<Course>
      reads this
    {
      (set k | k in enrolled :: enrolled[k]) + (set k | k in grades :: grades[k].course)
    }

    constructor (person: Person, regNo: string)
      requires person.kind == StudentKind
      ensures this.person == person && this.regNo == regNo && status == ACTIVE
      ensures enrolled == map[] && grades == map[] && Valid()
    {
      this.person := person;
      this.regNo := regNo;
      enrolled := map[];
      grades := map[];
      status := ACTIVE;
    }

    /** The constructor: the Person checks (id, name, email) come first, then the
        registration number; a new student is ACTIVE and has no courses. */
    static method New(id: Option<string>, name: Option<Name>, email: Option<string>,
                      regNo: Option<string>, today: Date) returns (r: Result<Student>)
      ensures r.Err? <==> id.None? || name.None? || email.None? || regNo.None?
      ensures r.Err? ==> r.error == NullPointer
      ensures r.Ok? ==> fresh(r.value) && fresh(r.value.person) && r.value.Valid()
      ensures r.Ok? ==> r.value.person.id == id.value && r.value.regNo == regNo.value
      ensures r.Ok? ==> r.value.person.createdDate == today
      ensures r.Ok? ==>
        r.value.person.Fields() == PersonFields(name.value, email.value, true)
      ensures r.Ok? ==> r.value.status == ACTIVE && r.value.Rec() == Record(map[], map[])
    {
      var p := Person.New(StudentKind, id, name, email, today);
      if p.Err? {
        return Err(p.error);
      }
      if regNo.None? {
        return Err(NullPointer);
      }
      var s := new Student(p.value, regNo.value);
      return Ok(s);
    }

    function Role(): string
    {
      "Student"
    }

    /** getDisplayInfo: "Student: <full name> (Reg: <registration number>) - <n>
        courses enrolled", where n, printed in decimal, is the number of enrolled
        courses. */
    function DisplayInfo(): (r: string)
      reads this, person
      ensures var head := "Student: " + FullName(person.name) + " (Reg: " + regNo + ") - ";
        head <= r && |head| + 17 < |r| && r[|r| - 17..] == " courses enrolled"
        && (forall i :: |head| <= i < |r| - 17 ==> JavaString.IsDigit(r[i]))
        && JavaString.DigitsValue(r[|head|..|r| - 17]) == |enrolled|
    {
      var head := "Student: " + FullName(person.name) + " (Reg: " + regNo + ") - ";
      var count := JavaString.NatToString(|enrolled|);
      JavaString.DigitsOfNat(|enrolled|);
      var r := head + count + " courses enrolled";
      assert r[|head|..|r| - 17] == count;
      r
    }

    /** setRegNo: any non-null value is stored. Nothing here updates the registry's
        index by registration number. */
    method SetRegNo(n: Option<string>) returns (r: Outcome)
      modifies this
      ensures n.None? ==> r == Fail(NullPointer) && unchanged(this)
      ensures n.Some? ==> r == Pass && regNo == n.value
      ensures Rec() == old(Rec()) && status == old(status)
    {
      if n.None? {
        return Fail(NullPointer);
      }
      regNo := n.value;
      return Pass;
    }

    method SetStatus(s: StudentStatus)
      modifies this
      ensures status == s && regNo == old(regNo) && Rec() == old(Rec())
    {
      status := s;
    }

    /** getEnrolledCourses: a copy, so the caller cannot change the student through it. */
    function EnrolledCourses(): (r: set<Course>)
      reads this
      ensures forall k :: k in enrolled ==> enrolled[k] in r
      ensures Valid() ==> forall c :: c in r ==> c.code in enrolled && enrolled[c.code] == c
    {
      set k | k in enrolled :: enrolled[k]
    }

    /** getGrades: a copy of the course-to-grade map. */
    function Grades(): (r: map<CourseCode, Grade>)
      reads this
      ensures r.Keys == grades.Keys && forall k :: k in r ==> r[k] == grades[k].grade
    {
      map k | k in grades :: grades[k].grade
    }

    method EnrollInCourse(c: Course?) returns (r: Outcome)
      requires Valid()
      modifies this
      ensures Valid() && regNo == old(regNo) && status == old(status)
      ensures c == null ==> r == Fail(NullPointer) && Rec() == old(Rec())
      ensures c != null && Enroll(old(Rec()), c).Err? ==>
        r == Fail(Enroll(old(Rec()), c).error) && Rec() == old(Rec())
      ensures c != null && Enroll(old(Rec()), c).Ok? ==>
        r == Pass && Rec() == Enroll(old(Rec()), c).value
    {
      if c == null {
        return Fail(NullPointer);
      }
      OperationsKeepValid(Rec(), c, S);
      if c.code in enrolled {
        return Fail(IllegalArgument);
      }
      enrolled := enrolled[c.code := c];
      return Pass;
    }

    method UnenrollFromCourse(c: Course?) returns (r: Outcome)
      requires Valid()
      modifies this
      ensures Valid() && regNo == old(regNo) && status == old(status)
      ensures c == null ==> r == Fail(NullPointer) && Rec() == old(Rec())
      ensures c != null && Unenroll(old(Rec()), c).Err? ==>
        r == Fail(Unenroll(old(Rec()), c).error) && Rec() == old(Rec())
      ensures c != null && Unenroll(old(Rec()), c).Ok? ==>
        r == Pass && Rec() == Unenroll(old(Rec()), c).value
    {
      if c == null {
        return Fail(NullPointer);
      }
      OperationsKeepValid(Rec(), c, S);
      if c.code !in enrolled {
        return Fail(IllegalArgument);
      }
      enrolled := enrolled - {c.code};
      grades := grades - {c.code};
      return Pass;
    }

    /** assignGrade: null course, then null grade (NullPointerException), then not
        enrolled (IllegalArgumentException). */
    method AssignGradeTo(c: Course?, g: Option<Grade>) returns (r: Outcome)
      requires Valid()
      modifies this
      ensures Valid() && regNo == old(regNo) && status == old(status)
      ensures (c == null || g.None?) ==> r == Fail(NullPointer) && Rec() == old(Rec())
      ensures c != null && g.Some? && AssignGrade(old(Rec()), c, g.value).Err? ==>
        r == Fail(AssignGrade(old(Rec()), c, g.value).error) && Rec() == old(Rec())
      ensures c != null && g.Some? && AssignGrade(old(Rec()), c, g.value).Ok? ==>
        r == Pass && Rec() == AssignGrade(old(Rec()), c, g.value).value
    {
      if c == null || g.None? {
        return Fail(NullPointer);
      }
      OperationsKeepValid(Rec(), c, g.value);
      ghost var after := AssignGrade(Rec(), c, g.value);
      if c.code !in enrolled {
        return Fail(IllegalArgument);
      }
      var kept := if c.code in grades then grades[c.code].course else c;
      grades := grades[c.code := GradeEntry(kept, g.value)];
      assert Rec() == after.value;
      return Pass;
    }

    /** calculateGPA over the current grade table. */
    function CalculateGPA(): (gpa: real)
      reads this, Courses()
      ensures gpa == Gpa(GradeTable(Rec()))
    {
      ComputeGpa(GradeTable(Rec()))
    }

    /** The GPA lies in [0, 10] as long as the graded courses' credits add up to an `int`. */
    lemma CalculateGPARange()
      requires SumValues(CreditsOf(GradeTable(Rec()))) <= INT_MAX
      ensures 0.0 <= Gpa(GradeTable(Rec())) <= 10.0
    {
      GpaRange(GradeTable(Rec()));
    }

    /** getTotalCredits: the credits of every enrolled course, graded or not, summed
        in `int` arithmetic. */
    function GetTotalCredits(): (total: Int32)
      reads this, set k | k in enrolled :: enrolled[k]
      ensures total == Wrap32(SumValues(EnrolledCredits(Rec())))
    {
      Wrap32(SumByCode(EnrolledCredits(Rec())))
    }
  }
}
