/** ComparatorUtils: the sort orders on students, courses and grades, and the two
    lookups by name. A comparator is modelled as the function it computes over the
    values its getters return. */
module Comparators {
  import opened Wrappers
  import opened JavaInt
  import opened JavaString
  import opened Grades
  import opened GradePointAverage
  import opened Names
  import Dates
  import opened Courses
  import opened Students

  /** What the student comparators read: getName().getFullName(), calculateGPA(),
      getRegNo(), getTotalCredits(), getStatus() and getCreatedDate(). */
  datatype StudentKey = StudentKey(fullName: string, gpa: real, regNo: string, totalCredits: int,
                                   status: StudentStatus, created: Dates.Date)

  function StudentKeyOf(s: Student): StudentKey
    reads s, s.person, s.Courses()
  {
    StudentKey(FullName(s.person.name), s.CalculateGPA(), s.regNo, s.GetTotalCredits(),
               s.status, s.person.createdDate)
  }

  /** What the course comparators read: the code string, getTitle(), getCredits(),
      getDepartment() and getInstructor(). */
  datatype CourseKey = CourseKey(code: string, title: string, credits: int, department: string,
                                 instructor: string)

  function CourseKeyOf(c: Course): CourseKey
    reads c
  {
    CourseKey(c.code.code, c.title, c.credits, c.department, c.instructor)
  }

  datatype StudentOrder = ByName | ByGpa | ByRegNo | ByTotalCredits | ByStatusThenGpa
                        | ByCreationDate | ByNameNullSafe

  datatype CourseOrder = ByCourseCode | ByTitle | ByCredits | ByDepartment | ByInstructor
                       | ByDepartmentThenCode

  /** Comparator.thenComparing: the second comparison decides only a tie. */
  function ThenComparing(first: int, second: int): int
  {
    if first != 0 then first else second
  }

  /** Comparator.nullsLast(String::compareTo): null sorts after every string. */
  function NullsLast(a: Option<string>, b: Option<string>): int
  {
    match (a, b)
    case (None, None) => 0
    case (None, Some(_)) => 1
    case (Some(_), None) => -1
    case (Some(x), Some(y)) => CompareTo(x, y)
  }

  /** BY_GPA: Double.compare with the arguments swapped, so higher GPAs first. */
  function CompareGpa(a: StudentKey, b: StudentKey): int
  {
    DoubleCompare(b.gpa, a.gpa)
  }

  function CompareStudents(o: StudentOrder, a: StudentKey, b: StudentKey): int
  {
    match o
    case ByName => CompareTo(a.fullName, b.fullName)
    case ByGpa => CompareGpa(a, b)
    case ByRegNo => CompareTo(a.regNo, b.regNo)
    case ByTotalCredits => IntegerCompare(b.totalCredits, a.totalCredits)
    case ByStatusThenGpa =>
      ThenComparing(CompareTo(StatusName(a.status), StatusName(b.status)), CompareGpa(a, b))
    case ByCreationDate => Dates.CompareTo(a.created, b.created)
    case ByNameNullSafe => NullsLast(Some(a.fullName), Some(b.fullName))
  }

  /** Comparator.comparing on a String or Integer key; `reversed()` swaps the
      arguments. */
  function CompareCourses(o: CourseOrder, a: CourseKey, b: CourseKey): int
  {
    match o
    case ByCourseCode => CompareTo(a.code, b.code)
    case ByTitle => CompareTo(a.title, b.title)
    case ByCredits => IntegerCompare(b.credits, a.credits)
    case ByDepartment => CompareTo(a.department, b.department)
    case ByInstructor => CompareTo(a.instructor, b.instructor)
    case ByDepartmentThenCode =>
      ThenComparing(CompareTo(a.department, b.department), CompareTo(a.code, b.code))
  }

  /** BY_GRADE_POINTS: getGradePoints compared as doubles, reversed. */
  function CompareGrades(g: Grade, h: Grade): int
  {
    DoubleCompare(Points(h) as real, Points(g) as real)
  }

  // ---------------------------------------------------------------- what each order means

  /** The order of the status names: ACTIVE, GRADUATED, INACTIVE, SUSPENDED. */
  function StatusRank(s: StudentStatus): nat
  {
    match s
    case ACTIVE => 0
    case GRADUATED => 1
    case INACTIVE => 2
    case SUSPENDED => 3
  }

  /** The status names compare as their first letters do, which the ranks follow. */
  lemma StatusNameOrder(s: StudentStatus, t: StudentStatus)
    ensures CompareTo(StatusName(s), StatusName(t)) < 0 <==> StatusRank(s) < StatusRank(t)
    ensures CompareTo(StatusName(s), StatusName(t)) == 0 <==> s == t
  {
    var x, y := StatusName(s), StatusName(t);
    assert x[0] == "AGIS"[StatusRank(s)] && y[0] == "AGIS"[StatusRank(t)];
    if s == t {
      CompareToZero(x, y);
    }
  }

  /** A student comes first (a negative result) exactly when the order's key puts it
      first: ascending strings and dates, descending GPA and credits, status names
      before GPA. */
  lemma StudentOrderMeaning(o: StudentOrder, a: StudentKey, b: StudentKey)
    ensures o == ByName || o == ByNameNullSafe ==>
      (CompareStudents(o, a, b) < 0 <==> LexLess(a.fullName, b.fullName))
    ensures o == ByGpa ==> (CompareStudents(o, a, b) < 0 <==> a.gpa > b.gpa)
    ensures o == ByRegNo ==> (CompareStudents(o, a, b) < 0 <==> LexLess(a.regNo, b.regNo))
    ensures o == ByTotalCredits ==>
      (CompareStudents(o, a, b) < 0 <==> a.totalCredits > b.totalCredits)
    ensures o == ByStatusThenGpa ==>
      (CompareStudents(o, a, b) < 0 <==>
         StatusRank(a.status) < StatusRank(b.status)
         || (a.status == b.status && a.gpa > b.gpa))
    ensures o == ByCreationDate ==>
      (CompareStudents(o, a, b) < 0 <==>
         a.created.year < b.created.year
         || (a.created.year == b.created.year && a.created.month < b.created.month)
         || (a.created.year == b.created.year && a.created.month == b.created.month
             && a.created.day < b.created.day))
  {
    CompareToIffLexLess(a.fullName, b.fullName);
    CompareToIffLexLess(a.regNo, b.regNo);
    StatusNameOrder(a.status, b.status);
  }

  /** A course comes first exactly when its key does: ascending strings, descending
      credits, department before code. */
  lemma CourseOrderMeaning(o: CourseOrder, a: CourseKey, b: CourseKey)
    ensures o == ByCourseCode ==> (CompareCourses(o, a, b) < 0 <==> LexLess(a.code, b.code))
    ensures o == ByTitle ==> (CompareCourses(o, a, b) < 0 <==> LexLess(a.title, b.title))
    ensures o == ByCredits ==> (CompareCourses(o, a, b) < 0 <==> a.credits > b.credits)
    ensures o == ByDepartment ==>
      (CompareCourses(o, a, b) < 0 <==> LexLess(a.department, b.department))
    ensures o == ByInstructor ==>
      (CompareCourses(o, a, b) < 0 <==> LexLess(a.instructor, b.instructor))
    ensures o == ByDepartmentThenCode ==>
      (CompareCourses(o, a, b) < 0 <==>
         LexLess(a.department, b.department)
         || (a.department == b.department && LexLess(a.code, b.code)))
  {
    CompareToIffLexLess(a.code, b.code);
    CompareToIffLexLess(a.title, b.title);
    CompareToIffLexLess(a.department, b.department);
    CompareToIffLexLess(a.instructor, b.instructor);
    CompareToZero(a.department, b.department);
  }

  /** Higher grade points come first. */
  lemma GradeOrderMeaning(g: Grade, h: Grade)
    ensures CompareGrades(g, h) < 0 <==> Points(g) > Points(h)
    ensures CompareGrades(g, h) == 0 <==> Points(g) == Points(h)
  {
  }

  /** The null-safe name order agrees with BY_NAME, since a full name is never null. */
  lemma NullSafeAgreesWithName(a: StudentKey, b: StudentKey)
    ensures CompareStudents(ByNameNullSafe, a, b) == CompareStudents(ByName, a, b)
  {
  }

  /** nullsLast puts null after every string and is antisymmetric. */
  lemma NullsLastProperties(a: Option<string>, b: Option<string>)
    ensures a.None? && b.Some? ==> NullsLast(a, b) > 0
    ensures Sign(NullsLast(a, b)) == -Sign(NullsLast(b, a))
  {
    if a.Some? && b.Some? {
      CompareToAntisymmetric(a.value, b.value);
    }
  }

  // ---------------------------------------------------------------- antisymmetry

  lemma ThenComparingAntisymmetric(f1: int, f2: int, s1: int, s2: int)
    requires Sign(f1) == -Sign(f2) && Sign(s1) == -Sign(s2)
    ensures Sign(ThenComparing(f1, s1)) == -Sign(ThenComparing(f2, s2))
  {
  }

  /** Swapping the two students flips the sign of every student comparator. */
  lemma StudentOrderAntisymmetric(o: StudentOrder, a: StudentKey, b: StudentKey)
    ensures Sign(CompareStudents(o, a, b)) == -Sign(CompareStudents(o, b, a))
  {
    match o
    case ByName => CompareToAntisymmetric(a.fullName, b.fullName);
    case ByNameNullSafe => CompareToAntisymmetric(a.fullName, b.fullName);
    case ByRegNo => CompareToAntisymmetric(a.regNo, b.regNo);
    case ByStatusThenGpa =>
      var x, y := StatusName(a.status), StatusName(b.status);
      CompareToAntisymmetric(x, y);
      ThenComparingAntisymmetric(CompareTo(x, y), CompareTo(y, x), CompareGpa(a, b), CompareGpa(b, a));
    case ByCreationDate => Dates.CompareToProperties(a.created, b.created);
    case _ =>
  }

  /** Swapping the two courses flips the sign of every course comparator. */
  lemma CourseOrderAntisymmetric(o: CourseOrder, a: CourseKey, b: CourseKey)
    ensures Sign(CompareCourses(o, a, b)) == -Sign(CompareCourses(o, b, a))
  {
    CompareToAntisymmetric(a.code, b.code);
    CompareToAntisymmetric(a.title, b.title);
    CompareToAntisymmetric(a.department, b.department);
    CompareToAntisymmetric(a.instructor, b.instructor);
  }

  /** Swapping the two grades flips the sign. */
  lemma GradeOrderAntisymmetric(g: Grade, h: Grade)
    ensures Sign(CompareGrades(g, h)) == -Sign(CompareGrades(h, g))
    ensures CompareGrades(g, g) == 0
  {
  }

  // ---------------------------------------------------------------- lookup by name

  /** The lower-case key that selects each student order; BY_NAME_NULL_SAFE and
      BY_STATUS_THEN_GPA have none. */
  function StudentKeyword(o: StudentOrder): Option<string>
  {
    match o
    case ByName => Some("name")
    case ByGpa => Some("gpa")
    case ByRegNo => Some("regno")
    case ByTotalCredits => Some("credits")
    case ByCreationDate => Some("date")
    case _ => None
  }

  function CourseKeyword(o: CourseOrder): Option<string>
  {
    match o
    case ByCourseCode => Some("code")
    case ByTitle => Some("title")
    case ByCredits => Some("credits")
    case ByDepartment => Some("department")
    case ByInstructor => Some("instructor")
    case ByDepartmentThenCode => None
  }

  /** getStudentComparator: a null key throws; otherwise the lower-cased key picks
      the order, and anything else gives BY_NAME. */
  function StudentComparator(sortBy: Option<string>): (r: Result<StudentOrder>)
    ensures sortBy.None? <==> r == Err(NullPointer)
    ensures r.Ok? ==> StudentKeyword(r.value).Some?
    ensures r.Ok? ==> r.value == ByName || StudentKeyword(r.value) == Some(ToLower(sortBy.value))
    ensures r.Ok? && r.value == ByName ==>
      forall o :: StudentKeyword(o) == Some(ToLower(sortBy.value)) ==> o == ByName
  {
    match sortBy
    case None => Err(NullPointer)
    case Some(s) =>
      var k := ToLower(s);
      Ok(if k == "gpa" then ByGpa
         else if k == "regno" then ByRegNo
         else if k == "credits" then ByTotalCredits
         else if k == "date" then ByCreationDate
         else ByName)
  }

  /** getCourseComparator: the same, with BY_COURSE_CODE as the fallback. */
  function CourseComparator(sortBy: Option<string>): (r: Result<CourseOrder>)
    ensures sortBy.None? <==> r == Err(NullPointer)
    ensures r.Ok? ==> CourseKeyword(r.value).Some?
    ensures r.Ok? ==> r.value == ByCourseCode || CourseKeyword(r.value) == Some(ToLower(sortBy.value))
    ensures r.Ok? && r.value == ByCourseCode ==>
      forall o :: CourseKeyword(o) == Some(ToLower(sortBy.value)) ==> o == ByCourseCode
  {
    match sortBy
    case None => Err(NullPointer)
    case Some(s) =>
      var k := ToLower(s);
      Ok(if k == "title" then ByTitle
         else if k == "credits" then ByCredits
         else if k == "department" then ByDepartment
         else if k == "instructor" then ByInstructor
         else ByCourseCode)
  }

  /** Each keyword selects its own order, in any mix of upper and lower case. */
  lemma KeywordsSelect(o: StudentOrder, p: CourseOrder, s: string)
    ensures StudentKeyword(o).Some? && ToLower(s) == StudentKeyword(o).value ==>
      StudentComparator(Some(s)) == Ok(o)
    ensures CourseKeyword(p).Some? && ToLower(s) == CourseKeyword(p).value ==>
      CourseComparator(Some(s)) == Ok(p)
  {
  }

  /** The lookup ignores ASCII case. */
  lemma ComparatorLookupIgnoresCase(s: string)
    ensures StudentComparator(Some(ToUpper(s))) == StudentComparator(Some(s))
    ensures CourseComparator(Some(ToUpper(s))) == CourseComparator(Some(s))
  {
    CaseFoldings(s);
  }

  /** Unknown keys fall back: "GPA " (with a blank) is not trimmed away. */
  lemma LookupExamples()
    ensures StudentComparator(Some("GPA")) == Ok(ByGpa)
    ensures StudentComparator(Some("gpa ")) == Ok(ByName)
    ensures CourseComparator(Some("Credits")) == Ok(ByCredits)
    ensures CourseComparator(Some("semester")) == Ok(ByCourseCode)
  {
    assert ToLower("GPA") == "gpa";
    assert ToLower("Credits") == "credits";
    assert |ToLower("gpa ")| == 4 && ToLower("gpa ")[0] == 'g';
    assert ToLower("semester")[0] == 's';
  }
}
