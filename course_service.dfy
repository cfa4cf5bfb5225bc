/** CourseServiceImpl: courses kept in one HashMap keyed by the code string. */
module CourseServices {
  import opened Wrappers
  import opened JavaString
  import CourseCodes
  import opened Semesters
  import opened Courses

  /** The search filter: the query occurs, ignoring ASCII case, in the title, the
      code, the instructor or the department. */
  predicate SearchMatches(title: string, code: string, instructor: string, department: string,
                          query: string)
  {
    var q := ToLower(query);
    Contains(ToLower(title), q) || Contains(ToLower(code), q)
    || Contains(ToLower(instructor), q) || Contains(ToLower(department), q)
  }

  class CourseRegistry {
    var courses: map<string, Course>

    /** Every course sits under its own code string. */
    ghost predicate Valid()
      reads this
    {
      forall k :: k in courses ==> courses[k].code.code == k
    }

    constructor ()
      ensures courses == map[] && Valid()
    {
      courses := map[];
    }

    /** addCourse: null and an already used code are refused; otherwise the course
        is stored under its code. */
    method AddCourse(c: Course?) returns (r: Outcome)
      requires Valid()
      modifies this
      ensures Valid()
      ensures c == null ==> r == Fail(NullPointer)
      ensures c != null && c.code.code in old(courses) ==> r == Fail(IllegalArgument)
      ensures r.Fail? ==> courses == old(courses)
      ensures r == Pass <==> c != null && c.code.code !in old(courses)
      ensures r == Pass ==> courses == old(courses)[c.code.code := c]
    {
      if c == null {
        return Fail(NullPointer);
      }
      if c.code.code in courses {
        return Fail(IllegalArgument);
      }
      courses := courses[c.code.code := c];
      return Pass;
    }

    /** getAllCourses: a new list holding each stored course once, in map order. */
    method GetAllCourses() returns (r: seq<Course>)
      ensures |r| == |courses|
      ensures forall i :: 0 <= i < |r| ==> r[i] in courses.Values
      ensures forall k :: k in courses ==> courses[k] in r
    {
      r := [];
      var rest := courses.Keys;
      while rest != {}
        invariant rest <= courses.Keys
        invariant |r| + |rest| == |courses|
        invariant forall i :: 0 <= i < |r| ==> r[i] in courses.Values
        invariant forall k :: k in courses ==> k in rest || courses[k] in r
        decreases |rest|
      {
        var k :| k in rest;
        r := r + [courses[k]];
        rest := rest - {k};
      }
    }

    /** updateCourse: an unknown code is refused; otherwise only that entry is replaced. */
    method UpdateCourse(c: Course?) returns (r: Outcome)
      requires Valid()
      modifies this
      ensures Valid()
      ensures c == null ==> r == Fail(NullPointer)
      ensures c != null && c.code.code !in old(courses) ==> r == Fail(IllegalArgument)
      ensures r.Fail? ==> courses == old(courses)
      ensures r == Pass <==> c != null && c.code.code in old(courses)
      ensures r == Pass ==> courses == old(courses)[c.code.code := c]
    {
      if c == null {
        return Fail(NullPointer);
      }
      if c.code.code !in courses {
        return Fail(IllegalArgument);
      }
      courses := courses[c.code.code := c];
      return Pass;
    }

    /** deactivateCourse: nothing for an unknown code; otherwise only the active flag
        of that course becomes false. */
    method DeactivateCourse(code: string)
      requires Valid()
      modifies if code in courses then {courses[code]} else {}
      ensures Valid() && courses == old(courses)
      ensures code in courses ==> courses[code].Fields() == old(courses[code].Fields()).(active := false)
    {
      if code in courses {
        courses[code].SetActive(false);
      }
    }

    /** findById: a plain lookup of the argument, which is not normalised. */
    function FindById(code: string): (r: Option<Course>)
      reads this
      ensures r.Some? <==> code in courses
      ensures r.Some? ==> r.value == courses[code]
    {
      if code in courses then Some(courses[code]) else None
    }

    /** search: the stored courses the filter accepts. A null query throws as soon
        as the filter meets a course, so only an empty registry gets through. */
    function Search(query: Option<string>): (r: Result<set<Course>>)
      reads this, courses.Values
      ensures r.Err? <==> query.None? && courses != map[]
      ensures r.Err? ==> r.error == NullPointer
      ensures r.Ok? ==> forall c :: c in r.value ==> c in courses.Values
      ensures r.Ok? ==> forall k :: k in courses ==>
        (courses[k] in r.value <==>
          query.Some? && SearchMatches(courses[k].title, courses[k].code.code,
                                       courses[k].instructor, courses[k].department, query.value))
    {
      if query.None? then
        if courses == map[] then Ok({}) else Err(NullPointer)
      else
        Ok(set k | k in courses
             && SearchMatches(courses[k].title, courses[k].code.code, courses[k].instructor,
                              courses[k].department, query.value)
             :: courses[k])
    }

    /** findByInstructor: instructor equal to the argument ignoring ASCII case; a
        null argument equals nothing. */
    function FindByInstructor(instructor: Option<string>): (r: set<Course>)
      reads this, courses.Values
      ensures forall c :: c in r ==> c in courses.Values
      ensures forall k :: k in courses ==>
        (courses[k] in r <==> instructor.Some? && EqualsIgnoreCase(courses[k].instructor, instructor.value))
    {
      if instructor.None? then {}
      else set k | k in courses && EqualsIgnoreCase(courses[k].instructor, instructor.value) :: courses[k]
    }

    function FindByDepartment(department: Option<string>): (r: set<Course>)
      reads this, courses.Values
      ensures forall c :: c in r ==> c in courses.Values
      ensures forall k :: k in courses ==>
        (courses[k] in r <==> department.Some? && EqualsIgnoreCase(courses[k].department, department.value))
    {
      if department.None? then {}
      else set k | k in courses && EqualsIgnoreCase(courses[k].department, department.value) :: courses[k]
    }

    /** findBySemester: the same enum constant; null matches no course. */
    function FindBySemester(s: Option<Semester>): (r: set<Course>)
      reads this, courses.Values
      ensures forall c :: c in r ==> c in courses.Values && s == Some(c.semester)
      ensures forall k :: k in courses && s == Some(courses[k].semester) ==> courses[k] in r
    {
      if s.None? then {}
      else set k | k in courses && courses[k].semester == s.value :: courses[k]
    }

    /** Since every stored code is upper case, a query containing a lower-case letter
        never finds anything: findById("cs101") misses CS101. */
    lemma FindByIdIsExact(code: string)
      requires Valid() && ToUpper(code) != code
      ensures FindById(code) == None
    {
      if code in courses {
        var k := courses[code].code;
        CourseCodes.RecogniseIff(k.code);
        CourseCodes.NormalisedWhenMatching(k.code);
      }
    }
  }
}
