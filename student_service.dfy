/** StudentServiceImpl: students kept in two HashMaps, one by id and one by
    registration number. */
module StudentServices {
  import opened Wrappers
  import opened JavaString
  import opened Names
  import opened People
  import opened Courses
  import opened Students

  /** The search filter: the query occurs, ignoring ASCII case, in the full name,
      the registration number or the id. */
  predicate SearchMatches(fullName: string, regNo: string, id: string, query: string)
  {
    var q := ToLower(query);
    Contains(ToLower(fullName), q) || Contains(ToLower(regNo), q) || Contains(ToLower(id), q)
  }

  /** The filter does not depend on the case of the query, and the empty query
      matches everything. */
  lemma SearchMatchesProperties(fullName: string, regNo: string, id: string, query: string)
    ensures SearchMatches(fullName, regNo, id, ToUpper(query)) == SearchMatches(fullName, regNo, id, query)
    ensures SearchMatches(fullName, regNo, id, ToLower(query)) == SearchMatches(fullName, regNo, id, query)
    ensures SearchMatches(fullName, regNo, id, "")
  {
    CaseFoldings(query);
    ContainsEmpty(ToLower(id));
  }

  /** The filter holds exactly when the lower-cased query occurs at some offset of
      one of the three lower-cased fields. */
  lemma SearchMatchesIff(fullName: string, regNo: string, id: string, query: string)
    ensures SearchMatches(fullName, regNo, id, query) <==>
      var q := ToLower(query);
      (exists i :: OccursAt(ToLower(fullName), q, i)) || (exists i :: OccursAt(ToLower(regNo), q, i))
      || (exists i :: OccursAt(ToLower(id), q, i))
  {
    var q := ToLower(query);
    ContainsIff(ToLower(fullName), q);
    ContainsIff(ToLower(regNo), q);
    ContainsIff(ToLower(id), q);
  }

  /** The index by registration number agrees with the students' own numbers and
      with the map by id. */
  ghost predicate IndexedBy(students: map<string, Student>, byRegNo: map<string, Student>)
    reads students.Values, byRegNo.Values
  {
    (forall r :: r in byRegNo ==> byRegNo[r].regNo == r && byRegNo[r] in students.Values)
    && (forall id :: id in students ==>
          students[id].regNo in byRegNo && byRegNo[students[id].regNo] == students[id])
  }

  class StudentRegistry {
    var students: map<string, Student>
    var byRegNo: map<string, Student>

    /** Every student sits under its own id and keeps its own invariant. */
    ghost predicate Valid()
      reads this, students.Values
    {
      forall id :: id in students ==> students[id].person.id == id && students[id].Valid()
    }

    /** Only addStudent is sure to keep the index in step. */
    ghost predicate Indexed()
      reads this, students.Values, byRegNo.Values
    {
      IndexedBy(students, byRegNo)
    }

    constructor ()
      ensures students == map[] && byRegNo == map[] && Valid() && Indexed()
    {
      students := map[];
      byRegNo := map[];
    }

    /** findById: the student stored under the id, if any. */
    function FindById(id: string): (r: Option<Student>)
      reads this
      ensures r.Some? <==> id in students
      ensures r.Some? ==> r.value == students[id]
    {
      if id in students then Some(students[id]) else None
    }

    function FindByRegNo(regNo: string): (r: Option<Student>)
      reads this
      ensures r.Some? <==> regNo in byRegNo
      ensures r.Some? ==> r.value == byRegNo[regNo]
    {
      if regNo in byRegNo then Some(byRegNo[regNo]) else None
    }

    /** addStudent: null, then a taken id, then a taken registration number are
        refused, all before either map changes. */
    method AddStudent(s: Student?) returns (r: Outcome)
      requires Valid() && (s != null ==> s.Valid())
      modifies this
      ensures Valid()
      ensures s == null ==> r == Fail(NullPointer)
      ensures s != null && s.person.id in old(students) ==> r == Fail(IllegalArgument)
      ensures s != null && s.person.id !in old(students) && s.regNo in old(byRegNo) ==>
        r == Fail(IllegalArgument)
      ensures r.Fail? ==> students == old(students) && byRegNo == old(byRegNo)
      ensures r == Pass <==> s != null && s.person.id !in old(students) && s.regNo !in old(byRegNo)
      ensures r == Pass ==> students == old(students)[s.person.id := s]
      ensures r == Pass ==> byRegNo == old(byRegNo)[s.regNo := s]
      ensures r == Pass ==> FindById(s.person.id) == Some(s) && FindByRegNo(s.regNo) == Some(s)
      ensures r == Pass && old(Indexed()) ==> Indexed()
    {
      if s == null {
        return Fail(NullPointer);
      }
      if s.person.id in students {
        return Fail(IllegalArgument);
      }
      if s.regNo in byRegNo {
        return Fail(IllegalArgument);
      }
      ghost var oldStudents := students;
      students := students[s.person.id := s];
      byRegNo := byRegNo[s.regNo := s];
      forall id | id in oldStudents
        ensures oldStudents[id] in students.Values
      {
        assert students[id] == oldStudents[id];
      }
      return Pass;
    }

    /** getAllStudents: a new list holding each stored student once, in map order. */
    method GetAllStudents() returns (r: seq<Student>)
      requires Valid()
      ensures |r| == |students|
      ensures forall i :: 0 <= i < |r| ==> r[i] in students.Values
      ensures forall id :: id in students ==> students[id] in r
    {
      r := [];
      var rest := students.Keys;
      while rest != {}
        invariant rest <= students.Keys
        invariant |r| + |rest| == |students|
        invariant forall i :: 0 <= i < |r| ==> r[i] in students.Values
        invariant forall id :: id in students ==> id in rest || students[id] in r
        decreases |rest|
      {
        var id :| id in rest;
        r := r + [students[id]];
        rest := rest - {id};
      }
    }

    /** updateStudent: refused for an unknown id. Otherwise the old student's number
        leaves the index and the new student is stored under its id and number;
        whether that number already belongs to someone else is not checked. */
    method UpdateStudent(s: Student?) returns (r: Outcome)
      requires Valid() && (s != null ==> s.Valid())
      modifies this
      ensures Valid()
      ensures s == null ==> r == Fail(NullPointer)
      ensures s != null && s.person.id !in old(students) ==> r == Fail(IllegalArgument)
      ensures r.Fail? ==> students == old(students) && byRegNo == old(byRegNo)
      ensures r == Pass <==> s != null && s.person.id in old(students)
      ensures r == Pass ==> students == old(students)[s.person.id := s]
      ensures r == Pass ==>
        byRegNo == (old(byRegNo) - {old(students[s.person.id].regNo)})[s.regNo := s]
      ensures r == Pass && old(Indexed()) ==>
        (Indexed() <==> s.regNo !in old(byRegNo) || old(byRegNo[s.regNo]) == old(students[s.person.id]))
    {
      if s == null {
        return Fail(NullPointer);
      }
      if s.person.id !in students {
        return Fail(IllegalArgument);
      }
      ghost var before, index := students, byRegNo;
      ghost var wasIndexed := Indexed();
      var existing := students[s.person.id];
      byRegNo := byRegNo - {existing.regNo};
      students := students[s.person.id := s];
      byRegNo := byRegNo[s.regNo := s];
      if wasIndexed {
        if s.regNo in index && index[s.regNo] != existing {
          StaleIndex(before, index, s);
        } else {
          FreshIndex(before, index, s);
        }
      }
      return Pass;
    }

    /** When the new number already belongs to another student, that student stays
        stored but the index sends its number to the updated student. */
    lemma StaleIndex(before: map<string, Student>, index: map<string, Student>, s: Student)
      requires forall id :: id in before ==> before[id].person.id == id
      requires s.person.id in before
      requires IndexedBy(before, index)
      requires s.regNo in index && index[s.regNo] != before[s.person.id]
      requires students == before[s.person.id := s]
      requires byRegNo == (index - {before[s.person.id].regNo})[s.regNo := s]
      ensures !Indexed()
    {
      var t := index[s.regNo];
      var other :| other in before && before[other] == t;
      assert other != s.person.id;
      assert students[other] == t && t.regNo == s.regNo;
      assert byRegNo[t.regNo] == s;
      assert t.person.id == other;
    }

    /** When the new number is free, or already the updated student's own, the
        index stays in step. */
    lemma FreshIndex(before: map<string, Student>, index: map<string, Student>, s: Student)
      requires forall id :: id in before ==> before[id].person.id == id
      requires s.person.id in before
      requires IndexedBy(before, index)
      requires s.regNo !in index || index[s.regNo] == before[s.person.id]
      requires students == before[s.person.id := s]
      requires byRegNo == (index - {before[s.person.id].regNo})[s.regNo := s]
      ensures Indexed()
    {
      var e := before[s.person.id];
      forall r | r in byRegNo
        ensures byRegNo[r].regNo == r && byRegNo[r] in students.Values
      {
        if r == s.regNo {
          assert students[s.person.id] == s;
        } else {
          var u := index[r];
          var id :| id in before && before[id] == u;
          assert id != s.person.id;
          assert students[id] == u;
        }
      }
      forall id | id in students
        ensures students[id].regNo in byRegNo && byRegNo[students[id].regNo] == students[id]
      {
        if id != s.person.id {
          var u := before[id];
          assert u.person.id == id;
          assert u != e;
          assert index[u.regNo] == u;
        }
      }
    }

    /** Updating with a number held by another student is refused before anything
        changes; otherwise this is updateStudent, and the index stays in step. */
    method UpdateStudentChecked(s: Student?) returns (r: Outcome)
      requires Valid() && Indexed() && (s != null ==> s.Valid())
      modifies this
      ensures Valid() && Indexed()
      ensures s == null ==> r == Fail(NullPointer)
      ensures s != null && s.person.id !in old(students) ==> r == Fail(IllegalArgument)
      ensures (s != null && s.regNo in old(byRegNo) && s.person.id in old(students)
               && old(byRegNo[s.regNo]) != old(students[s.person.id])) ==> r == Fail(IllegalArgument)
      ensures r.Fail? ==> students == old(students) && byRegNo == old(byRegNo)
      ensures r == Pass <==>
        (s != null && s.person.id in old(students)
         && (s.regNo !in old(byRegNo) || old(byRegNo[s.regNo]) == old(students[s.person.id])))
      ensures r == Pass ==> students == old(students)[s.person.id := s]
      ensures r == Pass ==>
        byRegNo == (old(byRegNo) - {old(students[s.person.id].regNo)})[s.regNo := s]
    {
      if s != null && s.person.id in students && s.regNo in byRegNo
        && byRegNo[s.regNo] != students[s.person.id] {
        return Fail(IllegalArgument);
      }
      r := UpdateStudent(s);
    }

    /** The objects deactivateStudent may change: the student under the id and its person. */
    ghost function Target(id: string): set<object>
      reads this
    {
      if id in students then {students[id], students[id].person} else {}
    }

    /** deactivateStudent: nothing for an unknown id; otherwise active becomes false
        and the status INACTIVE, and nothing else changes. */
    method DeactivateStudent(id: string)
      requires Valid()
      modifies Target(id)
      ensures Valid() && students == old(students) && byRegNo == old(byRegNo)
      ensures id in students ==>
        students[id].status == INACTIVE
        && students[id].person.Fields() == old(students[id].person.Fields()).(active := false)
        && students[id].regNo == old(students[id].regNo)
        && students[id].Rec() == old(students[id].Rec())
    {
      if id in students {
        var s := students[id];
        s.person.SetActive(false);
        s.SetStatus(INACTIVE);
      }
    }

    /** search: the stored students the filter accepts. A null query throws as soon
        as the filter meets a student, so only an empty registry gets through. */
    function Search(query: Option<string>): (r: Result<set<Student>>)
      reads this, students.Values, set id | id in students :: students[id].person
      ensures r.Err? <==> query.None? && students != map[]
      ensures r.Err? ==> r.error == NullPointer
      ensures r.Ok? ==> forall s :: s in r.value ==> s in students.Values
      ensures r.Ok? ==> forall id :: id in students ==>
        (students[id] in r.value <==>
          query.Some? && SearchMatches(FullName(students[id].person.name), students[id].regNo,
                                       students[id].person.id, query.value))
    {
      if query.None? then
        if students == map[] then Ok({}) else Err(NullPointer)
      else
        Ok(set id | id in students
             && SearchMatches(FullName(students[id].person.name), students[id].regNo,
                              students[id].person.id, query.value)
             :: students[id])
    }

    /** enrollStudentInCourse: an unknown id is refused; otherwise Student.enrollInCourse. */
    method EnrollStudentInCourse(id: string, c: Course?) returns (r: Outcome)
      requires Valid()
      modifies if id in students then {students[id]} else {}
      ensures Valid() && students == old(students) && byRegNo == old(byRegNo)
      ensures id !in students ==> r == Fail(IllegalArgument)
      ensures id in students && c == null ==> r == Fail(NullPointer)
      ensures id in students && c != null ==>
        var res := Enroll(old(students[id].Rec()), c);
        (res.Err? ==> r == Fail(res.error) && students[id].Rec() == old(students[id].Rec()))
        && (res.Ok? ==> r == Pass && students[id].Rec() == res.value)
    {
      if id !in students {
        return Fail(IllegalArgument);
      }
      var s := students[id];
      r := s.EnrollInCourse(c);
    }

    method UnenrollStudentFromCourse(id: string, c: Course?) returns (r: Outcome)
      requires Valid()
      modifies if id in students then {students[id]} else {}
      ensures Valid() && students == old(students) && byRegNo == old(byRegNo)
      ensures id !in students ==> r == Fail(IllegalArgument)
      ensures id in students && c == null ==> r == Fail(NullPointer)
      ensures id in students && c != null ==>
        var res := Unenroll(old(students[id].Rec()), c);
        (res.Err? ==> r == Fail(res.error) && students[id].Rec() == old(students[id].Rec()))
        && (res.Ok? ==> r == Pass && students[id].Rec() == res.value)
    {
      if id !in students {
        return Fail(IllegalArgument);
      }
      var s := students[id];
      r := s.UnenrollFromCourse(c);
    }
  }
}
