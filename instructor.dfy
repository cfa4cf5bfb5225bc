/** Instructor: a Person with an employee id, a department, an optional
    specialization and a salary that is never negative. */
module Instructors {
  import opened Wrappers
  import opened Names
  import opened Dates
  import opened People

  /** The mutable fields of an Instructor. The salary is a Java double; it is kept
      as an exact real here. */
  datatype InstructorFields = InstructorFields(
    employeeId: string, department: string, specialization: Option<string>, salary: real)

  class Instructor {
    const person: Person
    var employeeId: string
    var department: string
    var specialization: Option<string>
    var salary: real

    ghost function Fields(): InstructorFields
      reads this
    {
      InstructorFields(employeeId, department, specialization, salary)
    }

    ghost predicate Valid()
      reads this
    {
      person.kind == InstructorKind && salary >= 0.0
    }

    constructor (person: Person, employeeId: string, department: string)
      requires person.kind == InstructorKind
      ensures this.person == person && Valid()
      ensures Fields() == InstructorFields(employeeId, department, None, 0.0)
    {
      this.person := person;
      this.employeeId := employeeId;
      this.department := department;
      specialization := None;
      salary := 0.0;
    }

    /** The constructor: the Person checks first, then employee id and department
        must be non-null. Specialization starts null and salary 0. */
    static method New(id: Option<string>, name: Option<Name>, email: Option<string>,
                      employeeId: Option<string>, department: Option<string>, today: Date)
      returns (r: Result<Instructor>)
      ensures r.Err? <==> id.None? || name.None? || email.None? || employeeId.None? || department.None?
      ensures r.Err? ==> r.error == NullPointer
      ensures r.Ok? ==> fresh(r.value) && fresh(r.value.person) && r.value.Valid()
      ensures r.Ok? ==> r.value.person.id == id.value
      ensures r.Ok? ==> r.value.person.Fields() == PersonFields(name.value, email.value, true)
      ensures r.Ok? ==>
        r.value.Fields() == InstructorFields(employeeId.value, department.value, None, 0.0)
    {
      var p := Person.New(InstructorKind, id, name, email, today);
      if p.Err? {
        return Err(p.error);
      }
      if employeeId.None? || department.None? {
        return Err(NullPointer);
      }
      var i := new Instructor(p.value, employeeId.value, department.value);
      return Ok(i);
    }

    /** getRole. */
    function Role(): (r: string)
      ensures r == "Instructor"
    {
      "Instructor"
    }

    /** getDisplayInfo: "Instructor: <full name> (<employee id>) - <department> Department". */
    function DisplayInfo(): (r: string)
      reads this, person
      ensures "Instructor: " + FullName(person.name) + " (" + employeeId + ") - " <= r
      ensures |r| >= 11 && r[|r| - 11..] == " Department"
      ensures var head := "Instructor: " + FullName(person.name) + " (" + employeeId + ") - ";
        |head| + 11 <= |r| && r[|head|..|r| - 11] == department
    {
      "Instructor: " + FullName(person.name) + " (" + employeeId + ") - " + department + " Department"
    }

    method SetEmployeeId(e: Option<string>) returns (r: Outcome)
      requires Valid()
      modifies this
      ensures Valid()
      ensures e.None? ==> r == Fail(NullPointer) && unchanged(this)
      ensures e.Some? ==> r == Pass && Fields() == old(Fields()).(employeeId := e.value)
    {
      if e.None? {
        return Fail(NullPointer);
      }
      employeeId := e.value;
      return Pass;
    }

    method SetDepartment(d: Option<string>) returns (r: Outcome)
      requires Valid()
      modifies this
      ensures Valid()
      ensures d.None? ==> r == Fail(NullPointer) && unchanged(this)
      ensures d.Some? ==> r == Pass && Fields() == old(Fields()).(department := d.value)
    {
      if d.None? {
        return Fail(NullPointer);
      }
      department := d.value;
      return Pass;
    }

    /** setSpecialization: any value, null included. */
    method SetSpecialization(s: Option<string>)
      requires Valid()
      modifies this
      ensures Valid()
      ensures Fields() == old(Fields()).(specialization := s)
    {
      specialization := s;
    }

    /** setSalary: a negative salary throws and the old one stays, so the salary is
        never negative. */
    method SetSalary(s: real) returns (r: Outcome)
      requires Valid()
      modifies this
      ensures Valid()
      ensures s < 0.0 ==> r == Fail(IllegalArgument) && unchanged(this)
      ensures s >= 0.0 ==> r == Pass && Fields() == old(Fields()).(salary := s)
    {
      if s < 0.0 {
        return Fail(IllegalArgument);
      }
      salary := s;
      return Pass;
    }
  }
}
