/** Person: the common part of students and instructors. */
module People {
  import opened Wrappers
  import opened JavaInt
  import opened JavaString
  import opened Names
  import opened Dates

  /** The runtime class of a person object; `equals` compares it. */
  datatype Kind = StudentKind | InstructorKind

  /** The mutable fields of a Person. */
  datatype PersonFields = PersonFields(name: Name, email: string, active: bool)

  class Person {
    const kind: Kind
    const id: string
    var name: Name
    var email: string
    const createdDate: Date
    var active: bool

    ghost function Fields(): PersonFields
      reads this
    {
      PersonFields(name, email, active)
    }

    constructor (kind: Kind, id: string, name: Name, email: string, createdDate: Date)
      ensures this.kind == kind && this.id == id && this.createdDate == createdDate
      ensures Fields() == PersonFields(name, email, true)
    {
      this.kind := kind;
      this.id := id;
      this.name := name;
      this.email := email;
      this.createdDate := createdDate;
      this.active := true;
    }

    /** The protected constructor: id, name and email must be non-null (checked in
        that order); the person starts active. `today` is LocalDate.now(). */
    static method New(kind: Kind, id: Option<string>, name: Option<Name>, email: Option<string>,
                      today: Date) returns (r: Result<Person>)
      ensures r.Err? <==> id.None? || name.None? || email.None?
      ensures r.Err? ==> r.error == NullPointer
      ensures r.Ok? ==> fresh(r.value) && r.value.kind == kind && r.value.id == id.value
      ensures r.Ok? ==> r.value.createdDate == today
      ensures r.Ok? ==> r.value.Fields() == PersonFields(name.value, email.value, true)
    {
      if id.None? || name.None? || email.None? {
        return Err(NullPointer);
      }
      var p := new Person(kind, id.value, name.value, email.value, today);
      return Ok(p);
    }

    method SetName(n: Option<Name>) returns (r: Outcome)
      modifies this
      ensures n.None? ==> r == Fail(NullPointer) && unchanged(this)
      ensures n.Some? ==> r == Pass && Fields() == old(Fields()).(name := n.value)
    {
      if n.None? {
        return Fail(NullPointer);
      }
      name := n.value;
      return Pass;
    }

    method SetEmail(e: Option<string>) returns (r: Outcome)
      modifies this
      ensures e.None? ==> r == Fail(NullPointer) && unchanged(this)
      ensures e.Some? ==> r == Pass && Fields() == old(Fields()).(email := e.value)
    {
      if e.None? {
        return Fail(NullPointer);
      }
      email := e.value;
      return Pass;
    }

    method SetActive(b: bool)
      modifies this
      ensures Fields() == old(Fields()).(active := b)
    {
      active := b;
    }

    /** Objects.hash(id). */
    function HashCode(): Int32
    {
      ObjectsHash([StringHash(id)])
    }

    /** equals: same runtime class and same id; name, email and the rest do not
        matter. hashCode agrees with it. */
    predicate Equals(other: Person?): (r: bool)
      ensures r <==> other != null && kind == other.kind && id == other.id
      ensures r ==> HashCode() == other.HashCode()
    {
      other != null && kind == other.kind && id == other.id
    }
  }

  /** Equality of persons is an equivalence relation, and a student never equals an
      instructor, even with the same id. */
  lemma EqualsProperties(a: Person, b: Person, c: Person)
    ensures a.Equals(a)
    ensures a.Equals(b) ==> b.Equals(a)
    ensures a.Equals(b) && b.Equals(c) ==> a.Equals(c)
    ensures a.kind != b.kind ==> !a.Equals(b)
  {
  }
}
