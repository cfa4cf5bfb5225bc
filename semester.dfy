/** The Semester enum: four constants with an order number and a display name. */
module Semesters {
  import opened Wrappers

  datatype Semester = SPRING | SUMMER | FALL | WINTER

  /** getOrder. */
  function Order(s: Semester): (o: int)
    ensures 1 <= o <= 4
  {
    match s
    case SPRING => 1
    case SUMMER => 2
    case FALL => 3
    case WINTER => 4
  }

  /** getDisplayName; toString returns the same text. */
  function DisplayName(s: Semester): string
  {
    match s
    case SPRING => "Spring Semester"
    case SUMMER => "Summer Semester"
    case FALL => "Fall Semester"
    case WINTER => "Winter Semester"
  }

  function ToString(s: Semester): string
  {
    DisplayName(s)
  }

  /** Enum.name(): the constant's identifier. */
  function Name(s: Semester): string
  {
    match s
    case SPRING => "SPRING"
    case SUMMER => "SUMMER"
    case FALL => "FALL"
    case WINTER => "WINTER"
  }

  /** Semester.valueOf: the constant whose identifier is exactly `name`, or
      IllegalArgumentException. */
  function ValueOf(name: string): (r: Result<Semester>)
    ensures r.Ok? ==> Name(r.value) == name
    ensures r.Err? ==> r.error == IllegalArgument && forall s :: Name(s) != name
  {
    if name == "SPRING" then Ok(SPRING)
    else if name == "SUMMER" then Ok(SUMMER)
    else if name == "FALL" then Ok(FALL)
    else if name == "WINTER" then Ok(WINTER)
    else Err(IllegalArgument)
  }

  /** The order numbers are distinct and follow the declaration order. */
  lemma OrderInjective(s: Semester, t: Semester)
    ensures Order(s) == Order(t) ==> s == t
  {
  }

  lemma OrderFollowsDeclaration()
    ensures Order(SPRING) < Order(SUMMER) < Order(FALL) < Order(WINTER)
  {
  }

  /** valueOf reads back the identifier of every constant. */
  lemma ValueOfName(s: Semester)
    ensures ValueOf(Name(s)) == Ok(s)
  {
  }

  lemma ToStringExample()
    ensures ToString(FALL) == "Fall Semester"
  {
  }
}
