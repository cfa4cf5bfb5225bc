/** The Grade enum: seven letters, each with a whole number of grade points and a description. */
module Grades {
  import opened JavaString

  datatype Grade = S | A | B | C | D | E | F

  /** Grade.values(): the constants in declaration order. */
  const Values: seq<Grade> := [S, A, B, C, D, E, F]

  /** The position of a constant in the declaration (Enum.ordinal). */
  function Ordinal(g: Grade): (i: nat)
    ensures i < |Values| && Values[i] == g
  {
    match g
    case S => 0
    case A => 1
    case B => 2
    case C => 3
    case D => 4
    case E => 5
    case F => 6
  }

  /** getGradePoints. The source stores a double; every value is a whole number. */
  function Points(g: Grade): (p: int)
    ensures 0 <= p <= 10
  {
    match g
    case S => 10
    case A => 9
    case B => 8
    case C => 7
    case D => 6
    case E => 5
    case F => 0
  }

  function Description(g: Grade): string
  {
    match g
    case S => "Outstanding !"
    case A => "Very Good !"
    case B => "Good !"
    case C => "Average"
    case D => "Below Average"
    case E => "Poor"
    case F => "Fail"
  }

  /** Enum.name(): the constant's identifier. */
  function Name(g: Grade): (n: string)
    ensures |n| == 1
  {
    match g
    case S => "S"
    case A => "A"
    case B => "B"
    case C => "C"
    case D => "D"
    case E => "E"
    case F => "F"
  }

  /** isPassing: at least five grade points, which every grade but F has. */
  predicate IsPassing(g: Grade): (r: bool)
    ensures r <==> g != F
  {
    Points(g) >= 5
  }

  /** The `%.1f` rendering of a grade's points: they are whole, so one zero decimal. */
  function PointsText(g: Grade): string
  {
    NatToString(Points(g)) + ".0"
  }

  /** toString: "<letter> (<points>) - <description>". */
  function ToString(g: Grade): (r: string)
    ensures Name(g) <= r
  {
    Name(g) + " (" + PointsText(g) + ") - " + Description(g)
  }

  /** Grade points strictly decrease along the declaration order. */
  lemma PointsDecrease(g: Grade, h: Grade)
    ensures Ordinal(g) < Ordinal(h) <==> Points(g) > Points(h)
  {
  }

  /** The letter determines the grade: name() is injective, so it can stand for the grade in text. */
  lemma NameInjective(g: Grade, h: Grade)
    ensures Name(g) == Name(h) ==> g == h
  {
  }

  lemma ToStringExample()
    ensures ToString(A) == "A (9.0) - Very Good !"
    ensures ToString(F) == "F (0.0) - Fail"
  {
  }
}
