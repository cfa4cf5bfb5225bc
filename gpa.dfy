/** The grade point average as Student.calculateGPA computes it: the plain sum of
    the grade points of the graded courses divided by the sum of their credits.
    The credits are summed in Java `int` arithmetic (IntStream.sum) and so wrap
    around; the points are summed as doubles, which is exact for these sizes. */
module GradePointAverage {
  import opened JavaInt
  import opened Grades
  import opened Sums
  import CourseCodes
  import opened CodeOrder

  /** One graded course as the GPA sees it: its grade and its current credits. */
  datatype GradedCourse = GradedCourse(grade: Grade, credits: int)

  function PointsOf<K>(t: map<K, GradedCourse>): (m: map<K, int>)
    ensures m.Keys == t.Keys && forall k :: k in m ==> 0 <= m[k] <= 10
  {
    map k | k in t :: Points(t[k].grade)
  }

  function CreditsOf<K>(t: map<K, GradedCourse>): (m: map<K, int>)
    ensures m.Keys == t.Keys && forall k :: k in m ==> m[k] == t[k].credits
  {
    map k | k in t :: t[k].credits
  }

  /** calculateGPA: 0 without grades, and 0 when the wrapped credit sum is not positive. */
  ghost function Gpa<K>(t: map<K, GradedCourse>): real
  {
    if |t| == 0 then 0.0
    else
      var credits := Wrap32(SumValues(CreditsOf(t)));
      if credits > 0 then SumValues(PointsOf(t)) as real / credits as real else 0.0
  }

  /** The two stream sums of calculateGPA, then the division. The sums are taken
      in code order; any order gives the same integers. */
  function ComputeGpa(t: map<CourseCodes.Code, GradedCourse>): (gpa: real)
    ensures gpa == Gpa(t)
  {
    if |t| == 0 then 0.0
    else
      var credits := Wrap32(SumByCode(CreditsOf(t)));
      if credits > 0 then SumByCode(PointsOf(t)) as real / credits as real else 0.0
  }

  /** With credits between 1 and INT_MAX and a credit sum that fits an `int`, the
      GPA lies in [0, 10]: each course adds at most 10 points and at least 1 credit. */
  lemma GpaRange<K>(t: map<K, GradedCourse>)
    requires forall k :: k in t ==> 1 <= t[k].credits <= INT_MAX
    requires SumValues(CreditsOf(t)) <= INT_MAX
    ensures 0.0 <= Gpa(t) <= 10.0
  {
    if |t| > 0 {
      var p := SumValues(PointsOf(t));
      var c := SumValues(CreditsOf(t));
      SumValuesBounds(PointsOf(t), 0, 10);
      SumValuesBounds(CreditsOf(t), 1, INT_MAX);
      assert |PointsOf(t)| == |t| == |CreditsOf(t)|;
      assert 0 <= p <= 10 * c;
      assert Wrap32(c) == c;
      QuotientBounds(p as real, c as real);
    }
  }

  lemma QuotientBounds(p: real, c: real)
    requires c > 0.0 && 0.0 <= p <= 10.0 * c
    ensures 0.0 <= p / c <= 10.0
  {
    var q := p / c;
    assert q * c == p;
    assert (10.0 - q) * c >= 0.0;
    assert q * c >= 0.0;
  }

  /** The GPA with the credits summed exactly (as a `long` sum would for any
      realistic table): the mean calculateGPA evidently intends. While the credit
      sum fits an `int` it is what calculateGPA computes. */
  ghost function GpaExact<K>(t: map<K, GradedCourse>): (gpa: real)
    ensures INT_MIN <= SumValues(CreditsOf(t)) <= INT_MAX ==> gpa == Gpa(t)
  {
    var credits := SumValues(CreditsOf(t));
    if |t| > 0 && credits > 0 then SumValues(PointsOf(t)) as real / credits as real else 0.0
  }

  /** With every credit count positive the exact GPA lies in [0, 10], however
      large the credit sum. */
  lemma GpaExactRange<K>(t: map<K, GradedCourse>)
    requires forall k :: k in t ==> 1 <= t[k].credits
    ensures 0.0 <= GpaExact(t) <= 10.0
  {
    var p := SumValues(PointsOf(t));
    var c := SumValues(CreditsOf(t));
    SumValuesBounds(PointsOf(t), 0, 10);
    SumValuesAtLeast(CreditsOf(t), 1);
    assert |PointsOf(t)| == |t| == |CreditsOf(t)|;
    if |t| > 0 {
      assert 0 <= p <= 10 * |t| <= 10 * c;
      QuotientBounds(p as real, c as real);
    }
  }

  /** The GPA is not weighted by credits: an A (9 points) in a 3-credit course and a
      B (8 points) in a 4-credit course give 17/7, where the credit-weighted mean
      would be 59/7. */
  lemma GpaNotCreditWeighted<K>(k1: K, k2: K)
    requires k1 != k2
    ensures Gpa(map[k1 := GradedCourse(A, 3), k2 := GradedCourse(B, 4)]) == 17.0 / 7.0
    ensures Gpa(map[k1 := GradedCourse(A, 3), k2 := GradedCourse(B, 4)]) != 59.0 / 7.0
  {
    var t := map[k1 := GradedCourse(A, 3), k2 := GradedCourse(B, 4)];
    TwoValues(PointsOf(t), k1, k2);
    TwoValues(CreditsOf(t), k1, k2);
  }

  lemma TwoValues<K>(m: map<K, int>, k1: K, k2: K)
    requires k1 != k2 && m.Keys == {k1, k2}
    ensures SumValues(m) == m[k1] + m[k2]
  {
    SumValuesRemove(m, k1);
    var rest := m - {k1};
    assert rest.Keys == {k2};
    SumValuesRemove(rest, k2);
    assert rest - {k2} == map[];
  }

  /** Without the bound on the credit sum the range fails: three S grades whose
      credits add up to 2^32 + 1 wrap to a credit sum of 1 and a GPA of 30. */
  lemma GpaOverflow<K>(k1: K, k2: K, k3: K)
    requires k1 != k2 && k2 != k3 && k1 != k3
    ensures Gpa(map[k1 := GradedCourse(S, INT_MAX), k2 := GradedCourse(S, INT_MAX),
                    k3 := GradedCourse(S, 3)]) == 30.0
  {
    var t := map[k1 := GradedCourse(S, INT_MAX), k2 := GradedCourse(S, INT_MAX),
                 k3 := GradedCourse(S, 3)];
    ThreeValues(PointsOf(t), k1, k2, k3);
    ThreeValues(CreditsOf(t), k1, k2, k3);
    assert SumValues(CreditsOf(t)) == 0x1_0000_0001;
    Wrap32Of2To32Plus1();
  }

  lemma Wrap32Of2To32Plus1()
    ensures Wrap32(0x1_0000_0001) == 1
  {
    ModShift32(1 - INT_MIN, 1);
  }

  lemma ThreeValues<K>(m: map<K, int>, k1: K, k2: K, k3: K)
    requires k1 != k2 && k2 != k3 && k1 != k3 && m.Keys == {k1, k2, k3}
    ensures SumValues(m) == m[k1] + m[k2] + m[k3]
  {
    SumValuesRemove(m, k1);
    var rest := m - {k1};
    assert rest.Keys == {k2, k3};
    TwoValues(rest, k2, k3);
  }
}
