/** The two reports TranscriptServiceImpl computes over all students, on the list
    of their GPAs: getGPADistribution (groupingBy a band, averagingDouble) and
    getTopStudents (filter graded, sort by GPA descending, limit). */
module GpaReports {
  import opened Wrappers
  import opened Sums

  // ---------------------------------------------------------------- bands

  /** The five groups of getGPADistribution. */
  datatype Band = Excellent | VeryGood | Good | Average | BelowAverage

  const AllBands: set<Band> := {Excellent, VeryGood, Good, Average, BelowAverage}

  lemma AllBandsComplete(b: Band)
    ensures b in AllBands
  {
  }

  /** The key under which a group is reported. */
  function Label(b: Band): string
  {
    match b
    case Excellent => "Excellent (9.0+)"
    case VeryGood => "Very Good (8.0-8.9)"
    case Good => "Good (7.0-7.9)"
    case Average => "Average (6.0-6.9)"
    case BelowAverage => "Below Average (<6.0)"
  }

  /** The labels are distinct, so the report has one key per group. */
  lemma LabelInjective()
    ensures forall b, c :: Label(b) == Label(c) ==> b == c
  {
    forall b, c | b != c
      ensures Label(b) != Label(c)
    {
      assert |Label(b)| != |Label(c)|;
    }
  }

  /** The GPAs a band stands for. */
  predicate InBand(b: Band, gpa: real)
  {
    match b
    case Excellent => 9.0 <= gpa
    case VeryGood => 8.0 <= gpa < 9.0
    case Good => 7.0 <= gpa < 8.0
    case Average => 6.0 <= gpa < 7.0
    case BelowAverage => gpa < 6.0
  }

  /** The classifier: the first threshold the GPA reaches, from the top. It picks
      the one band whose interval holds the GPA. */
  function BandOf(gpa: real): (b: Band)
    ensures InBand(b, gpa)
    ensures forall c :: InBand(c, gpa) ==> c == b
  {
    if gpa >= 9.0 then Excellent
    else if gpa >= 8.0 then VeryGood
    else if gpa >= 7.0 then Good
    else if gpa >= 6.0 then Average
    else BelowAverage
  }

  // ---------------------------------------------------------------- distribution

  /** The GPAs of the list that fall in band `b`, in list order. */
  function Members(gpas: seq<real>, b: Band): (r: seq<real>)
    ensures forall i :: 0 <= i < |r| ==> BandOf(r[i]) == b
    decreases |gpas|
  {
    if gpas == [] then []
    else
      var init, last := gpas[..|gpas| - 1], gpas[|gpas| - 1];
      Members(init, b) + (if BandOf(last) == b then [last] else [])
  }

  /** A band has members exactly when some GPA of the list falls in it. */
  lemma {:induction false} MembersEmpty(gpas: seq<real>, b: Band)
    ensures Members(gpas, b) == [] <==> forall i :: 0 <= i < |gpas| ==> BandOf(gpas[i]) != b
    decreases |gpas|
  {
    if gpas != [] {
      var init := gpas[..|gpas| - 1];
      MembersEmpty(init, b);
      assert forall i :: 0 <= i < |init| ==> init[i] == gpas[i];
    }
  }

  /** Each GPA of the band occurs among the members as often as in the list, and
      no other value occurs. */
  lemma {:induction false} MembersMultiset(gpas: seq<real>, b: Band)
    ensures forall x :: multiset(Members(gpas, b))[x] == if BandOf(x) == b then multiset(gpas)[x] else 0
    decreases |gpas|
  {
    if gpas != [] {
      var init, last := gpas[..|gpas| - 1], gpas[|gpas| - 1];
      assert gpas == init + [last];
      MembersMultiset(init, b);
    }
  }

  /** averagingDouble, on exact reals. */
  function Mean(xs: seq<real>): real
    requires xs != []
  {
    SumSeq(xs) / |xs| as real
  }

  /** getGPADistribution on the list of GPAs: a key for each band that some GPA
      falls in, mapped to the mean of the GPAs in that band. */
  function Distribution(gpas: seq<real>): (d: map<string, real>)
    ensures forall b :: Label(b) in d <==> Members(gpas, b) != []
    ensures forall b :: Label(b) in d ==> d[Label(b)] == Mean(Members(gpas, b))
    ensures forall l :: l in d ==> exists b :: b in AllBands && l == Label(b)
  {
    LabelInjective();
    forall b ensures b in AllBands { AllBandsComplete(b); }
    map b | b in AllBands && Members(gpas, b) != [] :: Label(b) := Mean(Members(gpas, b))
  }

  /** The average of a group lies in the group's own band. */
  lemma DistributionMeansInBand(gpas: seq<real>, b: Band)
    requires Label(b) in Distribution(gpas)
    ensures InBand(b, Distribution(gpas)[Label(b)])
  {
    MeanInBand(Members(gpas, b), b);
  }

  lemma MeanInBand(xs: seq<real>, b: Band)
    requires xs != [] && forall i :: 0 <= i < |xs| ==> BandOf(xs[i]) == b
    ensures InBand(b, Mean(xs))
  {
    var n := |xs| as real;
    match b
    case Excellent =>
      SumSeqAtLeast(xs, 9.0);
      DivideAtLeast(SumSeq(xs), n, 9.0);
    case BelowAverage =>
      SumSeqBelow(xs, 6.0);
      DivideBelow(SumSeq(xs), n, 6.0);
    case _ =>
      var lo := if b == VeryGood then 8.0 else if b == Good then 7.0 else 6.0;
      SumSeqAtLeast(xs, lo);
      SumSeqBelow(xs, lo + 1.0);
      DivideAtLeast(SumSeq(xs), n, lo);
      DivideBelow(SumSeq(xs), n, lo + 1.0);
  }

  lemma DivideAtLeast(s: real, n: real, lo: real)
    requires n > 0.0 && lo * n <= s
    ensures lo <= s / n
  {
    var q := s / n;
    assert q * n == s;
    assert (q - lo) * n >= 0.0;
  }

  lemma DivideBelow(s: real, n: real, hi: real)
    requires n > 0.0 && s < hi * n
    ensures s / n < hi
  {
    var q := s / n;
    assert q * n == s;
    assert (hi - q) * n > 0.0;
  }

  /** groupingBy on a HashMap's values visits them in no fixed order; the report
      does not depend on it: lists that are permutations of each other give the
      same distribution. */
  lemma DistributionPermutation(a: seq<real>, b: seq<real>)
    requires multiset(a) == multiset(b)
    ensures Distribution(a) == Distribution(b)
  {
    var da, db := Distribution(a), Distribution(b);
    forall c
      ensures Label(c) in da <==> Label(c) in db
      ensures Label(c) in da ==> da[Label(c)] == db[Label(c)]
    {
      MembersPermutation(a, b, c);
    }
    forall l | l in da || l in db
      ensures l in da && l in db && da[l] == db[l]
    {
      var c :| c in AllBands && l == Label(c);
    }
  }

  /** Permuted lists put the same GPAs in each band, hence the same mean. */
  lemma MembersPermutation(a: seq<real>, b: seq<real>, c: Band)
    requires multiset(a) == multiset(b)
    ensures Members(a, c) == [] <==> Members(b, c) == []
    ensures Members(a, c) != [] ==> Mean(Members(a, c)) == Mean(Members(b, c))
  {
    var ma, mb := Members(a, c), Members(b, c);
    MembersMultiset(a, c);
    MembersMultiset(b, c);
    assert multiset(ma) == multiset(mb);
    assert |ma| == |multiset(ma)| == |multiset(mb)| == |mb|;
    SumSeqPermutation(ma, mb);
  }

  // ---------------------------------------------------------------- top students

  /** A student as getTopStudents sees it: the GPA and whether any grade is recorded. */
  datatype Ranked<T> = Ranked(item: T, gpa: real, graded: bool)

  predicate DescendingByGpa<T>(xs: seq<Ranked<T>>)
  {
    forall i, j :: 0 <= i < j < |xs| ==> xs[i].gpa >= xs[j].gpa
  }

  /** Inserts `x` after every element whose GPA is at least its own, so that among
      equal GPAs the earlier element stays first. */
  function Insert<T>(x: Ranked<T>, xs: seq<Ranked<T>>): (r: seq<Ranked<T>>)
    requires DescendingByGpa(xs)
    ensures DescendingByGpa(r)
    ensures multiset(r) == multiset(xs) + multiset{x}
    ensures |r| == |xs| + 1
    ensures r != [] && (r[0] == x || (xs != [] && r[0] == xs[0]))
  {
    if xs == [] then [x]
    else if xs[0].gpa >= x.gpa then
      var rest := Insert(x, xs[1..]);
      assert xs == [xs[0]] + xs[1..];
      InsertHead(xs[0], rest, x, xs[1..]);
      [xs[0]] + rest
    else [x] + xs
  }

  lemma InsertHead<T>(h: Ranked<T>, rest: seq<Ranked<T>>, x: Ranked<T>, tail: seq<Ranked<T>>)
    requires DescendingByGpa(rest) && rest != [] && (rest[0] == x || (tail != [] && rest[0] == tail[0]))
    requires h.gpa >= x.gpa && (tail != [] ==> h.gpa >= tail[0].gpa)
    ensures DescendingByGpa([h] + rest)
  {
    forall i, j | 0 <= i < j < |[h] + rest|
      ensures ([h] + rest)[i].gpa >= ([h] + rest)[j].gpa
    {
      if i == 0 {
        assert ([h] + rest)[j] == rest[j - 1];
      } else {
        assert ([h] + rest)[i] == rest[i - 1] && ([h] + rest)[j] == rest[j - 1];
      }
    }
  }

  /** List.sort with the GPA comparator reversed: a stable insertion sort. */
  function SortByGpa<T>(xs: seq<Ranked<T>>): (r: seq<Ranked<T>>)
    ensures DescendingByGpa(r) && multiset(r) == multiset(xs) && |r| == |xs|
    decreases |xs|
  {
    if xs == [] then []
    else
      var init, last := xs[..|xs| - 1], xs[|xs| - 1];
      assert xs == init + [last];
      Insert(last, SortByGpa(init))
  }

  predicate AllGraded<T>(xs: seq<Ranked<T>>)
  {
    forall i :: 0 <= i < |xs| ==> xs[i].graded
  }

  /** The filter `!student.getGrades().isEmpty()`. */
  function Graded<T>(xs: seq<Ranked<T>>): (r: seq<Ranked<T>>)
    ensures AllGraded(r)
    ensures multiset(r) <= multiset(xs)
    ensures forall i :: 0 <= i < |xs| && xs[i].graded ==> multiset(r)[xs[i]] == multiset(xs)[xs[i]]
    decreases |xs|
  {
    if xs == [] then []
    else
      var init, last := xs[..|xs| - 1], xs[|xs| - 1];
      assert xs == init + [last];
      Graded(init) + (if last.graded then [last] else [])
  }

  /** Whatever is drawn from graded students is graded. */
  lemma SubMultisetGraded<T>(a: seq<Ranked<T>>, b: seq<Ranked<T>>)
    requires AllGraded(a) && multiset(b) <= multiset(a)
    ensures AllGraded(b)
  {
    forall i | 0 <= i < |b|
      ensures b[i].graded
    {
      assert b[i] in multiset(b);
      assert b[i] in a;
      var j :| 0 <= j < |a| && a[j] == b[i];
    }
  }

  /** A prefix of a descending list is descending and drawn from it. */
  lemma PrefixOfDescending<T>(s: seq<Ranked<T>>, k: nat)
    requires DescendingByGpa(s) && k <= |s|
    ensures DescendingByGpa(s[..k]) && multiset(s[..k]) <= multiset(s)
  {
    assert s == s[..k] + s[k..];
  }

  /** In a descending list, what lies beyond the prefix ranks no higher than
      anything in it. */
  lemma BeyondPrefixRanksLower<T>(s: seq<Ranked<T>>, k: nat, x: Ranked<T>)
    requires DescendingByGpa(s) && k <= |s|
    requires x in multiset(s) - multiset(s[..k])
    ensures forall i :: 0 <= i < k ==> x.gpa <= s[i].gpa
  {
    assert s == s[..k] + s[k..];
    assert multiset(s) == multiset(s[..k]) + multiset(s[k..]);
    assert x in s[k..];
    var j :| 0 <= j < |s[k..]| && s[k..][j] == x;
    assert s[k + j] == x;
  }

  /** The students getTopStudents returns for a count that `limit` accepts. */
  function Top<T>(xs: seq<Ranked<T>>, count: nat): (r: seq<Ranked<T>>)
    ensures |r| == (if count < |Graded(xs)| then count else |Graded(xs)|)
    ensures DescendingByGpa(r) && AllGraded(r)
    ensures multiset(r) <= multiset(Graded(xs))
  {
    var sorted := SortByGpa(Graded(xs));
    var k := if count < |sorted| then count else |sorted|;
    PrefixOfDescending(sorted, k);
    SubMultisetGraded(Graded(xs), sorted[..k]);
    sorted[..k]
  }

  /** getTopStudents on the list: `limit` refuses a negative count; otherwise the
      first `count` graded students by descending GPA. */
  function TopOf<T>(xs: seq<Ranked<T>>, count: int): (r: Result<seq<Ranked<T>>>)
    ensures r.Err? <==> count < 0
    ensures r.Err? ==> r.error == IllegalArgument
    ensures r.Ok? ==> r.value == Top(xs, count)
  {
    if count < 0 then Err(IllegalArgument) else Ok(Top(xs, count))
  }

  /** Nobody left out ranks above anybody taken: every graded student that is not
      in the result has a GPA at most that of each student in it. */
  lemma TopIsTop<T>(xs: seq<Ranked<T>>, count: nat, x: Ranked<T>)
    requires x in multiset(Graded(xs)) - multiset(Top(xs, count))
    ensures forall i :: 0 <= i < |Top(xs, count)| ==> x.gpa <= Top(xs, count)[i].gpa
  {
    var sorted := SortByGpa(Graded(xs));
    var k := if count < |sorted| then count else |sorted|;
    assert Top(xs, count) == sorted[..k];
    BeyondPrefixRanksLower(sorted, k, x);
  }

  /** The GPAs of a ranked list. */
  function Gpas<T>(xs: seq<Ranked<T>>): (r: seq<real>)
    ensures |r| == |xs| && forall i :: 0 <= i < |xs| ==> r[i] == xs[i].gpa
  {
    seq(|xs|, i requires 0 <= i < |xs| => xs[i].gpa)
  }

  /** The students of a ranked list. */
  function Items<T>(xs: seq<Ranked<T>>): (r: seq<T>)
    ensures |r| == |xs| && forall i :: 0 <= i < |xs| ==> r[i] == xs[i].item
  {
    seq(|xs|, i requires 0 <= i < |xs| => xs[i].item)
  }
}
