/** The order of course codes: String.compareTo on the code strings. The course
    table of a transcript lists the graded courses in this order, and the sums of
    Student (credits, grade points) are taken along it, so that they are computed
    by functions rather than by a loop over a hash map. */
module CodeOrder {
  import opened JavaString
  import opened Sums
  import opened CourseCodes

  /** The course table lists the graded courses in increasing compareTo order of
      their code strings; codes are distinct, so the order is strict. */
  predicate SortedByCode(s: seq<Code>)
  {
    forall i, j :: 0 <= i < j < |s| ==> CompareTo(s[i].code, s[j].code) < 0
  }

  /** `k` is the first of `keys` in compareTo order of the code strings. */
  predicate IsLeast(k: Code, keys: set<Code>)
  {
    k in keys && forall j :: j in keys ==> CompareTo(k.code, j.code) <= 0
  }

  lemma CompareToAtMostTransitive(a: string, b: string, c: string)
    requires CompareTo(a, b) <= 0 && CompareTo(b, c) <= 0
    ensures CompareTo(a, c) <= 0
  {
    CompareToZero(a, b);
    CompareToZero(b, c);
    if CompareTo(a, b) < 0 && CompareTo(b, c) < 0 {
      CompareToTransitive(a, b, c);
    }
  }

  /** Every non-empty set of codes has a first one. */
  lemma {:induction false} LeastExists(keys: set<Code>)
    requires keys != {}
    ensures exists k :: IsLeast(k, keys)
    decreases |keys|
  {
    var j :| j in keys;
    CompareToZero(j.code, j.code);
    if keys == {j} {
      assert IsLeast(j, keys);
    } else {
      var others := keys - {j};
      LeastExists(others);
      var m :| IsLeast(m, others);
      if CompareTo(j.code, m.code) <= 0 {
        forall x | x in keys
          ensures CompareTo(j.code, x.code) <= 0
        {
          if x != j {
            CompareToAtMostTransitive(j.code, m.code, x.code);
          }
        }
        assert IsLeast(j, keys);
      } else {
        CompareToAntisymmetric(j.code, m.code);
        assert IsLeast(m, keys);
      }
    }
  }

  /** ... and only one. */
  lemma LeastUnique(keys: set<Code>)
    ensures forall a, b :: IsLeast(a, keys) && IsLeast(b, keys) ==> a == b
  {
    forall a, b | IsLeast(a, keys) && IsLeast(b, keys)
      ensures a == b
    {
      CompareToAntisymmetric(a.code, b.code);
      CompareToZero(a.code, b.code);
    }
  }

  /** The graded codes in table order: the first code, then the others in table
      order. */
  function CodesInOrder(keys: set<Code>): (r: seq<Code>)
    ensures SortedByCode(r) && |r| == |keys|
    ensures forall x :: x in r <==> x in keys
    decreases |keys|
  {
    if keys == {} then []
    else
      LeastExists(keys);
      LeastUnique(keys);
      var k :| k in keys && IsLeast(k, keys);
      var rest := CodesInOrder(keys - {k});
      forall x | x in rest
        ensures CompareTo(k.code, x.code) < 0
      {
        CompareToZero(k.code, x.code);
      }
      SortedCons(k, rest);
      [k] + rest
  }

  lemma SortedCons(k: Code, s: seq<Code>)
    requires SortedByCode(s) && forall x :: x in s ==> CompareTo(k.code, x.code) < 0
    ensures SortedByCode([k] + s)
  {
    forall i, j | 0 <= i < j < |[k] + s|
      ensures CompareTo(([k] + s)[i].code, ([k] + s)[j].code) < 0
    {
      if i == 0 {
        assert ([k] + s)[j] == s[j - 1];
        assert s[j - 1] in s;
      }
    }
  }

  /** The first element of a strictly sorted sequence precedes every other one. */
  lemma SortedHeadIsLeast(a: seq<Code>, x: Code)
    requires SortedByCode(a) && a != [] && x in a && x != a[0]
    ensures CompareTo(a[0].code, x.code) < 0
  {
    var i :| 0 <= i < |a| && a[i] == x;
  }

  /** The tail of a strictly sorted sequence holds every element but the first. */
  lemma SortedTail(a: seq<Code>)
    requires SortedByCode(a) && a != []
    ensures SortedByCode(a[1..])
    ensures forall x :: x in a[1..] <==> x in a && x != a[0]
  {
    if a[0] in a[1..] {
      var i :| 1 <= i < |a| && a[i] == a[0];
      CompareToZero(a[0].code, a[0].code);
    }
    assert a == [a[0]] + a[1..];
  }

  lemma SameHeads(a: seq<Code>, b: seq<Code>)
    requires SortedByCode(a) && SortedByCode(b) && a != [] && b != []
    requires forall x :: x in a <==> x in b
    ensures a[0] == b[0]
  {
    if a[0] != b[0] {
      assert b[0] in b && a[0] in a;
      SortedHeadIsLeast(a, b[0]);
      SortedHeadIsLeast(b, a[0]);
      CompareToAntisymmetric(a[0].code, b[0].code);
    }
  }

  lemma EmptyTogether(a: seq<Code>, b: seq<Code>)
    requires forall x :: x in a <==> x in b
    ensures a == [] <==> b == []
  {
    if a != [] {
      assert a[0] in b;
    }
    if b != [] {
      assert b[0] in a;
    }
  }

  /** A strictly sorted sequence is determined by its elements. */
  lemma {:induction false} SortedByCodeUnique(a: seq<Code>, b: seq<Code>)
    requires SortedByCode(a) && SortedByCode(b)
    requires forall x :: x in a <==> x in b
    ensures a == b
  {
    EmptyTogether(a, b);
    if a != [] {
      SameHeads(a, b);
      SortedTail(a);
      SortedTail(b);
      SortedByCodeUnique(a[1..], b[1..]);
      assert a == [a[0]] + a[1..] && b == [b[0]] + b[1..];
    }
  }

  // ---------------------------------------------------------------- sums in code order

  /** Adds up the values of `m` at `codes`, taking each key out once it is used. */
  function SumAlong(codes: seq<Code>, m: map<Code, int>): int
  {
    if codes == [] then 0
    else (if codes[0] in m then m[codes[0]] else 0) + SumAlong(codes[1..], m - {codes[0]})
  }

  /** Along a strictly sorted listing of its keys, this is the sum of the map. */
  lemma {:induction false} SumAlongIsSum(codes: seq<Code>, m: map<Code, int>)
    requires SortedByCode(codes) && forall x :: x in codes <==> x in m
    ensures SumAlong(codes, m) == SumValues(m)
    decreases |codes|
  {
    if codes == [] {
      assert m.Keys == {};
    } else {
      var k := codes[0];
      var rest := m - {k};
      assert k in m;
      SumValuesRemove(m, k);
      SortedTail(codes);
      forall x
        ensures x in codes[1..] <==> x in rest
      {
      }
      SumAlongIsSum(codes[1..], rest);
      assert SumAlong(codes, m) == m[k] + SumAlong(codes[1..], rest);
    }
  }

  /** The sum of the values of a map keyed by course code, taken in code order. */
  function SumByCode(m: map<Code, int>): (s: int)
    ensures s == SumValues(m)
  {
    SumAlongIsSum(CodesInOrder(m.Keys), m);
    SumAlong(CodesInOrder(m.Keys), m)
  }
}
