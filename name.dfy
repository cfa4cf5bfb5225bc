/** Name: an immutable first/last name pair, both parts trimmed and non-empty. */
module Names {
  import opened Wrappers
  import opened JavaInt
  import opened JavaString

  /** The full name is derived from the two parts (see FullName), so equality of
      Names is equality of the two trimmed parts, as `equals` has it. */
  datatype Name = Name(first: string, last: string)

  /** What every constructed Name satisfies. */
  predicate Valid(n: Name)
  {
    n.first != [] && n.last != [] && IsTrimmed(n.first) && IsTrimmed(n.last)
  }

  /** The constructor: requireNonNull on the first part, then on the last part, then
      trim both and reject an empty one. */
  function New(first: Option<string>, last: Option<string>): (r: Result<Name>)
    ensures (first.None? || last.None?) <==> r == Err(NullPointer)
    ensures first.Some? && last.Some? ==>
      (r.Ok? <==> Trim(first.value) != [] && Trim(last.value) != [])
    ensures r.Err? && first.Some? && last.Some? ==> r.error == IllegalArgument
    ensures r.Ok? ==>
      (Valid(r.value) && r.value.first == Trim(first.value) && r.value.last == Trim(last.value))
  {
    if first.None? || last.None? then Err(NullPointer)
    else
      var f := Trim(first.value);
      var l := Trim(last.value);
      if f == [] || l == [] then Err(IllegalArgument) else Ok(Name(f, l))
  }

  /** getFullName and toString: the two parts with one space between them. */
  function FullName(n: Name): string
  {
    n.first + " " + n.last
  }

  function ToString(n: Name): string
  {
    FullName(n)
  }

  /** Objects.hash(firstName, lastName). */
  function HashCode(n: Name): Int32
  {
    ObjectsHash([StringHash(n.first), StringHash(n.last)])
  }

  /** equals compares both parts; hashCode agrees with it. */
  predicate Equals(n: Name, m: Name): (r: bool)
    ensures r <==> n.first == m.first && n.last == m.last
    ensures r ==> HashCode(n) == HashCode(m) && FullName(n) == FullName(m)
  {
    n == m
  }

  /** A valid name's full name is trimmed and is exactly one character longer than
      its two parts together; the first part is a prefix and the last a suffix. */
  lemma FullNameShape(n: Name)
    requires Valid(n)
    ensures IsTrimmed(FullName(n))
    ensures |FullName(n)| == |n.first| + 1 + |n.last|
    ensures FullName(n)[..|n.first|] == n.first && FullName(n)[|n.first| + 1..] == n.last
  {
    var s := FullName(n);
    assert s[0] == n.first[0];
    assert s[|s| - 1] == n.last[|n.last| - 1];
    assert s[..|n.first|] == n.first;
  }

  /** When the first part has no space, cutting the full name at its first space
      gives the two parts back. */
  lemma SplitFullName(n: Name)
    requires Valid(n) && ' ' !in n.first
    ensures SplitFirst(FullName(n), ' ') == [n.first, n.last]
  {
    var s := FullName(n);
    IndexOfAfterPrefix(n.first, ' ', n.last);
    assert s[..|n.first|] == n.first;
    assert s[|n.first| + 1..] == n.last;
  }

  /** Names are re-created unchanged from their own parts. */
  lemma NewOfParts(n: Name)
    requires Valid(n)
    ensures New(Some(n.first), Some(n.last)) == Ok(n)
  {
    var a, b := n.first, n.last;
    TrimOfTrimmed(a);
    TrimOfTrimmed(b);
    assert New(Some(a), Some(b)).Ok?;
  }

  /** Equal full names do not make equal Names: the split point is lost. */
  lemma FullNameNotInjective()
    ensures New(Some("Mary Ann"), Some("Smith")).Ok?
    ensures New(Some("Mary"), Some("Ann Smith")).Ok?
    ensures FullName(Name("Mary Ann", "Smith")) == FullName(Name("Mary", "Ann Smith"))
    ensures !Equals(Name("Mary Ann", "Smith"), Name("Mary", "Ann Smith"))
  {
    NewOfParts(Name("Mary Ann", "Smith"));
    NewOfParts(Name("Mary", "Ann Smith"));
    SameFullName();
  }

  lemma SameFullName()
    ensures "Mary Ann" + " " + "Smith" == "Mary" + " " + "Ann Smith"
  {
    assert "Mary Ann" + " " + "Smith" == "Mary Ann Smith";
    assert "Mary" + " " + "Ann Smith" == "Mary Ann Smith";
  }

  /** Blanks around either part do not matter: the same Name or the same exception. */
  lemma NewIgnoresSurroundingSpace(first: string, last: string, w1: string, w2: string, w3: string, w4: string)
    requires AllTrimmable(w1) && AllTrimmable(w2) && AllTrimmable(w3) && AllTrimmable(w4)
    ensures New(Some(w1 + first + w2), Some(w3 + last + w4)) == New(Some(first), Some(last))
  {
    TrimIgnoresSurroundingSpace(w1, first, w2);
    TrimIgnoresSurroundingSpace(w3, last, w4);
  }
}
