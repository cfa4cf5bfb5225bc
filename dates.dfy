/** LocalDate values as the domain uses them: taken from the clock (outside this
    model), compared with compareTo and printed in ISO_LOCAL_DATE form. */
module Dates {
  import opened JavaString

  datatype Date = Date(year: int, month: int, day: int)

  predicate Valid(d: Date)
  {
    1 <= d.month <= 12 && 1 <= d.day <= 31
  }

  /** LocalDate.compareTo: the difference of the first field that differs. */
  function CompareTo(a: Date, b: Date): int
  {
    if a.year != b.year then a.year - b.year
    else if a.month != b.month then a.month - b.month
    else a.day - b.day
  }

  /** Zero exactly for equal dates, and swapping the arguments negates the result. */
  lemma CompareToProperties(a: Date, b: Date)
    ensures CompareTo(a, b) == 0 <==> a == b
    ensures CompareTo(a, b) == -CompareTo(b, a)
  {
  }

  lemma CompareToTransitive(a: Date, b: Date, c: Date)
    requires CompareTo(a, b) < 0 && CompareTo(b, c) < 0
    ensures CompareTo(a, c) < 0
  {
  }

  /** A number printed with at least `width` digits, zero-padded on the left. */
  function ZeroPad(n: nat, width: nat): (r: string)
    ensures |r| >= width && forall i :: 0 <= i < |r| ==> IsDigit(r[i])
    ensures DigitsValue(r) == n
  {
    var s := NatToString(n);
    DigitsOfNat(n);
    if |s| >= width then s
    else
      LeadingZeros(width - |s|, s);
      Repeat('0', width - |s|) + s
  }

  lemma {:induction false} LeadingZeros(k: nat, s: string)
    requires forall i :: 0 <= i < |s| ==> IsDigit(s[i])
    ensures DigitsValue(Repeat('0', k) + s) == DigitsValue(s)
    decreases |s| + k
  {
    var z := Repeat('0', k);
    if s == [] {
      assert z + s == z;
      if k > 0 {
        assert z[..k - 1] == Repeat('0', k - 1) + [];
        LeadingZeros(k - 1, []);
      }
    } else {
      var t := z + s;
      assert t[..|t| - 1] == z + s[..|s| - 1];
      LeadingZeros(k, s[..|s| - 1]);
    }
  }

  /** ISO_LOCAL_DATE text: a year of four digits or more (signed outside 0..9999),
      then a two-digit month and a two-digit day, separated by '-'. */
  function IsoText(d: Date): string
    requires Valid(d)
  {
    var y :=
      if 0 <= d.year <= 9999 then ZeroPad(d.year, 4)
      else if d.year > 9999 then "+" + NatToString(d.year)
      else "-" + ZeroPad(-d.year, 4);
    y + "-" + ZeroPad(d.month, 2) + "-" + ZeroPad(d.day, 2)
  }

  /** For years 0..9999 the text is ten characters and its three fields read back
      as the year, month and day, so distinct dates print differently. */
  lemma IsoTextFields(d: Date)
    requires Valid(d) && 0 <= d.year <= 9999
    ensures var t := IsoText(d);
      |t| == 10 && t[4] == '-' && t[7] == '-'
      && (forall i :: 0 <= i < 4 ==> IsDigit(t[i])) && DigitsValue(t[..4]) == d.year
      && (forall i :: 5 <= i < 7 ==> IsDigit(t[i])) && DigitsValue(t[5..7]) == d.month
      && (forall i :: 8 <= i < 10 ==> IsDigit(t[i])) && DigitsValue(t[8..]) == d.day
  {
    var y, m, dd := ZeroPad(d.year, 4), ZeroPad(d.month, 2), ZeroPad(d.day, 2);
    assert |NatToString(d.year)| <= 4 by { NatToStringLength(d.year, 4); }
    assert |NatToString(d.month)| <= 2 by { NatToStringLength(d.month, 2); }
    assert |NatToString(d.day)| <= 2 by { NatToStringLength(d.day, 2); }
    assert IsoText(d) == y + "-" + m + "-" + dd;
    DatePieces(y, m, dd);
  }

  /** Where the three fields sit once they are joined with '-'. */
  lemma DatePieces(y: string, m: string, dd: string)
    requires |y| == 4 && |m| == 2 && |dd| == 2
    ensures var t := y + "-" + m + "-" + dd;
      |t| == 10 && t[4] == '-' && t[7] == '-' && t[..4] == y && t[5..7] == m && t[8..] == dd
  {
    var t := y + "-" + m + "-" + dd;
    assert t[..4] == y;
    assert t[5..7] == m;
    assert t[8..] == dd;
  }

  lemma {:induction false} NatToStringLength(n: nat, k: nat)
    requires k >= 1 && n < Pow10(k)
    ensures |NatToString(n)| <= k
  {
    if n >= 10 {
      NatToStringLength(n / 10, k - 1);
    }
  }

  function Pow10(k: nat): nat
  {
    if k == 0 then 1 else 10 * Pow10(k - 1)
  }

  lemma IsoTextInjective(a: Date, b: Date)
    requires Valid(a) && Valid(b) && 0 <= a.year <= 9999 && 0 <= b.year <= 9999
    requires IsoText(a) == IsoText(b)
    ensures a == b
  {
    IsoTextFields(a);
    IsoTextFields(b);
  }
}
