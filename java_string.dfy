/** The java.lang.String operations the core relies on, on strings as `seq<char>`.
    Case mapping is ASCII only (Java's toUpperCase/toLowerCase follow the default
    locale); comparison and hashing are per Dafny character. */
module JavaString {
  import opened JavaInt
  import opened Wrappers

  // ---------------------------------------------------------------- length

  /** A character outside the Basic Multilingual Plane, which UTF-16 stores as a
      surrogate pair. */
  predicate IsSupplementary(c: char)
  {
    c > '\U{FFFF}'
  }

  /** String.length: the number of UTF-16 code units, two for each supplementary
      character. */
  function Utf16Length(s: string): (n: nat)
    ensures |s| <= n <= 2 * |s|
    ensures n == |s| <==> forall i :: 0 <= i < |s| ==> !IsSupplementary(s[i])
  {
    if s == [] then 0
    else
      var rest := Utf16Length(s[1..]);
      assert forall i :: 1 <= i < |s| ==> s[i] == s[1..][i - 1];
      (if IsSupplementary(s[0]) then 2 else 1) + rest
  }

  /** The length of a concatenation is the sum of the lengths. */
  lemma {:induction false} Utf16LengthAppend(a: string, b: string)
    ensures Utf16Length(a + b) == Utf16Length(a) + Utf16Length(b)
  {
    if a == [] {
      assert a + b == b;
    } else {
      assert (a + b)[1..] == a[1..] + b;
      Utf16LengthAppend(a[1..], b);
    }
  }

  // ---------------------------------------------------------------- trim

  /** String.trim removes leading and trailing characters whose code is at most U+0020. */
  predicate IsTrimmable(c: char)
  {
    c <= ' '
  }

  predicate AllTrimmable(s: string)
  {
    forall i :: 0 <= i < |s| ==> IsTrimmable(s[i])
  }

  /** Neither end of `s` is trimmable. */
  predicate IsTrimmed(s: string)
  {
    s == [] || (!IsTrimmable(s[0]) && !IsTrimmable(s[|s| - 1]))
  }

  function TrimLeading(s: string): (r: string)
    ensures |r| <= |s|
    ensures r == [] || !IsTrimmable(r[0])
  {
    if s != [] && IsTrimmable(s[0]) then TrimLeading(s[1..]) else s
  }

  function TrimTrailing(s: string): (r: string)
    ensures |r| <= |s|
    ensures r == [] || !IsTrimmable(r[|r| - 1])
  {
    if s != [] && IsTrimmable(s[|s| - 1]) then TrimTrailing(s[..|s| - 1]) else s
  }

  /** String.trim. */
  function Trim(s: string): (r: string)
    ensures IsTrimmed(r)
  {
    TrimTrailingKeepsStart(s);
    TrimTrailing(TrimLeading(s))
  }

  lemma {:induction false} TrimLeadingKeepsFirst(s: string)
    requires s != [] && !IsTrimmable(s[0])
    ensures TrimLeading(s) == s
  {
  }

  /** What trimming the front leaves is a suffix of the input. */
  lemma {:induction false} TrimLeadingSuffix(s: string)
    ensures TrimLeading(s) == s[|s| - |TrimLeading(s)|..]
  {
    if s != [] && IsTrimmable(s[0]) {
      TrimLeadingSuffix(s[1..]);
    }
  }

  /** What trimming the end leaves is a prefix of the input. */
  lemma {:induction false} TrimTrailingPrefix(s: string)
    ensures TrimTrailing(s) == s[..|TrimTrailing(s)|]
  {
    if s != [] && IsTrimmable(s[|s| - 1]) {
      TrimTrailingPrefix(s[..|s| - 1]);
    }
  }

  lemma {:induction false} TrimTrailingKeepsStart(s: string)
    requires TrimLeading(s) == [] || !IsTrimmable(TrimLeading(s)[0])
    ensures var r := TrimTrailing(TrimLeading(s)); r == [] || !IsTrimmable(r[0])
  {
    var u := TrimLeading(s);
    var r := TrimTrailing(u);
    if r != [] {
      TrimTrailingPrefix(u);
      assert r == u[..|r|];
      assert r[0] == u[0];
    }
  }

  /** `t` occurs in `s` starting at offset `i`. */
  predicate OccursAt(s: string, t: string, i: int)
  {
    0 <= i <= |s| - |t| && s[i..i + |t|] == t
  }

  /** The result of trim has no trimmable character at either end, and it is a
      contiguous piece of the input. */
  lemma TrimIsTrimmed(s: string)
    ensures IsTrimmed(Trim(s))
    ensures exists i :: OccursAt(s, Trim(s), i)
  {
    TrimOccurs(s);
  }

  lemma TrimOccurs(s: string)
    ensures OccursAt(s, Trim(s), |s| - |TrimLeading(s)|)
  {
    var u := TrimLeading(s);
    var r := TrimTrailing(u);
    TrimLeadingSuffix(s);
    TrimTrailingPrefix(u);
    PrefixOfSuffixOccurs(s, u, r);
    TrimTrailingKeepsStart(s);
    assert Trim(s) == r;
  }

  /** A prefix of a suffix of `s` occurs in `s` where the suffix starts. */
  lemma PrefixOfSuffixOccurs(s: string, u: string, r: string)
    requires |u| <= |s| && u == s[|s| - |u|..]
    requires |r| <= |u| && r == u[..|r|]
    ensures OccursAt(s, r, |s| - |u|)
  {
    var i := |s| - |u|;
    assert s[i..][..|r|] == s[i..i + |r|];
  }

  /** Trimming a string that is already trimmed changes nothing; in particular trim is idempotent. */
  lemma {:induction false} TrimOfTrimmed(s: string)
    requires IsTrimmed(s)
    ensures Trim(s) == s
  {
  }

  lemma TrimIdempotent(s: string)
    ensures Trim(Trim(s)) == Trim(s)
  {
    TrimIsTrimmed(s);
    TrimOfTrimmed(Trim(s));
  }

  lemma {:induction false} TrimLeadingSkips(w: string, u: string)
    requires AllTrimmable(w)
    ensures TrimLeading(w + u) == TrimLeading(u)
    decreases |w|
  {
    if w != [] {
      assert (w + u)[0] == w[0];
      assert (w + u)[1..] == w[1..] + u;
      TrimLeadingSkips(w[1..], u);
    } else {
      assert w + u == u;
    }
  }

  lemma {:induction false} TrimTrailingSkips(u: string, w: string)
    requires AllTrimmable(w)
    ensures TrimTrailing(u + w) == TrimTrailing(u)
    decreases |w|
  {
    if w != [] {
      assert (u + w)[..|u + w| - 1] == u + w[..|w| - 1];
      TrimTrailingSkips(u, w[..|w| - 1]);
    } else {
      assert u + w == u;
    }
  }

  lemma {:induction false} TrimLeadingAppend(u: string, w: string)
    requires AllTrimmable(w)
    ensures TrimLeading(u) == [] ==> TrimLeading(u + w) == []
    ensures TrimLeading(u) != [] ==> TrimLeading(u + w) == TrimLeading(u) + w
    decreases |u|
  {
    if u == [] {
      TrimLeadingSkips(w, []);
      assert w + [] == w && u + w == w;
    } else if IsTrimmable(u[0]) {
      assert (u + w)[0] == u[0];
      assert (u + w)[1..] == u[1..] + w;
      assert TrimLeading(u + w) == TrimLeading(u[1..] + w);
      TrimLeadingAppend(u[1..], w);
    } else {
      assert (u + w)[0] == u[0];
      assert TrimLeading(u + w) == u + w;
    }
  }

  /** Characters of code at most U+0020 around a string do not change its trim. */
  lemma TrimIgnoresSurroundingSpace(w1: string, s: string, w2: string)
    requires AllTrimmable(w1) && AllTrimmable(w2)
    ensures Trim(w1 + s + w2) == Trim(s)
  {
    assert w1 + s + w2 == w1 + (s + w2);
    TrimLeadingSkips(w1, s + w2);
    assert TrimLeading(w1 + s + w2) == TrimLeading(s + w2);
    TrimLeadingAppend(s, w2);
    var u := TrimLeading(s);
    if u != [] {
      TrimTrailingSkips(u, w2);
      assert Trim(w1 + s + w2) == TrimTrailing(u + w2);
      assert Trim(s) == TrimTrailing(u);
    } else {
      assert Trim(w1 + s + w2) == TrimTrailing([]);
    }
  }

  /** `s` is blank: it is empty once trimmed. */
  predicate IsBlank(s: string)
  {
    Trim(s) == []
  }

  lemma {:induction false} TrimLeadingEmpty(s: string)
    ensures TrimLeading(s) == [] <==> AllTrimmable(s)
    decreases |s|
  {
    if s != [] && IsTrimmable(s[0]) {
      TrimLeadingEmpty(s[1..]);
      assert forall i :: 1 <= i < |s| ==> s[i] == s[1..][i - 1];
    }
  }

  /** A string is blank exactly when every character of it is trimmable. */
  lemma BlankIffAllTrimmable(s: string)
    ensures IsBlank(s) <==> AllTrimmable(s)
  {
    TrimLeadingEmpty(s);
    var u := TrimLeading(s);
    if u != [] {
      TrimTrailingNonEmpty(u);
    }
  }

  lemma {:induction false} TrimTrailingNonEmpty(u: string)
    requires u != [] && !IsTrimmable(u[0])
    ensures TrimTrailing(u) != []
    decreases |u|
  {
    if IsTrimmable(u[|u| - 1]) {
      assert |u| > 1;
      TrimTrailingNonEmpty(u[..|u| - 1]);
    }
  }

  // ---------------------------------------------------------------- case

  /** Character.toUpperCase / toLowerCase, restricted to ASCII letters. */
  function UpperChar(c: char): char
  {
    if 'a' <= c <= 'z' then (c as int - 32) as char else c
  }

  function LowerChar(c: char): char
  {
    if 'A' <= c <= 'Z' then (c as int + 32) as char else c
  }

  function ToUpper(s: string): (r: string)
    ensures |r| == |s|
    ensures forall i :: 0 <= i < |s| ==> r[i] == UpperChar(s[i])
  {
    seq(|s|, i requires 0 <= i < |s| => UpperChar(s[i]))
  }

  function ToLower(s: string): (r: string)
    ensures |r| == |s|
    ensures forall i :: 0 <= i < |s| ==> r[i] == LowerChar(s[i])
  {
    seq(|s|, i requires 0 <= i < |s| => LowerChar(s[i]))
  }

  /** Upper-casing leaves the trimmable characters alone, and spreads over concatenation. */
  lemma ToUpperAppend(a: string, b: string)
    ensures ToUpper(a + b) == ToUpper(a) + ToUpper(b)
  {
  }

  lemma ToUpperOfTrimmable(w: string)
    requires AllTrimmable(w)
    ensures ToUpper(w) == w && AllTrimmable(ToUpper(w))
  {
  }

  lemma {:induction false} TrimLeadingToUpper(s: string)
    ensures TrimLeading(ToUpper(s)) == ToUpper(TrimLeading(s))
    decreases |s|
  {
    if s != [] {
      assert ToUpper(s)[1..] == ToUpper(s[1..]);
      if IsTrimmable(s[0]) {
        TrimLeadingToUpper(s[1..]);
      }
    }
  }

  lemma {:induction false} TrimTrailingToUpper(s: string)
    ensures TrimTrailing(ToUpper(s)) == ToUpper(TrimTrailing(s))
    decreases |s|
  {
    if s != [] {
      assert ToUpper(s)[..|s| - 1] == ToUpper(s[..|s| - 1]);
      if IsTrimmable(s[|s| - 1]) {
        TrimTrailingToUpper(s[..|s| - 1]);
      }
    }
  }

  /** Trimming and upper-casing can be done in either order. */
  lemma TrimToUpperCommute(s: string)
    ensures Trim(ToUpper(s)) == ToUpper(Trim(s))
  {
    TrimLeadingToUpper(s);
    TrimTrailingToUpper(TrimLeading(s));
  }

  /** Mapping to one case and then to the other forgets the first mapping. */
  lemma CaseFoldings(s: string)
    ensures ToUpper(ToLower(s)) == ToUpper(s)
    ensures ToLower(ToUpper(s)) == ToLower(s)
    ensures ToUpper(ToUpper(s)) == ToUpper(s)
    ensures ToLower(ToLower(s)) == ToLower(s)
  {
  }

  /** String.equalsIgnoreCase for ASCII. */
  predicate EqualsIgnoreCase(a: string, b: string)
  {
    |a| == |b| && ToLower(a) == ToLower(b)
  }

  // ---------------------------------------------------------------- search

  /** String.contains: `t` occurs in `s` as a contiguous piece. */
  predicate Contains(s: string, t: string)
    decreases |s|
  {
    t <= s || (s != [] && Contains(s[1..], t))
  }

  /** Contains agrees with the index-based reading of "occurs at some offset". */
  lemma {:induction false} ContainsIff(s: string, t: string)
    ensures Contains(s, t) <==> exists i :: OccursAt(s, t, i)
    decreases |s|
  {
    if t <= s {
      assert s[0..|t|] == t;
      assert OccursAt(s, t, 0);
    } else if s != [] {
      ContainsIff(s[1..], t);
      if Contains(s[1..], t) {
        var i :| OccursAt(s[1..], t, i);
        OccursInTail(s, t, i + 1);
      }
      if exists i :: OccursAt(s, t, i) {
        var i :| OccursAt(s, t, i);
        if i > 0 {
          OccursInTail(s, t, i);
        }
      }
    }
  }

  /** Past the first character, an occurrence in `s` is one in its tail. */
  lemma OccursInTail(s: string, t: string, i: int)
    requires s != [] && i > 0
    ensures OccursAt(s, t, i) <==> OccursAt(s[1..], t, i - 1)
  {
    if 0 <= i <= |s| - |t| {
      assert s[1..][i - 1..i - 1 + |t|] == s[i..i + |t|];
    }
  }

  /** Every string contains the empty string. */
  lemma ContainsEmpty(s: string)
    ensures Contains(s, [])
  {
  }

  /** Every string contains itself. */
  lemma ContainsSelf(s: string)
    ensures Contains(s, s)
  {
  }

  // ---------------------------------------------------------------- compareTo

  /** String.compareTo: the difference of the first differing characters, or of the
      lengths when one string is a prefix of the other. */
  function CompareTo(a: string, b: string): int
  {
    if a == [] || b == [] then |a| - |b|
    else if a[0] != b[0] then a[0] as int - b[0] as int
    else CompareTo(a[1..], b[1..])
  }

  /** compareTo is exactly antisymmetric. */
  lemma {:induction false} CompareToAntisymmetric(a: string, b: string)
    ensures CompareTo(a, b) == -CompareTo(b, a)
  {
    if a != [] && b != [] && a[0] == b[0] {
      CompareToAntisymmetric(a[1..], b[1..]);
    }
  }

  /** compareTo is zero exactly on equal strings. */
  lemma {:induction false} CompareToZero(a: string, b: string)
    ensures CompareTo(a, b) == 0 <==> a == b
  {
    if a != [] && b != [] && a[0] == b[0] {
      CompareToZero(a[1..], b[1..]);
      assert a == [a[0]] + a[1..] && b == [b[0]] + b[1..];
    }
  }

  /** The order compareTo induces is transitive. */
  lemma {:induction false} CompareToTransitive(a: string, b: string, c: string)
    requires CompareTo(a, b) < 0 && CompareTo(b, c) < 0
    ensures CompareTo(a, c) < 0
  {
    if a != [] && b != [] && c != [] && a[0] == b[0] && b[0] == c[0] {
      CompareToTransitive(a[1..], b[1..], c[1..]);
    }
  }

  /** Lexicographic order by character code, stated directly: `a` is a proper
      prefix of `b`, or the first differing character is smaller in `a`. */
  predicate LexLess(a: string, b: string)
  {
    (|a| < |b| && a == b[..|a|])
    || exists i :: 0 <= i < |a| && i < |b| && a[..i] == b[..i] && a[i] < b[i]
  }

  /** compareTo is negative exactly when `a` comes first lexicographically. */
  lemma {:induction false} CompareToIffLexLess(a: string, b: string)
    ensures CompareTo(a, b) < 0 <==> LexLess(a, b)
  {
    if a == [] {
      assert b != [] ==> [] == b[..0];
    } else if b == [] {
    } else if a[0] != b[0] {
      FirstCharDecides(a, b);
    } else {
      var a', b' := a[1..], b[1..];
      CompareToIffLexLess(a', b');
      ShiftLexLess(a, b);
    }
  }

  /** Different first characters decide the order. */
  lemma FirstCharDecides(a: string, b: string)
    requires a != [] && b != [] && a[0] != b[0]
    ensures LexLess(a, b) <==> a[0] < b[0]
  {
    assert a[..0] == b[..0];
    assert |a| <= |b| ==> b[..|a|][0] == b[0];
    forall i | 0 < i <= |a| && i <= |b|
      ensures a[..i] == b[..i] ==> a[0] == b[0]
    {
      assert a[..i][0] == a[0] && b[..i][0] == b[0];
    }
  }

  /** Equal first characters leave the order to the rest. */
  lemma ShiftLexLess(a: string, b: string)
    requires a != [] && b != [] && a[0] == b[0]
    ensures LexLess(a, b) <==> LexLess(a[1..], b[1..])
  {
    if LexLess(a[1..], b[1..]) {
      LexLessUnshift(a, b);
    }
    if LexLess(a, b) {
      LexLessShift(a, b);
    }
  }

  lemma LexLessUnshift(a: string, b: string)
    requires a != [] && b != [] && a[0] == b[0] && LexLess(a[1..], b[1..])
    ensures LexLess(a, b)
  {
    var a', b' := a[1..], b[1..];
    if |a'| < |b'| && a' == b'[..|a'|] {
      assert a == [a[0]] + a' && b[..|a|] == [b[0]] + b'[..|a'|];
    } else {
      var i :| 0 <= i < |a'| && i < |b'| && a'[..i] == b'[..i] && a'[i] < b'[i];
      assert a[..i + 1] == [a[0]] + a'[..i] && b[..i + 1] == [b[0]] + b'[..i];
      assert a[i + 1] == a'[i] && b[i + 1] == b'[i];
    }
  }

  lemma LexLessShift(a: string, b: string)
    requires a != [] && b != [] && a[0] == b[0] && LexLess(a, b)
    ensures LexLess(a[1..], b[1..])
  {
    var a', b' := a[1..], b[1..];
    if |a| < |b| && a == b[..|a|] {
      assert b[..|a|][1..] == b'[..|a'|];
      assert a' == b'[..|a'|];
    } else {
      var i :| 0 <= i < |a| && i < |b| && a[..i] == b[..i] && a[i] < b[i];
      assert i != 0;
      assert a'[..i - 1] == a[..i][1..] && b'[..i - 1] == b[..i][1..];
      assert a'[i - 1] == a[i] && b'[i - 1] == b[i];
    }
  }

  // ---------------------------------------------------------------- split

  function IndexOf(s: string, c: char): (i: nat)
    requires c in s
    ensures i < |s| && s[i] == c && c !in s[..i]
  {
    if s[0] == c then 0 else 1 + IndexOf(s[1..], c)
  }

  /** The pieces of `s` between occurrences of `sep`, empty pieces included:
      one more piece than there are separators. */
  function Fields(s: string, sep: char): (r: seq<string>)
    ensures |r| >= 1
    decreases |s|
  {
    if sep in s then
      var i := IndexOf(s, sep);
      [s[..i]] + Fields(s[i + 1..], sep)
    else [s]
  }

  function DropTrailingEmpty(fs: seq<string>): (r: seq<string>)
    ensures r <= fs
    ensures r == [] || r[|r| - 1] != []
  {
    if fs != [] && fs[|fs| - 1] == [] then DropTrailingEmpty(fs[..|fs| - 1]) else fs
  }

  /** String.split with a one-character literal pattern and no limit: a string without
      the separator gives itself; otherwise the pieces, with trailing empty pieces removed. */
  function Split(s: string, sep: char): seq<string>
  {
    if sep in s then DropTrailingEmpty(Fields(s, sep)) else [s]
  }

  /** String.split with a one-character literal pattern and limit 2: cut at the first separator. */
  function SplitFirst(s: string, sep: char): (r: seq<string>)
    ensures 1 <= |r| <= 2
  {
    if sep in s then
      var i := IndexOf(s, sep);
      [s[..i], s[i + 1..]]
    else [s]
  }

  /** The pieces joined with the separator between consecutive ones. */
  function Join(fs: seq<string>, sep: char): string
    requires |fs| >= 1
  {
    if |fs| == 1 then fs[0] else fs[0] + [sep] + Join(fs[1..], sep)
  }

  /** With two pieces or more the joined string holds a separator. */
  lemma JoinHasSep(fs: seq<string>, sep: char)
    requires |fs| >= 2
    ensures sep in Join(fs, sep)
  {
    var j := Join(fs, sep);
    assert j == fs[0] + [sep] + Join(fs[1..], sep);
    assert j[|fs[0]|] == sep;
  }

  lemma {:induction false} IndexOfAfterPrefix(a: string, sep: char, b: string)
    requires sep !in a
    ensures sep in a + [sep] + b && IndexOf(a + [sep] + b, sep) == |a|
    decreases |a|
  {
    var s := a + [sep] + b;
    assert s[|a|] == sep;
    if a != [] {
      assert s[1..] == a[1..] + [sep] + b;
      IndexOfAfterPrefix(a[1..], sep, b);
    }
  }

  /** Splitting a joined string gives back its pieces when no piece contains the separator. */
  lemma {:induction false} FieldsOfJoin(fs: seq<string>, sep: char)
    requires |fs| >= 1
    requires forall k :: 0 <= k < |fs| ==> sep !in fs[k]
    ensures Fields(Join(fs, sep), sep) == fs
  {
    if |fs| > 1 {
      var rest := Join(fs[1..], sep);
      var s := fs[0] + [sep] + rest;
      assert Join(fs, sep) == s;
      assert sep !in fs[0];
      IndexOfAfterPrefix(fs[0], sep, rest);
      assert s[..|fs[0]|] == fs[0];
      assert s[|fs[0]| + 1..] == rest;
      assert Fields(s, sep) == [fs[0]] + Fields(rest, sep);
      FieldsOfJoin(fs[1..], sep);
      assert fs == [fs[0]] + fs[1..];
    } else {
      assert sep !in fs[0];
    }
  }

  /** The same for Split, when the last piece is not empty. */
  lemma SplitOfJoin(fs: seq<string>, sep: char)
    requires |fs| >= 2
    requires forall k :: 0 <= k < |fs| ==> sep !in fs[k]
    requires fs[|fs| - 1] != []
    ensures Split(Join(fs, sep), sep) == fs
  {
    JoinHasSep(fs, sep);
    FieldsOfJoin(fs, sep);
    SplitOfFields(Join(fs, sep), sep);
  }

  lemma SplitOfFields(s: string, sep: char)
    requires sep in s
    requires var fs := Fields(s, sep); fs[|fs| - 1] != []
    ensures Split(s, sep) == Fields(s, sep)
  {
    var fs := Fields(s, sep);
    assert Split(s, sep) == DropTrailingEmpty(fs);
    assert DropTrailingEmpty(fs) == fs;
  }

  // ---------------------------------------------------------------- build

  /** String.repeat of a one-character string. */
  function Repeat(c: char, n: nat): (r: string)
    ensures |r| == n && forall i :: 0 <= i < n ==> r[i] == c
  {
    seq(n, _ => c)
  }

  /** The `%-<width>s` conversion of String.format: left-justified, padded with spaces. */
  function PadRight(s: string, width: nat): (r: string)
    ensures |r| == if |s| < width then width else |s|
    ensures r[..|s|] == s
  {
    if |s| < width then s + Repeat(' ', width - |s|) else s
  }

  // ---------------------------------------------------------------- numbers

  function DigitChar(d: nat): char
    requires d < 10
  {
    ('0' as int + d) as char
  }

  predicate IsDigit(c: char)
  {
    '0' <= c <= '9'
  }

  /** Decimal digits of a natural number, as Integer.toString and `%d` print it. */
  function NatToString(n: nat): (r: string)
    ensures r != [] && forall i :: 0 <= i < |r| ==> IsDigit(r[i])
  {
    if n < 10 then [DigitChar(n)] else NatToString(n / 10) + [DigitChar(n % 10)]
  }

  /** Integer.toString / `%d` for any integer. */
  function IntToString(n: int): string
  {
    if n < 0 then "-" + NatToString(-n) else NatToString(n)
  }

  function DigitsValue(s: string): nat
    requires forall i :: 0 <= i < |s| ==> IsDigit(s[i])
  {
    if s == [] then 0
    else
      assert IsDigit(s[|s| - 1]);
      10 * DigitsValue(s[..|s| - 1]) + (s[|s| - 1] as int - '0' as int)
  }

  /** Integer.parseInt (ASCII digits): an optional sign, at least one digit, and a
      value that fits an `int`; anything else throws NumberFormatException. */
  function ParseInt(s: string): (r: Result<int>)
    ensures r.Ok? ==> INT_MIN <= r.value <= INT_MAX
    ensures r.Err? ==> r.error == NumberFormat
  {
    if s == [] then Err(NumberFormat)
    else
      var negative := s[0] == '-';
      var digits := if s[0] == '-' || s[0] == '+' then s[1..] else s;
      if digits == [] || exists i :: 0 <= i < |digits| && !IsDigit(digits[i]) then Err(NumberFormat)
      else
        var v: int := if negative then -(DigitsValue(digits) as int) else DigitsValue(digits);
        if INT_MIN <= v <= INT_MAX then Ok(v) else Err(NumberFormat)
  }

  lemma {:induction false} DigitsOfNat(n: nat)
    ensures DigitsValue(NatToString(n)) == n
  {
    if n >= 10 {
      DigitsOfNat(n / 10);
      var s := NatToString(n);
      assert s[..|s| - 1] == NatToString(n / 10);
    }
  }

  /** parseInt reads back what `%d` printed, for every `int`. */
  lemma ParseIntOfIntToString(n: int)
    requires INT_MIN <= n <= INT_MAX
    ensures ParseInt(IntToString(n)) == Ok(n)
  {
    var s := IntToString(n);
    if n < 0 {
      DigitsOfNat(-n);
      assert s[0] == '-';
      assert s[1..] == NatToString(-n);
    } else {
      DigitsOfNat(n);
      assert IsDigit(s[0]);
      assert s == NatToString(n);
    }
  }

  /** String.hashCode: `31 * h + c` over the characters, in `int` arithmetic. */
  function StringHash(s: string): Int32
  {
    if s == [] then 0 else Wrap32(31 * StringHash(s[..|s| - 1]) + s[|s| - 1] as int)
  }
}
