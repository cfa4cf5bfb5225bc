/** Java's fixed-width integer arithmetic, the `compare` methods of the boxed
    number classes, and the hash-code recipes of java.lang.String and
    java.util.Objects. Dafny integers are unbounded, so every wrap-around the
    source relies on is written out here. */
module JavaInt {

  const INT_MIN: int := -0x8000_0000
  const INT_MAX: int := 0x7FFF_FFFF
  const LONG_MIN: int := -0x8000_0000_0000_0000
  const LONG_MAX: int := 0x7FFF_FFFF_FFFF_FFFF

  /** A value of Java type `int`. */
  type Int32 = x: int | INT_MIN <= x <= INT_MAX

  /** The `int` that Java's 32-bit two's-complement arithmetic yields for the exact value `x`. */
  function Wrap32(x: int): (r: Int32)
    ensures (r - x) % 0x1_0000_0000 == 0
    ensures INT_MIN <= x <= INT_MAX ==> r == x
  {
    (x - INT_MIN) % 0x1_0000_0000 + INT_MIN
  }

  /** The `long` that Java's 64-bit two's-complement arithmetic yields for the exact value `x`. */
  function Wrap64(x: int): (r: int)
    ensures LONG_MIN <= r <= LONG_MAX
    ensures (r - x) % 0x1_0000_0000_0000_0000 == 0
    ensures LONG_MIN <= x <= LONG_MAX ==> r == x
  {
    (x - LONG_MIN) % 0x1_0000_0000_0000_0000 + LONG_MIN
  }

  /** Wrapping commutes with addition: adding already-wrapped operands gives the
      same `int` as wrapping the exact sum once. */
  lemma Wrap32Add(x: int, y: int)
    ensures Wrap32(Wrap32(x) + y) == Wrap32(x + y)
    ensures Wrap32(x + Wrap32(y)) == Wrap32(x + y)
  {
    var b := x + y - INT_MIN;
    ModShift32(b, -((x - INT_MIN) / 0x1_0000_0000));
    ModShift32(b, -((y - INT_MIN) / 0x1_0000_0000));
  }

  /** Adding a multiple of 2^32 does not change the remainder. */
  lemma ModShift32(b: int, k: int)
    ensures (b + k * 0x1_0000_0000) % 0x1_0000_0000 == b % 0x1_0000_0000
  {
    var m := 0x1_0000_0000;
    var r := b % m;
    var c := b + k * m;
    assert c == (b / m + k) * m + r;
    var d := c / m;
    assert c == d * m + c % m;
    var e := b / m + k - d;
    assert e * 0x1_0000_0000 == c % m - r;
    assert e == 0;
  }

  /** The 64-bit counterpart of Wrap32Add. */
  lemma Wrap64Add(x: int, y: int)
    ensures Wrap64(Wrap64(x) + Wrap64(y)) == Wrap64(x + y)
  {
    var m := 0x1_0000_0000_0000_0000;
    var p := (Wrap64(x) - x) / m;
    var q := (Wrap64(y) - y) / m;
    assert Wrap64(x) + Wrap64(y) - LONG_MIN == (x + y - LONG_MIN) + (p + q) * m;
  }

  /** Integer.compare and Double.compare on non-NaN values: -1, 0 or 1. */
  function IntegerCompare(x: int, y: int): (r: int)
    ensures r == -1 || r == 0 || r == 1
    ensures r < 0 <==> x < y
    ensures r == 0 <==> x == y
  {
    if x < y then -1 else if x == y then 0 else 1
  }

  /** Double.compare on values that are never NaN or negative zero (the only doubles the core compares). */
  function DoubleCompare(x: real, y: real): (r: int)
    ensures r == -1 || r == 0 || r == 1
    ensures r < 0 <==> x < y
    ensures r == 0 <==> x == y
  {
    if x < y then -1 else if x == y then 0 else 1
  }

  /** The sign of a comparator's result. */
  function Sign(x: int): int
  {
    if x < 0 then -1 else if x == 0 then 0 else 1
  }

  /** java.util.Arrays.hashCode of the element hashes, which is what
      java.util.Objects.hash(a, b, ...) returns: start at 1, then `31 * h + e` in `int` arithmetic. */
  function ObjectsHash(hashes: seq<int>): Int32
  {
    if hashes == [] then 1
    else Wrap32(31 * ObjectsHash(hashes[..|hashes| - 1]) + hashes[|hashes| - 1])
  }
}
