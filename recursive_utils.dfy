/** RecursiveUtils without the filesystem walkers: FileCount, factorial,
    memoised Fibonacci, string reversal and the maximum of an array. Java `int`
    and `long` arithmetic is written out with Wrap32 and Wrap64. */
module RecursiveUtils {
  import opened Wrappers
  import opened JavaInt
  import opened JavaString

  // ---------------------------------------------------------------- FileCount

  /** The immutable pair of counters the walkers return. */
  datatype FileCount = FileCount(files: Int32, directories: Int32)

  /** add: both counters summed in `int` arithmetic. */
  function Add(a: FileCount, b: FileCount): FileCount
  {
    FileCount(Wrap32(a.files + b.files), Wrap32(a.directories + b.directories))
  }

  const Zero := FileCount(0, 0)

  lemma AddCommutative(a: FileCount, b: FileCount)
    ensures Add(a, b) == Add(b, a)
  {
  }

  /** Counters combine the same way whatever the grouping, since wrapping commutes
      with addition. */
  lemma AddAssociative(a: FileCount, b: FileCount, c: FileCount)
    ensures Add(Add(a, b), c) == Add(a, Add(b, c))
  {
    var ab, bc := Add(a, b), Add(b, c);
    assert ab.files == Wrap32(a.files + b.files) && ab.directories == Wrap32(a.directories + b.directories);
    assert bc.files == Wrap32(b.files + c.files) && bc.directories == Wrap32(b.directories + c.directories);
    RegroupCounts(a, b, c);
  }

  lemma RegroupCounts(a: FileCount, b: FileCount, c: FileCount)
    ensures FileCount(Wrap32(Wrap32(a.files + b.files) + c.files),
                      Wrap32(Wrap32(a.directories + b.directories) + c.directories))
         == FileCount(Wrap32(a.files + Wrap32(b.files + c.files)),
                      Wrap32(a.directories + Wrap32(b.directories + c.directories)))
  {
    Wrap32Associative(a.files, b.files, c.files);
    Wrap32Associative(a.directories, b.directories, c.directories);
  }

  lemma Wrap32Associative(x: int, y: int, z: int)
    ensures Wrap32(Wrap32(x + y) + z) == Wrap32(x + Wrap32(y + z))
  {
    calc {
      Wrap32(Wrap32(x + y) + z);
      == { Wrap32Add(x + y, z); }
      Wrap32(x + y + z);
      == { assert x + y + z == x + (y + z); }
      Wrap32(x + (y + z));
      == { Wrap32Add(x, y + z); }
      Wrap32(x + Wrap32(y + z));
    }
  }

  lemma AddZero(a: FileCount)
    ensures Add(a, Zero) == a && Add(Zero, a) == a
  {
  }

  /** toString. */
  function FileCountText(c: FileCount): string
  {
    "Files: " + IntToString(c.files) + ", Directories: " + IntToString(c.directories)
  }

  // ---------------------------------------------------------------- factorial

  /** n!, the mathematical reference. */
  function Fact(n: nat): (r: nat)
    ensures r >= 1
  {
    if n == 0 then 1 else n * Fact(n - 1)
  }

  /** The recursion of factorial for n >= 0: 1 for 0 and 1, otherwise `n *` the
      previous value in `long` arithmetic. */
  function FactorialLong(n: nat): (r: int)
    ensures LONG_MIN <= r <= LONG_MAX
  {
    if n <= 1 then 1 else Wrap64(n * FactorialLong(n - 1))
  }

  /** factorial: a negative argument throws. */
  function Factorial(n: Int32): (r: Result<int>)
    ensures r.Err? <==> n < 0
    ensures r.Err? ==> r.error == IllegalArgument
    ensures r.Ok? ==> r.value == FactorialLong(n)
  {
    if n < 0 then Err(IllegalArgument) else Ok(FactorialLong(n))
  }

  lemma {:induction false} FactMonotone(m: nat, n: nat)
    requires m <= n
    ensures Fact(m) <= Fact(n)
    decreases n - m
  {
    if m < n {
      FactMonotone(m, n - 1);
    }
  }

  lemma Fact20()
    ensures Fact(20) == 2432902008176640000
  {
    assert Fact(1) == 1;
    assert Fact(2) == 2;
    assert Fact(3) == 6;
    assert Fact(4) == 24;
    assert Fact(5) == 120;
    assert Fact(6) == 720;
    assert Fact(7) == 5040;
    assert Fact(8) == 40320;
    assert Fact(9) == 362880;
    assert Fact(10) == 3628800;
    assert Fact(11) == 39916800;
    assert Fact(12) == 479001600;
    assert Fact(13) == 6227020800;
    assert Fact(14) == 87178291200;
    assert Fact(15) == 1307674368000;
    assert Fact(16) == 20922789888000;
    assert Fact(17) == 355687428096000;
    assert Fact(18) == 6402373705728000;
    assert Fact(19) == 121645100408832000;
    assert Fact(20) == 2432902008176640000;
  }

  /** Up to 20 the result is n! exactly: 20! still fits a `long`. */
  lemma {:induction false} FactorialExact(n: nat)
    requires n <= 20
    ensures FactorialLong(n) == Fact(n)
  {
    if n > 1 {
      FactorialExact(n - 1);
      FactMonotone(n, 20);
      Fact20();
    }
  }

  /** At 21 the product leaves the `long` range and the result is no longer 21!. */
  lemma FactorialWrapsAt21()
    ensures FactorialLong(21) != Fact(21)
  {
    FactorialExact(20);
    Fact20();
    assert Fact(21) == 21 * 2432902008176640000;
  }

  /** factorial with each product checked for `long` overflow, as Math.multiplyExact
      does: an overflow throws instead of wrapping. */
  function FactorialChecked(n: Int32): (r: Result<int>)
    ensures n < 0 ==> r == Err(IllegalArgument)
    ensures n >= 0 ==> r == CheckedProduct(n)
  {
    if n < 0 then Err(IllegalArgument) else CheckedProduct(n)
  }

  /** The recursion of the checked factorial for n >= 0. */
  function CheckedProduct(n: nat): (r: Result<int>)
    ensures r.Ok? ==> LONG_MIN <= r.value <= LONG_MAX
    ensures r.Err? ==> r.error == Arithmetic
  {
    if n <= 1 then Ok(1)
    else
      match CheckedProduct(n - 1)
      case Err(e) => Err(e)
      case Ok(p) => if LONG_MIN <= n * p <= LONG_MAX then Ok(n * p) else Err(Arithmetic)
  }

  /** The checked factorial is n! exactly up to 20 and throws ArithmeticException
      from 21 on, so it never returns a wrong value. */
  lemma {:induction false} FactorialCheckedExact(n: nat)
    ensures n <= 20 ==> CheckedProduct(n) == Ok(Fact(n))
    ensures n > 20 ==> CheckedProduct(n) == Err(Arithmetic)
  {
    if n > 1 {
      FactorialCheckedExact(n - 1);
      if n <= 20 {
        assert Fact(n) <= LONG_MAX by {
          FactMonotone(n, 20);
          Fact20();
        }
        assert n * Fact(n - 1) == Fact(n);
      } else if n == 21 {
        assert 21 * Fact(20) > LONG_MAX by {
          Fact20();
        }
      }
    }
  }

  // ---------------------------------------------------------------- fibonacci

  /** F(n) with F(0) = 0 and F(1) = 1, the mathematical reference. */
  function Fib(n: nat): nat
  {
    if n < 2 then n else Fib(n - 1) + Fib(n - 2)
  }

  /** What fibonacciHelper returns: the same recursion with `long` addition. */
  function FibLong(n: nat): (r: int)
    ensures LONG_MIN <= r <= LONG_MAX
  {
    if n < 2 then n else Wrap64(FibLong(n - 1) + FibLong(n - 2))
  }

  /** A memo entry is either still 0 (unset) or the value for its index. Indexes 0
      and 1 are never read. */
  ghost predicate MemoSound(memo: array<int>)
    reads memo
  {
    forall k :: 2 <= k < memo.Length ==> memo[k] == 0 || memo[k] == FibLong(k)
  }

  /** fibonacciHelper: answers 0 and 1 directly, returns a memoised entry when it is
      set, and otherwise computes the entry, stores it and returns it. Only entries
      2..n are written, and each only with its own value. */
  method FibonacciHelper(n: nat, memo: array<int>) returns (r: int)
    requires n < memo.Length && MemoSound(memo)
    modifies memo
    ensures r == FibLong(n)
    ensures MemoSound(memo)
    ensures forall k :: 0 <= k < memo.Length && !(2 <= k <= n) ==> memo[k] == old(memo[k])
    decreases n
  {
    if n == 0 {
      return 0;
    }
    if n == 1 {
      return 1;
    }
    if memo[n] != 0 {
      return memo[n];
    }
    var a := FibonacciHelper(n - 1, memo);
    var b := FibonacciHelper(n - 2, memo);
    var v := Wrap64(a + b);
    assert v == FibLong(n);
    memo[n] := v;
    return v;
  }

  /** fibonacci: a negative argument throws; otherwise a fresh zeroed memo of
      n + 1 entries. For Integer.MAX_VALUE that size wraps negative and the array
      allocation throws. */
  method Fibonacci(n: Int32) returns (r: Result<int>)
    ensures n < 0 ==> r == Err(IllegalArgument)
    ensures n == INT_MAX ==> r == Err(NegativeArraySize)
    ensures 0 <= n < INT_MAX ==> r == Ok(FibLong(n))
  {
    if n < 0 {
      return Err(IllegalArgument);
    }
    var size := Wrap32(n + 1);
    if n == INT_MAX {
      IntMaxPlusOneWraps();
    }
    if size < 0 {
      return Err(NegativeArraySize);
    }
    var memo := new int[n + 1](_ => 0);
    var v := FibonacciHelper(n, memo);
    return Ok(v);
  }

  /** fibonacci with the memo replaced by two running values, so no array size can
      wrap: every n >= 0 gives the same `long` value as the memoised recursion. */
  method FibonacciIterative(n: Int32) returns (r: Result<int>)
    ensures n < 0 ==> r == Err(IllegalArgument)
    ensures n >= 0 ==> r == Ok(FibLong(n))
  {
    if n < 0 {
      return Err(IllegalArgument);
    }
    var previous, current := 0, 1;
    var i := 0;
    while i < n
      invariant 0 <= i <= n
      invariant previous == FibLong(i) && current == FibLong(i + 1)
    {
      previous, current := current, Wrap64(previous + current);
      i := i + 1;
    }
    return Ok(previous);
  }

  lemma IntMaxPlusOneWraps()
    ensures Wrap32(INT_MAX + 1) == INT_MIN
  {
  }

  lemma {:induction false} FibMonotone(m: nat, n: nat)
    requires m <= n
    ensures Fib(m) <= Fib(n)
    decreases n - m
  {
    if m < n {
      FibMonotone(m, n - 1);
      if n >= 2 {
        assert Fib(n) == Fib(n - 1) + Fib(n - 2);
      }
    }
  }

  /** As long as F(n) fits a `long` the result is F(n) exactly; F(92) is the
      largest that does. */
  lemma {:induction false} FibonacciExact(n: nat)
    requires Fib(n) <= LONG_MAX
    ensures FibLong(n) == Fib(n)
  {
    if n >= 2 {
      FibMonotone(n - 1, n);
      FibMonotone(n - 2, n);
      FibonacciExact(n - 1);
      FibonacciExact(n - 2);
    }
  }

  /** Every F(k) from 1 on is positive, so 0 is a safe "unset" marker. */
  lemma {:induction false} FibPositive(k: nat)
    requires k >= 1
    ensures Fib(k) > 0
  {
    if k >= 3 {
      FibPositive(k - 1);
    }
  }

  // ---------------------------------------------------------------- reverseString

  /** The recursion of reverseString on a non-null string: strings of length at
      most 1 are returned as they are, otherwise the reversed tail plus the first
      character. */
  function Reverse(s: string): (r: string)
    ensures |r| == |s|
    ensures forall i :: 0 <= i < |s| ==> r[i] == s[|s| - 1 - i]
  {
    if |s| <= 1 then s else Reverse(s[1..]) + [s[0]]
  }

  /** reverseString: null is returned as null. */
  function ReverseString(str: Option<string>): (r: Option<string>)
    ensures r.None? <==> str.None?
    ensures r.Some? ==> r.value == Reverse(str.value)
  {
    match str
    case None => None
    case Some(s) => Some(Reverse(s))
  }

  /** Reversing twice gives the string back. */
  lemma ReverseInvolution(s: string)
    ensures Reverse(Reverse(s)) == s
  {
  }

  lemma ReverseAppend(a: string, b: string)
    ensures Reverse(a + b) == Reverse(b) + Reverse(a)
  {
  }

  // ---------------------------------------------------------------- findMax

  /** findMax(array, index): the largest of array[index..], by recursion towards the
      last element. An index outside the array never reaches the base case. */
  function FindMaxFrom(a: array<int>, index: nat): (m: int)
    requires index < a.Length
    reads a
    ensures m in a[index..]
    ensures forall k :: index <= k < a.Length ==> a[k] <= m
    decreases a.Length - index
  {
    if index == a.Length - 1 then a[index]
    else
      var rest := FindMaxFrom(a, index + 1);
      assert rest in a[index..] by {
        assert a[index + 1..] == a[index..][1..];
      }
      if a[index] >= rest then a[index] else rest
  }

  /** findMax(array, index) as written, for any index from 0, with a budget of
      calls: None when the budget runs out before the base case. Past the end the
      index only grows, so the base case `index == length - 1` is never met. */
  function FindMaxSteps(a: array<int>, index: nat, fuel: nat): (r: Option<int>)
    reads a
    decreases fuel
  {
    if fuel == 0 then None
    else if index == a.Length - 1 then Some(a[index])
    else
      match FindMaxSteps(a, index + 1, fuel - 1)
      case None => None
      case Some(rest) => if index < a.Length && a[index] >= rest then Some(a[index]) else Some(rest)
  }

  /** An index at or past the end never reaches the base case, whatever the
      budget: findMax(array, array.length) recurses until the stack overflows. */
  lemma {:induction false} FindMaxPastEndNeverEnds(a: array<int>, index: nat, fuel: nat)
    requires index >= a.Length
    ensures FindMaxSteps(a, index, fuel) == None
    decreases fuel
  {
    if fuel > 0 {
      FindMaxPastEndNeverEnds(a, index + 1, fuel - 1);
    }
  }

  /** Inside the array, enough budget reaches the base case and gives FindMaxFrom. */
  lemma {:induction false} FindMaxStepsInside(a: array<int>, index: nat, fuel: nat)
    requires index < a.Length && fuel >= a.Length - index
    ensures FindMaxSteps(a, index, fuel) == Some(FindMaxFrom(a, index))
    decreases a.Length - index
  {
    if index < a.Length - 1 {
      FindMaxStepsInside(a, index + 1, fuel - 1);
    }
  }

  /** findMax(array, index) with the range check it evidently needs: an index
      outside the array is refused with IllegalArgumentException, and any other
      gives the largest of array[index..]. */
  function FindMaxChecked(a: array<int>, index: int): (r: Result<int>)
    reads a
    ensures r.Err? <==> index < 0 || index >= a.Length
    ensures r.Err? ==> r.error == IllegalArgument
    ensures r.Ok? ==> r.value in a[index..] && forall k :: index <= k < a.Length ==> a[k] <= r.value
  {
    if index < 0 || index >= a.Length then Err(IllegalArgument) else Ok(FindMaxFrom(a, index))
  }

  /** findMax(array): a null or empty array throws; otherwise an element that is at
      least every element. */
  function FindMax(a: array?<int>): (r: Result<int>)
    reads a
    ensures r.Err? <==> a == null || a.Length == 0
    ensures r.Err? ==> r.error == IllegalArgument
    ensures r.Ok? ==> r.value in a[..] && forall k :: 0 <= k < a.Length ==> a[k] <= r.value
  {
    if a == null || a.Length == 0 then Err(IllegalArgument)
    else
      assert a[0..] == a[..];
      Ok(FindMaxFrom(a, 0))
  }
}
