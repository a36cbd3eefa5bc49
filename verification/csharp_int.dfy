/**
 The fragment of C# integer semantics the depth conversion relies on:
 16-bit `short` samples, `byte` values, the arithmetic right shift `>>` on
 `int` (whose count is masked to its low five bits), integer division that
 truncates toward zero, and the unchecked `(byte)` cast that keeps the low
 eight bits. Dafny's integers are unbounded and its `/` and `%` are
 Euclidean, so each of these is written out explicitly here.
 */
module CSharpInt {

  /** A C# `short`. */
  type Int16 = x: int | -0x8000 <= x < 0x8000

  /** A C# `byte`. */
  type Byte = x: int | 0 <= x < 0x100

  /** A C# `int`; used to state that intermediate results do not overflow. */
  predicate InInt32(x: int) {
    -0x8000_0000 <= x < 0x8000_0000
  }

  /** A C# `int` value. */
  type Int32 = x: int | InInt32(x)

  /** Unchecked C# `int` arithmetic: the mathematical result is reduced
      modulo 2^32 into the two's complement range. */
  function WrapInt32(x: int): (r: Int32)
    ensures InInt32(x) ==> r == x
    ensures x < -0x8000_0000 && -0x1_0000_0000 - 0x8000_0000 <= x ==> r == x + 0x1_0000_0000
    ensures 0x8000_0000 <= x && x < 0x1_0000_0000 + 0x8000_0000 ==> r == x - 0x1_0000_0000
  {
    (x + 0x8000_0000) % 0x1_0000_0000 - 0x8000_0000
  }

  /* Values 2^32 apart wrap to the same C# `int`, so the wrap forgets only
     multiples of 2^32. */
  lemma WrapInt32Periodic(x: int, y: int)
    ensures WrapInt32(x) == WrapInt32(y) <==> (x - y) % 0x1_0000_0000 == 0
  {
    var a := x + 0x8000_0000;
    var b := y + 0x8000_0000;
    var m := 0x1_0000_0000;
    assert a == (a / m) * m + a % m;
    assert b == (b / m) * m + b % m;
    assert x - y == (a / m - b / m) * m + (a % m - b % m);
    if a % m == b % m {
      assert (x - y) == (a / m - b / m) * m;
    } else {
      var d := a % m - b % m;
      assert -m < d < m && d != 0;
      assert (x - y) % m == d % m;
    }
  }

  function Abs(x: int): int {
    if x < 0 then -x else x
  }

  function Pow2(n: nat): (r: nat)
    ensures r >= 1
  {
    if n == 0 then 1 else 2 * Pow2(n - 1)
  }

  /* If h is the floor of x / 2 and r is the floor of h / p, then r is the
     floor of x / (2 * p). */
  lemma HalvingStep(x: int, h: int, r: int, p: nat)
    requires p >= 1
    requires 2 * h <= x < 2 * h + 2
    requires r * p <= h < (r + 1) * p
    ensures r * (2 * p) <= x < (r + 1) * (2 * p)
  {
    assert r * (2 * p) == 2 * (r * p);
    assert (r + 1) * (2 * p) == 2 * ((r + 1) * p);
  }

  /** Shifting right by n bits, one bit at a time; each step halves and
      rounds toward negative infinity, as a sign-propagating shift does. */
  function ArithShift(x: int, n: nat): (r: int)
    ensures r * Pow2(n) <= x < (r + 1) * Pow2(n)
    decreases n
  {
    if n == 0 then x
    else
      var h := x / 2;
      var r := ArithShift(h, n - 1);
      HalvingStep(x, h, r, Pow2(n - 1));
      r
  }

  /** `x >> count` on a C# `int`: only the low five bits of the count are
      used, which for every count (also a negative one) is `count % 32`. */
  function ShiftRight(x: int, count: int): (r: int)
    ensures r * Pow2(count % 32) <= x < (r + 1) * Pow2(count % 32)
  {
    ArithShift(x, count % 32)
  }

  /* a <= b and c >= 0 give a * c <= b * c. */
  lemma MulMonotone(a: int, b: int, c: int)
    requires a <= b && 0 <= c
    ensures a * c <= b * c
  {
    assert b * c - a * c == (b - a) * c;
  }

  /* r is the floor of x / p: then r has the sign of x and lies between x and 0. */
  lemma FloorQuotientSign(x: int, r: int, p: int)
    requires p >= 1
    requires r * p <= x < (r + 1) * p
    ensures x < 0 <==> r < 0
    ensures 0 <= x ==> 0 <= r <= x
    ensures x < 0 ==> x <= r < 0
  {
    if r >= 0 {
      MulMonotone(1, p, r);
    } else {
      MulMonotone(1, p, -(r + 1));
      assert (r + 1) * p == -(p * -(r + 1));
    }
  }

  /* An arithmetic right shift keeps the sign and never grows the magnitude. */
  lemma ShiftRightKeepsSign(x: int, count: int)
    ensures x < 0 <==> ShiftRight(x, count) < 0
    ensures 0 <= x ==> 0 <= ShiftRight(x, count) <= x
    ensures x < 0 ==> x <= ShiftRight(x, count) < 0
  {
    FloorQuotientSign(x, ShiftRight(x, count), Pow2(count % 32));
  }

  /** C# `a / b` on integers: the quotient is truncated toward zero, so the
      remainder `a - q * b` has the sign of the dividend and a magnitude below
      that of the divisor. */
  function TruncDiv(a: int, b: int): (q: int)
    requires b != 0
    ensures a >= 0 ==> 0 <= a - q * b < Abs(b)
    ensures a < 0 ==> -Abs(b) < a - q * b <= 0
  {
    if b > 0 then
      if a >= 0 then a / b
      else
        var m := (-a) / b;
        assert -a == m * b + (-a) % b;
        assert (-m) * b == -(m * b);
        -m
    else
      if a >= 0 then
        var m := a / (-b);
        assert a == m * (-b) + a % (-b);
        assert (-m) * b == m * (-b);
        -m
      else
        var m := (-a) / (-b);
        assert -a == m * (-b) + (-a) % (-b);
        assert m * b == -(m * (-b));
        m
  }

  /* The only multiple of b strictly between -|b| and |b| is zero. */
  lemma SmallMultipleIsZero(d: int, b: int)
    requires b != 0
    requires -Abs(b) < d * b < Abs(b)
    ensures d == 0
  {
    if b > 0 {
      if d >= 1 {
        MulMonotone(1, d, b);
      } else if d <= -1 {
        MulMonotone(1, -d, b);
      }
    } else {
      if d >= 1 {
        MulMonotone(1, d, -b);
      } else if d <= -1 {
        MulMonotone(1, -d, -b);
      }
    }
  }

  /* The truncated quotient is the only value with the remainder C# promises. */
  lemma TruncDivUnique(a: int, b: int, q: int)
    requires b != 0
    requires a >= 0 ==> 0 <= a - q * b < Abs(b)
    requires a < 0 ==> -Abs(b) < a - q * b <= 0
    ensures TruncDiv(a, b) == q
  {
    var t := TruncDiv(a, b);
    assert (t - q) * b == (a - q * b) - (a - t * b);
    SmallMultipleIsZero(t - q, b);
  }

  /* On a non-negative dividend and a positive divisor C# division and
     Dafny's Euclidean division agree; they differ only on negative operands. */
  lemma TruncDivNonNegative(a: int, b: int)
    requires a >= 0 && b > 0
    ensures TruncDiv(a, b) == a / b
  {
  }

  /* Truncated division by a positive divisor keeps the dividend's sign. */
  lemma TruncDivSign(a: int, b: int)
    requires b > 0
    ensures a >= 0 ==> TruncDiv(a, b) >= 0
    ensures a < 0 ==> TruncDiv(a, b) <= 0
  {
    var q := TruncDiv(a, b);
    if a >= 0 && q < 0 {
      MulMonotone(q, -1, b);
      assert false;
    } else if a < 0 && q > 0 {
      MulMonotone(1, q, b);
      assert false;
    }
  }

  /* Division by a positive divisor is monotone. */
  lemma TruncDivMonotone(a1: int, a2: int, b: int)
    requires b > 0
    requires a1 <= a2
    ensures TruncDiv(a1, b) <= TruncDiv(a2, b)
  {
    var q1 := TruncDiv(a1, b);
    var q2 := TruncDiv(a2, b);
    TruncDivSign(a1, b);
    TruncDivSign(a2, b);
    if 0 <= a1 {
      // q1 * b <= a1 <= a2 < (q2 + 1) * b
      if q2 + 1 <= q1 {
        MulMonotone(q2 + 1, q1, b);
        assert false;
      }
    } else if a2 < 0 {
      // (q1 - 1) * b < a1 <= a2 <= q2 * b
      if q2 <= q1 - 1 {
        MulMonotone(q2, q1 - 1, b);
        assert false;
      }
    }
  }

  /** The unchecked C# `(byte)` cast: the low eight bits of the two's
      complement representation, i.e. the value modulo 256. */
  function ToByte(x: int): (r: Byte)
    ensures 0 <= x < 0x100 ==> r == x
    ensures x < 0 && -0x100 <= x ==> r == x + 0x100
  {
    x % 0x100
  }

  /* Values 256 apart are cast to the same byte. */
  lemma ToBytePeriodic(x: int, k: int)
    ensures ToByte(x + 0x100 * k) == ToByte(x)
  {
  }
}
