/** The fixed-width integers of the C++ sources, as ranges of mathematical integers, and the two
    operators whose C++ meaning differs from Dafny's: conversion to a narrower type, which keeps the
    value modulo a power of two, and division, which truncates towards zero. */
module MachineInts {
  const INT_MIN: int := -0x8000_0000
  const INT_MAX: int := 0x7fff_ffff

  type short = x: int | -0x8000 <= x < 0x8000
  type byte = x: int | 0 <= x < 0x100
  type int32 = x: int | -0x8000_0000 <= x < 0x8000_0000

  /** static_cast<unsigned> */
  function ToUnsigned(x: int): nat {
    x % 0x1_0000_0000
  }

  /** static_cast<int> */
  function ToInt(x: int): int32 {
    (x + 0x8000_0000) % 0x1_0000_0000 - 0x8000_0000
  }

  /** static_cast<short> */
  function ToShort(x: int): short {
    (x + 0x8000) % 0x1_0000 - 0x8000
  }

  /** static_cast<unsigned char> */
  function ToByte(x: int): byte {
    x % 0x100
  }

  /** The quotient of the C++ operator / for a positive divisor. */
  function Quotient(n: int, d: int): int
    requires 0 < d
  {
    if 0 <= n then n / d else -(-n / d)
  }

  /** The remainder of the C++ operator % for a positive divisor: it has the sign of the dividend. */
  function Remainder(n: int, d: int): int
    requires 0 < d
  {
    if 0 <= n then n % d else -(-n % d)
  }

  /** Conversions keep the value modulo a power of two; with the ranges of the types this determines them. */
  lemma {:induction false} ConversionsKeepResidue(x: int)
    ensures 0 <= ToUnsigned(x) < 0x1_0000_0000 && (ToUnsigned(x) - x) % 0x1_0000_0000 == 0
    ensures (ToInt(x) - x) % 0x1_0000_0000 == 0
    ensures (ToShort(x) - x) % 0x1_0000 == 0
    ensures (ToByte(x) - x) % 0x100 == 0
  {
    QuotientUnique(ToUnsigned(x) - x, 0x1_0000_0000, -(x / 0x1_0000_0000), 0);
    QuotientUnique(ToInt(x) - x, 0x1_0000_0000, -((x + 0x8000_0000) / 0x1_0000_0000), 0);
    QuotientUnique(ToShort(x) - x, 0x1_0000, -((x + 0x8000) / 0x1_0000), 0);
    QuotientUnique(ToByte(x) - x, 0x100, -(x / 0x100), 0);
  }

  /** Division truncates: the remainder is smaller than the divisor and has the sign of the dividend. */
  lemma {:induction false} DivisionTruncates(n: int, d: int)
    requires 0 < d
    ensures n == Quotient(n, d) * d + Remainder(n, d)
    ensures if n >= 0 then 0 <= Remainder(n, d) < d else -d < Remainder(n, d) <= 0
  {
    if n < 0 {
      assert -n == (-n / d) * d + -n % d;
    }
  }

  /** The shift that the sources apply to negative dividends turns truncation into rounding down. */
  lemma {:induction false} ShiftedQuotientIsFloor(n: int, d: int)
    requires 0 < d
    ensures Quotient(if n >= 0 then n else n - (d - 1), d) == n / d
  {
    if n < 0 {
      var q := n / d;
      var r := n % d;
      assert n == q * d + r && 0 <= r < d;
      var k := -(n - (d - 1));
      assert k == (-q) * d + (d - 1 - r);
      QuotientUnique(k, d, -q, d - 1 - r);
    }
  }

  lemma {:induction false} QuotientUnique(n: int, d: int, q: int, r: int)
    requires 0 < d && 0 <= r < d
    requires n == q * d + r
    ensures n / d == q && n % d == r
  {
    var q' := n / d;
    if q < q' {
      MulMonotone(q + 1, q', d);
    } else if q' < q {
      MulMonotone(q' + 1, q, d);
    }
  }

  lemma {:induction false} MulMonotone(a: int, b: int, d: int)
    requires a <= b && 0 < d
    ensures a * d <= b * d
  {
  }

  /** Moving the dividend by one moves the quotient exactly at multiples of the divisor. */
  lemma {:induction false} QuotientStep(n: int, d: int)
    requires 0 < d
    ensures n / d == (n - 1) / d + if n % d == 0 then 1 else 0
  {
    if n % d == 0 {
      assert (n / d - 1) * d == n - d;
      QuotientUnique(n - 1, d, n / d - 1, d - 1);
    } else {
      QuotientUnique(n - 1, d, n / d, n % d - 1);
    }
  }

  lemma {:induction false} RemainderZero(n: int, d: int)
    requires 0 < d
    ensures Remainder(n, d) == 0 <==> n % d == 0
  {
    if n < 0 {
      if n % d == 0 {
        assert -n == (-(n / d)) * d + 0;
        QuotientUnique(-n, d, -(n / d), 0);
      } else if -n % d == 0 {
        assert n == (-(-n / d)) * d + 0;
        QuotientUnique(n, d, -(-n / d), 0);
      }
    }
  }

  /** Unsigned wrap-around in the middle of a sum is undone by the final conversion to int. */
  lemma {:induction false} WrappedSum(a: int, b: int)
    requires INT_MIN <= a + b <= INT_MAX
    ensures ToInt(ToUnsigned(a + ToUnsigned(b))) == a + b
  {
    var k := b / 0x1_0000_0000;
    assert ToUnsigned(b) == b - k * 0x1_0000_0000;
    var l := (a + ToUnsigned(b)) / 0x1_0000_0000;
    assert ToUnsigned(a + ToUnsigned(b)) == a + b - (k + l) * 0x1_0000_0000;
  }

  lemma {:induction false} NarrowingIsIdentity(x: nat)
    ensures x < 0x1_0000_0000 ==> ToUnsigned(x) == x
    ensures x < 0x100 ==> ToByte(x) == x
  {
  }

  lemma {:induction false} ShortIsIdentity(y: int)
    requires -0x8000 <= y < 0x8000
    ensures ToShort(y) == y
  {
  }
}
