/** C++ `int` arithmetic that differs from Dafny's.

    Dafny's `/` and `%` are Euclidean; C++ truncates the quotient toward
    zero, so the remainder takes the sign of the dividend. */
module CppArith {

  const INT_MIN: int := -2147483648
  const INT_MAX: int := 2147483647

  function Abs(x: int): nat { if x < 0 then -x else x }

  /** The magnitude of a truncated quotient. */
  function Quot(a: int, b: int): nat
    requires b != 0
  {
    Abs(a) / Abs(b)
  }

  /** C++ `a / b`: the magnitude is the floor of |a| / |b| and the sign
      is negative exactly when the operands' signs differ. */
  function TruncDiv(a: int, b: int): (q: int)
    requires b != 0
    ensures Abs(q) == Quot(a, b)
    ensures q == 0 || ((q < 0) <==> ((a < 0) != (b < 0)))
  {
    var m: int := Quot(a, b);
    if (a < 0) != (b < 0) then -m else m
  }

  /** C++ `a % b`: what is left after the truncated quotient; it is
      smaller than the divisor and takes the dividend's sign. */
  function TruncMod(a: int, b: int): (r: int)
    requires b != 0
    ensures a == b * TruncDiv(a, b) + r
    ensures Abs(r) < Abs(b)
    ensures r == 0 || ((r < 0) <==> (a < 0))
  {
    TruncModFacts(a, b);
    a - b * TruncDiv(a, b)
  }

  lemma TruncModFacts(a: int, b: int)
    requires b != 0
    ensures Abs(a - b * TruncDiv(a, b)) < Abs(b)
    ensures var r := a - b * TruncDiv(a, b); r == 0 || ((r < 0) <==> (a < 0))
  {
    var x: int, y: int := Abs(a), Abs(b);
    var m: int := Quot(a, b);
    var q := TruncDiv(a, b);
    assert x == y * m + x % y && 0 <= x % y < y;
    if a >= 0 && b > 0 {
      assert q == m && b * q == y * m;
    } else if a >= 0 {
      assert q == -m && b * q == y * m;
    } else if b > 0 {
      assert q == -m && b * q == -(y * m);
    } else {
      assert q == m && b * q == -(y * m);
    }
  }

  /** On non-negative operands both agree with Dafny's operators. */
  lemma TruncAgreesOnNatural(a: int, b: int)
    requires a >= 0 && b > 0
    ensures TruncDiv(a, b) == a / b && TruncMod(a, b) == a % b
  {
  }
}
