/** The exact overflow test of ThirdParty/CLI11/CLI11.hpp: overflowCheck and checked_multiply. */
module CliMultiply {

  /** An integer type: signed in two's complement, or unsigned. */
  datatype Width = Width(signed: bool, max: nat)

  function Lowest(w: Width): int
  {
    var m: int := w.max;
    if w.signed then -m - 1 else 0
  }

  predicate InRange(w: Width, x: int)
  {
    Lowest(w) <= x <= w.max
  }

  function Abs(x: int): nat
  {
    if x < 0 then -x else x
  }

  /** C++ division truncates toward zero. */
  function Quotient(x: int, y: int): int
    requires y != 0
  {
    if (x < 0) == (y < 0) then Abs(x) / Abs(y) else -(Abs(x) / Abs(y))
  }

  /** The two overloads of overflowCheck(). */
  predicate OverflowCheck(w: Width, a: int, b: int)
    requires a != 0
  {
    if !w.signed then Quotient(w.max, a) < b
    else if (a > 0) == (b > 0) then Quotient(w.max, Abs(a)) < Abs(b)
    else
      var size: int := Abs(b);
      Quotient(Lowest(w), Abs(a)) > -size
  }

  lemma QuotientBelow(m: nat, x: nat, y: nat)
    requires x > 0
    ensures m / x < y <==> x * y > m
  {
    var q := m / x;
    assert x * q <= m < x * (q + 1);
    if q < y {
      MulMonotone(x, q + 1, y);
    } else {
      MulMonotone(x, y, q);
    }
  }

  lemma MulMonotone(x: nat, y: nat, z: nat)
    requires y <= z
    ensures x * y <= x * z
  {
  }

  lemma SignOfProduct(a: int, b: int)
    requires a != 0 && b != 0
    ensures a * b == if (a > 0) == (b > 0) then Abs(a) * Abs(b) else -(Abs(a) * Abs(b))
  {
  }

  lemma OutOfRangeAtLowest(w: Width, a: int, b: int)
    requires w.signed && a == Lowest(w) && b != 0 && b != 1
    ensures !InRange(w, a * b)
  {
    var m := w.max + 1;
    if b > 0 {
      MulMonotone(m, 2, b);
      assert a * b == -(m * b);
    } else {
      MulMonotone(m, 1, -b);
      assert a * b == m * -b;
    }
  }

  lemma CheckIsExact(w: Width, a: int, b: int)
    requires InRange(w, a) && InRange(w, b) && a != 0 && b != 0
    ensures OverflowCheck(w, a, b) <==> !InRange(w, a * b)
  {
    SignOfProduct(a, b);
    if !w.signed || (a > 0) == (b > 0) {
      QuotientBelow(w.max, Abs(a), Abs(b));
    } else {
      QuotientBelow(w.max + 1, Abs(a), Abs(b));
    }
  }

  /** checked_multiply(): for every integer type it succeeds exactly when the product fits, and then
      the first argument holds it; otherwise that argument is as before. */
  method CheckedMultiply(w: Width, a: int, b: int) returns (ok: bool, a': int)
    requires InRange(w, a) && InRange(w, b)
    ensures ok <==> InRange(w, a * b)
    ensures a' == if ok then a * b else a
  {
    a' := a;
    if a == 0 || b == 0 || a == 1 || b == 1 {
      a' := a * b;
      return true, a';
    }
    if a == Lowest(w) || b == Lowest(w) {
      if a == Lowest(w) {
        OutOfRangeAtLowest(w, a, b);
      } else {
        OutOfRangeAtLowest(w, b, a);
        assert b * a == a * b;
      }
      return false, a';
    }
    CheckIsExact(w, a, b);
    if OverflowCheck(w, a, b) {
      return false, a';
    }
    a' := a * b;
    ok := true;
  }
}
