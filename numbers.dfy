/** Numeric helpers for the rounding and truncation the source takes from Python's builtins. */
module Numbers {

  /** Python's `round(y)`: round to the nearest integer, ties to the even one. */
  function RoundHalfEven(y: real): (r: int)
    ensures (r as real) - 0.5 <= y <= (r as real) + 0.5
    ensures y - (y.Floor as real) == 0.5 ==> r % 2 == 0
  {
    var f := y.Floor;
    var d := y - f as real;
    if d < 0.5 then f
    else if d > 0.5 then f + 1
    else if f % 2 == 0 then f else f + 1
  }

  lemma RoundOfInteger(n: int)
    ensures RoundHalfEven(n as real) == n
  {
  }

  lemma RoundMonotone(a: real, b: real)
    requires a <= b
    ensures RoundHalfEven(a) <= RoundHalfEven(b)
  {
    var fa, fb := a.Floor, b.Floor;
    if fa < fb {
      assert RoundHalfEven(a) <= fa + 1 <= fb <= RoundHalfEven(b);
    }
  }

  /** Rounding a value that lies between two integers stays between them. */
  lemma RoundBetween(y: real, lo: int, hi: int)
    requires lo as real <= y <= hi as real
    ensures lo <= RoundHalfEven(y) <= hi
  {
    RoundMonotone(lo as real, y);
    RoundMonotone(y, hi as real);
    RoundOfInteger(lo);
    RoundOfInteger(hi);
  }

  /** Python's `round(x, 2)` on the exact value. */
  function Round2(x: real): (r: real)
    ensures -0.005 <= r - x <= 0.005
  {
    RoundHalfEven(x * 100.0) as real / 100.0
  }

  /** Python's `int(x)` on a float: truncation toward zero. */
  function Trunc(x: real): (r: int)
    ensures 0.0 <= x ==> 0 <= r && r as real <= x < r as real + 1.0
    ensures x < 0.0 ==> r <= 0 && r as real - 1.0 < x <= r as real
  {
    if 0.0 <= x then x.Floor else -((-x).Floor)
  }

  /** `max(lo, min(hi, x))` as the source writes its clamps. */
  function Clamp(x: real, lo: real, hi: real): (r: real)
    requires lo <= hi
    ensures lo <= r <= hi
    ensures lo <= x <= hi ==> r == x
    ensures x < lo ==> r == lo
    ensures hi < x ==> r == hi
  {
    var m := if x < hi then x else hi;
    if lo < m then m else lo
  }
}
