/** The two `f64` operations the frame-advance rule relies on, over exact reals:
    the saturating cast `as usize` and the remainder operator `%`. */
module FloatOps {

  /** `x.trunc()`: rounds toward zero. */
  function Trunc(x: real): (t: int)
    ensures 0.0 <= x ==> t == x.Floor
    ensures x < 0.0 ==> x <= t as real < x + 1.0
  {
    if 0.0 <= x then x.Floor else -((-x).Floor)
  }

  /** `x as usize`: drops the fraction (rounding toward zero) and saturates
      negative values to 0. The upper saturation at `usize::MAX` is not modelled. */
  function ToUsize(x: real): (n: nat)
    ensures x <= 0.0 ==> n == 0
    ensures 0.0 <= x ==> n as real <= x < n as real + 1.0
  {
    if x <= 0.0 then 0 else x.Floor
  }

  /** `x % y` on `f64`: the remainder of the division truncated toward zero,
      so it carries the sign of the dividend. */
  function Rem(x: real, y: real): (r: real)
    requires 0.0 < y
    ensures 0.0 <= x ==> 0.0 <= r < y
    ensures x < 0.0 ==> -y < r <= 0.0
    ensures 0.0 <= x ==> r == x - (x / y).Floor as real * y
    ensures x < 0.0 ==> r == x + (-x / y).Floor as real * y
  {
    var q := Trunc(x / y);
    QuotientBounds(x, y, q);
    assert -(x / y) == -x / y;
    x - q as real * y
  }

  /** Multiplying the truncated quotient back by the divisor lands within one
      divisor of the dividend, on the side of zero. */
  lemma QuotientBounds(x: real, y: real, q: int)
    requires 0.0 < y && q == Trunc(x / y)
    ensures 0.0 <= x ==> q as real * y <= x < q as real * y + y
    ensures x < 0.0 ==> x <= q as real * y < x + y
  {
    DivMul(x, y);
    if 0.0 <= x {
      ScaleWithinOne(x, y, x / y, q as real);
    } else {
      ScaleWithinOne(q as real * y, y, q as real, x / y);
    }
  }

  lemma DivMul(x: real, y: real)
    requires 0.0 < y
    ensures x / y * y == x
  {
  }

  /** If `z` lies in `[a, a + 1)` then `z * y` lies in `[a * y, a * y + y)`. */
  lemma ScaleWithinOne(x: real, y: real, z: real, a: real)
    requires 0.0 < y && z * y == x && a <= z < a + 1.0
    ensures a * y <= x < a * y + y
  {
    var d := z - a;
    assert 0.0 <= d * y < y;
    Linear(x, z * y, a * y, d * y, y);
  }

  /** The linear step of `ScaleWithinOne`, with each product passed as a value. */
  lemma Linear(x: real, zy: real, ay: real, dy: real, y: real)
    requires zy == x && dy == zy - ay && 0.0 <= dy < y
    ensures ay <= x < ay + y
  {
  }
}
