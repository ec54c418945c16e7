/** The two pieces of JavaScript number arithmetic the controller uses, on
    integer operands: the `%` operator and `Math.abs`. JavaScript's `%`
    truncates toward zero, so its result takes the sign of the dividend;
    Dafny's `%` is Euclidean and never negative. */
module JsArith {

  function Abs(x: int): (r: nat)
    ensures r == x || r == -x
  {
    if x < 0 then -x else x
  }

  /** `a % n` as JavaScript computes it, for a positive divisor. The four
      postconditions determine the truncating remainder uniquely. */
  function Rem(a: int, n: int): (r: int)
    requires n > 0
    ensures -n < r < n
    ensures a >= 0 ==> r >= 0
    ensures a <= 0 ==> r <= 0
    ensures (a - r) % n == 0
  {
    if a >= 0 then
      var q := a / n;
      assert a == n * q + a % n;
      MultipleMod(q, n);
      a % n
    else
      var q := (-a) / n;
      var m := (-a) % n;
      assert -a == n * q + m;
      assert a + m == n * -q;
      MultipleMod(-q, n);
      -m
  }

  /** On a non-negative dividend the two remainders coincide. */
  lemma RemAgreesOnNonNegative(a: int, n: int)
    requires n > 0 && a >= 0
    ensures Rem(a, n) == a % n
  {
  }

  /** On a negative dividend that is not a multiple of `n` they differ by
      exactly `n`: JavaScript answers -1 where Dafny answers n - 1. */
  lemma RemDiffersOnNegative(a: int, n: int)
    requires n > 0 && a < 0 && a % n != 0
    ensures Rem(a, n) == a % n - n
  {
    var r := Rem(a, n);
    if r == 0 {
      UniqueRemainder(a, 0, n);
      assert false;
    }
    var k := (a - r) / n;
    assert a - r == n * k;
    assert a - (r + n) == n * (k - 1);
    MultipleMod(k - 1, n);
    UniqueRemainder(a, r + n, n);
  }

  /** Every multiple of `n` leaves remainder zero. */
  lemma MultipleMod(q: int, n: int)
    requires n > 0
    ensures (n * q) % n == 0
  {
    var x := n * q;
    var d := x / n;
    var m := x % n;
    assert x == n * d + m;
    var e := q - d;
    assert n * e == n * q - n * d;
    assert n * e == m;
  }

  /** A value in [0, n) congruent to `a` is `a % n`. */
  lemma UniqueRemainder(a: int, r: int, n: int)
    requires n > 0 && 0 <= r < n && (a - r) % n == 0
    ensures r == a % n
  {
    var x := a - r;
    var q := x / n;
    assert x == n * q;
    var d := a / n;
    var m := a % n;
    assert a == n * d + m;
    var e := q - d;
    assert n * e == n * q - n * d;
    assert n * e == m - r;
  }
}
