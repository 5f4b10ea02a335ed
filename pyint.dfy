/** Python's integer division, which rounds toward negative infinity. */
module PyInt {

  /** Python's `a // b`. Dafny's `/` is Euclidean, which agrees with floor
      division only when `b` is positive. */
  function FloorDiv(a: int, b: int): (q: int)
    requires b != 0
    ensures b > 0 ==> q * b <= a < q * b + b
    ensures b < 0 ==> q * b + b < a <= q * b
  {
    if b > 0 then a / b else (-a) / (-b)
  }

  predicate IsU16(v: int) { 0 <= v < 0x1_0000 }

  predicate IsU32(v: int) { 0 <= v < 0x1_0000_0000 }

  /** Multiplying by a positive number keeps the order. */
  lemma MulMonotone(a: int, b: int, u: int)
    requires u > 0 && a <= b
    ensures a * u <= b * u
  {
  }

  /** A multiple of `u` leaves no remainder. */
  lemma MultipleHasNoRemainder(k: int, u: int)
    requires u != 0
    ensures (k * u) % u == 0
  {
    var q, m := (k * u) / u, (k * u) % u;
    assert m == (k - q) * u;
    var d, v := k - q, if u > 0 then u else -u;
    assert 0 <= m < v && m == d * u;
    if d >= 1 {
      MulMonotone(1, d, v);
    } else if d <= -1 {
      MulMonotone(d, -1, v);
    }
  }
}
