module Division {

  /** A quotient and a remainder in range are those of the division. */
  lemma ModUnique(x: int, q: int, m: nat)
    requires m > 0 && q * m <= x < q * m + m
    ensures x % m == x - q * m && x / m == q
  {
    var d := q - x / m;
    assert x - q * m == x % m - d * m;
    assert d >= 1 ==> d * m >= m;
    assert d <= -1 ==> d * m <= -1 * m;
  }
}
