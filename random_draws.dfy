/** The game's only source of nondeterminism, Math.random(), supplied by the
    caller. A draw is a number in [0, 1), represented exactly as a fraction
    num / den with num < den; floating-point rounding is not modelled. */
module RandomDraws {

  datatype Fraction = Fraction(num: nat, den: nat)

  /** A value Math.random() may return. */
  type Draw = f: Fraction | f.num < f.den witness Fraction(0, 1)

  /** Math.floor(r * n) for a draw r: the largest k with k <= r * n. */
  function FloorTimes(r: Draw, n: nat): (k: nat)
    ensures k * r.den <= r.num * n < (k + 1) * r.den
    ensures n > 0 ==> k < n
  {
    var k := r.num * n / r.den;
    FloorTimesBounds(r.num, r.den, n, k);
    k
  }

  lemma FloorTimesBounds(num: nat, den: nat, n: nat, k: nat)
    requires num < den && k == num * n / den
    ensures k * den <= num * n < (k + 1) * den
    ensures n > 0 ==> k < n
  {
    DivBounds(num * n, den);
    if n > 0 {
      MulStrict(num, den, n);
      if k >= n {
        MulMono(n, k, den);
      }
    }
  }

  lemma DivBounds(a: nat, d: nat)
    requires d > 0
    ensures (a / d) * d <= a < (a / d + 1) * d
  {
  }

  lemma MulStrict(a: nat, b: nat, n: nat)
    requires a < b && n > 0
    ensures a * n < b * n
  {
  }

  lemma MulMono(a: nat, b: nat, c: nat)
    requires a <= b
    ensures a * c <= b * c
  {
  }
}
