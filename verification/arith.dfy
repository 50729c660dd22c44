/** Facts of nonlinear integer arithmetic that the driver's layout
    computations (sectors of a fixed size laid end to end) rest on. */
module Arith {

  lemma MulMono(n: nat, a: nat, b: nat)
    requires a <= b
    ensures n * a <= n * b
  {
  }

  lemma MulMonoInt(f: int, a: int, b: int)
    requires f >= 0 && a <= b
    ensures a * f <= b * f
  {
  }

  /** A multiple of `f` strictly between -f and f is zero. */
  lemma MulSmall(d: int, f: int, e: int)
    requires f >= 1 && 0 - f < e < f && d * f == e
    ensures d == 0
  {
    if d >= 1 {
      MulMonoInt(f, 1, d);
    } else if d <= -1 {
      MulMonoInt(f, d, -1);
    }
  }

  /** Quotient and remainder are the only such pair. */
  lemma DivModUnique(p: nat, f: nat, q: nat, r: nat)
    requires f >= 1 && r < f && p == q * f + r
    ensures p / f == q && p % f == r
  {
    var q' := p / f;
    var r' := p % f;
    assert p == q' * f + r';
    assert (q - q') * f == q * f - q' * f;
    MulSmall(q - q', f, r' - r);
  }

  lemma DivNat(p: nat, f: nat)
    requires f >= 1
    ensures 0 <= p / f <= p
  {
    DivModSplit(p, f);
    MulMonoInt(p / f, 1, f);
  }

  lemma DivModSplit(p: nat, f: nat)
    requires f >= 1
    ensures p == (p / f) * f + p % f
  {
  }

  /** Rounding down to a multiple of `f`. */
  lemma RoundDown(p: nat, f: nat)
    requires f >= 1
    ensures p % f <= p
    ensures p - p % f == (p / f) * f && (p - p % f) % f == 0
  {
    DivModSplit(p, f);
    DivModUnique(p - p % f, f, p / f, 0);
  }

  lemma ModSmall(p: nat, f: nat)
    requires p < f
    ensures p % f == p && p / f == 0
  {
    DivModUnique(p, f, 0, p);
  }

  lemma DivBelow(p: nat, f: nat, n: nat)
    requires f >= 1 && p < n * f
    ensures p / f < n
  {
  }

  /** Byte `j` of the `i`-th `f`-byte record is below `n` records. */
  lemma RecordIndex(f: nat, n: nat, i: nat, j: nat)
    requires j < f && i < n
    ensures i * f + j < n * f
  {
    assert i * f + j < (i + 1) * f;
    MulMonoInt(f, i + 1, n);
  }
}
