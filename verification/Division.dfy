/** Euclidean division by a positive variable, in the few forms the other modules need. */
module Division {
  lemma MulAtLeast(k: int, d: nat)
    requires k >= 1
    ensures k * d >= d
  {
    assert k * d == (k - 1) * d + d;
  }

  lemma QuotientsAgree(d: nat, q: int, r: nat, q': int, r': nat)
    requires r < d && r' < d && q * d + r == q' * d + r'
    ensures q == q' && r == r'
  {
    assert (q - q') * d == r' - r;
    if q > q' {
      MulAtLeast(q - q', d);
    } else if q < q' {
      assert (q' - q) * d == r - r';
      MulAtLeast(q' - q, d);
    }
  }

  lemma DivUnique(a: nat, d: nat, q: nat, r: nat)
    requires r < d && a == q * d + r
    ensures a / d == q && a % d == r
  {
    var q', r' := a / d, a % d;
    assert a == q' * d + r';
    QuotientsAgree(d, q, r, q', r');
  }

  lemma DivSmall(a: nat, d: nat)
    requires a < d
    ensures a / d == 0 && a % d == a
  {
    DivUnique(a, d, 0, a);
  }

  lemma DivStep(a: nat, d: nat)
    requires 0 < d <= a
    ensures a / d == (a - d) / d + 1 && a % d == (a - d) % d
    ensures a / d * d == (a - d) / d * d + d
  {
    var q, r := (a - d) / d, (a - d) % d;
    assert (q + 1) * d == q * d + d;
    assert a - d == q * d + r;
    DivUnique(a, d, q + 1, r);
  }

  lemma DivParts(a: nat, d: nat)
    requires d > 0
    ensures a == a / d * d + a % d
    ensures 0 <= a / d * d <= a
  {
    MulNonNegative(a / d, d);
  }

  lemma MulNonNegative(k: nat, d: nat)
    ensures k * d >= 0
  {
  }

  /** Reducing before adding changes nothing. */
  lemma ModAdd(a: nat, b: nat, d: nat)
    requires d > 0
    ensures (a % d + b) % d == (a + b) % d
  {
    var q: nat, r: nat := (a % d + b) / d, (a % d + b) % d;
    var qa: nat := a / d;
    assert (qa + q) * d == qa * d + q * d;
    DivUnique(a + b, d, qa + q, r);
  }
}
