/** Division facts by a positive divisor, used to move between flat positions and slices. */
module Division {
  import opened Common

  lemma MulMonotone(a: nat, b: nat, d: nat)
    requires a <= b
    ensures a * d <= b * d
  {
    assert (b - a) * d >= 0;
    assert b * d == a * d + (b - a) * d;
  }

  lemma MulGap(a: nat, b: nat, d: nat)
    requires a < b
    ensures a * d + d <= b * d
  {
    assert (a + 1) * d == a * d + d;
    MulMonotone(a + 1, b, d);
  }

  lemma QuotientRemainder(p: nat, d: pos)
    ensures p == p / d * d + p % d
    ensures p % d < d
  {
  }

  /** The quotient and the remainder are the only numbers that fit. */
  lemma QuotientUnique(p: nat, d: pos, q: nat, r: nat)
    requires p == q * d + r && r < d
    ensures p / d == q && p % d == r
  {
    QuotientRemainder(p, d);
    var k := p / d;
    if k < q {
      MulGap(k, q, d);
    } else if q < k {
      MulGap(q, k, d);
    }
  }

  lemma DivMonotone(p: nat, q: nat, d: pos)
    requires p <= q
    ensures p / d <= q / d
  {
    QuotientRemainder(p, d);
    QuotientRemainder(q, d);
    if q / d < p / d {
      MulGap(q / d, p / d, d);
    }
  }

  /** Position `p` lies in block `q` exactly when it is between the ends of that block. */
  lemma InBlock(p: nat, d: pos, q: nat)
    ensures p / d == q <==> q * d <= p < q * d + d
  {
    QuotientRemainder(p, d);
    if q * d <= p < q * d + d {
      QuotientUnique(p, d, q, p - q * d);
    }
  }
}
