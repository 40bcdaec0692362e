/** Facts about integer division by a variable. */
module DivLemmas {

  lemma MulMonotone(k: nat, a: int, b: int)
    requires a <= b
    ensures k * a <= k * b
  {
  }

  lemma DivMod(n: nat, d: nat)
    requires d > 0
    ensures n == d * (n / d) + n % d
  {
  }

  lemma DivBelow(n: nat, d: nat, q: nat)
    requires d > 0 && n < d * q
    ensures n / d < q
  {
    DivMod(n, d);
    if n / d >= q {
      MulMonotone(d, q, n / d);
      assert false;
    }
  }

  lemma DivAtLeast(n: nat, d: nat, q: nat)
    requires d > 0 && d * q <= n
    ensures q <= n / d
  {
    DivMod(n, d);
    assert d * (n / d + 1) == d * (n / d) + d;
    if n / d < q {
      MulMonotone(d, n / d + 1, q);
      assert false;
    }
  }

  lemma DivMonotone(a: nat, b: nat, d: nat)
    requires a <= b && d > 0
    ensures a / d <= b / d
  {
    DivMod(a, d);
    DivAtLeast(b, d, a / d);
  }

  /** `part / whole` of a span, rounded to nearest. */
  function RoundedShare(part: nat, span: nat, whole: nat): nat
    requires whole > 0
  {
    (part * span + whole / 2) / whole
  }

  /** A proper share of a span stays within the span. */
  lemma RoundedShareInSpan(part: nat, span: nat, whole: nat)
    requires part < whole
    ensures RoundedShare(part, span, whole) <= span
  {
    var n := part * span + whole / 2;
    MulMonotone(span, part, whole - 1);
    assert span * (whole - 1) == span * whole - span;
    assert whole * (span + 1) == span * whole + whole;
    assert part * span == span * part;
    DivBelow(n, whole, span + 1);
  }

  /** Rounded shares of a span are ordered like the parts. */
  lemma RoundedShareMonotone(p: nat, q: nat, span: nat, whole: nat)
    requires p <= q && whole > 0
    ensures RoundedShare(p, span, whole) <= RoundedShare(q, span, whole)
  {
    MulMonotone(span, p, q);
    assert p * span == span * p && q * span == span * q;
    DivMonotone(p * span + whole / 2, q * span + whole / 2, whole);
  }
}
