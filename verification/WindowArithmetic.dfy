/** Division by a positive window length: the handful of facts the limiter's bounds rest on. */
module WindowArithmetic {

  type Secs = w: int | w > 0 witness 1

  lemma MulStep(a: int, b: int, w: Secs)
    requires a < b
    ensures a * w + w <= b * w
  {
    assert b * w - a * w == (b - a) * w;
    assert (b - a - 1) * w >= 0;
  }

  lemma MulMonotone(a: int, b: int, w: nat)
    requires a <= b
    ensures a * w <= b * w
  {
    assert b * w - a * w == (b - a) * w;
  }

  lemma DivUnique(a: int, q: int, w: Secs)
    requires q * w <= a < q * w + w
    ensures a / w == q
  {
    assert a == a / w * w + a % w;
    if a / w < q {
      MulStep(a / w, q, w);
      assert false;
    } else if a / w > q {
      MulStep(q, a / w, w);
      assert false;
    }
  }

  lemma DivMonotone(a: int, b: int, w: Secs)
    requires a <= b
    ensures a / w <= b / w
  {
    assert a == a / w * w + a % w && b == b / w * w + b % w;
    if b / w < a / w {
      MulStep(b / w, a / w, w);
      assert false;
    }
  }

  lemma MultipleHasNoRemainder(q: int, w: Secs)
    ensures q * w / w == q && q * w % w == 0
  {
    DivUnique(q * w, q, w);
    assert q * w == q * w / w * w + q * w % w;
  }

  /** Two aligned windows that start in order do not overlap. */
  lemma AlignedApart(a: int, b: int, w: Secs)
    requires a % w == 0 && b % w == 0 && a < b
    ensures a + w <= b
  {
    assert a == a / w * w && b == b / w * w;
    if b / w <= a / w {
      MulMonotone(b / w, a / w, w);
      assert false;
    }
    MulStep(a / w, b / w, w);
  }

  lemma ShiftAligned(start: int, w: Secs)
    requires start % w == 0
    ensures (start + w) % w == 0 && (start - w) % w == 0
  {
    assert start == start / w * w;
    assert start + w == (start / w + 1) * w && start - w == (start / w - 1) * w;
    MultipleHasNoRemainder(start / w + 1, w);
    MultipleHasNoRemainder(start / w - 1, w);
  }

  lemma ScaledDifference(d: real, r: real, w: real)
    requires w > 0.0 && d * w == r && 0.0 <= r < w
    ensures 0.0 <= d < 1.0
  {
  }

  lemma FloorOfQuotient(a: int, w: Secs)
    ensures (a as real / w as real).Floor == a / w
  {
    var q, r := a / w, a % w;
    var x := a as real / w as real;
    assert a == q * w + r;
    assert (q * w) as real == q as real * w as real;
    assert x * w as real == a as real;
    assert (x - q as real) * w as real == r as real;
    ScaledDifference(x - q as real, r as real, w as real);
  }

  lemma DivBounds(p: nat, a: nat, w: Secs)
    requires a <= w
    ensures 0 <= p * a / w <= p
  {
    MulMonotone(a, w, p);
    assert p * a <= p * w;
    MultipleHasNoRemainder(p, w);
    DivMonotone(p * a, p * w, w);
    DivMonotone(0, p * a, w);
  }

  function CeilDiv(a: nat, w: Secs): nat {
    (a + w - 1) / w
  }

  /** p requests before, of weight p(w-e)/w, leave at most ceil(pe/w) of themselves outside that weight. */
  lemma WeightSplit(p: nat, e: nat, w: Secs)
    requires e <= w
    ensures p - p * (w - e) / w <= CeilDiv(p * e, w)
  {
    var kept, spent := p * (w - e), p * e;
    assert kept + spent == p * w;
    assert kept == kept / w * w + kept % w;
    var up := spent + w - 1;
    assert up == up / w * w + up % w;
    assert (p - kept / w) * w == p * w - kept / w * w;
    if up / w < p - kept / w {
      MulStep(up / w, p - kept / w, w);
      assert false;
    }
  }

  /** ... and exactly that many, since kept and spent shares make up the whole. */
  lemma WeightSplitExact(p: nat, e: nat, w: Secs)
    requires e <= w
    ensures p - p * (w - e) / w == CeilDiv(p * e, w)
  {
    WeightSplit(p, e, w);
    var kept, spent := p * (w - e), p * e;
    assert kept + spent == p * w;
    assert kept == kept / w * w + kept % w;
    var up := spent + w - 1;
    assert up == up / w * w + up % w;
    assert (p - kept / w) * w == p * w - kept / w * w;
    if up / w > p - kept / w {
      MulStep(p - kept / w, up / w, w);
      assert false;
    }
  }

  lemma SlidingArithmetic(previous: nat, allowedBefore: nat, allowedNow: nat, limit: nat, e: nat, w: Secs)
    requires e <= w && allowedBefore <= previous && allowedBefore <= limit
    requires allowedNow == 0 || allowedNow + previous * (w - e) / w <= limit
    ensures allowedBefore + allowedNow <= limit + CeilDiv(limit * e, w)
  {
    if allowedNow > 0 {
      WeightSplit(allowedBefore, e, w);
      MulMonotone(allowedBefore, previous, w - e);
      DivMonotone(allowedBefore * (w - e), previous * (w - e), w);
      MulMonotone(allowedBefore, limit, e);
      DivMonotone(allowedBefore * e + w - 1, limit * e + w - 1, w);
    }
  }
}
