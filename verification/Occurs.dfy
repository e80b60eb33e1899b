/**
  Occurrence bounds (`MinOccurs` and `MaxOccurs`). Counts are naturals: the
  wrap-around of the source's `usize` is not modelled.
 */
module Occurs {

  datatype MaxOccurs = Unbounded | Bounded(limit: nat) {

    function Add(rhs: MaxOccurs): MaxOccurs {
      if Bounded? && rhs.Bounded? then Bounded(limit + rhs.limit) else Unbounded
    }

    function Mul(rhs: MaxOccurs): MaxOccurs {
      if Bounded? && rhs.Bounded? then Bounded(limit * rhs.limit) else Unbounded
    }

    predicate Le(rhs: MaxOccurs) {
      rhs.Unbounded? || (Bounded? && limit <= rhs.limit)
    }

    function Max(rhs: MaxOccurs): MaxOccurs {
      if Le(rhs) then rhs else this
    }

    /** `n` occurrences do not exceed this bound. */
    predicate Allows(n: nat) {
      Unbounded? || n <= limit
    }
  }

  function Min(a: nat, b: nat): nat {
    if a <= b then a else b
  }

  datatype Range = Range(min: nat, max: MaxOccurs) {
    predicate Has(n: nat) {
      min <= n && max.Allows(n)
    }
  }

  function Exactly(n: nat): Range {
    Range(n, Bounded(n))
  }

  /** `+` and the order of `MaxOccurs` mean what they should for the counts they bound. */
  lemma AddAllows(a: MaxOccurs, b: MaxOccurs, m: nat, n: nat)
    requires a.Allows(m) && b.Allows(n)
    ensures a.Add(b).Allows(m + n)
  {
  }

  /** Growing the repetition count and the repeated bounds only widens a product. */
  lemma MulMono(k: nat, m: nat, lo: nat, n: nat)
    requires lo <= k && m <= n
    ensures lo * m <= k * n
  {
    assert lo * m <= k * m by {
      if lo < k {
        assert (k - lo) * m >= 0;
      }
    }
    assert k * m <= k * n by {
      assert k * (n - m) >= 0;
    }
  }

  /**
    `k` repetitions of counts that each lie in `r` add up to a count in the
    product of the repetition range with `r`: the justification of every `*=`
    on occurrence bounds.
   */
  lemma RepeatRange(reps: Range, r: Range, k: nat, total: nat)
    requires reps.Has(k)
    requires k * r.min <= total
    requires r.max.Bounded? ==> total <= k * r.max.limit
    ensures Range(reps.min * r.min, reps.max.Mul(r.max)).Has(total)
  {
    MulMono(k, r.min, reps.min, r.min);
    if reps.max.Bounded? && r.max.Bounded? {
      MulMono(reps.max.limit, r.max.limit, k, r.max.limit);
    }
  }
}
