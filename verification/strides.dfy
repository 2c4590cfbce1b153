/** Counting fixed strides over a sequence: the arithmetic shared by the token windows
    and the upsert groups. Kept linear (recursive offsets and counts) and connected to
    multiplication and ceiling division by separate lemmas. */
module Strides {

  /** Where stride `i` starts: `i` steps of `step` from zero. */
  function Offset(i: nat, step: nat): nat {
    if i == 0 then 0 else Offset(i - 1, step) + step
  }

  lemma {:induction false} OffsetIsProduct(i: nat, step: nat)
    ensures Offset(i, step) == i * step
  {
    if i > 0 {
      OffsetIsProduct(i - 1, step);
    }
  }

  /** How many strides of length `step` start inside `m` elements. */
  function StrideCount(m: nat, step: nat): nat
    requires step > 0
  {
    if m == 0 then 0 else if m <= step then 1 else 1 + StrideCount(m - step, step)
  }

  /** The ceiling of `n / step`. */
  function CeilDiv(n: nat, step: nat): nat
    requires step > 0
  {
    (n + step - 1) / step
  }

  lemma MulAtLeastOne(k: int, d: int)
    requires d >= 0
    ensures k >= 1 ==> k * d >= d
    ensures k <= -1 ==> k * d <= -d
  {
  }

  /** Integer division is determined by quotient and remainder. */
  lemma DivUnique(a: int, d: int, q: int, r: int)
    requires d > 0 && a == q * d + r && 0 <= r < d
    ensures a / d == q
  {
    var q', r' := a / d, a % d;
    assert (q' - q) * d == r - r';
    MulAtLeastOne(q' - q, d);
  }

  /** The number of strides is the ceiling of `m / step`. */
  lemma {:induction false} StrideCountIsCeil(m: nat, step: nat)
    requires step > 0
    ensures StrideCount(m, step) == CeilDiv(m, step)
    decreases m
  {
    if m == 0 {
      DivUnique(step - 1, step, 0, step - 1);
    } else if m <= step {
      DivUnique(m + step - 1, step, 1, m - 1);
    } else {
      StrideCountIsCeil(m - step, step);
      var x := m - step + step - 1;
      DivUnique(x + step, step, x / step + 1, x % step);
    }
  }
}
