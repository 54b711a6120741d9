/** Unsigned 64-bit index arithmetic of the queue (`index_t` is `uint64_t`).
    Every sum and difference of indices wraps around modulo 2^64; the tests the
    queue performs on indices are comparisons of such unsigned differences. */
module Wrap64 {

  /** 2^64, the modulus of `uint64_t` arithmetic. */
  const WORD: int := 0x1_0000_0000_0000_0000

  /** A value of type `uint64_t`. */
  type Index = x: int | 0 <= x < WORD

  /** `a + b` on `uint64_t`. */
  function Add(a: Index, b: Index): (r: Index)
  {
    if a + b < WORD then a + b else a + b - WORD
  }

  /** `a - b` on `uint64_t`: the distance from `b` forward to `a`. */
  function Sub(a: Index, b: Index): (r: Index)
  {
    if b <= a then a - b else a - b + WORD
  }

  /** `Add` and `Sub` are addition and subtraction modulo 2^64. */
  lemma AddSubAreModular(a: Index, b: Index)
    ensures Add(a, b) == (a + b) % WORD
    ensures Sub(a, b) == (a - b) % WORD
  {
  }

  /** The wake-up test shared by `prod_notify` and `cons_notify`: the published
      index moved from `before` to `after`, and the other side asked to be woken
      once the index passes `ev`. An index that did not move signals nobody,
      and a threshold equal to the new index has not been passed yet. */
  predicate Crossed(before: Index, after: Index, ev: Index)
    ensures Crossed(before, after, ev) ==> before != after && ev != after
  {
    Sub(Sub(after, ev), 1) < Sub(after, before)
  }

  /** Stepping forward from `a` by the distance to `b` lands on `b`. */
  lemma AddSub(a: Index, b: Index)
    ensures Add(a, Sub(b, a)) == b
  {
  }

  /** Distances measured from a later base are shorter by the distance between the bases. */
  lemma Rebase(a: Index, b: Index, x: Index)
    requires Sub(b, a) <= Sub(x, a)
    ensures Sub(x, b) == Sub(x, a) - Sub(b, a)
  {
  }

  /** Moving forward from `a` past `x` leaves the rest of the step as distance from `x`. */
  lemma SubOfAdd(a: Index, k: Index, x: Index)
    requires Sub(x, a) <= k
    ensures Sub(Add(a, k), x) == k - Sub(x, a)
  {
  }

  /** Two steps forward make one step of their total length. */
  lemma AddAdd(a: Index, i: Index, j: Index)
    requires i + j < WORD
    ensures Add(Add(a, i), j) == Add(a, i + j)
  {
  }

  /** Stepping an index forward lengthens its distance from any base, short of wrapping. */
  lemma SubAdd(x: Index, a: Index, k: Index)
    requires Sub(x, a) + k < WORD
    ensures Sub(Add(x, k), a) == Sub(x, a) + k
  {
  }

  /** The crossing test holds exactly when `ev` is one of the indices the
      published index stepped over: `ev` lies in the half-open range
      [before, after) counted modulo 2^64. Equivalently, the index went from
      at most `ev` to beyond `ev`. */
  lemma CrossedIff(before: Index, after: Index, ev: Index)
    ensures Crossed(before, after, ev) <==> Sub(ev, before) < Sub(after, before)
  {
    var d, e := Sub(after, before), Sub(ev, before);
    if e < d {
      assert Sub(after, ev) == d - e;
    } else if e == d {
      assert Sub(after, ev) == 0;
    } else {
      assert Sub(after, ev) == d - e + WORD;
    }
  }

  /** The same fact, phrased as membership of `ev` in the stepped-over indices. */
  lemma CrossedSpan(before: Index, after: Index, ev: Index)
    ensures Crossed(before, after, ev) <==>
            exists j: Index :: j < Sub(after, before) && Add(before, j) == ev
  {
    CrossedIff(before, after, ev);
    if Crossed(before, after, ev) {
      AddSub(before, ev);
    }
  }

  /** The crossing test against a threshold placed `k` past a common base:
      it fires exactly when the distance from the base goes from at most `k`
      to beyond `k`. */
  lemma CrossedRelative(base: Index, before: Index, after: Index, k: Index)
    requires Sub(before, base) <= Sub(after, base)
    ensures Crossed(before, after, Add(base, k)) <==> Sub(before, base) <= k < Sub(after, base)
  {
    CrossedIff(before, after, Add(base, k));
    Rebase(base, before, after);
    var sb := Sub(before, base);
    if sb <= k {
      assert Sub(Add(base, k), before) == k - sb;
    } else {
      assert Sub(Add(base, k), before) == k - sb + WORD;
    }
  }
}
