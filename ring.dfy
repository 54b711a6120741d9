/** Ring storage: the ring's size is a power of two, so an ever-increasing
    64-bit index is mapped to its slot by masking off the high bits. */
module Ring {
  import opened Wrap64

  /** The largest ring the queue admits (`max_size`, 2^63): it keeps every
      unsigned distance between two live indices meaningful. */
  const MAX_SIZE: int := 0x8000_0000_0000_0000

  predicate IsPowerOfTwo(n: nat)
    decreases n
  {
    if n <= 1 then n == 1 else n % 2 == 0 && IsPowerOfTwo(n / 2)
  }

  /** Bitwise AND of two non-negative integers, bit by bit from the lowest.
      Clearing bits never makes a number larger. */
  function BitAnd(a: nat, b: nat): (r: nat)
    ensures r <= a && r <= b
    decreases a
  {
    if a == 0 || b == 0 then 0
    else 2 * BitAnd(a / 2, b / 2) + (if a % 2 == 1 && b % 2 == 1 then 1 else 0)
  }

  lemma MulAtLeast(d: int, t: int)
    requires 0 < d && 1 <= t
    ensures d <= d * t
  {
  }

  /** Euclidean division is determined by quotient and remainder. */
  lemma DivModUnique(x: int, d: int, q: int, s: int)
    requires 0 < d && 0 <= s < d && x == d * q + s
    ensures x / d == q && x % d == s
  {
    var q0, s0 := x / d, x % d;
    assert x == d * q0 + s0;
    if q0 < q {
      MulAtLeast(d, q - q0);
    } else if q < q0 {
      MulAtLeast(d, q0 - q);
    }
  }

  /** The remainder modulo `2 * h` from the lowest bit and the remainder of the rest. */
  lemma ModDouble(x: nat, h: nat)
    requires 0 < h
    ensures x % (2 * h) == 2 * ((x / 2) % h) + x % 2
  {
    var q, m := (x / 2) / h, (x / 2) % h;
    assert x / 2 == h * q + m;
    assert x == 2 * (x / 2) + x % 2;
    assert 2 * (h * q) == (2 * h) * q;
    DivModUnique(x, 2 * h, q, 2 * m + x % 2);
  }

  /** Reducing modulo a multiple of `r` keeps the remainder modulo `r`. */
  lemma ModOfMultiple(x: int, r: nat, p: nat)
    requires 0 < r && 0 < p
    ensures (x % (r * p)) % r == x % r
  {
    var w := r * p;
    var bigQ, s := x / w, x % w;
    assert x == w * bigQ + s;
    var q2, s2 := s / r, s % r;
    assert s == r * q2 + s2;
    assert w * bigQ == r * (p * bigQ);
    DivModUnique(x, r, p * bigQ + q2, s2);
  }

  /** Integers less than `r` apart have different remainders modulo `r`. */
  lemma DistinctRemainders(a: int, b: int, r: nat)
    requires 0 < r && a < b < a + r
    ensures a % r != b % r
  {
    var q1, q2 := a / r, b / r;
    assert a == r * q1 + a % r;
    assert b == r * q2 + b % r;
    if a % r == b % r {
      assert b - a == r * (q2 - q1);
      if q2 - q1 >= 1 {
        MulAtLeast(r, q2 - q1);
      } else {
        MulAtLeast(r, 1 - (q2 - q1));
      }
    }
  }

  /** Masking with `r - 1` keeps exactly the remainder modulo a power of two `r`. */
  lemma {:induction false} LowMask(x: nat, r: nat)
    requires IsPowerOfTwo(r)
    ensures BitAnd(x, r - 1) == x % r
    decreases r
  {
    if r > 1 {
      var h := r / 2;
      assert (r - 1) / 2 == h - 1 && (r - 1) % 2 == 1;
      LowMask(x / 2, h);
      ModDouble(x, h);
    }
  }

  /** `normalize_index`: the slot of the ring that holds index `index`. */
  function NormalizeIndex(index: Index, ringCap: nat): (slot: nat)
    requires IsPowerOfTwo(ringCap)
    ensures slot < ringCap && slot == index % ringCap
  {
    LowMask(index, ringCap);
    BitAnd(index, ringCap - 1)
  }

  /** The smaller of two powers of two divides the larger. */
  lemma {:induction false} PowerOfTwoDivides(a: nat, b: nat)
    requires IsPowerOfTwo(a) && IsPowerOfTwo(b) && a <= b
    ensures b % a == 0
    decreases a
  {
    if a > 1 {
      var ha, hb := a / 2, b / 2;
      PowerOfTwoDivides(ha, hb);
      var t := hb / ha;
      assert hb == ha * t;
      MulTwo(ha, t);
      assert b == a * t;
      DivModUnique(b, a, t, 0);
    }
  }

  /** A smaller power of two is at most half of a larger one. */
  lemma {:induction false} PowerOfTwoBelowHalf(p: nat, r: nat)
    requires IsPowerOfTwo(p) && IsPowerOfTwo(r) && p < r
    ensures p <= r / 2
    decreases p
  {
    if p > 1 {
      PowerOfTwoBelowHalf(p / 2, r / 2);
    }
  }

  lemma MulTwo(h: int, b: int)
    ensures (2 * h) * b == 2 * (h * b)
  {
  }

  lemma PowerOfTwoDouble(c: nat)
    requires IsPowerOfTwo(c)
    ensures IsPowerOfTwo(2 * c)
  {
    assert (2 * c) / 2 == c;
  }

  lemma {:induction false} PowerOfTwoProduct(a: nat, b: nat)
    requires IsPowerOfTwo(a) && IsPowerOfTwo(b)
    ensures IsPowerOfTwo(a * b)
    decreases a
  {
    if a > 1 {
      var h := a / 2;
      PowerOfTwoProduct(h, b);
      var p := h * b;
      PowerOfTwoDouble(p);
      assert a == 2 * h;
      MulTwo(h, b);
      assert a * b == 2 * p;
    }
  }

  /** 2^64 is a power of two, by squaring 2 six times. */
  lemma WordIsPowerOfTwo()
    ensures IsPowerOfTwo(WORD)
  {
    assert IsPowerOfTwo(2);
    PowerOfTwoProduct(2, 2);
    PowerOfTwoProduct(4, 4);
    PowerOfTwoProduct(16, 16);
    PowerOfTwoProduct(256, 256);
    PowerOfTwoProduct(0x1_0000, 0x1_0000);
    PowerOfTwoProduct(0x1_0000_0000, 0x1_0000_0000);
  }

  /** A ring size divides 2^64. */
  lemma RingDividesWord(r: nat) returns (p: nat)
    requires IsPowerOfTwo(r) && r <= WORD
    ensures 0 < p && WORD == r * p
  {
    WordIsPowerOfTwo();
    PowerOfTwoDivides(r, WORD);
    p := WORD / r;
    DivIsExact(WORD, r);
  }

  lemma DivIsExact(x: int, d: int)
    requires 0 < d && x % d == 0
    ensures x == d * (x / d)
  {
  }

  /** Reducing an index modulo 2^64 first does not change its slot, because
      the ring size divides 2^64. This is what makes the wrap of the 64-bit
      indices invisible in the ring. */
  lemma WrappedSlot(x: int, r: nat)
    requires IsPowerOfTwo(r) && r <= WORD
    ensures (x % WORD) % r == x % r
  {
    var p := RingDividesWord(r);
    ModOfMultiple(x, r, p);
  }

  /** Indices less than a ring's length apart occupy different slots. */
  lemma SlotsDistinct(c: Index, i: Index, j: Index, r: nat)
    requires IsPowerOfTwo(r) && r <= WORD && i < j < r
    ensures Add(c, i) % r != Add(c, j) % r
  {
    AddSubAreModular(c, i);
    AddSubAreModular(c, j);
    WrappedSlot(c + i, r);
    WrappedSlot(c + j, r);
    DistinctRemainders(c + i, c + j, r);
  }

  /** The ring size for a requested capacity: the smallest power of two at or
      above it (what `1ul<<ceil(log2(max_capacity))` computes). */
  function CeilPow2(n: nat): (r: nat)
    requires 1 <= n
    ensures IsPowerOfTwo(r) && n <= r && (r == 1 || r / 2 < n)
    decreases n
  {
    if n == 1 then 1 else 2 * CeilPow2((n + 1) / 2)
  }

  /** No power of two at or above `n` is smaller than `CeilPow2(n)`. */
  lemma CeilPow2Least(n: nat, p: nat)
    requires 1 <= n && IsPowerOfTwo(p) && n <= p
    ensures CeilPow2(n) <= p
  {
    var r := CeilPow2(n);
    if p < r {
      PowerOfTwoBelowHalf(p, r);
    }
  }
}
