/** Bitwise AND on natural numbers, the power-of-two test, and what the bucket mask computes. */
module BitMask {

  /** Bitwise `&`. */
  function And(a: nat, b: nat): (r: nat)
    ensures r <= b
  {
    if a == 0 || b == 0 then 0
    else 2 * And(a / 2, b / 2) + (if a % 2 == 1 && b % 2 == 1 then 1 else 0)
  }

  function Pow2(k: nat): (p: nat)
    ensures p >= 1
  {
    if k == 0 then 1 else 2 * Pow2(k - 1)
  }

  ghost predicate IsPow2(c: int) {
    exists k: nat :: c == Pow2(k)
  }

  /** The guard of `reset_to_capacity` and `resize`. */
  predicate PassesPow2Test(c: int) {
    c > 0 && And(c, c - 1) == 0
  }

  lemma {:induction false} AndSame(a: nat)
    ensures And(a, a) == a
  {
    if a > 0 { AndSame(a / 2); }
  }

  /** The guard accepts exactly the powers of two. */
  lemma {:induction false} Pow2TestIsExact(c: int)
    ensures PassesPow2Test(c) <==> IsPow2(c)
    decreases if c < 0 then 0 else c
  {
    if c == 1 {
      assert Pow2(0) == 1;
    } else if c > 1 && c % 2 == 1 {
      AndSame(c / 2);
      assert And(c, c - 1) == 2 * (c / 2);
      OddIsNotPow2(c);
    } else if c > 1 {
      var m := c / 2;
      assert And(c, c - 1) == 2 * And(m, m - 1);
      Pow2TestIsExact(m);
      HalfPow2(m);
    }
  }

  lemma OddIsNotPow2(c: int)
    requires c > 1 && c % 2 == 1
    ensures !IsPow2(c)
  {
  }

  lemma HalfPow2(m: int)
    requires m >= 1
    ensures IsPow2(2 * m) <==> IsPow2(m)
  {
    if IsPow2(m) {
      var k: nat :| m == Pow2(k);
      assert Pow2(k + 1) == 2 * m;
    }
    if IsPow2(2 * m) {
      var k: nat :| 2 * m == Pow2(k);
      assert k > 0 && Pow2(k - 1) == m;
    }
  }

  lemma NoSmallMultiple(d: int, m: int)
    requires m > 0
    ensures d == 0 || d * m >= m || d * m <= -m
  {
  }

  lemma Distribute(a: int, b: int, m: int)
    ensures (a - b) * m == a * m - b * m
  {
  }

  lemma ModUnique(h: int, m: int, q: int, r: int)
    requires m > 0 && h == q * m + r && 0 <= r < m
    ensures h % m == r
  {
    var q', r' := h / m, h % m;
    assert h == q' * m + r';
    Distribute(q', q, m);
    NoSmallMultiple(q' - q, m);
  }

  lemma HalvedMod(h: nat, p: nat)
    requires p >= 1
    ensures h % (2 * p) == 2 * ((h / 2) % p) + h % 2
  {
    var q, r := (h / 2) / p, (h / 2) % p;
    assert h / 2 == q * p + r;
    assert h == 2 * (h / 2) + h % 2;
    assert q * (2 * p) == 2 * (q * p);
    ModUnique(h, 2 * p, q, 2 * r + h % 2);
  }

  /** x & (n - 1) is x % n when n is a power of two. */
  lemma {:induction false} MaskIsModulus(h: nat, k: nat)
    ensures And(h, Pow2(k) - 1) == h % Pow2(k)
    decreases k
  {
    if k > 0 {
      MaskIsModulus(h / 2, k - 1);
      HalvedMod(h, Pow2(k - 1));
      MaskHalves(h, Pow2(k - 1));
    }
  }

  lemma MaskHalves(h: nat, p: nat)
    requires p >= 1
    ensures And(h, 2 * p - 1) == 2 * And(h / 2, p - 1) + h % 2
  {
    assert (2 * p - 1) / 2 == p - 1 && (2 * p - 1) % 2 == 1;
  }

  lemma DoubleIsPow2(c: int)
    requires IsPow2(c)
    ensures IsPow2(2 * c)
  {
    var k: nat :| c == Pow2(k);
    assert Pow2(k + 1) == 2 * c;
  }

  // ---------- Lock stripes ----------

  const NUM_SLICES := 16

  /** `compute_bucket_index`: the mask form, for any capacity. */
  function BucketIndex(h: nat, capacity: nat): (b: nat)
    requires capacity > 0
    ensures b < capacity
  {
    And(h, capacity - 1)
  }

  function Stripe(h: nat, capacity: nat): nat
    requires capacity > 0
  {
    BucketIndex(h, capacity) % NUM_SLICES
  }

  lemma BucketIsModulus(h: nat, capacity: nat)
    requires IsPow2(capacity) && capacity > 0
    ensures BucketIndex(h, capacity) == h % capacity
  {
    var k: nat :| capacity == Pow2(k);
    MaskIsModulus(h, k);
  }

  lemma {:induction false} SmallOrSixteenDivides(k: nat)
    ensures Pow2(k) <= 8 || Pow2(k) % 16 == 0
  {
    if k >= 4 {
      assert Pow2(k) == 2 * Pow2(k - 1);
      assert Pow2(k - 1) == 2 * Pow2(k - 2);
      assert Pow2(k - 2) == 2 * Pow2(k - 3);
      assert Pow2(k - 3) == 2 * Pow2(k - 4);
      assert Pow2(k) == 16 * Pow2(k - 4);
    } else if k >= 2 {
      assert Pow2(k) == 2 * Pow2(k - 1);
    }
  }

  lemma AtLeastSixteen(capacity: nat) returns (c: nat)
    requires IsPow2(capacity) && capacity >= 16
    ensures capacity == 16 * c
  {
    var k: nat :| capacity == Pow2(k);
    SmallOrSixteenDivides(k);
    c := capacity / 16;
  }

  lemma DivMod(h: nat, m: nat)
    requires m > 0
    ensures h == (h / m) * m + h % m && h / m >= 0
  {
  }

  lemma Regroup(q: nat, c: nat, d: nat)
    ensures q * (16 * c) + d * 16 == (q * c + d) * 16
  {
  }

  lemma ModOfMultiple(h: nat, c: nat, m: nat, q: nat, r: nat)
    requires m == 16 * c && h == q * m + r
    ensures r % 16 == h % 16
  {
    var d, e := r / 16, r % 16;
    Regroup(q, c, d);
    assert h == (q * c + d) * 16 + e;
    ModUnique(h, 16, q * c + d, e);
  }

  /** From capacity 16 on, a key's stripe is its hash modulo 16, whatever the capacity has grown to. */
  lemma StripeIsHashMod16(h: nat, capacity: nat)
    requires IsPow2(capacity) && capacity >= 16
    ensures Stripe(h, capacity) == h % 16
  {
    BucketIsModulus(h, capacity);
    var c := AtLeastSixteen(capacity);
    DivMod(h, capacity);
    ModOfMultiple(h, c, capacity, h / capacity, h % capacity);
  }

  lemma SmallStripeMoves(capacity: nat)
    requires IsPow2(capacity) && 0 < capacity < 16
    ensures Stripe(capacity, capacity) != Stripe(capacity, 2 * capacity)
  {
    DoubleIsPow2(capacity);
    BucketIsModulus(capacity, capacity);
    BucketIsModulus(capacity, 2 * capacity);
    ModUnique(capacity, capacity, 1, 0);
    ModUnique(capacity, 2 * capacity, 0, capacity);
  }

  /** Doubling keeps every key's stripe exactly when the capacity is already at least 16. */
  lemma StripesSurviveDoubling(capacity: nat)
    requires IsPow2(capacity) && capacity > 0
    ensures (forall h: nat :: Stripe(h, capacity) == Stripe(h, 2 * capacity)) <==> capacity >= 16
  {
    DoubleIsPow2(capacity);
    if capacity >= 16 {
      forall h: nat ensures Stripe(h, capacity) == Stripe(h, 2 * capacity) {
        StripeIsHashMod16(h, capacity);
        StripeIsHashMod16(h, 2 * capacity);
      }
    } else {
      SmallStripeMoves(capacity);
    }
  }
}
