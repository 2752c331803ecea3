/** Offsets and counts of fixed-stride records. Both are built by repeated
    addition and subtraction, so that the solver reasons about them linearly;
    the lemmas at the end connect them to multiplication and division. */
module Arith {

  /** The byte offset of record `k` when records are `ds` bytes apart: `k * ds`. */
  function Offset(k: nat, ds: nat): nat
  {
    if k == 0 then 0 else Offset(k - 1, ds) + ds
  }

  /** The number of whole `ds`-byte records in `n` bytes: `n / ds`. */
  function Count(n: nat, ds: nat): nat
    requires ds > 0
    decreases n
  {
    if n < ds then 0 else Count(n - ds, ds) + 1
  }

  /** Later records start later, by at least one stride. */
  lemma {:induction false} OffsetMonotone(j: nat, k: nat, ds: nat)
    requires j < k
    ensures Offset(j, ds) + ds <= Offset(k, ds)
  {
    if j < k - 1 {
      OffsetMonotone(j, k - 1, ds);
    }
  }

  /** Record `k` ends inside `n` bytes exactly when `k < Count(n, ds)`. */
  lemma {:induction false} OffsetFits(n: nat, ds: nat, k: nat)
    requires ds > 0
    ensures Offset(k + 1, ds) <= n <==> k < Count(n, ds)
    decreases k
  {
    if k > 0 && n >= ds {
      OffsetFits(n - ds, ds, k - 1);
      OffsetShift(k, ds);
    }
  }

  /** Record `k + 1` starts one stride after record `k` of the records that
      start one stride later. */
  lemma {:induction false} OffsetShift(k: nat, ds: nat)
    ensures Offset(k + 1, ds) == Offset(k, ds) + ds
    ensures k > 0 ==> Offset(k, ds) == Offset(k - 1, ds) + ds
  {
  }

  /** The `Count(n, ds)` whole records fill `n` bytes up to less than one stride. */
  lemma {:induction false} OffsetCount(n: nat, ds: nat)
    requires ds > 0
    ensures Offset(Count(n, ds), ds) <= n < Offset(Count(n, ds), ds) + ds
    decreases n
  {
    if n >= ds {
      OffsetCount(n - ds, ds);
      OffsetStart(Count(n - ds, ds), ds);
    }
  }

  /** Prepending one record moves every offset by one stride. */
  lemma {:induction false} OffsetStart(k: nat, ds: nat)
    ensures Offset(k + 1, ds) == ds + Offset(k, ds)
  {
  }

  lemma {:induction false} OffsetIsProduct(k: nat, ds: nat)
    ensures Offset(k, ds) == k * ds
  {
    if k > 0 {
      OffsetIsProduct(k - 1, ds);
      assert (k - 1) * ds + ds == k * ds;
    }
  }

  /** Multiplying by a natural number keeps the order. */
  lemma MulMonotone(a: int, b: int, c: nat)
    requires a <= b
    ensures a * c <= b * c
  {
    assert b * c - a * c == (b - a) * c;
  }

  /** Division and remainder are the unique quotient and remainder. */
  lemma DivUnique(n: int, d: int, q: int, r: int)
    requires d > 0 && 0 <= r < d && n == q * d + r
    ensures n / d == q && n % d == r
  {
    var q', r' := n / d, n % d;
    assert n == q' * d + r' && 0 <= r' < d;
    assert (q - q') * d == r' - r;
    if q > q' {
      MulMonotone(1, q - q', d);
    } else if q < q' {
      MulMonotone(1, q' - q, d);
    }
  }

  /** The quotient brackets the dividend. */
  lemma DivBounds(n: nat, d: nat)
    requires d > 0
    ensures (n / d) * d <= n < (n / d + 1) * d
  {
    assert n == (n / d) * d + n % d;
  }

  /** `Count` is integer division. */
  lemma {:induction false} CountIsQuotient(n: nat, ds: nat)
    requires ds > 0
    ensures Count(n, ds) == n / ds
    decreases n
  {
    if n < ds {
      DivUnique(n, ds, 0, n);
    } else {
      CountIsQuotient(n - ds, ds);
      var q, r := (n - ds) / ds, (n - ds) % ds;
      assert n == (q + 1) * ds + r;
      DivUnique(n, ds, q + 1, r);
    }
  }
}
