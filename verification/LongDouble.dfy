/**
 A `long double` with a p-bit significand, restricted to the integers the conversions feed it:
 round to nearest, ties to even, no bound on the exponent.
 */
module LongDouble {

  function Pow2(k: nat): (r: nat)
    ensures 1 <= r
  {
    if k == 0 then 1 else 2 * Pow2(k - 1)
  }

  /** q times two to the k. */
  function Scaled(q: nat, k: nat): nat
    decreases k
  {
    if k == 0 then q else Scaled(2 * q, k - 1)
  }

  function Abs(n: int): nat {
    if n < 0 then -n else n
  }

  /** Exponent of the last significand bit of `m`, and the significand cut off there. */
  function Exponent(p: nat, m: nat): nat
    decreases m
  {
    if m < Pow2(p) then 0 else 1 + Exponent(p, m / 2)
  }

  function Significand(p: nat, m: nat): nat
    decreases m
  {
    if m < Pow2(p) then m else Significand(p, m / 2)
  }

  function RoundMagnitude(p: nat, m: nat): nat {
    var q, e := Significand(p, m), Exponent(p, m);
    var rest := m - Scaled(q, e);
    if 2 * rest < Pow2(e) || (2 * rest == Pow2(e) && q % 2 == 0) then Scaled(q, e) else Scaled(q + 1, e)
  }

  /** The value of `static_cast<long double>(n)`. */
  function Round(p: nat, n: int): int {
    if n < 0 then -(RoundMagnitude(p, -n) as int) else RoundMagnitude(p, n)
  }

  /** Some significand of p bits, scaled by a power of two. */
  ghost predicate Representable(p: nat, n: int) {
    exists q: nat, k: nat :: q < Pow2(p) && Scaled(q, k) == Abs(n)
  }

  // ----- scaling

  lemma {:induction false} ScaledStep(q: nat, r: nat, k: nat)
    requires q < r
    ensures Scaled(q + 1, k) == Scaled(q, k) + Pow2(k)
    ensures Scaled(q + 1, k) <= Scaled(r, k)
    decreases k
  {
    if k != 0 {
      ScaledStep(2 * q, 2 * q + 1, k - 1);
      ScaledStep(2 * q + 1, 2 * r, k - 1);
    }
  }

  lemma {:induction false} ScaledMonotone(q: nat, r: nat, k: nat)
    requires q <= r
    ensures Scaled(q, k) <= Scaled(r, k)
  {
    if q < r {
      ScaledStep(q, r, k);
    }
  }

  lemma {:induction false} ScaledDouble(q: nat, k: nat)
    ensures Scaled(2 * q, k) == 2 * Scaled(q, k)
    decreases k
  {
    if k != 0 {
      ScaledDouble(2 * q, k - 1);
    }
  }

  lemma {:induction false} ScaledScaled(q: nat, j: nat, k: nat)
    ensures Scaled(Scaled(q, j), k) == Scaled(q, j + k)
    decreases j
  {
    if j != 0 {
      ScaledScaled(2 * q, j - 1, k);
    }
  }

  lemma {:induction false} ScaledPow2(j: nat, k: nat)
    ensures Scaled(Pow2(j), k) == Pow2(j + k)
    decreases k
  {
    if k != 0 {
      ScaledPow2(j + 1, k - 1);
    }
  }

  lemma {:induction false} Pow2Monotone(j: nat, k: nat)
    requires j <= k
    ensures Pow2(j) <= Pow2(k)
    decreases k
  {
    if j < k {
      Pow2Monotone(j, k - 1);
    }
  }

  // ----- where a magnitude lies in its binade

  lemma {:induction false} Binade(p: nat, m: nat)
    requires 1 <= p
    ensures Scaled(Significand(p, m), Exponent(p, m)) <= m
    ensures m < Scaled(Significand(p, m), Exponent(p, m)) + Pow2(Exponent(p, m))
    ensures Significand(p, m) < Pow2(p)
    ensures Exponent(p, m) == 0 || Pow2(p - 1) <= Significand(p, m)
    decreases m
  {
    if Pow2(p) <= m {
      Binade(p, m / 2);
      ScaledDouble(Significand(p, m / 2), Exponent(p, m / 2));
    }
  }

  lemma {:induction false} ExponentMonotone(p: nat, m: nat, n: nat)
    requires m <= n
    ensures Exponent(p, m) <= Exponent(p, n)
    ensures Exponent(p, m) == Exponent(p, n) ==> Significand(p, m) <= Significand(p, n)
    decreases m
  {
    if Pow2(p) <= m {
      ExponentMonotone(p, m / 2, n / 2);
    }
  }

  /** Everything in a lower binade lies at or below the bottom of a higher one. */
  lemma {:induction false} BinadesOrdered(p: nat, q: nat, d: nat, e: nat)
    requires 1 <= p && q <= Pow2(p) && d < e
    ensures Scaled(q, d) <= Scaled(Pow2(p - 1), e)
  {
    ScaledMonotone(q, Pow2(p), d);
    ScaledPow2(p, d);
    ScaledPow2(p - 1, e);
    Pow2Monotone(p + d, p - 1 + e);
  }

  // ----- rounding is monotone and exact where it should be

  /** Rounding goes to one of the two neighbours, and never against the order within a binade. */
  lemma {:induction false} RoundWithin(p: nat, m: nat)
    requires 1 <= p
    ensures Scaled(Significand(p, m), Exponent(p, m)) <= RoundMagnitude(p, m)
    ensures RoundMagnitude(p, m) <= Scaled(Significand(p, m) + 1, Exponent(p, m))
  {
    Binade(p, m);
    ScaledStep(Significand(p, m), Significand(p, m) + 1, Exponent(p, m));
  }

  lemma {:induction false} RoundMagnitudeMonotone(p: nat, m: nat, n: nat)
    requires 1 <= p && m <= n
    ensures RoundMagnitude(p, m) <= RoundMagnitude(p, n)
  {
    ExponentMonotone(p, m, n);
    RoundWithin(p, m);
    RoundWithin(p, n);
    var q, d := Significand(p, m), Exponent(p, m);
    var r, e := Significand(p, n), Exponent(p, n);
    if d < e {
      Binade(p, m);
      Binade(p, n);
      BinadesOrdered(p, q + 1, d, e);
      ScaledMonotone(Pow2(p - 1), r, e);
    } else if q < r {
      ScaledMonotone(q + 1, r, e);
    } else {
      ScaledStep(q, q + 1, d);
    }
  }

  lemma {:induction false} RoundMonotone(p: nat, m: int, n: int)
    requires 1 <= p && m <= n
    ensures Round(p, m) <= Round(p, n)
  {
    if n < 0 {
      RoundMagnitudeMonotone(p, -n, -m);
    } else if 0 <= m {
      RoundMagnitudeMonotone(p, m, n);
    }
  }

  lemma {:induction false} RoundExact(p: nat, n: int)
    requires 1 <= p && Abs(n) <= Pow2(p)
    ensures Round(p, n) == n
  {
    var m := Abs(n);
    if m == Pow2(p) {
      assert m / 2 == Pow2(p - 1) < Pow2(p);
      assert Exponent(p, m / 2) == 0 && Significand(p, m / 2) == Pow2(p - 1);
      assert Exponent(p, m) == 1 && Significand(p, m) == Pow2(p - 1);
      assert Scaled(Pow2(p - 1), 1) == Scaled(2 * Pow2(p - 1), 0) == m;
    }
  }

  // ----- rounding meets its definition

  lemma {:induction false} RoundRepresentable(p: nat, m: nat) returns (q: nat, k: nat)
    requires 1 <= p
    ensures q < Pow2(p) && Scaled(q, k) == RoundMagnitude(p, m)
  {
    Binade(p, m);
    q, k := Significand(p, m), Exponent(p, m);
    if RoundMagnitude(p, m) != Scaled(q, k) {
      if q + 1 < Pow2(p) {
        q := q + 1;
      } else {
        q, k := Pow2(p - 1), k + 1;
      }
    }
  }

  /** No representable magnitude lies strictly between the two neighbours of `m`. */
  lemma {:induction false} NothingBetween(p: nat, m: nat, c: nat, k: nat)
    requires 1 <= p && c < Pow2(p)
    ensures Scaled(c, k) <= Scaled(Significand(p, m), Exponent(p, m)) ||
            Scaled(Significand(p, m) + 1, Exponent(p, m)) <= Scaled(c, k)
  {
    var q, e := Significand(p, m), Exponent(p, m);
    if k < e {
      Binade(p, m);
      BinadesOrdered(p, c, k, e);
      ScaledMonotone(Pow2(p - 1), q, e);
    } else {
      ScaledScaled(c, k - e, e);
      var f := Scaled(c, k - e);
      if f <= q {
        ScaledMonotone(f, q, e);
      } else {
        ScaledMonotone(q + 1, f, e);
      }
    }
  }

  lemma {:induction false} RoundNearer(p: nat, m: nat, y: nat)
    requires 1 <= p
    requires y <= Scaled(Significand(p, m), Exponent(p, m)) ||
             Scaled(Significand(p, m) + 1, Exponent(p, m)) <= y
    ensures Abs(RoundMagnitude(p, m) - m) <= Abs(y - m)
  {
    Binade(p, m);
    ScaledStep(Significand(p, m), Significand(p, m) + 1, Exponent(p, m));
  }

  lemma {:induction false} NoRepresentableNearer(p: nat, n: int, y: int)
    requires 1 <= p && Representable(p, y)
    ensures Abs(Round(p, n) - n) <= Abs(y - n)
  {
    var c: nat, j: nat :| c < Pow2(p) && Scaled(c, j) == Abs(y);
    NothingBetween(p, Abs(n), c, j);
    RoundNearer(p, Abs(n), Abs(y));
    assert Abs(Abs(y) - Abs(n)) <= Abs(y - n);
  }

  /** The result is representable and no representable integer is strictly nearer. */
  lemma {:induction false} RoundIsNearest(p: nat, n: int)
    requires 1 <= p
    ensures Representable(p, Round(p, n))
    ensures forall y :: Representable(p, y) ==> Abs(Round(p, n) - n) <= Abs(y - n)
  {
    var q, k := RoundRepresentable(p, Abs(n));
    assert Abs(Round(p, n)) == Scaled(q, k);
    forall y | Representable(p, y) ensures Abs(Round(p, n) - n) <= Abs(y - n) {
      NoRepresentableNearer(p, n, y);
    }
  }

  /** A number is exact iff it is representable; in particular rounding twice is rounding once. */
  lemma {:induction false} RoundFixesRepresentable(p: nat, n: int)
    requires 1 <= p
    ensures Round(p, n) == n <==> Representable(p, n)
    ensures Round(p, Round(p, n)) == Round(p, n)
  {
    RoundIsNearest(p, n);
    RoundIsNearest(p, Round(p, n));
  }

  lemma {:induction false} ScaledAtLeast(q: nat, k: nat)
    ensures q <= Scaled(q, k)
    decreases k
  {
    if k != 0 {
      ScaledAtLeast(2 * q, k - 1);
    }
  }

  /** A full significand and what follows it are what the number is cut into. */
  lemma {:induction false} Parts(p: nat, q: nat, e: nat, rest: nat)
    requires 1 <= p && Pow2(p - 1) <= q < Pow2(p) && rest < Pow2(e)
    ensures Significand(p, Scaled(q, e) + rest) == q && Exponent(p, Scaled(q, e) + rest) == e
    decreases e
  {
    var m := Scaled(q, e) + rest;
    if e != 0 {
      ScaledDouble(q, e - 1);
      assert m == 2 * Scaled(q, e - 1) + rest && m / 2 == Scaled(q, e - 1) + rest / 2;
      Parts(p, q, e - 1, rest / 2);
      ScaledAtLeast(q, e - 1);
    }
  }

  /** Halfway between two neighbours it is the one with the even significand. */
  lemma {:induction false} RoundTiesToEven(p: nat, q: nat, e: nat)
    requires 1 <= p && Pow2(p - 1) <= q < Pow2(p)
    ensures Round(p, Scaled(q, e + 1) + Pow2(e)) == Scaled(if q % 2 == 0 then q else q + 1, e + 1)
    ensures Round(p, -(Scaled(q, e + 1) + Pow2(e))) == -(Scaled(if q % 2 == 0 then q else q + 1, e + 1) as int)
  {
    Parts(p, q, e + 1, Pow2(e));
  }

  /** Fewer significand bits represent less. */
  lemma {:induction false} RepresentableWider(p: nat, p': nat, n: int)
    requires p <= p' && Representable(p, n)
    ensures Representable(p', n)
  {
    var q: nat, k: nat :| q < Pow2(p) && Scaled(q, k) == Abs(n);
    Pow2Monotone(p, p');
    assert q < Pow2(p') && Scaled(q, k) == Abs(n);
  }

  lemma {:induction false} AllOnesParts(p: nat, k: nat)
    ensures Significand(p, Pow2(p + k) - 1) == Pow2(p) - 1
    ensures Exponent(p, Pow2(p + k) - 1) == k
  {
    if k != 0 {
      var m := Pow2(p + k) - 1;
      assert m / 2 == Pow2(p + (k - 1)) - 1;
      Pow2Monotone(p + 1, p + k);
      AllOnesParts(p, k - 1);
    }
  }

  /** A run of ones longer than the significand rounds up to the next power of two. */
  lemma {:induction false} RoundAllOnes(p: nat, k: nat)
    requires 1 <= p && 1 <= k
    ensures Round(p, Pow2(p + k) - 1) == Pow2(p + k)
  {
    AllOnesParts(p, k);
    ScaledPow2(p, k);
    ScaledStep(Pow2(p) - 1, Pow2(p), k);
    assert Pow2(k) == 2 * Pow2(k - 1);
  }
}
