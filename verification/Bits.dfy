/// Shifts and masks of natural numbers.
module Bits {
  import opened Arith

  function And(x: nat, y: nat): nat {
    if x == 0 || y == 0 then 0
    else 2 * And(x / 2, y / 2) + if x % 2 == 1 && y % 2 == 1 then 1 else 0
  }

  function Shr(x: nat, k: nat): nat {
    if k == 0 then x else Shr(x / 2, k - 1)
  }

  function Pow2(k: nat): (p: nat)
    ensures p > 0
  {
    if k == 0 then 1 else 2 * Pow2(k - 1)
  }

  // The mask of the low bits takes the remainder.
  lemma {:induction false} AndMask(x: nat, k: nat)
    ensures And(x, Pow2(k) - 1) == x % Pow2(k)
  {
    if k > 0 {
      var p := Pow2(k - 1);
      AndMask(x / 2, k - 1);
      assert (2 * p - 1) / 2 == p - 1 && (2 * p - 1) % 2 == 1;
      HalfRemainder(x, p);
      if x == 0 {
        Quotient(0, 2 * p, 0);
      }
    } else {
      Quotient(x, 1, x);
    }
  }

  lemma HalfRemainder(x: nat, p: nat)
    requires p > 0
    ensures x % (2 * p) == 2 * ((x / 2) % p) + x % 2
    ensures x / (2 * p) == (x / 2) / p
  {
    var q, r := (x / 2) / p, (x / 2) % p;
    assert x / 2 == q * p + r;
    assert q * (2 * p) == 2 * (q * p);
    Quotient(x, 2 * p, q);
  }

  // A shift divides.
  lemma {:induction false} ShrDivides(x: nat, k: nat)
    ensures Shr(x, k) == x / Pow2(k)
  {
    if k > 0 {
      ShrDivides(x / 2, k - 1);
      HalfRemainder(x, Pow2(k - 1));
    } else {
      Quotient(x, 1, x);
    }
  }

  function Ceil(x: nat, m: nat): nat
    requires m > 0
  {
    (x + m - 1) / m
  }

  // ceil(x / 2^k) with a shift and a mask.
  lemma CeilByBits(x: nat, k: nat)
    ensures Ceil(x, Pow2(k)) == Shr(x, k) + if And(x, Pow2(k) - 1) != 0 then 1 else 0
  {
    hide And, Shr, Pow2;
    AndMask(x, k);
    ShrDivides(x, k);
    CeilIs(x, Pow2(k));
  }

  lemma CeilIs(x: nat, m: nat)
    requires m > 0
    ensures Ceil(x, m) == x / m + if x % m != 0 then 1 else 0
  {
    var q, r := x / m, x % m;
    assert x == q * m + r;
    if r == 0 {
      Quotient(x + m - 1, m, q);
    } else {
      assert (q + 1) * m == q * m + m;
      Quotient(x + m - 1, m, q + 1);
    }
  }
}
