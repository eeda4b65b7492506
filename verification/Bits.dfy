/** Shifts and bitwise or on natural numbers. */
module Bits {

  /** Go's `|` on unsigned integers, bit by bit. */
  function Or(a: nat, b: nat): (c: nat)
    decreases a + b
  {
    if a == 0 && b == 0 then 0
    else 2 * Or(a / 2, b / 2) + (if a % 2 == 1 || b % 2 == 1 then 1 else 0)
  }

  /** `q` shifted left by `k` bits, in an integer without a width. */
  function Shl(q: nat, k: nat): (s: nat) {
    if k == 0 then q else 2 * Shl(q, k - 1)
  }

  /** Or-ing a number below 2^k into one whose low k bits are clear is addition. */
  lemma {:induction false} OrDisjoint(q: nat, b: nat, k: nat)
    requires b < Shl(1, k)
    ensures Or(Shl(q, k), b) == Shl(q, k) + b
    decreases k
  {
    if k == 0 {
      OrZero(q);
    } else {
      OrDisjoint(q, b / 2, k - 1);
    }
  }

  lemma {:induction false} OrZero(a: nat)
    ensures Or(a, 0) == a
  {
    if a > 0 {
      OrZero(a / 2);
    }
  }

  /** The shifts the packing uses, as multiplications. */
  lemma Shifts(q: nat)
    ensures Shl(q, 5) == q * 32 && Shl(q, 6) == q * 0x40 && Shl(q, 11) == q * 0x800 && Shl(q, 12) == q * 0x1000
    ensures Shl(q, 18) == q * 0x4_0000 && Shl(q, 23) == q * 0x80_0000 && Shl(q, 28) == q * 0x1000_0000
  {
    ShiftMore(q, 0, 5);
    ShiftMore(q, 5, 1);
    ShiftMore(q, 6, 5);
    ShiftMore(q, 11, 1);
    ShiftMore(q, 12, 6);
    ShiftMore(q, 18, 5);
    ShiftMore(q, 23, 5);
  }

  lemma {:induction false} ShiftMore(q: nat, k: nat, d: nat)
    requires d <= 6
    ensures Shl(q, k + d) == Shl(q, k) * (if d == 0 then 1 else if d == 1 then 2 else if d == 2 then 4
                                          else if d == 3 then 8 else if d == 4 then 16 else if d == 5 then 32 else 64)
  {
    if d > 0 {
      ShiftMore(q, k, d - 1);
    }
  }

  lemma {:induction false} OrBound(a: nat, b: nat, k: nat)
    requires a < Shl(1, k) && b < Shl(1, k)
    ensures Or(a, b) < Shl(1, k)
    decreases k
  {
    if k > 0 {
      OrBound(a / 2, b / 2, k - 1);
    }
  }
}
