/** Bitwise operations on whole numbers, one binary digit at a time. */
module Bits {

  function Pow2(n: nat): (p: nat)
    ensures p >= 1
  {
    if n == 0 then 1 else 2 * Pow2(n - 1)
  }

  function And(x: nat, y: nat): nat {
    if x == 0 || y == 0 then 0
    else 2 * And(x / 2, y / 2) + (if x % 2 == 1 && y % 2 == 1 then 1 else 0)
  }

  function Or(x: nat, y: nat): nat
    decreases x + y
  {
    if x == 0 && y == 0 then 0
    else 2 * Or(x / 2, y / 2) + (if x % 2 == 1 || y % 2 == 1 then 1 else 0)
  }

  function Xor(x: nat, y: nat): nat
    decreases x + y
  {
    if x == 0 && y == 0 then 0
    else 2 * Xor(x / 2, y / 2) + (if x % 2 != y % 2 then 1 else 0)
  }

  /** The `n`-bit complement. */
  function Not(x: nat, n: nat): nat
    requires x < Pow2(n)
  {
    Pow2(n) - 1 - x
  }

  function Shl(x: int, s: nat): (r: int)
    ensures x >= 0 ==> r >= x
    decreases s, x
  {
    if s == 0 then x else 2 * Shl(x, s - 1)
  }

  function Shr(x: int, s: nat): (r: int)
    ensures x >= 0 ==> 0 <= r <= x
    ensures x < 0 ==> x <= r < 0
    decreases s, x
  {
    if s == 0 then x else Shr(x / 2, s - 1)
  }

  /** One unfolding of each operation: the quotient by two and the lowest bit. */
  lemma Halves(x: nat, y: nat)
    ensures And(x, y) / 2 == And(x / 2, y / 2)
    ensures And(x, y) % 2 == if x % 2 == 1 && y % 2 == 1 then 1 else 0
    ensures Or(x, y) / 2 == Or(x / 2, y / 2)
    ensures Or(x, y) % 2 == if x % 2 == 1 || y % 2 == 1 then 1 else 0
    ensures Xor(x, y) / 2 == Xor(x / 2, y / 2)
    ensures Xor(x, y) % 2 == if x % 2 != y % 2 then 1 else 0
  {
  }

  /** Each operation keeps operands of `n` bits within `n` bits. */
  lemma {:induction false} Bounds(x: nat, y: nat, n: nat)
    requires x < Pow2(n) && y < Pow2(n)
    ensures And(x, y) < Pow2(n) && Or(x, y) < Pow2(n) && Xor(x, y) < Pow2(n)
  {
    if n > 0 {
      Bounds(x / 2, y / 2, n - 1);
    }
  }

  /** Masking with `n` ones keeps the low `n` bits: what is cut off is the shifted-out part. */
  lemma {:induction false} AndMask(x: nat, n: nat)
    ensures And(x, Pow2(n) - 1) == x - Shl(Shr(x, n), n)
    ensures And(x, Pow2(n) - 1) < Pow2(n)
  {
    if n > 0 {
      AndMask(x / 2, n - 1);
      assert (Pow2(n) - 1) / 2 == Pow2(n - 1) - 1;
    }
  }

  lemma {:induction false} ShrSmall(x: nat, n: nat)
    requires x < Pow2(n)
    ensures Shr(x, n) == 0 && Shl(0, n) == 0
  {
    if n > 0 {
      ShrSmall(x / 2, n - 1);
    }
  }

  /** `|` joins a high part and a low part that do not overlap into their sum. */
  lemma {:induction false} OrSum(h: nat, l: nat, n: nat)
    requires l < Pow2(n)
    ensures Or(Shl(h, n), l) == Shl(h, n) + l
  {
    if n == 0 {
      OrZero(h);
    } else {
      OrSum(h, l / 2, n - 1);
    }
  }

  lemma {:induction false} OrCommutes(x: nat, y: nat)
    ensures Or(x, y) == Or(y, x)
    decreases x + y
  {
    if x + y > 0 {
      OrCommutes(x / 2, y / 2);
    }
  }

  lemma {:induction false} ShlIsMultiple(x: int, s: nat)
    ensures Shl(x, s) == x * Pow2(s)
  {
    if s > 0 {
      ShlIsMultiple(x, s - 1);
      assert x * Pow2(s) == 2 * (x * Pow2(s - 1));
    }
  }

  /** A right shift is the quotient rounded down. */
  lemma {:induction false} ShrIsQuotient(x: nat, s: nat)
    ensures Shl(Shr(x, s), s) <= x < Shl(Shr(x, s) + 1, s)
  {
    if s > 0 {
      ShrIsQuotient(x / 2, s - 1);
    }
  }

  lemma {:induction false} ShiftTwice(c: nat, s: nat, t: nat)
    ensures Shr(c, s + t) == Shr(Shr(c, s), t)
    decreases s
  {
    if s > 0 {
      ShiftTwice(c / 2, s - 1, t);
    }
  }

  lemma {:induction false} OrZero(x: nat)
    ensures Or(x, 0) == x && Or(0, x) == x
  {
    if x > 0 {
      OrZero(x / 2);
    }
  }

  /** The i-th binary digit. */
  function Bit(x: nat, i: nat): (b: nat)
    ensures b < 2
  {
    Shr(x, i) % 2
  }

  /** Every digit of the results comes from the same digit of the operands. */
  lemma {:induction false} BitOfAnd(x: nat, y: nat, i: nat)
    ensures Bit(And(x, y), i) == 1 <==> Bit(x, i) == 1 && Bit(y, i) == 1
    decreases i
  {
    Halves(x, y);
    if i > 0 {
      BitOfAnd(x / 2, y / 2, i - 1);
    }
  }

  lemma {:induction false} BitOfOr(x: nat, y: nat, i: nat)
    ensures Bit(Or(x, y), i) == 1 <==> Bit(x, i) == 1 || Bit(y, i) == 1
    decreases i
  {
    Halves(x, y);
    if i > 0 {
      BitOfOr(x / 2, y / 2, i - 1);
    }
  }

  lemma {:induction false} BitOfXor(x: nat, y: nat, i: nat)
    ensures Bit(Xor(x, y), i) == 1 <==> Bit(x, i) != Bit(y, i)
    decreases i
  {
    Halves(x, y);
    if i > 0 {
      BitOfXor(x / 2, y / 2, i - 1);
    }
  }

  lemma {:induction false} BitOfNot(x: nat, n: nat, i: nat)
    requires x < Pow2(n) && i < n
    ensures Bit(Not(x, n), i) == 1 - Bit(x, i)
    decreases i
  {
    assert Not(x, n) / 2 == Not(x / 2, n - 1) && Not(x, n) % 2 == 1 - x % 2;
    if i > 0 {
      BitOfNot(x / 2, n - 1, i - 1);
    }
  }

  /** The two ways of writing "choose": with OR and with XOR. */
  lemma {:induction false} ChooseOrXor(x: nat, y: nat, z: nat, n: nat)
    requires x < Pow2(n) && y < Pow2(n) && z < Pow2(n)
    ensures Or(And(x, y), And(Not(x, n), z)) == Xor(And(x, y), And(Not(x, n), z))
  {
    if n > 0 {
      ChooseOrXor(x / 2, y / 2, z / 2, n - 1);
      assert Not(x, n) / 2 == Not(x / 2, n - 1) && Not(x, n) % 2 != x % 2;
      Halves(x, y);
      Halves(Not(x, n), z);
      Halves(And(x, y), And(Not(x, n), z));
    }
  }

  /** The two ways of writing "majority": with OR and with XOR. */
  lemma {:induction false} MajorityOrXor(x: nat, y: nat, z: nat, n: nat)
    requires x < Pow2(n) && y < Pow2(n) && z < Pow2(n)
    ensures Or(Or(And(x, y), And(x, z)), And(y, z)) == Xor(Xor(And(x, y), And(x, z)), And(y, z))
  {
    if n > 0 {
      MajorityOrXor(x / 2, y / 2, z / 2, n - 1);
      Halves(x, y);
      Halves(x, z);
      Halves(y, z);
      var a, b, c := And(x, y), And(x, z), And(y, z);
      Halves(a, b);
      Halves(Or(a, b), c);
      Halves(Xor(a, b), c);
    }
  }
}
