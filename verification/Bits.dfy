/** Bitwise operations on unbounded naturals, defined bit by bit. */
module Bits {
  import opened Arithmetic
  import opened Bytes

  function Pow2(n: nat): (p: nat)
    ensures p > 0
  {
    if n == 0 then 1 else 2 * Pow2(n - 1)
  }

  function Xor(a: nat, b: nat): nat
    decreases a + b
  {
    if a == 0 && b == 0 then 0 else (a % 2 + b % 2) % 2 + 2 * Xor(a / 2, b / 2)
  }

  function Or(a: nat, b: nat): nat
    decreases a + b
  {
    if a == 0 && b == 0 then 0
    else (if a % 2 == 1 || b % 2 == 1 then 1 else 0) + 2 * Or(a / 2, b / 2)
  }

  lemma {:induction false} XorBound(a: nat, b: nat, n: nat)
    requires a < Pow2(n) && b < Pow2(n)
    ensures Xor(a, b) < Pow2(n)
  {
    if n > 0 { XorBound(a / 2, b / 2, n - 1); }
  }

  lemma XorHalves(a: nat, b: nat)
    ensures Xor(a, b) % 2 == (a % 2 + b % 2) % 2
    ensures Xor(a, b) / 2 == Xor(a / 2, b / 2)
  {
  }

  lemma Parity(a: nat, y: nat, k: nat)
    requires y / 2 == a / 2 && y % 2 == ((a % 2 + k % 2) % 2 + k % 2) % 2
    ensures y == a
  {
  }

  /** Applying one mask twice gives the operand back. */
  lemma {:induction false} XorInvolution(a: nat, k: nat)
    ensures Xor(Xor(a, k), k) == a
    decreases a + k
  {
    if a != 0 || k != 0 {
      XorInvolution(a / 2, k / 2);
      XorHalves(a, k);
      XorHalves(Xor(a, k), k);
      Parity(a, Xor(Xor(a, k), k), k);
    }
  }

  lemma {:induction false} XorZero(a: nat)
    ensures Xor(a, 0) == a
  {
    if a != 0 { XorZero(a / 2); }
  }

  function XorByte(a: byte, b: byte): byte {
    assert Pow2(8) == 256;
    XorBound(a, b, 8);
    Xor(a, b)
  }

  lemma {:induction false} OrZero(b: nat)
    ensures Or(0, b) == b
  {
    if b != 0 { OrZero(b / 2); }
  }

  /** A bitwise or of numbers that share no bit is their sum. */
  lemma {:induction false} OrDisjoint(a: nat, x: nat, s: nat)
    requires a < Pow2(s)
    ensures Or(a, x * Pow2(s)) == a + x * Pow2(s)
  {
    if s == 0 {
      OrZero(x);
    } else {
      var p := x * Pow2(s - 1);
      assert x * Pow2(s) == 2 * p;
      OrDisjoint(a / 2, x, s - 1);
    }
  }

  lemma Doubled(x: nat, y: nat)
    ensures (2 * x) * y == 2 * (x * y)
  {
  }

  lemma {:induction false} Pow2Add(a: nat, b: nat)
    ensures Pow2(a + b) == Pow2(a) * Pow2(b)
  {
    if a > 0 {
      Pow2Add(a - 1, b);
      Doubled(Pow2(a - 1), Pow2(b));
      assert Pow2(a + b) == 2 * Pow2(a - 1 + b);
    }
  }

  lemma Pow2Values()
    ensures Pow2(7) == 128 && Pow2(8) == 256 && Pow2(56) == 0x100_0000_0000_0000
    ensures Pow2(63) == 0x8000_0000_0000_0000 && Pow2(64) == WORD64
  {
    assert Pow2(16) == 0x1_0000 && Pow2(14) == 0x4000;
    Pow2Add(16, 16);
    Pow2Add(16, 32);
    Pow2Add(8, 48);
    Pow2Add(7, 56);
    Pow2Add(1, 63);
  }

  /** Bit `i` of a number. */
  function Bit(n: nat, i: nat): nat {
    n / Pow2(i) % 2
  }

  lemma BitHalf(n: nat, i: nat)
    requires i > 0
    ensures Bit(n, i) == Bit(n / 2, i - 1)
  {
    DivHalf(n, Pow2(i - 1));
  }

  /** Every bit of an exclusive or is set where exactly one of the operands has it. */
  lemma {:induction false} XorBits(a: nat, b: nat, i: nat)
    ensures Bit(Xor(a, b), i) == 1 <==> Bit(a, i) != Bit(b, i)
    decreases i
  {
    hide Xor;
    XorHalves(a, b);
    if i > 0 {
      BitHalf(a, i);
      BitHalf(b, i);
      BitHalf(Xor(a, b), i);
      XorBits(a / 2, b / 2, i - 1);
    }
  }
}
