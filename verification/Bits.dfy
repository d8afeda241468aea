/** Bitwise exclusive-or and inclusive-or on natural numbers, bit by bit. */
module Bits {

  function Xor(a: nat, b: nat): nat
    decreases a + b
  {
    if a == 0 && b == 0 then 0 else (a + b) % 2 + 2 * Xor(a / 2, b / 2)
  }

  function Or(a: nat, b: nat): nat
    decreases a + b
  {
    if a == 0 && b == 0 then 0
    else (if a % 2 == 1 || b % 2 == 1 then 1 else 0) + 2 * Or(a / 2, b / 2)
  }

  /** The last bit and the others, also when both numbers are 0. */
  lemma XorHalves(a: nat, b: nat)
    ensures Xor(a, b) / 2 == Xor(a / 2, b / 2) && Xor(a, b) % 2 == (a + b) % 2
  {
    if a == 0 && b == 0 {
      assert Xor(0, 0) == 0;
    }
  }

  lemma {:induction false} XorUndoesItself(a: nat, b: nat)
    ensures Xor(Xor(a, b), b) == a
    decreases a + b
  {
    hide Xor;
    XorHalves(a, b);
    XorHalves(Xor(a, b), b);
    ParityCancels(a, b, Xor(a, b));
    if a != 0 || b != 0 {
      XorUndoesItself(a / 2, b / 2);
    } else {
      XorOfZeros();
    }
    SameHalves(Xor(Xor(a, b), b), a);
  }

  lemma ParityCancels(a: nat, b: nat, x: nat)
    requires x % 2 == (a + b) % 2
    ensures (x + b) % 2 == a % 2
  {
  }

  lemma SameHalves(x: nat, y: nat)
    requires x / 2 == y / 2 && x % 2 == y % 2
    ensures x == y
  {
  }

  lemma XorOfZeros()
    ensures Xor(0, 0) == 0
  {
  }

  function Pow2(k: nat): nat {
    if k == 0 then 1 else 2 * Pow2(k - 1)
  }

  lemma {:induction false} XorStaysInWidth(a: nat, b: nat, k: nat)
    requires a < Pow2(k) && b < Pow2(k)
    ensures Xor(a, b) < Pow2(k)
    decreases k
  {
    if k > 0 && (a != 0 || b != 0) {
      XorStaysInWidth(a / 2, b / 2, k - 1);
    }
  }

  lemma {:induction false} XorZeroOnlyForEqual(a: nat, b: nat)
    ensures Xor(a, b) == 0 <==> a == b
    decreases a + b
  {
    if a != 0 || b != 0 {
      XorZeroOnlyForEqual(a / 2, b / 2);
    }
  }

  lemma {:induction false} OrZeroOnlyForZeros(a: nat, b: nat)
    ensures Or(a, b) == 0 <==> a == 0 && b == 0
    decreases a + b
  {
    if a != 0 || b != 0 {
      OrZeroOnlyForZeros(a / 2, b / 2);
    }
  }

  /** Bytes and 16-bit words stay what they are. */
  lemma XorOfWords(a: nat, b: nat)
    ensures a < 0x100 && b < 0x100 ==> Xor(a, b) < 0x100
    ensures a < 0x1_0000 && b < 0x1_0000 ==> Xor(a, b) < 0x1_0000
  {
    assert Pow2(4) == 16;
    assert Pow2(8) == 256 by {
      assert Pow2(6) == 64;
    }
    assert Pow2(16) == 65536 by {
      assert Pow2(10) == 1024 && Pow2(12) == 4096 && Pow2(14) == 16384;
    }
    if a < 0x100 && b < 0x100 {
      XorStaysInWidth(a, b, 8);
    }
    if a < 0x1_0000 && b < 0x1_0000 {
      XorStaysInWidth(a, b, 16);
    }
  }
}
