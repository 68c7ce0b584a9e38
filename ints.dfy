/** Fixed-width integers of the Rust source, as ranges of Dafny's unbounded integers. */
module Ints {

  const TWO_TO_THE_8: int := 0x100
  const TWO_TO_THE_32: int := 0x1_0000_0000

  type byte = x: int | 0 <= x < TWO_TO_THE_8
  type u8 = byte
  type u32 = x: int | 0 <= x < TWO_TO_THE_32
  type u64 = x: int | 0 <= x < 0x1_0000_0000_0000_0000
  type i8 = x: int | -0x80 <= x < 0x80
  type i32 = x: int | -0x8000_0000 <= x < 0x8000_0000
  type i64 = x: int | -0x8000_0000_0000_0000 <= x < 0x8000_0000_0000_0000

  predicate IsI32(x: int) { -0x8000_0000 <= x < 0x8000_0000 }

  /** Bitwise exclusive or of two naturals, bit by bit from the least significant one. */
  function Xor(a: nat, b: nat): nat
    decreases a + b
  {
    if a == 0 && b == 0 then 0
    else 2 * Xor(a / 2, b / 2) + (a % 2 + b % 2) % 2
  }

  /** Exclusive or of two numbers below 2^k stays below 2^k. */
  lemma {:induction false} XorBelow(a: nat, b: nat, bound: nat)
    requires a < bound && b < bound
    requires bound == 1 || bound == 2 || bound == 4 || bound == 8 || bound == 16
          || bound == 32 || bound == 64 || bound == 128 || bound == 256
    ensures Xor(a, b) < bound
    decreases bound
  {
    if a == 0 && b == 0 {
    } else if bound == 1 {
      assert false;
    } else {
      XorBelow(a / 2, b / 2, bound / 2);
    }
  }

  function XorByte(a: byte, b: byte): (r: byte)
    ensures r == Xor(a, b)
  {
    XorBelow(a, b, 256);
    Xor(a, b)
  }

  lemma XorUnfolds(a: nat, b: nat)
    requires a != 0 || b != 0
    ensures Xor(a, b) == 2 * Xor(a / 2, b / 2) + (a % 2 + b % 2) % 2
  {
  }

  lemma BitCancels(p: nat, q: nat)
    requires p < 2 && q < 2
    ensures ((p + q) % 2 + q) % 2 == p
  {
    if p == 0 && q == 0 {
    } else if p == 0 {
      assert q == 1;
    } else if q == 0 {
      assert p == 1;
    } else {
      assert p == 1 && q == 1;
    }
  }

  /** Unfolding `Xor` at a number given by its halves. */
  lemma XorOfHalves(x: nat, b: nat, y: nat, bit: nat)
    requires x == 2 * y + bit && bit < 2 && (x != 0 || b != 0)
    ensures Xor(x, b) == 2 * Xor(y, b / 2) + (bit + b % 2) % 2
  {
    assert x / 2 == y && x % 2 == bit;
  }

  /** Exclusive or with the same operand twice gives back the original. */
  lemma {:induction false} XorCancels(a: nat, b: nat)
    ensures Xor(Xor(a, b), b) == a
    decreases a + b
  {
    if a != 0 || b != 0 {
      var y, bit := Xor(a / 2, b / 2), (a % 2 + b % 2) % 2;
      XorUnfolds(a, b);
      XorCancels(a / 2, b / 2);
      BitCancels(a % 2, b % 2);
      XorOfHalves(Xor(a, b), b, y, bit);
    }
  }
}
