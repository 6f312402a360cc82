/**
 * Bytes as the C code handles them: a `uint8_t` is an integer 0..255,
 * and the bitwise operators act on its binary digits.  The operators are
 * defined digit by digit, lowest digit first.
 */
module Bytes {

  /** A `uint8_t` value. */
  type byte = x: int | 0 <= x < 256

  /** Conversion of an integer to `uint8_t`: C keeps the value modulo 256. */
  function ToByte(x: int): byte
  {
    x % 256
  }

  /** Binary digit k of a natural number. */
  predicate TestBit(a: nat, k: nat)
    decreases k
  {
    if k == 0 then a % 2 == 1 else TestBit(a / 2, k - 1)
  }

  /** 2^k: the number whose only set digit is digit k. */
  function Bit(k: nat): (b: nat)
    ensures b >= 1
  {
    if k == 0 then 1 else 2 * Bit(k - 1)
  }

  /** Bitwise OR: a digit is set when it is set in a or in b. */
  function Or(a: nat, b: nat): nat
    decreases a + b
  {
    if a == 0 then b
    else if b == 0 then a
    else 2 * Or(a / 2, b / 2) + (if a % 2 == 1 || b % 2 == 1 then 1 else 0)
  }

  /** Bitwise AND: a digit is set when it is set in both a and b. */
  function And(a: nat, b: nat): nat
    decreases a + b
  {
    if a == 0 || b == 0 then 0
    else 2 * And(a / 2, b / 2) + (if a % 2 == 1 && b % 2 == 1 then 1 else 0)
  }

  /** Bitwise complement of a byte. */
  function Not(a: byte): byte
  {
    255 - a
  }

  /** Digit k of 2^j is set exactly when k == j. */
  lemma {:induction false} TestBitOfBit(j: nat, k: nat)
    ensures TestBit(Bit(j), k) <==> j == k
    decreases j
  {
    if j == 0 {
      if k > 0 { TestBitOfZero(k - 1); }
    } else if k == 0 {
    } else {
      assert Bit(j) / 2 == Bit(j - 1);
      TestBitOfBit(j - 1, k - 1);
    }
  }

  /** Zero has no set digit. */
  lemma {:induction false} TestBitOfZero(k: nat)
    ensures !TestBit(0, k)
    decreases k
  {
    if k > 0 { TestBitOfZero(k - 1); }
  }

  /** A digit of a | b is set exactly when it is set in a or in b. */
  lemma {:induction false} TestBitOr(a: nat, b: nat, k: nat)
    ensures TestBit(Or(a, b), k) <==> TestBit(a, k) || TestBit(b, k)
    decreases k
  {
    if a == 0 {
      TestBitOfZero(k);
    } else if b == 0 {
      TestBitOfZero(k);
    } else if k > 0 {
      var r := Or(a, b);
      assert r / 2 == Or(a / 2, b / 2);
      TestBitOr(a / 2, b / 2, k - 1);
    }
  }

  /** A digit of a & b is set exactly when it is set in both. */
  lemma {:induction false} TestBitAnd(a: nat, b: nat, k: nat)
    ensures TestBit(And(a, b), k) <==> TestBit(a, k) && TestBit(b, k)
    decreases k
  {
    if a == 0 || b == 0 {
      TestBitOfZero(k);
    } else {
      var h, d := And(a / 2, b / 2), if a % 2 == 1 && b % 2 == 1 then 1 else 0;
      assert And(a, b) == 2 * h + d;
      assert And(a, b) % 2 == d && And(a, b) / 2 == h;
      if k > 0 {
        TestBitAnd(a / 2, b / 2, k - 1);
      }
    }
  }

  /** Digit k of a number below 2^n is clear for every k >= n. */
  lemma {:induction false} TestBitHigh(a: nat, n: nat, k: nat)
    requires a < Bit(n) && n <= k
    ensures !TestBit(a, k)
    decreases k
  {
    if k == 0 {
      assert a == 0;
    } else if n == 0 {
      assert a == 0;
      TestBitOfZero(k);
    } else {
      TestBitHigh(a / 2, n - 1, k - 1);
    }
  }

  /** The complement of a byte flips each of its eight digits. */
  lemma TestBitNot(a: byte, k: nat)
    requires k < 8
    ensures TestBit(Not(a), k) <==> !TestBit(a, k)
  {
    ComplementDigits(a, 8, k);
  }

  lemma {:induction false} ComplementDigits(a: nat, n: nat, k: nat)
    requires a < Bit(n) && k < n
    ensures TestBit(Bit(n) - 1 - a, k) <==> !TestBit(a, k)
    decreases n
  {
    var c := Bit(n) - 1 - a;
    if k == 0 {
      assert Bit(n) == 2 * Bit(n - 1);
    } else {
      assert Bit(n) == 2 * Bit(n - 1);
      assert c / 2 == Bit(n - 1) - 1 - a / 2;
      ComplementDigits(a / 2, n - 1, k - 1);
    }
  }

  /** Numbers with the same digits are equal. */
  lemma {:induction false} DigitsDetermineNumber(a: nat, b: nat, n: nat)
    requires a < Bit(n) && b < Bit(n)
    requires forall k :: 0 <= k < n ==> (TestBit(a, k) <==> TestBit(b, k))
    ensures a == b
    decreases n
  {
    if n == 0 {
    } else {
      assert TestBit(a, 0) <==> TestBit(b, 0);
      forall k | 0 <= k < n - 1
        ensures TestBit(a / 2, k) <==> TestBit(b / 2, k)
      {
        assert TestBit(a, k + 1) <==> TestBit(b, k + 1);
      }
      DigitsDetermineNumber(a / 2, b / 2, n - 1);
    }
  }

  /** a | b of two numbers below 2^n is below 2^n. */
  lemma {:induction false} OrBound(a: nat, b: nat, n: nat)
    requires a < Bit(n) && b < Bit(n)
    ensures Or(a, b) < Bit(n)
    decreases n
  {
    if a != 0 && b != 0 {
      OrBound(a / 2, b / 2, n - 1);
    }
  }

  /** a & b is never above a. */
  lemma {:induction false} AndBound(a: nat, b: nat)
    ensures And(a, b) <= a
    decreases a + b
  {
    if a != 0 && b != 0 {
      AndBound(a / 2, b / 2);
    }
  }

  /** The byte operators stay within a byte. */
  lemma ByteOps(a: byte, b: byte)
    ensures Or(a, b) < 256 && And(a, b) < 256
  {
    assert Bit(8) == 256;
    OrBound(a, b, 8);
    AndBound(a, b);
  }

  /** a | b on uint8_t. */
  function ByteOr(a: byte, b: byte): byte
  {
    ByteOps(a, b);
    Or(a, b)
  }

  /** a & b on uint8_t. */
  function ByteAnd(a: byte, b: byte): byte
  {
    ByteOps(a, b);
    And(a, b)
  }

  /** 2^j < 2^n when j < n. */
  lemma {:induction false} BitMonotone(j: nat, n: nat)
    requires j < n
    ensures Bit(j) < Bit(n)
    decreases n
  {
    if j < n - 1 {
      BitMonotone(j, n - 1);
    }
  }

  /** The mask with only digit k set, for a digit of a byte: 1 << k. */
  function ByteBit(k: nat): (b: byte)
    requires k < 8
    ensures TestBit(b, k)
    ensures forall j {:trigger TestBit(b, j)} :: j != k ==> !TestBit(b, j)
  {
    BitMonotone(k, 8);
    assert Bit(8) == 256;
    forall j ensures TestBit(Bit(k), j) <==> j == k {
      TestBitOfBit(k, j);
    }
    Bit(k)
  }

  /** Bytes with the same eight digits are equal. */
  lemma SameDigitsSameByte(a: byte, b: byte)
    requires forall k :: 0 <= k < 8 ==> (TestBit(a, k) <==> TestBit(b, k))
    ensures a == b
  {
    assert Bit(8) == 256;
    DigitsDetermineNumber(a, b, 8);
  }

  /** Digit k of a | b, a & b and ~a, for the byte operators. */
  lemma ByteDigits(a: byte, b: byte, k: nat)
    requires k < 8
    ensures TestBit(ByteOr(a, b), k) <==> TestBit(a, k) || TestBit(b, k)
    ensures TestBit(ByteAnd(a, b), k) <==> TestBit(a, k) && TestBit(b, k)
    ensures TestBit(Not(a), k) <==> !TestBit(a, k)
  {
    TestBitOr(a, b, k);
    TestBitAnd(a, b, k);
    TestBitNot(a, k);
  }
  /** ORing the same bits in twice is ORing them in once. */
  lemma OrTwice(a: byte, v: byte)
    ensures ByteOr(ByteOr(a, v), v) == ByteOr(a, v)
  {
    forall k | 0 <= k < 8
      ensures TestBit(ByteOr(ByteOr(a, v), v), k) <==> TestBit(ByteOr(a, v), k)
    {
      ByteDigits(a, v, k);
      ByteDigits(ByteOr(a, v), v, k);
    }
    SameDigitsSameByte(ByteOr(ByteOr(a, v), v), ByteOr(a, v));
  }

  /** Clearing a digit just set restores a byte in which it was clear. */
  lemma ClearAfterSet(a: byte, k: nat)
    requires k < 8 && !TestBit(a, k)
    ensures ByteAnd(ByteOr(a, ByteBit(k)), Not(ByteBit(k))) == a
  {
    var m := ByteBit(k);
    forall j | 0 <= j < 8
      ensures TestBit(ByteAnd(ByteOr(a, m), Not(m)), j) <==> TestBit(a, j)
    {
      ByteDigits(a, m, j);
      ByteDigits(ByteOr(a, m), Not(m), j);
      ByteDigits(m, m, j);
      if j == k {
        assert TestBit(m, j);
      } else {
        assert !TestBit(m, j);
      }
    }
    SameDigitsSameByte(ByteAnd(ByteOr(a, m), Not(m)), a);
  }
}
