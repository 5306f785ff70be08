/** Single bits of natural numbers, defined digit by digit. */
module Bits {
  import opened Bytes

  /** Bit `i` of `x`, counting from the least significant. */
  predicate Bit(x: nat, i: nat)
    decreases i
  {
    if i == 0 then x % 2 == 1 else Bit(x / 2, i - 1)
  }

  /** `x | (1 << i)`. */
  function SetBit(x: nat, i: nat): nat
    decreases i
  {
    if i == 0 then x / 2 * 2 + 1 else 2 * SetBit(x / 2, i - 1) + x % 2
  }

  lemma {:induction false} BitOfSetBit(x: nat, i: nat, j: nat)
    ensures Bit(SetBit(x, i), j) <==> i == j || Bit(x, j)
    decreases i
  {
    if i > 0 {
      assert SetBit(x, i) / 2 == SetBit(x / 2, i - 1) && SetBit(x, i) % 2 == x % 2;
      if j > 0 {
        BitOfSetBit(x / 2, i - 1, j - 1);
      }
    } else {
      assert SetBit(x, 0) / 2 == x / 2;
    }
  }

  lemma {:induction false} NoBitsInZero(j: nat)
    ensures !Bit(0, j)
  {
    if j > 0 {
      NoBitsInZero(j - 1);
    }
  }

  function Pow2(k: nat): (p: nat)
    ensures p > 0
  {
    if k == 0 then 1 else 2 * Pow2(k - 1)
  }

  /** Setting a bit inside a field keeps the value inside the field. */
  lemma {:induction false} SetBitBound(x: nat, i: nat, k: nat)
    requires x < Pow2(k) && i < k
    ensures SetBit(x, i) < Pow2(k)
    decreases k
  {
    if i > 0 {
      SetBitBound(x / 2, i - 1, k - 1);
    }
  }

  /** Exclusive or, bit by bit. */
  function Xor(x: nat, y: nat): nat
    decreases x + y
  {
    if x == 0 && y == 0 then 0 else 2 * Xor(x / 2, y / 2) + (x + y) % 2
  }

  lemma {:induction false} XorBound(x: nat, y: nat, k: nat)
    requires x < Pow2(k) && y < Pow2(k)
    ensures Xor(x, y) < Pow2(k)
    decreases k
  {
    if k > 0 && !(x == 0 && y == 0) {
      XorBound(x / 2, y / 2, k - 1);
    }
  }

  lemma {:induction false} XorOfZero(x: nat)
    ensures Xor(x, 0) == x
  {
    if x > 0 {
      XorOfZero(x / 2);
    }
  }

  lemma {:induction false} XorOfSelf(x: nat)
    ensures Xor(x, x) == 0
  {
    if x > 0 {
      XorOfSelf(x / 2);
    }
  }

  lemma {:induction false} XorTwice(x: nat, y: nat)
    ensures Xor(Xor(x, y), y) == x
    decreases x + y
  {
    if !(x == 0 && y == 0) {
      var h := Xor(x / 2, y / 2);
      var z := 2 * h + (x + y) % 2;
      XorTwice(x / 2, y / 2);
      XorDigit(x, y, h);
    }
  }

  lemma XorDigit(x: nat, y: nat, h: nat)
    requires Xor(h, y / 2) == x / 2
    ensures Xor(2 * h + (x + y) % 2, y) == x
  {
    hide Xor;
    var d := (x + y) % 2;
    XorUnfold(h, d, y);
    assert (d + y) % 2 == x % 2;
  }

  lemma XorUnfold(h: nat, d: nat, y: nat)
    requires d < 2
    ensures Xor(2 * h + d, y) == 2 * Xor(h, y / 2) + (d + y) % 2
  {
    assert (2 * h + d) / 2 == h;
    assert (2 * h + d + y) % 2 == (d + y) % 2;
  }

  function XorByte(x: byte, y: byte): byte {
    assert Pow2(8) == 256 by { assert Pow2(4) == 16; }
    XorBound(x, y, 8);
    Xor(x, y)
  }

  /** Byte-wise exclusive or of two strings of one length. */
  function XorBytes(a: seq<byte>, b: seq<byte>): (c: seq<byte>)
    requires |a| == |b|
    ensures |c| == |a|
  {
    seq(|a|, i requires 0 <= i < |a| => XorByte(a[i], b[i]))
  }

  lemma XorBytesTwice(a: seq<byte>, b: seq<byte>)
    requires |a| == |b|
    ensures XorBytes(XorBytes(a, b), b) == a
  {
    forall i | 0 <= i < |a| ensures XorBytes(XorBytes(a, b), b)[i] == a[i] {
      XorTwice(a[i], b[i]);
    }
  }
}
