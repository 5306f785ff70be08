/** Fixed-width integers and the big-endian fields every wire format here is built from.
    A byte vector is a `seq<byte>`; a vector that a Rust function appends to is passed in
    and returned. */
module Bytes {
  type byte = x: int | 0 <= x < 0x100
  type u16 = x: int | 0 <= x < 0x1_0000
  type u32 = x: int | 0 <= x < 0x1_0000_0000
  type u64 = x: int | 0 <= x < 0x1_0000_0000_0000_0000

  datatype Option<+T> = None | Some(value: T)

  datatype Result<+T, +E> = Success(value: T) | Failure(error: E)

  /** `a.wrapping_sub(b)` on 32-bit values. */
  function WrapSub32(a: u32, b: u32): u32 {
    (a - b) % 0x1_0000_0000
  }

  /** `a.wrapping_add(b)` on 32-bit values. */
  function WrapAdd32(a: u32, b: u32): u32 {
    (a + b) % 0x1_0000_0000
  }

  /** The two's complement reading of an integer truncated to 32 bits (`x as i32`). */
  function AsI32(x: int): (r: int)
    ensures -0x8000_0000 <= r < 0x8000_0000
    ensures (x - r) % 0x1_0000_0000 == 0
    ensures -0x8000_0000 <= x < 0x8000_0000 ==> r == x
    ensures 0 <= x ==> r <= x
  {
    var m := x % 0x1_0000_0000;
    if m >= 0x8000_0000 then m - 0x1_0000_0000 else m
  }

  /** The value of two digits in base 256, the more significant first. */
  function Join16(hi: int, lo: int): int {
    hi * 0x100 + lo
  }

  /** The value of four digits in base 256, the most significant first. */
  function Join32(a: int, b: int, c: int, d: int): int {
    a * 0x100_0000 + b * 0x1_0000 + c * 0x100 + d
  }

  lemma Join32Injective(a: byte, b: byte, c: byte, d: byte, a': byte, b': byte, c': byte, d': byte)
    requires Join32(a, b, c, d) == Join32(a', b', c', d')
    ensures a == a' && b == b' && c == c' && d == d'
  {
    Digits(a, b, c, d);
    Digits(a', b', c', d');
  }

  lemma Digits(a: byte, b: byte, c: byte, d: byte)
    ensures var v := Join32(a, b, c, d);
            && 0 <= v < 0x1_0000_0000
            && v / 0x100_0000 == a && v / 0x1_0000 % 0x100 == b
            && v / 0x100 % 0x100 == c && v % 0x100 == d
  {
    var v := Join32(a, b, c, d);
    assert v / 0x100 == a * 0x1_0000 + b * 0x100 + c;
    assert v / 0x1_0000 == a * 0x100 + b;
  }

  function Be16(x: u16): (b: seq<byte>)
    ensures |b| == 2
  {
    [x / 0x100, x % 0x100]
  }

  /** The value of a big-endian byte string. */
  function FromBytes(b: seq<byte>): nat {
    if b == [] then 0 else FromBytes(b[..|b| - 1]) * 0x100 + b[|b| - 1]
  }

  /** The lowest `n` big-endian digits of `x`. */
  function BigEndian(x: nat, n: nat): (b: seq<byte>)
    ensures |b| == n
    decreases n, x
  {
    if n == 0 then [] else BigEndian(x / 0x100, n - 1) + [x % 0x100]
  }

  lemma {:induction false} FromBigEndian(x: nat, n: nat)
    requires x < Power256(n)
    ensures FromBytes(BigEndian(x, n)) == x
  {
    if n > 0 {
      FromBigEndian(x / 0x100, n - 1);
      var b := BigEndian(x, n);
      assert b[..n - 1] == BigEndian(x / 0x100, n - 1);
    }
  }

  lemma {:induction false} BigEndianOf(b: seq<byte>)
    ensures BigEndian(FromBytes(b), |b|) == b && FromBytes(b) < Power256(|b|)
  {
    if b != [] {
      var n := |b| - 1;
      BigEndianOf(b[..n]);
      assert FromBytes(b) / 0x100 == FromBytes(b[..n]) && FromBytes(b) % 0x100 == b[n];
      assert b == b[..n] + [b[n]];
    }
  }

  function Power256(n: nat): (p: nat)
    ensures p > 0
  {
    if n == 0 then 1 else 0x100 * Power256(n - 1)
  }

  /** The front of a big-endian string counts by the length of the rest. */
  lemma {:induction false} FromBytesOfSum(a: seq<byte>, b: seq<byte>)
    ensures FromBytes(a + b) == FromBytes(a) * Power256(|b|) + FromBytes(b)
    decreases |b|
  {
    if b == [] {
      assert a + b == a;
    } else {
      var n := |b| - 1;
      FromBytesOfSum(a, b[..n]);
      assert (a + b)[..|a + b| - 1] == a + b[..n];
      assert FromBytes(a) * Power256(|b|) == FromBytes(a) * Power256(n) * 0x100;
    }
  }

  lemma Powers()
    ensures Power256(4) == 0x1_0000_0000 && Power256(8) == 0x1_0000_0000_0000_0000
  {
    assert Power256(2) == 0x1_0000;
    assert Power256(6) == 0x1_0000_0000_0000;
  }

  function Be32(x: u32): (b: seq<byte>)
    ensures |b| == 4
  {
    BigEndian(x, 4)
  }

  function Be64(x: u64): (b: seq<byte>)
    ensures |b| == 8
  {
    BigEndian(x, 8)
  }

  function Get16(b: seq<byte>, o: nat): u16
    requires o + 2 <= |b|
  {
    Join16(b[o], b[o + 1])
  }

  function Get32(b: seq<byte>, o: nat): u32
    requires o + 4 <= |b|
  {
    BigEndianOf(b[o..o + 4]);
    Powers();
    FromBytes(b[o..o + 4])
  }

  function Get64(b: seq<byte>, o: nat): u64
    requires o + 8 <= |b|
  {
    BigEndianOf(b[o..o + 8]);
    Powers();
    FromBytes(b[o..o + 8])
  }

  lemma Get16OfBe16(b: seq<byte>, o: nat, x: u16)
    requires o + 2 <= |b| && b[o..o + 2] == Be16(x)
    ensures Get16(b, o) == x
  {
    assert b[o] == b[o..o + 2][0] && b[o + 1] == b[o..o + 2][1];
  }

  lemma Get32OfBe32(b: seq<byte>, o: nat, x: u32)
    requires o + 4 <= |b| && b[o..o + 4] == Be32(x)
    ensures Get32(b, o) == x
  {
    hide BigEndian, FromBytes, Power256;
    Powers();
    FromBigEndian(x, 4);
  }

  lemma Get64OfBe64(b: seq<byte>, o: nat, x: u64)
    requires o + 8 <= |b| && b[o..o + 8] == Be64(x)
    ensures Get64(b, o) == x
  {
    hide BigEndian, FromBytes, Power256;
    Powers();
    FromBigEndian(x, 8);
  }

  lemma Be16OfGet16(b: seq<byte>, o: nat)
    requires o + 2 <= |b|
    ensures Be16(Get16(b, o)) == b[o..o + 2]
  {}

  lemma Be32OfGet32(b: seq<byte>, o: nat)
    requires o + 4 <= |b|
    ensures Be32(Get32(b, o)) == b[o..o + 4]
  {
    hide BigEndian, FromBytes, Power256;
    BigEndianOf(b[o..o + 4]);
  }

  /** Four bytes, digit by digit. */
  lemma Get32Digits(b: seq<byte>, o: nat)
    requires o + 4 <= |b|
    ensures Get32(b, o) == Join32(b[o], b[o + 1], b[o + 2], b[o + 3])
  {
    var s := b[o..o + 4];
    assert s[..3][..2] == s[..2] && s[..2][..1] == s[..1] && s[..1][..0] == [];
    assert FromBytes(s[..1]) == b[o];
    assert FromBytes(s[..2]) == Join16(b[o], b[o + 1]);
    assert FromBytes(s[..3]) == Join16(b[o], b[o + 1]) * 0x100 + b[o + 2];
  }

  // Reading a field at the front of what is left of a buffer.

  lemma Take16(b: seq<byte>, o: nat, x: u16, tail: seq<byte>)
    requires o <= |b| && b[o..] == Be16(x) + tail
    ensures o + 2 <= |b| && Get16(b, o) == x && b[o + 2..] == tail
  {
    assert |b[o..]| == 2 + |tail|;
    assert b[o + 2..] == b[o..][2..] && b[o..o + 2] == b[o..][..2];
    Get16OfBe16(b, o, x);
  }

  lemma Take32(b: seq<byte>, o: nat, x: u32, tail: seq<byte>)
    requires o <= |b| && b[o..] == Be32(x) + tail
    ensures o + 4 <= |b| && Get32(b, o) == x && b[o + 4..] == tail
  {
    hide Be32, Get32;
    assert |b[o..]| == 4 + |tail|;
    assert b[o + 4..] == b[o..][4..] && b[o..o + 4] == b[o..][..4];
    Get32OfBe32(b, o, x);
  }

  lemma Take64(b: seq<byte>, o: nat, x: u64, tail: seq<byte>)
    requires o <= |b| && b[o..] == Be64(x) + tail
    ensures o + 8 <= |b| && Get64(b, o) == x && b[o + 8..] == tail
  {
    hide Be64, Get64;
    assert |b[o..]| == 8 + |tail|;
    assert b[o + 8..] == b[o..][8..] && b[o..o + 8] == b[o..][..8];
    Get64OfBe64(b, o, x);
  }

  lemma Associate<T>(a: seq<T>, b: seq<T>, c: seq<T>)
    ensures a + (b + c) == (a + b) + c
  {}
}
