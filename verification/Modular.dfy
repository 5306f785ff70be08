/** Powers modulo n and the byte strings of natural numbers: the arithmetic under SRP. */
module Modular {
  import opened Bytes

  function Pow(b: nat, e: nat): nat
    decreases e
  {
    if e == 0 then 1 else b * Pow(b, e - 1)
  }

  /** `b.modpow(e, n)`. */
  function ModPow(b: nat, e: nat, n: nat): (r: nat)
    requires n > 0
    ensures r < n
  {
    Pow(b, e) % n
  }

  // ---- Congruence ----

  lemma ModUnique(x: int, q: int, r: nat, n: nat)
    requires n > 0 && r < n && x == q * n + r
    ensures x % n == r
  {
    var q', r' := x / n, x % n;
    assert (q - q') * n == r' - r;
    if q > q' {
      MulMonotone(1, q - q', n);
    } else if q < q' {
      MulMonotone(1, q' - q, n);
    }
  }

  lemma MulMonotone(a: nat, b: nat, c: nat)
    requires a <= b
    ensures a * c <= b * c
  {}

  /** Adding a multiple of the modulus changes nothing. */
  lemma ModShift(x: int, k: int, n: nat)
    requires n > 0
    ensures (x + k * n) % n == x % n
  {
    assert x + k * n == (x / n + k) * n + x % n;
    ModUnique(x + k * n, x / n + k, x % n, n);
  }

  lemma ModAddMod(x: int, y: int, n: nat)
    requires n > 0
    ensures (x % n + y) % n == (x + y) % n
  {
    var q := x / n;
    assert x == q * n + x % n;
    assert x + y == (x % n + y) + q * n;
    ModShift(x % n + y, q, n);
  }

  lemma ModMulMod(x: int, y: int, n: nat)
    requires n > 0
    ensures (x % n * y) % n == (x * y) % n
  {
    var q := x / n;
    assert x == q * n + x % n;
    assert x * y == x % n * y + (q * y) * n by {
      assert x * y == (q * n + x % n) * y == q * n * y + x % n * y;
    }
    ModShift(x % n * y, q * y, n);
  }

  lemma {:induction false} PowOfMod(x: nat, e: nat, n: nat)
    requires n > 0
    ensures Pow(x % n, e) % n == Pow(x, e) % n
  {
    if e > 0 {
      var p, q := Pow(x % n, e - 1), Pow(x, e - 1);
      PowOfMod(x, e - 1, n);
      ModMulMod(x, p, n);          // (x % n * p) % n == (x * p) % n
      ModMulMod(p, x, n);          // (p % n * x) % n == (p * x) % n
      ModMulMod(q, x, n);          // (q % n * x) % n == (q * x) % n
      assert p * x == x * p && q * x == x * q;
    }
  }

  lemma {:induction false} PowAdd(x: nat, a: nat, b: nat)
    ensures Pow(x, a + b) == Pow(x, a) * Pow(x, b)
    decreases a
  {
    if a > 0 {
      PowAdd(x, a - 1, b);
      MulAssoc(x, Pow(x, a - 1), Pow(x, b));
    }
  }

  lemma MulAssoc(a: int, b: int, c: int)
    ensures a * (b * c) == (a * b) * c
  {}

  lemma {:induction false} PowMul(x: nat, a: nat, b: nat)
    ensures Pow(Pow(x, a), b) == Pow(x, a * b)
    decreases b
  {
    if b > 0 {
      PowMul(x, a, b - 1);
      assert a * b == a + a * (b - 1);
      PowAdd(x, a, a * (b - 1));
    } else {
      assert a * b == 0;
    }
  }

  // ---- Byte strings of numbers ----

  /** Big-endian without leading zeros; zero is the empty string. */
  function MinimalBytes(x: nat): (b: seq<byte>)
    ensures x > 0 ==> b != []
  {
    if x == 0 then [] else MinimalBytes(x / 256) + [x % 256]
  }

  lemma {:induction false} FromMinimalBytes(x: nat)
    ensures FromBytes(MinimalBytes(x)) == x
  {
    if x > 0 {
      FromMinimalBytes(x / 256);
      var b := MinimalBytes(x);
      assert b[..|b| - 1] == MinimalBytes(x / 256);
    }
  }

  function Zeros(k: nat): (b: seq<byte>)
    ensures |b| == k
  {
    seq(k, _ => 0)
  }

  /** Leading zeros do not change the value. */
  lemma {:induction false} FromPadded(k: nat, b: seq<byte>)
    ensures FromBytes(Zeros(k) + b) == FromBytes(b)
    decreases |b|, k
  {
    var z := Zeros(k) + b;
    if b != [] {
      FromPadded(k, b[..|b| - 1]);
      assert z[..|z| - 1] == Zeros(k) + b[..|b| - 1];
    } else if k > 0 {
      FromPadded(k - 1, []);
      assert z[..|z| - 1] == Zeros(k - 1) + [];
      assert Zeros(k - 1) + [] == Zeros(k - 1);
    } else {
      assert z == [];
    }
  }

  /** The minimal form is never longer than another form of the same number. */
  lemma {:induction false} MinimalIsShortest(b: seq<byte>)
    ensures |MinimalBytes(FromBytes(b))| <= |b|
  {
    if b != [] {
      MinimalIsShortest(b[..|b| - 1]);
      var v := FromBytes(b);
      assert v / 256 == FromBytes(b[..|b| - 1]);
    }
  }

  lemma {:induction false} MinimalIsMonotone(x: nat, y: nat)
    requires x <= y
    ensures |MinimalBytes(x)| <= |MinimalBytes(y)|
  {
    if x > 0 {
      MinimalIsMonotone(x / 256, y / 256);
    }
  }

  /** A padded number read back. */
  lemma FromPaddedMinimal(k: nat, x: nat)
    ensures FromBytes(Zeros(k) + MinimalBytes(x)) == x
  {
    FromPadded(k, MinimalBytes(x));
    FromMinimalBytes(x);
  }
}
