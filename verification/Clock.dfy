/** Timestamps, durations and NTP-64 values of clock.rs. */
module Clock {
  import opened Bytes

  type i64 = x: int | -0x8000_0000_0000_0000 <= x < 0x8000_0000_0000_0000

  const I64_MAX: i64 := 0x7FFF_FFFF_FFFF_FFFF
  const I64_MIN: i64 := -0x8000_0000_0000_0000
  const U64_MAX: u64 := 0xFFFF_FFFF_FFFF_FFFF
  const US_PER_SECOND: nat := 1_000_000

  /** Microseconds in one NTP era of 2^32 seconds. */
  const ERA: nat := 0x1_0000_0000 * US_PER_SECOND

  function SaturateI64(x: int): i64 {
    if x > I64_MAX then I64_MAX else if x < I64_MIN then I64_MIN else x
  }

  /** Timestamp plus a signed duration; the magnitude is taken first. */
  function Advance(t: u64, d: i64): u64 {
    var mag: int := if d >= 0 then d else 0 - d;
    if d >= 0 then (if t + mag > U64_MAX then U64_MAX else t + mag)
    else (if t < mag then 0 else t - mag)
  }

  /** `saturating_neg`. */
  function Negate(d: i64): i64 {
    SaturateI64(0 - d as int)
  }

  function Rewind(t: u64, d: i64): u64 {
    Advance(t, Negate(d))
  }

  /** The signed difference of two timestamps. */
  function Since(a: u64, b: u64): i64 {
    if a >= b then (if a - b > I64_MAX then I64_MAX else a - b)
    else Negate(if b - a > I64_MAX then I64_MAX else b - a)
  }

  /** Advancing by a difference gets there exactly when the difference fits a signed duration;
      otherwise it falls short. */
  lemma SinceThenAdvance(a: u64, b: u64)
    ensures Advance(b, Since(a, b)) == a <==> -I64_MAX <= a - b <= I64_MAX
    ensures Since(b, a) == -Since(a, b)
    ensures Since(a, b) >= 0 <==> a >= b
  {}

  /** Rewinding undoes advancing unless the advance ran into either end of the range. */
  lemma RewindUndoesAdvance(t: u64, d: i64)
    requires d != I64_MIN
    ensures Rewind(Advance(t, d), d) == t <==> 0 <= t + d <= U64_MAX
  {}

  /** An NTP-64 value: seconds in the upper half, 2^-32 seconds in the lower. */
  function Fraction(us: nat): (f: u32)
    requires us < US_PER_SECOND
  {
    FractionFits(us);
    (us * 0x1_0000_0000 + US_PER_SECOND / 2) / US_PER_SECOND
  }

  lemma FractionFits(us: nat)
    requires us < US_PER_SECOND
    ensures 0 <= (us * 0x1_0000_0000 + US_PER_SECOND / 2) / US_PER_SECOND < 0x1_0000_0000
  {
    var x := us * 0x1_0000_0000 + US_PER_SECOND / 2;
    assert x < 0x1_0000_0000 * US_PER_SECOND;
  }

  function Ntp(sec: u32, frac: u32): u64 {
    sec * 0x1_0000_0000 + frac
  }

  function FromTimestamp(t: u64): u64 {
    Ntp(t / US_PER_SECOND % 0x1_0000_0000, Fraction(t % US_PER_SECOND))
  }

  function MicrosOf(frac: u32): (us: nat)
    ensures us <= US_PER_SECOND
  {
    (frac * US_PER_SECOND + 0x8000_0000) / 0x1_0000_0000
  }

  function ToTimestamp(n: u64): u64 {
    n / 0x1_0000_0000 * US_PER_SECOND + MicrosOf(n % 0x1_0000_0000)
  }

  lemma FractionRoundTrip(us: nat)
    requires us < US_PER_SECOND
    ensures MicrosOf(Fraction(us)) == us
  {
    var x := us * 0x1_0000_0000 + US_PER_SECOND / 2;
    var f := Fraction(us);
    assert x - US_PER_SECOND < f * US_PER_SECOND <= x;
    var y := f * US_PER_SECOND + 0x8000_0000;
    assert us * 0x1_0000_0000 <= y < (us + 1) * 0x1_0000_0000;
  }

  /** Both conversions of the fraction are to the nearest, halves up. */
  lemma NearestFraction(us: nat, frac: u32)
    requires us < US_PER_SECOND
    ensures -1_000_000 < 2 * (Fraction(us) * 1_000_000 - us * 0x1_0000_0000) <= 1_000_000
    ensures -0x1_0000_0000 < 2 * (MicrosOf(frac) * 0x1_0000_0000 - frac * 1_000_000) <= 0x1_0000_0000
  {
    var x, y := us * 0x1_0000_0000 + US_PER_SECOND / 2, frac * US_PER_SECOND + 0x8000_0000;
    assert x - US_PER_SECOND < Fraction(us) * US_PER_SECOND <= x;
    assert y - 0x1_0000_0000 < MicrosOf(frac) * 0x1_0000_0000 <= y;
  }

  lemma NtpParts(sec: u32, frac: u32)
    ensures Ntp(sec, frac) / 0x1_0000_0000 == sec && Ntp(sec, frac) % 0x1_0000_0000 == frac
  {}

  lemma EraParts(t: nat)
    ensures t / US_PER_SECOND % 0x1_0000_0000 * US_PER_SECOND + t % US_PER_SECOND == t % ERA
  {
    var s, us := t / US_PER_SECOND, t % US_PER_SECOND;
    var e, r := s / 0x1_0000_0000, s % 0x1_0000_0000;
    assert t == e * ERA + (r * US_PER_SECOND + us);
    assert 0 <= r * US_PER_SECOND + us < ERA;
    assert (e * ERA + (r * US_PER_SECOND + us)) % ERA == r * US_PER_SECOND + us;
  }

  /** For every 64-bit timestamp: the round trip through NTP-64 is exact, but for whole eras. */
  lemma NtpRoundTrip(t: u64)
    ensures ToTimestamp(FromTimestamp(t)) == t % ERA
  {
    hide Fraction, MicrosOf, Ntp;
    FractionRoundTrip(t % US_PER_SECOND);
    NtpParts(t / US_PER_SECOND % 0x1_0000_0000, Fraction(t % US_PER_SECOND));
    EraParts(t);
  }

  /** So the conversion tells apart any two timestamps of one era. */
  lemma NtpIsFaithful(t: u64, u: u64)
    ensures FromTimestamp(t) == FromTimestamp(u) <==> t % ERA == u % ERA
  {
    NtpRoundTrip(t);
    NtpRoundTrip(u);
    if t % ERA == u % ERA {
      SameEraParts(t, u);
    }
  }

  lemma SameEraParts(t: u64, u: u64)
    requires t % ERA == u % ERA
    ensures FromTimestamp(t) == FromTimestamp(u)
  {
    hide Fraction, Ntp;
    EraParts(t);
    EraParts(u);
    UniqueParts(t / US_PER_SECOND % 0x1_0000_0000, t % US_PER_SECOND,
                u / US_PER_SECOND % 0x1_0000_0000, u % US_PER_SECOND);
  }

  lemma UniqueParts(a: nat, b: nat, c: nat, d: nat)
    requires b < US_PER_SECOND && d < US_PER_SECOND
    requires a * US_PER_SECOND + b == c * US_PER_SECOND + d
    ensures a == c && b == d
  {}
}
