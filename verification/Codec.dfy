/** The widening and time conversions of codec.rs, and the decoder that keeps their references. */
module Codec {
  import opened Bytes
  import opened Clock

  /** Integer division rounding toward zero. */
  function TruncDiv(a: int, b: int): int
    requires b > 0
  {
    if a >= 0 then a / b else -(-a / b)
  }

  function RtpTicksFromMicros(us: int): int {
    TruncDiv(us * 9, 100)
  }

  function MicrosFromRtpTicks(ticks: int): int {
    TruncDiv(ticks * 100, 9)
  }

  /** The 32-bit, 90 kHz wire timestamp of an NTP-64 source time. */
  function RtpTsFromSource(src: u64): u32 {
    var t := ToTimestamp(src);
    var us := if t > I64_MAX then t - 0x1_0000_0000_0000_0000 else t;
    RtpTicksFromMicros(us) % 0x1_0000_0000
  }

  /** The wire timestamp of a time is that time in 90 kHz ticks, rounded down, modulo 2^32: NTP's eras
      are whole turns of the timestamp, so they do not show. */
  lemma WireTimeIsTicks(us: u64)
    ensures RtpTsFromSource(FromTimestamp(us)) == us * 9 / 100 % 0x1_0000_0000
  {
    hide FromTimestamp, ToTimestamp;
    NtpRoundTrip(us);
    var e, r := us / ERA, us % ERA;
    assert us * 9 == r * 9 + e * 90_000 * 0x1_0000_0000 * 100;
    TicksOfEras(r * 9, e * 90_000);
  }

  lemma TicksOfEras(x: nat, k: nat)
    ensures (x + k * 0x1_0000_0000 * 100) / 100 % 0x1_0000_0000 == x / 100 % 0x1_0000_0000
  {
    var t := x / 100;
    assert (x + k * 0x1_0000_0000 * 100) / 100 == t + k * 0x1_0000_0000;
    assert (t + k * 0x1_0000_0000) % 0x1_0000_0000 == t % 0x1_0000_0000 by {
      assert t + k * 0x1_0000_0000 == (t / 0x1_0000_0000 + k) * 0x1_0000_0000 + t % 0x1_0000_0000;
    }
  }

  /** What a constant `c` of a run, in ticks, amounts to in microseconds. */
  function ShiftOf(c: int): int {
    c * 100 / 9
  }

  /** Ticks of a time, less a constant, read back: the time less the constant, at most thirteen
      microseconds early and never late; below zero it is zero. */
  lemma TimeReadsBack(us: u64, c: nat)
    requires us - ShiftOf(c) < ERA
    ensures var back := ToTimestamp(TimeOf(us * 9 / 100 - c));
            if us * 9 / 100 < c then back == 0 else us - ShiftOf(c) - 13 <= back <= us - ShiftOf(c)
  {
    hide FromTimestamp, ToTimestamp;
    var ticks := us * 9 / 100 - c;
    var back := MicrosFromRtpTicks(ticks);
    if ticks >= 0 {
      assert back == ticks * 100 / 9;
      assert 0 <= back < ERA;
      NtpRoundTrip(back);
    } else {
      assert back <= 0;
      NtpRoundTrip(0);
    }
  }

  /** Going to the wire and back rounds down by at most 11 microseconds. */
  lemma TickRounding(us: nat)
    ensures us - 11 <= MicrosFromRtpTicks(RtpTicksFromMicros(us)) <= us
  {}

  /** The conversion back never puts times out of order. */
  lemma MicrosAreMonotone(a: int, b: int)
    requires a <= b
    ensures MicrosFromRtpTicks(a) <= MicrosFromRtpTicks(b)
  {
    if a >= 0 {
      DivMonotone(a * 100, b * 100);
    } else if b < 0 {
      DivMonotone(-b * 100, -a * 100);
    }
  }

  lemma DivMonotone(a: nat, b: nat)
    requires a <= b
    ensures a / 9 <= b / 9
  {}

  // ---- Widening ----

  /** Nearest to `reference`. */
  function WidenSeq(wire16: u16, reference: u32): u32 {
    var cand := reference / 0x1_0000 * 0x1_0000 + wire16;
    var diff := cand - reference;
    if diff > 0x8000 then (cand - 0x1_0000) % 0x1_0000_0000
    else if diff < -0x8000 then (cand + 0x1_0000) % 0x1_0000_0000
    else cand
  }

  /** Greatest not above `reference`, going back round zero when there is none. */
  function WidenSeqAtMost(wire16: u16, reference: u32): u32 {
    var cand := reference / 0x1_0000 * 0x1_0000 + wire16;
    if cand > reference then (cand - 0x1_0000) % 0x1_0000_0000 else cand
  }

  function WidenTicks(wire32: u32, reference: int): int {
    var cand := reference / 0x1_0000_0000 * 0x1_0000_0000 + wire32;
    var diff := cand - reference;
    if diff > 0x8000_0000 then cand - 0x1_0000_0000
    else if diff < -0x8000_0000 then cand + 0x1_0000_0000
    else cand
  }

  /** How far `s` lies behind `reference`, going back round zero. */
  predicate Reaches(reference: u32, s: u32) {
    WrapSub32(reference, s) < 0x1_0000
  }

  /** The at-most rule recovers exactly the sequences less than 2^16 behind the reference. */
  lemma WidenAtMostIsExact(s: u32, reference: u32)
    ensures WidenSeqAtMost(s % 0x1_0000, reference) == s <==> Reaches(reference, s)
  {
    var w := s % 0x1_0000;
    var hi := s / 0x1_0000;
    var rhi := reference / 0x1_0000;
    var rlo := reference % 0x1_0000;
    var cand := rhi * 0x1_0000 + w;
    assert reference - s == (rhi - hi) * 0x1_0000 + (rlo - w);
    if cand > reference {
      assert w > rlo;
      if rhi == 0 {
        assert (cand - 0x1_0000) % 0x1_0000_0000 == cand - 0x1_0000 + 0x1_0000_0000;
      } else {
        assert (cand - 0x1_0000) % 0x1_0000_0000 == cand - 0x1_0000;
      }
    }
  }

  /** The nearest rule recovers every true value within 2^15 of the reference's. */
  lemma WidenSeqIsExact(q: int, r: int)
    requires -0x8000 < q - r < 0x8000
    ensures WidenSeq(q % 0x1_0000, r % 0x1_0000_0000) == q % 0x1_0000_0000
  {
    var m := 0x1_0000_0000;
    var reference: nat := r % m;
    var base := r - reference;
    assert base % m == 0 && base % 0x1_0000 == 0 by { BaseParts(r); }
    var v := q - base;
    assert v % 0x1_0000 == q % 0x1_0000 && v % m == q % m by { ShiftMod(q, base); }
    var cand := reference / 0x1_0000 * 0x1_0000 + v % 0x1_0000;
    assert v == v / 0x1_0000 * 0x1_0000 + v % 0x1_0000;
    assert v / 0x1_0000 - reference / 0x1_0000 in {-1, 0, 1};
  }

  lemma BaseParts(r: int)
    ensures (r - r % 0x1_0000_0000) % 0x1_0000_0000 == 0
    ensures (r - r % 0x1_0000_0000) % 0x1_0000 == 0
  {
    var k := r / 0x1_0000_0000;
    assert r - r % 0x1_0000_0000 == k * 0x1_0000_0000;
    WholeEras(k);
  }

  lemma WholeEras(k: int)
    ensures k * 0x1_0000_0000 % 0x1_0000_0000 == 0
    ensures k * 0x1_0000_0000 % 0x1_0000 == 0
  {
    var j := k * 0x1_0000;
    assert k * 0x1_0000_0000 == j * 0x1_0000;
  }

  lemma ShiftMod(q: int, base: int)
    requires base % 0x1_0000_0000 == 0 && base % 0x1_0000 == 0
    ensures (q - base) % 0x1_0000 == q % 0x1_0000
    ensures (q - base) % 0x1_0000_0000 == q % 0x1_0000_0000
  {
    LowShift(q, base);
    LowShift32(q, base);
  }

  lemma LowShift(q: int, c: int)
    requires c % 0x1_0000 == 0
    ensures (q - c) % 0x1_0000 == q % 0x1_0000
  {
    var k, d := c / 0x1_0000, q / 0x1_0000;
    assert q - c == (d - k) * 0x1_0000 + q % 0x1_0000;
  }

  lemma LowShift32(q: int, c: int)
    requires c % 0x1_0000_0000 == 0
    ensures (q - c) % 0x1_0000_0000 == q % 0x1_0000_0000
  {
    var k, d := c / 0x1_0000_0000, q / 0x1_0000_0000;
    assert q - c == (d - k) * 0x1_0000_0000 + q % 0x1_0000_0000;
  }

  /** Whatever the reference, the low half is the one that was sent. */
  lemma WidenSeqKeepsLow(wire16: u16, reference: u32)
    ensures WidenSeq(wire16, reference) % 0x1_0000 == wire16
  {
    var high := reference / 0x1_0000;
    LowOf(high, wire16);
    LowOf(high - 1, wire16);
    LowOf(high + 1, wire16);
  }

  lemma LowOf(high: int, low: u16)
    ensures (high * 0x1_0000 + low) % 0x1_0000_0000 % 0x1_0000 == low
  {
    var v := high * 0x1_0000 + low;
    var q := v / 0x1_0000_0000;
    assert v % 0x1_0000_0000 == (high - q * 0x1_0000) * 0x1_0000 + low;
  }

  /** The same for ticks, which are not wrapped. */
  lemma WidenTicksIsExact(t: int, k: int, reference: int)
    requires k % 0x1_0000_0000 == 0
    requires -0x8000_0000 < t - k - reference < 0x8000_0000
    ensures WidenTicks(t % 0x1_0000_0000, reference) == t - k
  {
    var v := t - k;
    assert v % 0x1_0000_0000 == t % 0x1_0000_0000;
    assert v == v / 0x1_0000_0000 * 0x1_0000_0000 + v % 0x1_0000_0000;
    assert v / 0x1_0000_0000 - reference / 0x1_0000_0000 in {-1, 0, 1};
  }

  /** Exactly half a turn away both readings are as near; the one in the reference's own turn is taken. */
  lemma HalfwayStaysInTurn(reference: int, r: u32)
    ensures var t := WidenTicks((reference + 0x8000_0000) % 0x1_0000_0000, reference);
            t / 0x1_0000_0000 == reference / 0x1_0000_0000 && (t == reference + 0x8000_0000 || t == reference - 0x8000_0000)
    ensures var s := WidenSeq((r + 0x8000) % 0x1_0000, r);
            s / 0x1_0000 == r / 0x1_0000 && (s == r + 0x8000 || s == r - 0x8000)
  {
    var m := 0x1_0000_0000;
    var lo := reference % m;
    assert reference == reference / m * m + lo;
    assert (reference + 0x8000_0000) % m == if lo < 0x8000_0000 then lo + 0x8000_0000 else lo - 0x8000_0000;
  }

  // ---- The media decoder ----

  datatype DecoderState = DecoderState(started: bool, refSeq: u32, refTicks: int)

  /** Sequence and source time of one packet. */
  datatype Reading = Reading(seqNum: u32, sourceTime: u64)

  function TimeOf(ticks: int): u64 {
    var us := MicrosFromRtpTicks(ticks);
    FromTimestamp(if us < 0 then 0 else us % 0x1_0000_0000_0000_0000)
  }

  function Widened(s: DecoderState, seq16: u16, ts32: u32): DecoderState {
    if s.started then DecoderState(true, WidenSeq(seq16, s.refSeq), WidenTicks(ts32, s.refTicks))
    else DecoderState(true, seq16, ts32)
  }

  function ReadingOf(s: DecoderState): Reading {
    Reading(s.refSeq, TimeOf(s.refTicks))
  }

  class MediaDecoder {
    var started: bool
    var refSeq: u32
    var refTicks: int

    ghost function State(): DecoderState
      reads this
    {
      DecoderState(started, refSeq, refTicks)
    }

    constructor ()
      ensures State() == DecoderState(false, 0, 0)
    {
      started, refSeq, refTicks := false, 0, 0;
    }

    method Widen(seq16: u16, ts32: u32) returns (seq32: u32, sourceTime: u64)
      modifies this
      ensures State() == Widened(old(State()), seq16, ts32)
      ensures Reading(seq32, sourceTime) == ReadingOf(State())
    {
      var ticks;
      if started {
        seq32, ticks := WidenSeq(seq16, refSeq), WidenTicks(ts32, refTicks);
      } else {
        started := true;
        seq32, ticks := seq16, ts32;
      }
      refSeq := seq32;
      refTicks := ticks;
      var micros := MicrosFromRtpTicks(ticks);
      sourceTime := FromTimestamp(if micros < 0 then 0 else micros % 0x1_0000_0000_0000_0000);
    }

    /** The time of a packet rebuilt by the FEC; the references stay. */
    method SourceTime(wireTs: u32) returns (sourceTime: u64)
      ensures sourceTime == TimeOf(WidenTicks(wireTs, refTicks))
    {
      var micros := MicrosFromRtpTicks(WidenTicks(wireTs, refTicks));
      sourceTime := FromTimestamp(if micros < 0 then 0 else micros % 0x1_0000_0000_0000_0000);
    }
  }

  // ---- Whole runs ----

  /** A packet as it really is: its sequence and tick count, neither of them wrapped. */
  datatype True = True(pos: int, ticks: int)

  predicate Near(a: True, b: True) {
    -0x8000 < a.pos - b.pos < 0x8000 && -0x8000_0000 < a.ticks - b.ticks < 0x8000_0000
  }

  /** Each packet is near the one decoded before it. */
  predicate Steady(run: seq<True>) {
    forall i :: 0 < i < |run| ==> Near(run[i], run[i - 1])
  }

  /** The states of a fresh decoder after each packet of a run. */
  function After(run: seq<True>, n: nat): DecoderState
    requires n <= |run|
  {
    if n == 0 then DecoderState(false, 0, 0)
    else Widened(After(run, n - 1), run[n - 1].pos % 0x1_0000, run[n - 1].ticks % 0x1_0000_0000)
  }

  function Floor16(x: int): (r: int)
    ensures r % 0x1_0000 == 0
  {
    x / 0x1_0000 * 0x1_0000
  }

  function Floor32(x: int): (r: int)
    ensures r % 0x1_0000_0000 == 0
  {
    x / 0x1_0000_0000 * 0x1_0000_0000
  }

  /** The true values up to the offset of the first packet's unknown high bits. */
  function TrueReading(run: seq<True>, i: nat): Reading
    requires i < |run|
  {
    Reading((run[i].pos - Floor16(run[0].pos)) % 0x1_0000_0000,
            TimeOf(run[i].ticks - Floor32(run[0].ticks)))
  }

  lemma {:induction false} RunKeepsOffset(run: seq<True>, n: nat)
    requires 0 < n <= |run| && Steady(run)
    ensures var s := After(run, n);
            && s.started
            && s.refSeq == (run[n - 1].pos - Floor16(run[0].pos)) % 0x1_0000_0000
            && s.refTicks == run[n - 1].ticks - Floor32(run[0].ticks)
  {
    hide WidenSeq, WidenTicks, Floor16, Floor32;
    var c, k := Floor16(run[0].pos), Floor32(run[0].ticks);
    if n == 1 {
      FirstOffset(run[0]);
    } else {
      RunKeepsOffset(run, n - 1);
      assert Near(run[n - 1], run[n - 2]);
      WidenSeqIsExact(run[n - 1].pos - c, run[n - 2].pos - c);
      LowShift(run[n - 1].pos, c);
      WidenTicksIsExact(run[n - 1].ticks, k, run[n - 2].ticks - k);
    }
  }

  lemma FirstOffset(p: True)
    ensures (p.pos - Floor16(p.pos)) % 0x1_0000_0000 == p.pos % 0x1_0000
    ensures p.ticks - Floor32(p.ticks) == p.ticks % 0x1_0000_0000
  {}

  /** In every steady run every packet is read as its true values, up to one offset for the whole
      run; so a retransmission is read exactly as its original was. */
  lemma {:induction false} SteadyRunIsReadTrue(run: seq<True>, i: nat, j: nat)
    requires Steady(run) && i < |run| && j < |run|
    ensures ReadingOf(After(run, i + 1)) == TrueReading(run, i)
    ensures run[i] == run[j] ==> ReadingOf(After(run, i + 1)) == ReadingOf(After(run, j + 1))
  {
    hide TimeOf, Widened, Floor16, Floor32;
    RunKeepsOffset(run, i + 1);
    RunKeepsOffset(run, j + 1);
  }

  lemma SteadyPrefix(run: seq<True>, p: True)
    requires Steady(run + [p])
    ensures Steady(run)
    ensures run != [] ==> Near(p, run[|run| - 1])
  {
    forall i | 0 < i < |run| ensures Near(run[i], run[i - 1]) {
      assert (run + [p])[i] == run[i] && (run + [p])[i - 1] == run[i - 1];
    }
    assert run != [] ==> Near((run + [p])[|run|], (run + [p])[|run| - 1]);
  }

  lemma TicksKeepOffset(run: seq<True>)
    requires run != [] && Steady(run)
    ensures After(run, |run|).refTicks == run[|run| - 1].ticks - Floor32(run[0].ticks)
  {
    RunKeepsOffset(run, |run|);
  }

  /** A rebuilt packet near the front gets its true time too, as its own retransmission would. */
  lemma RebuiltTimeIsTrue(run: seq<True>, p: True)
    requires run != [] && Steady(run + [p])
    ensures WidenTicks(p.ticks % 0x1_0000_0000, After(run, |run|).refTicks) == p.ticks - Floor32(run[0].ticks)
  {
    hide WidenTicks, Floor32, After, Widened, Steady;
    SteadyPrefix(run, p);
    TicksKeepOffset(run);
    WidenTicksIsExact(p.ticks, Floor32(run[0].ticks), After(run, |run|).refTicks);
  }
}
