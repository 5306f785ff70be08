/** The source times of codec_adv.rs: a 32-bit timestamp that wraps every 65 milliseconds, unwrapped
    against a line through the first packet and the foremost one. */
module AdvTime {
  import opened Bytes
  import opened Clock
  import opened Codec
  import opened Division

  /** Ticks per microsecond: 2^16. */
  const TICKS_PER_MICRO: nat := 0x1_0000

  datatype TsState = TsState(started: bool, baseSeq: u32, baseTicks: int, refSeq: u32, refTicks: int)

  const FRESH := TsState(false, 0, 0, 0, 0)

  function Along(steps: int, rate: int): int {
    steps * rate
  }

  /** Where the timestamp of `seqNum` is expected, from the average rate so far. */
  function Expected(s: TsState, seqNum: u32): int {
    var d := AsI32(s.refSeq - s.baseSeq);
    if d > 0 then s.refTicks + Along(AsI32(seqNum - s.refSeq), TruncDiv(s.refTicks - s.baseTicks, d)) else s.refTicks
  }

  function Advanced(s: TsState, seqNum: u32, wireTs: u32): TsState {
    if !s.started then TsState(true, seqNum, wireTs, seqNum, wireTs)
    else if AsI32(seqNum - s.refSeq) > 0 then
      TsState(true, s.baseSeq, s.baseTicks, seqNum, WidenTicks(wireTs, Expected(s, seqNum)))
    else s
  }

  /** Ticks to microseconds, rounding down; never negative. */
  function MicrosOfTicks(ticks: int): nat {
    if ticks < 0 then 0 else ticks / TICKS_PER_MICRO
  }

  function MicrosFor(s: TsState, seqNum: u32, wireTs: u32): nat {
    if !s.started then wireTs / TICKS_PER_MICRO else MicrosOfTicks(WidenTicks(wireTs, Expected(s, seqNum)))
  }

  class SourceClock {
    var tsStarted: bool
    var tsBaseSeq: u32
    var tsBaseTicks: int
    var tsRefSeq: u32
    var tsRefTicks: int

    ghost function State(): TsState
      reads this
    {
      TsState(tsStarted, tsBaseSeq, tsBaseTicks, tsRefSeq, tsRefTicks)
    }

    constructor ()
      ensures State() == FRESH
    {
      tsStarted, tsBaseSeq, tsBaseTicks, tsRefSeq, tsRefTicks := false, 0, 0, 0, 0;
    }

    method SourceMicros(seqNum: u32, wireTs: u32) returns (us: int)
      modifies this
      ensures State() == Advanced(old(State()), seqNum, wireTs)
      ensures us == MicrosFor(old(State()), seqNum, wireTs)
    {
      hide Along, TruncDiv, AsI32, WidenTicks;
      if !tsStarted {
        tsStarted := true;
        tsBaseSeq, tsBaseTicks := seqNum, wireTs;
        tsRefSeq, tsRefTicks := seqNum, wireTs;
        return tsBaseTicks / TICKS_PER_MICRO;
      }
      var reference := tsRefTicks;
      var d := AsI32(tsRefSeq - tsBaseSeq);
      if d > 0 {
        var ticksPerSeq := TruncDiv(tsRefTicks - tsBaseTicks, d);
        reference := reference + Along(AsI32(seqNum - tsRefSeq), ticksPerSeq);
      }
      var ticks := WidenTicks(wireTs, reference);
      if AsI32(seqNum - tsRefSeq) > 0 {
        tsRefSeq, tsRefTicks := seqNum, ticks;
      }
      us := (if ticks < 0 then 0 else ticks) / TICKS_PER_MICRO;
    }
  }

  // ---- Whole runs ----

  /** A packet as sent: its unwrapped sequence and tick count. */
  datatype Sent = Sent(pos: int, ticks: int)

  function SeqOf(p: Sent): u32 {
    p.pos % 0x1_0000_0000
  }

  function WireOf(p: Sent): u32 {
    p.ticks % 0x1_0000_0000
  }

  /** The state of a fresh decoder after the first `n` arrivals. */
  function After(run: seq<Sent>, n: nat): TsState
    requires n <= |run|
  {
    if n == 0 then FRESH else Advanced(After(run, n - 1), SeqOf(run[n - 1]), WireOf(run[n - 1]))
  }

  function Reading(run: seq<Sent>, i: nat): nat
    requires i < |run|
  {
    MicrosFor(After(run, i), SeqOf(run[i]), WireOf(run[i]))
  }

  /** The foremost of the first `n` arrivals. */
  function Front(run: seq<Sent>, n: nat): (k: nat)
    requires 0 < n <= |run|
    ensures k < n
    ensures forall j :: 0 <= j < n ==> run[j].pos <= run[k].pos
  {
    if n == 1 then 0
    else
      var k := Front(run, n - 1);
      if run[n - 1].pos > run[k].pos then n - 1 else k
  }

  /** All sequences of the run lie within 2^31 of each other. */
  predicate ShortSpan(run: seq<Sent>) {
    forall i, j :: 0 <= i < |run| && 0 <= j < |run| ==> -0x8000_0000 < run[i].pos - run[j].pos < 0x8000_0000
  }

  /** The rate drawn on a true line from the first arrival to the foremost. */
  function TrueExpected(run: seq<Sent>, n: nat): int
    requires 0 < n < |run|
  {
    var k := Front(run, n);
    var d := run[k].pos - run[0].pos;
    if d > 0 then run[k].ticks + Along(run[n].pos - run[k].pos, TruncDiv(run[k].ticks - run[0].ticks, d))
    else run[k].ticks
  }

  /** Every arrival is within 2^31 ticks of where that line expects it. */
  predicate OnLine(run: seq<Sent>) {
    forall n :: 0 < n < |run| ==> -0x8000_0000 < run[n].ticks - TrueExpected(run, n) < 0x8000_0000
  }

  function Offset(run: seq<Sent>): (k: int)
    requires run != []
    ensures k % 0x1_0000_0000 == 0
  {
    Floor32(run[0].ticks)
  }

  lemma SeqDifference(a: int, b: int)
    requires -0x8000_0000 < a - b < 0x8000_0000
    ensures AsI32(a % 0x1_0000_0000 - b % 0x1_0000_0000) == a - b
  {
    var m := 0x1_0000_0000;
    var x := a % m - b % m;
    var k := (a - a % m) / m - (b - b % m) / m;
    SameResidue(a, b);
    Unique32(AsI32(x), a - b, x);
  }

  lemma SameResidue(a: int, b: int)
    ensures (a % 0x1_0000_0000 - b % 0x1_0000_0000 - (a - b)) % 0x1_0000_0000 == 0
  {}

  lemma Unique32(r: int, s: int, x: int)
    requires (x - r) % 0x1_0000_0000 == 0 && (x - s) % 0x1_0000_0000 == 0
    requires -0x8000_0000 <= r < 0x8000_0000 && -0x8000_0000 < s < 0x8000_0000
    ensures r == s
  {}

  /** The decoder's state after any arrivals is the first packet, the foremost one and the offset. */
  ghost predicate Tracks(run: seq<Sent>, n: nat)
    requires 0 < n <= |run|
  {
    var s, k := After(run, n), Front(run, n);
    && s.started
    && s.baseSeq == SeqOf(run[0]) && s.baseTicks == run[0].ticks - Offset(run)
    && s.refSeq == SeqOf(run[k]) && s.refTicks == run[k].ticks - Offset(run)
  }

  lemma ExpectedIsTrue(run: seq<Sent>, n: nat)
    requires 0 < n < |run| && ShortSpan(run) && Tracks(run, n)
    ensures Expected(After(run, n), SeqOf(run[n])) == TrueExpected(run, n) - Offset(run)
    ensures AsI32(SeqOf(run[n]) - After(run, n).refSeq) == run[n].pos - run[Front(run, n)].pos
  {
    hide Front, AsI32, TruncDiv, Along, Floor32, Offset, After;
    var k := Front(run, n);
    SeqDifference(run[k].pos, run[0].pos);
    SeqDifference(run[n].pos, run[k].pos);
  }

  lemma OnLineAt(run: seq<Sent>, n: nat)
    requires OnLine(run) && 0 < n < |run|
    ensures -0x8000_0000 < run[n].ticks - TrueExpected(run, n) < 0x8000_0000
  {}

  lemma StepTracks(run: seq<Sent>, n: nat)
    requires 0 < n < |run| && ShortSpan(run) && OnLine(run) && Tracks(run, n)
    ensures Tracks(run, n + 1)
  {
    hide Expected, WidenTicks, TrueExpected, Offset, AsI32, OnLine, ShortSpan;
    OnLineAt(run, n);
    ExpectedIsTrue(run, n);
    WidenTicksIsExact(run[n].ticks, Offset(run), Expected(After(run, n), SeqOf(run[n])));
  }

  lemma {:induction false} RunTracks(run: seq<Sent>, n: nat)
    requires 0 < n <= |run| && ShortSpan(run) && OnLine(run)
    ensures Tracks(run, n)
  {
    hide Tracks;
    if n == 1 {
      FirstTracks(run);
    } else {
      RunTracks(run, n - 1);
      StepTracks(run, n - 1);
    }
  }

  lemma FirstTracks(run: seq<Sent>)
    requires run != []
    ensures Tracks(run, 1)
  {
    FirstTicks(run[0].ticks);
    assert After(run, 1) == Advanced(After(run, 0), SeqOf(run[0]), WireOf(run[0]));
  }

  lemma FirstTicks(t: int)
    ensures t % 0x1_0000_0000 == t - Floor32(t)
  {}

  /** Arrivals in any order, near the line: each is given its true time, up to one constant for the
      whole run and never below zero. */
  lemma ReadingIsTrue(run: seq<Sent>, i: nat)
    requires i < |run| && ShortSpan(run) && OnLine(run)
    ensures Reading(run, i) == MicrosOfTicks(run[i].ticks - Offset(run))
  {
    if i == 0 {
      FirstTicks(run[0].ticks);
    } else {
      hide Expected, WidenTicks, TrueExpected, Offset, AsI32, OnLine, ShortSpan;
      RunTracks(run, i);
      OnLineAt(run, i);
      ExpectedIsTrue(run, i);
      WidenTicksIsExact(run[i].ticks, Offset(run), Expected(After(run, i), SeqOf(run[i])));
    }
  }

  // ---- Affine clocks ----

  /** Ticks affine in the sequence. */
  predicate Affine(run: seq<Sent>, rate: int) {
    forall i, j :: 0 <= i < |run| && 0 <= j < |run| ==>
      run[i].ticks - run[j].ticks == rate * (run[i].pos - run[j].pos)
  }

  /** What arrives before the front moves is within 2^31 ticks of the first arrival. */
  predicate CloseStart(run: seq<Sent>) {
    forall n :: 0 < n < |run| && run[Front(run, n)].pos == run[0].pos ==>
      -0x8000_0000 < run[n].ticks - run[0].ticks < 0x8000_0000
  }

  lemma ExactQuotient(rate: int, d: int)
    requires d > 0
    ensures TruncDiv(rate * d, d) == rate
  {
    if rate >= 0 {
      Scale(0, rate, d);
      Quotient(rate * d, rate, 0, d);
    } else {
      assert -(rate * d) == (-rate) * d;
      Scale(1, -rate, d);
      Quotient(-(rate * d), -rate, 0, d);
    }
  }

  lemma AffineIsOnLine(run: seq<Sent>, rate: int)
    requires Affine(run, rate) && CloseStart(run)
    ensures OnLine(run)
    ensures forall n :: 0 < n < |run| && run[Front(run, n)].pos > run[0].pos ==> run[n].ticks == TrueExpected(run, n)
  {
    forall n | 0 < n < |run|
      ensures -0x8000_0000 < run[n].ticks - TrueExpected(run, n) < 0x8000_0000
      ensures run[Front(run, n)].pos > run[0].pos ==> run[n].ticks == TrueExpected(run, n)
    {
      AffineStep(run, rate, n);
    }
  }

  lemma AffineStep(run: seq<Sent>, rate: int, n: nat)
    requires Affine(run, rate) && CloseStart(run) && 0 < n < |run|
    ensures -0x8000_0000 < run[n].ticks - TrueExpected(run, n) < 0x8000_0000
    ensures run[Front(run, n)].pos > run[0].pos ==> run[n].ticks == TrueExpected(run, n)
  {
    hide TruncDiv, Affine, Along, Front;
    var k := Front(run, n);
    AffinePair(run, rate, k, 0);
    AffinePair(run, rate, n, k);
    LineThroughTwo(rate, run[k].pos - run[0].pos, run[k].ticks - run[0].ticks, run[n].pos - run[k].pos,
                   run[n].ticks - run[k].ticks);
  }

  lemma AffinePair(run: seq<Sent>, rate: int, i: nat, j: nat)
    requires Affine(run, rate) && i < |run| && j < |run|
    ensures run[i].ticks - run[j].ticks == rate * (run[i].pos - run[j].pos)
  {}

  lemma LineThroughTwo(rate: int, d: int, t: int, e: int, u: int)
    requires t == rate * d && u == rate * e && d >= 0
    ensures d > 0 ==> Along(e, TruncDiv(t, d)) == u
    ensures d == 0 ==> t == 0
  {
    if d > 0 {
      ExactQuotient(rate, d);
      Commute(rate, e);
    }
  }

  lemma Commute(a: int, b: int)
    ensures a * b == b * a
  {}

  /** The main result: ticks affine in the sequence, sequences spanning less than 2^31, and a start
      within 2^31 ticks. In whatever order packets arrive, and however often the timestamp wraps,
      each gets its true time up to one constant, so a retransmission gets its original's. */
  lemma AffineRunIsReadTrue(run: seq<Sent>, rate: int, i: nat, j: nat)
    requires Affine(run, rate) && CloseStart(run) && ShortSpan(run) && i < |run| && j < |run|
    ensures Reading(run, i) == MicrosOfTicks(run[i].ticks - Offset(run))
    ensures run[i].pos == run[j].pos ==> Reading(run, i) == Reading(run, j)
  {
    hide Reading, OnLine, MicrosOfTicks, CloseStart, ShortSpan, Offset;
    AffineIsOnLine(run, rate);
    ReadingIsTrue(run, i);
    ReadingIsTrue(run, j);
    if run[i].pos == run[j].pos {
      assert run[i].ticks - run[j].ticks == rate * (run[i].pos - run[j].pos) == 0;
    }
  }

  /** No step leaves 64 bits while the true times stay inside 62. */
  lemma NoOverflow(run: seq<Sent>, rate: int, n: nat, limit: nat)
    requires Affine(run, rate) && 0 < n < |run| && run[Front(run, n)].pos > run[0].pos
    requires limit <= 0x2000_0000_0000_0000
    requires forall i :: 0 <= i < |run| ==> 0 - limit <= run[i].ticks - Offset(run) <= limit
    ensures var k := Front(run, n);
            var step := Along(run[n].pos - run[k].pos, TruncDiv(run[k].ticks - run[0].ticks, run[k].pos - run[0].pos));
            && -2 * limit <= step <= 2 * limit
            && -3 * limit <= run[k].ticks - Offset(run) + step <= 3 * limit
  {
    hide TruncDiv, Offset, Affine, Along, Front;
    var k := Front(run, n);
    AffinePair(run, rate, k, 0);
    AffinePair(run, rate, n, k);
    LineThroughTwo(rate, run[k].pos - run[0].pos, run[k].ticks - run[0].ticks, run[n].pos - run[k].pos,
                   run[n].ticks - run[k].ticks);
  }
}
