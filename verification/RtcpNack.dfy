/** The two retransmission requests of rtcp.rs: range records and bitmask records, packed from a
    list of missing sequence numbers and expanded again. */
module RtcpNack {
  import opened Bytes
  import opened Bits

  const MAX_NACK_RECORDS_PER_PACKET := 16
  const MAX_NACK_EXPAND := 0x1_0000

  /** Packets `start` to `start + extra`, modulo 2^16. */
  datatype NackRange = NackRange(start: u16, extra: u16)

  /** Packet `pid`, and `pid + i + 1` for each set bit `i` of `blp`. */
  datatype NackPair = NackPair(pid: u16, blp: u16)

  function Low16(x: u32): u16 {
    x % 0x1_0000
  }

  function Next16(s: u16): u16 {
    (s + 1) % 0x1_0000
  }

  /** The low halves of a missing list: all that the wire carries. */
  function Lows(missing: seq<u32>): (r: seq<u16>)
    ensures |r| == |missing|
  {
    if missing == [] then [] else [Low16(missing[0])] + Lows(missing[1..])
  }

  function Min(a: nat, b: nat): nat {
    if a < b then a else b
  }

  /** Splits a record list into packets of at most sixteen. */
  function Chunked<T>(records: seq<T>): (c: seq<seq<T>>)
    decreases |records|
  {
    if records == [] then []
    else
      var n := Min(|records|, MAX_NACK_RECORDS_PER_PACKET);
      [records[..n]] + Chunked(records[n..])
  }

  function Flat<T>(c: seq<seq<T>>): seq<T> {
    if c == [] then [] else c[0] + Flat(c[1..])
  }

  lemma {:induction false} ChunkedIsFaithful<T>(records: seq<T>)
    ensures Flat(Chunked(records)) == records
    ensures forall c :: c in Chunked(records) ==> 1 <= |c| <= MAX_NACK_RECORDS_PER_PACKET
    decreases |records|
  {
    if records != [] {
      var n := Min(|records|, MAX_NACK_RECORDS_PER_PACKET);
      ChunkedIsFaithful(records[n..]);
      var c := Chunked(records);
      assert c[1..] == Chunked(records[n..]);
      assert records[..n] + records[n..] == records;
    }
  }

  /** A full packet is cut off the front. */
  lemma ChunkedFull<T>(full: seq<T>, rest: seq<T>)
    requires |full| == MAX_NACK_RECORDS_PER_PACKET
    ensures Chunked(full + rest) == [full] + Chunked(rest)
  {
    var all := full + rest;
    assert all[..MAX_NACK_RECORDS_PER_PACKET] == full && all[MAX_NACK_RECORDS_PER_PACKET..] == rest;
  }

  lemma ChunkedPart<T>(part: seq<T>)
    requires |part| <= MAX_NACK_RECORDS_PER_PACKET
    ensures Chunked(part) == if part == [] then [] else [part]
  {
    if part != [] {
      assert part[..|part|] == part && part[|part|..] == [];
    }
  }

  // ---- Range records ----

  function Span(start: u16, extra: nat): (s: seq<u16>)
    ensures |s| == extra + 1
    decreases extra
  {
    [start] + if extra == 0 then [] else Span(Next16(start), extra - 1)
  }

  /** Everything a record list asks for, in order. */
  function Expanded(ranges: seq<NackRange>): seq<u16> {
    if ranges == [] then [] else Span(ranges[0].start, ranges[0].extra) + Expanded(ranges[1..])
  }

  function Truncated<T>(s: seq<T>): (r: seq<T>)
    ensures |s| <= MAX_NACK_EXPAND ==> r == s
  {
    if |s| <= MAX_NACK_EXPAND then s else s[..MAX_NACK_EXPAND]
  }

  /** What a decoded packet is read as: an expansion stops at 65536 entries. */
  function RangeMissing(ranges: seq<NackRange>): seq<u16> {
    Truncated(Expanded(ranges))
  }

  /** The greedy runs of a list, from a record in progress whose last entry is `last`. */
  function Runs(cur: NackRange, last: u16, rest: seq<u32>): (r: seq<NackRange>)
    ensures r != []
    decreases |rest|
  {
    if rest == [] then [cur]
    else
      var s := Low16(rest[0]);
      if s == Next16(last) && cur.extra < 0xFFFF
      then Runs(NackRange(cur.start, cur.extra + 1), s, rest[1..])
      else [cur] + Runs(NackRange(s, 0), s, rest[1..])
  }

  function RangeRecords(missing: seq<u32>): seq<NackRange> {
    if missing == [] then []
    else Runs(NackRange(Low16(missing[0]), 0), Low16(missing[0]), missing[1..])
  }

  function SpanEnd(start: u16, extra: nat): u16 {
    (start + extra) % 0x1_0000
  }

  lemma SpanEndNext(start: u16, extra: nat)
    ensures SpanEnd(start, 0) == start
    ensures SpanEnd(start, extra + 1) == Next16(SpanEnd(start, extra))
    ensures SpanEnd(Next16(start), extra) == SpanEnd(start, extra + 1)
  {
    ModStep(start, extra);
    ModStep2(start, extra);
  }

  lemma ModStep(a: nat, b: nat)
    ensures (a + (b + 1)) % 0x1_0000 == ((a + b) % 0x1_0000 + 1) % 0x1_0000
  {}

  lemma ModStep2(a: nat, b: nat)
    ensures ((a + 1) % 0x1_0000 + b) % 0x1_0000 == (a + (b + 1)) % 0x1_0000
  {}

  lemma {:induction false} SpanGrows(start: u16, extra: nat)
    ensures Span(start, extra + 1) == Span(start, extra) + [SpanEnd(start, extra + 1)]
    decreases extra
  {
    hide Next16, SpanEnd;
    SpanEndNext(start, extra);
    SpanEndNext(start, 0);
    if extra > 0 {
      SpanGrows(Next16(start), extra - 1);
      SpanEndNext(start, extra - 1);
    }
  }

  lemma {:induction false} RunsAreExact(cur: NackRange, last: u16, rest: seq<u32>)
    requires last == SpanEnd(cur.start, cur.extra)
    ensures Expanded(Runs(cur, last, rest)) == Span(cur.start, cur.extra) + Lows(rest)
    decreases |rest|
  {
    hide Next16, SpanEnd, Low16, Span;
    SpanEndNext(cur.start, cur.extra);
    if rest == [] {
      assert [cur][1..] == [];
    } else {
      var s := Low16(rest[0]);
      if s == Next16(last) && cur.extra < 0xFFFF {
        RunsAreExact(NackRange(cur.start, cur.extra + 1), s, rest[1..]);
        SpanGrows(cur.start, cur.extra);
      } else {
        SpanEndNext(s, 0);
        RunsAreExact(NackRange(s, 0), s, rest[1..]);
        SpanOfOne(s);
        assert ([cur] + Runs(NackRange(s, 0), s, rest[1..]))[1..] == Runs(NackRange(s, 0), s, rest[1..]);
      }
    }
  }

  lemma SpanOfOne(s: u16)
    ensures Span(s, 0) == [s]
  {}

  /** The records ask for exactly the list, in its order and with its repeats. */
  lemma RangeRecordsAreExact(missing: seq<u32>)
    ensures Expanded(RangeRecords(missing)) == Lows(missing)
  {
    if missing != [] {
      var s := Low16(missing[0]);
      SpanOfOne(s);
      SpanEndNext(s, 0);
      RunsAreExact(NackRange(s, 0), s, missing[1..]);
    }
  }

  lemma {:induction false} ExpandedOfSum(a: seq<NackRange>, b: seq<NackRange>)
    ensures Expanded(a + b) == Expanded(a) + Expanded(b)
  {
    hide Span;
    if a == [] {
      assert a + b == b;
    } else {
      ExpandedOfSum(a[1..], b);
      assert (a + b)[1..] == a[1..] + b;
      Associate(Span(a[0].start, a[0].extra), Expanded(a[1..]), Expanded(b));
    }
  }

  /** Everything the packets of a request are read as, packet after packet. */
  function AllRangeMissing(packets: seq<seq<NackRange>>): seq<u16> {
    if packets == [] then [] else RangeMissing(packets[0]) + AllRangeMissing(packets[1..])
  }

  lemma {:induction false} SplittingLosesNothing(packets: seq<seq<NackRange>>)
    requires |Expanded(Flat(packets))| <= MAX_NACK_EXPAND
    ensures AllRangeMissing(packets) == Expanded(Flat(packets))
  {
    if packets != [] {
      ExpandedOfSum(packets[0], Flat(packets[1..]));
      SplittingLosesNothing(packets[1..]);
    }
  }

  /** The list-exact round trip over whole packets: reading every packet of a request for at most
      65536 sequences gives back their low halves, in order and with repeats, and every packet
      holds 1 to 16 records. */
  lemma RangeRoundTrip(missing: seq<u32>)
    requires |missing| <= 65536
    ensures AllRangeMissing(Chunked(RangeRecords(missing))) == Lows(missing)
    ensures forall p :: p in Chunked(RangeRecords(missing)) ==> 1 <= |p| <= 16
  {
    ChunkedIsFaithful(RangeRecords(missing));
    RangeRecordsAreExact(missing);
    SplittingLosesNothing(Chunked(RangeRecords(missing)));
  }

  // Minimality. The number of records depends on the record in progress only through its length;
  // the greedy choice is never behind.

  lemma {:induction false} RunsCount(d: u16, e: u16, a: u16, b: u16, last: u16, rest: seq<u32>)
    requires d <= e
    ensures |Runs(NackRange(a, d), last, rest)| <= |Runs(NackRange(b, e), last, rest)|
    ensures |Runs(NackRange(b, e), last, rest)| <= 1 + |Runs(NackRange(a, d), last, rest)|
    decreases |rest|
  {
    hide Next16, Low16;
    if rest != [] {
      var s := Low16(rest[0]);
      RunsCount(0, 0, s, s, s, rest[1..]);
      if s == Next16(last) {
        if e < 0xFFFF {
          RunsCount(d + 1, e + 1, a, b, s, rest[1..]);
        } else if d < 0xFFFF {
          RunsCount(0, d + 1, s, a, s, rest[1..]);
        }
      } else {
      }
    }
  }

  /** Dropping the record in progress saves at most one record, and never costs any. */
  lemma RunsVersusFresh(d: u16, a: u16, last: u16, rest: seq<u32>)
    ensures |RangeRecords(rest)| <= |Runs(NackRange(a, d), last, rest)| <= 1 + |RangeRecords(rest)|
  {
    hide Next16, Low16;
    if rest != [] {
      var s := Low16(rest[0]);
      if s == Next16(last) && d < 0xFFFF {
        RunsCount(0, d + 1, s, a, s, rest[1..]);
      } else {
        RunsCount(0, 0, s, s, s, rest[1..]);
      }
    }
  }

  /** A record that could still cover the next `k` entries saves nothing over the greedy run. */
  lemma {:induction false} GreedyReaches(d: u16, a: u16, last: u16, rest: seq<u32>, k: nat)
    requires k <= |rest| && d + k <= 0xFFFF
    requires k > 0 ==> Lows(rest)[..k] == Span(Next16(last), k - 1)
    ensures |Runs(NackRange(a, d), last, rest)| <= 1 + |RangeRecords(rest[k..])|
    decreases k
  {
    hide Low16, Next16;
    if k == 0 {
      assert rest[0..] == rest;
      RunsVersusFresh(d, a, last, rest);
    } else {
      var s := Low16(rest[0]);
      assert Lows(rest)[..k][0] == s && Span(Next16(last), k - 1)[0] == Next16(last);
      if k > 1 {
        assert Lows(rest[1..])[..k - 1] == Lows(rest)[..k][1..];
        assert Span(Next16(last), k - 1)[1..] == Span(Next16(s), k - 2);
      }
      GreedyReaches(d + 1, a, s, rest[1..], k - 1);
      assert rest[1..][k - 1..] == rest[k..];
    }
  }

  lemma {:induction false} LowsOfTail(missing: seq<u32>, k: nat)
    requires k <= |missing|
    ensures Lows(missing[k..]) == Lows(missing)[k..]
    decreases k
  {
    if k > 0 {
      LowsOfTail(missing[1..], k - 1);
      assert missing[1..][k - 1..] == missing[k..];
      assert Lows(missing)[1..] == Lows(missing[1..]);
    } else {
      assert missing[0..] == missing;
    }
  }

  /** No list of records that asks for the same list is shorter. */
  lemma {:induction false} RangeRecordsAreMinimal(missing: seq<u32>, other: seq<NackRange>)
    requires Expanded(other) == Lows(missing)
    ensures |RangeRecords(missing)| <= |other|
    decreases |other|
  {
    hide Low16, Next16;
    if other != [] {
      var r := other[0];
      var span := Span(r.start, r.extra);
      var k: nat := r.extra;
      var rest := missing[1..];
      assert Lows(missing)[..k + 1] == span;
      assert Low16(missing[0]) == Lows(missing)[..k + 1][0] == r.start;
      assert Lows(rest) == Lows(missing)[1..];
      if k > 0 {
        assert Lows(rest)[..k] == span[1..] == Span(Next16(r.start), k - 1);
      }
      GreedyReaches(0, r.start, r.start, rest, k);
      assert rest[k..] == missing[k + 1..];
      LowsOfTail(missing, k + 1);
      assert Lows(missing)[k + 1..] == Expanded(other[1..]);
      RangeRecordsAreMinimal(missing[k + 1..], other[1..]);
    }
  }

  /** The packing loop. */
  method EncodeRangeNack(missing: seq<u32>) returns (packets: seq<seq<NackRange>>)
    ensures packets == Chunked(RangeRecords(missing))
  {
    packets := [];
    if missing == [] {
      return;
    }
    var ranges: seq<NackRange> := [];
    var cur := NackRange(Low16(missing[0]), 0);
    var last := Low16(missing[0]);
    var i := 1;
    assert [] + Runs(cur, last, missing[1..]) == RangeRecords(missing);
    while i < |missing|
      invariant 1 <= i <= |missing| && |ranges| < MAX_NACK_RECORDS_PER_PACKET
      invariant packets + Chunked(ranges + Runs(cur, last, missing[i..])) == Chunked(RangeRecords(missing))
    {
      var s := Low16(missing[i]);
      assert missing[i..][0] == missing[i] && missing[i..][1..] == missing[i + 1..];
      if s == Next16(last) && cur.extra < 0xFFFF {
        cur := NackRange(cur.start, cur.extra + 1);
      } else {
        ghost var after := Runs(NackRange(s, 0), s, missing[i + 1..]);
        assert ranges + ([cur] + after) == (ranges + [cur]) + after;
        packets, ranges := Flush(packets, ranges, cur, after);
        cur := NackRange(s, 0);
      }
      last := s;
      i := i + 1;
    }
    assert missing[i..] == [];
    assert (ranges + [cur]) + [] == ranges + [cur];
    packets, ranges := Flush(packets, ranges, cur, []);
    ChunkedPart(ranges);
    assert ranges + [] == ranges;
    if ranges != [] {
      packets := packets + [ranges];
    }
  }

  /** Adds a finished record, closing the packet when it is full; `after` is what follows it. */
  method Flush<T>(packets0: seq<seq<T>>, ranges0: seq<T>, cur: T, ghost after: seq<T>)
    returns (packets: seq<seq<T>>, ranges: seq<T>)
    requires |ranges0| < MAX_NACK_RECORDS_PER_PACKET
    ensures |ranges| < MAX_NACK_RECORDS_PER_PACKET
    ensures packets + Chunked(ranges + after) == packets0 + Chunked((ranges0 + [cur]) + after)
  {
    packets, ranges := packets0, ranges0 + [cur];
    if |ranges| == MAX_NACK_RECORDS_PER_PACKET {
      ChunkedFull(ranges, after);
      packets := packets + [ranges];
      ranges := [];
      assert [] + after == after;
    }
  }

  /** What is left of an expansion once `dst` is out. */
  lemma TruncatedStops<T>(dst: seq<T>, rest: seq<T>)
    requires |dst| == MAX_NACK_EXPAND
    ensures Truncated(dst + rest) == dst
  {
    assert rest == [] ==> dst + rest == dst;
    assert (dst + rest)[..MAX_NACK_EXPAND] == dst;
  }

  lemma Regroup<T>(a: seq<T>, x: T, b: seq<T>, c: seq<T>)
    ensures a + (([x] + b) + c) == (a + [x]) + (b + c)
    ensures a + ([x] + c) == (a + [x]) + c
  {}

  lemma SpanStep(dst: seq<u16>, s: u16, left: nat, tail: seq<u16>)
    ensures dst + (Span(s, left) + tail)
      == (dst + [s]) + (if left == 0 then tail else Span(Next16(s), left - 1) + tail)
  {
    hide Next16;
    Regroup(dst, s, if left == 0 then [] else Span(Next16(s), left - 1), tail);
    if left == 0 {
      SpanOfOne(s);
    }
  }

  /** The inner expansion loop, one record; `tail` is what the later records ask for. */
  method AppendSpan(dst0: seq<u16>, r: NackRange, ghost tail: seq<u16>) returns (dst: seq<u16>, full: bool)
    requires |dst0| <= MAX_NACK_EXPAND
    ensures |dst| <= MAX_NACK_EXPAND
    ensures full ==> dst == Truncated(dst0 + (Span(r.start, r.extra) + tail))
    ensures !full ==> dst + tail == dst0 + (Span(r.start, r.extra) + tail)
  {
    hide Next16, Truncated, Span;
    dst, full := dst0, false;
    var s, left: int := r.start, r.extra;
    ghost var goal := dst0 + (Span(r.start, r.extra) + tail);
    while left >= 0
      invariant -1 <= left && |dst| <= MAX_NACK_EXPAND
      invariant left >= 0 ==> dst + (Span(s, left) + tail) == goal
      invariant left < 0 ==> dst + tail == goal
    {
      if |dst| >= MAX_NACK_EXPAND {
        TruncatedStops(dst, Span(s, left) + tail);
        return dst, true;
      }
      SpanStep(dst, s, left, tail);
      dst := dst + [s];
      s := Next16(s);
      left := left - 1;
    }
  }

  /** The outer expansion loop. */
  method MissingOfRanges(ranges: seq<NackRange>) returns (dst: seq<u16>)
    ensures dst == RangeMissing(ranges)
  {
    hide Span, Truncated;
    dst := [];
    assert ranges[0..] == ranges;
    assert [] + Expanded(ranges) == Expanded(ranges);
    for i := 0 to |ranges|
      invariant |dst| <= MAX_NACK_EXPAND
      invariant dst + Expanded(ranges[i..]) == Expanded(ranges)
    {
      assert ranges[i..][1..] == ranges[i + 1..] && ranges[i..][0] == ranges[i];
      var full;
      dst, full := AppendSpan(dst, ranges[i], Expanded(ranges[i + 1..]));
      if full {
        return;
      }
    }
    assert ranges[|ranges|..] == [];
    assert dst + [] == dst;
  }
}
