/** The Generic NACK of rtcp.rs: a packet number and a mask over the sixteen that follow it. */
module RtcpBitmask {
  import opened Bytes
  import opened Bits
  import opened RtcpNack

  const WINDOW: nat := 16

  function After(pid: u16, d: nat): u16 {
    (pid + d) % 0x1_0000
  }

  /** `s.wrapping_sub(pid)`. */
  function Distance(s: u16, pid: u16): u16 {
    (s - pid) % 0x1_0000
  }

  /** The mask entries from bit `i` up. */
  function MaskSeqs(p: NackPair, i: nat): (r: seq<u16>)
    ensures |r| <= if i < WINDOW then WINDOW - i else 0
    decreases WINDOW - i
  {
    if i >= WINDOW then []
    else (if Bit(p.blp, i) then [After(p.pid, i + 1)] else []) + MaskSeqs(p, i + 1)
  }

  function PairSeqs(p: NackPair): (r: seq<u16>)
    ensures |r| <= WINDOW + 1
  {
    [p.pid] + MaskSeqs(p, 0)
  }

  /** Everything a record list asks for, in order. */
  function Asked(pairs: seq<NackPair>): seq<u16> {
    if pairs == [] then [] else PairSeqs(pairs[0]) + Asked(pairs[1..])
  }

  function BitmaskMissing(pairs: seq<NackPair>): seq<u16> {
    Truncated(Asked(pairs))
  }

  function WithBit(p: NackPair, k: nat): NackPair
    requires k < WINDOW
  {
    MaskBound(p, k);
    NackPair(p.pid, SetBit(p.blp, k))
  }

  lemma MaskBound(p: NackPair, k: nat)
    requires k < WINDOW
    ensures SetBit(p.blp, k) < 0x1_0000
  {
    assert Pow2(16) == 0x1_0000 by { assert Pow2(8) == 256; }
    SetBitBound(p.blp, k, 16);
  }

  predicate Covers(pid: u16, s: u16) {
    1 <= Distance(s, pid) <= WINDOW
  }

  /** The greedy packing, from a record in progress. */
  function Pairs(cur: NackPair, rest: seq<u32>): (r: seq<NackPair>)
    ensures r != []
    decreases |rest|
  {
    if rest == [] then [cur]
    else
      var s := Low16(rest[0]);
      if Covers(cur.pid, s) then Pairs(WithBit(cur, Distance(s, cur.pid) - 1), rest[1..])
      else [cur] + Pairs(NackPair(s, 0), rest[1..])
  }

  function BitmaskRecords(missing: seq<u32>): seq<NackPair> {
    if missing == [] then [] else Pairs(NackPair(Low16(missing[0]), 0), missing[1..])
  }

  lemma AfterOfDistance(pid: u16, s: u16)
    ensures After(pid, Distance(s, pid)) == s
  {}

  // ---- The mask asks for exactly its bits ----

  predicate Asks(p: NackPair, j: nat, x: u16) {
    j < WINDOW && Bit(p.blp, j) && x == After(p.pid, j + 1)
  }

  lemma {:induction false} MaskSeqsAre(p: NackPair, i: nat, x: u16)
    ensures x in MaskSeqs(p, i) <==> exists j: nat :: i <= j && Asks(p, j, x)
    decreases WINDOW - i
  {
    hide After, Bit;
    assert i < WINDOW && Bit(p.blp, i) ==> Asks(p, i, After(p.pid, i + 1));
    if i < WINDOW {
      MaskSeqsAre(p, i + 1, x);
    }
  }

  /** Setting a bit adds its sequence number and nothing else. */
  lemma WithBitAdds(p: NackPair, k: nat, x: u16)
    requires k < WINDOW
    ensures x in PairSeqs(WithBit(p, k)) <==> x in PairSeqs(p) || x == After(p.pid, k + 1)
  {
    hide After, Bit, SetBit;
    var q := WithBit(p, k);
    MaskSeqsAre(p, 0, x);
    MaskSeqsAre(q, 0, x);
    forall j: nat ensures Asks(q, j, x) <==> Asks(p, j, x) || (j == k && x == After(p.pid, k + 1)) {
      BitOfSetBit(p.blp, k, j);
    }
    hide MaskSeqs;
    if x in MaskSeqs(p, 0) {
      var j: nat :| Asks(p, j, x);
      assert Asks(q, j, x);
    }
    if x in MaskSeqs(q, 0) {
      var j: nat :| Asks(q, j, x);
      assert j != k ==> Asks(p, j, x);
    }
    assert x == After(p.pid, k + 1) ==> Asks(q, k, x);
  }

  lemma {:induction false} NoMask(pid: u16, i: nat)
    ensures MaskSeqs(NackPair(pid, 0), i) == []
    decreases WINDOW - i
  {
    NoBitsInZero(i);
    if i < WINDOW {
      NoMask(pid, i + 1);
    }
  }

  lemma {:induction false} PairsAskExactly(cur: NackPair, rest: seq<u32>, x: u16)
    ensures x in Asked(Pairs(cur, rest)) <==> x in PairSeqs(cur) || x in Lows(rest)
    decreases |rest|
  {
    hide After, Distance, Low16, PairSeqs;
    if rest == [] {
      assert [cur][1..] == [];
    } else {
      var s := Low16(rest[0]);
      AfterOfDistance(cur.pid, s);
      if Covers(cur.pid, s) {
        PairsAskExactly(WithBit(cur, Distance(s, cur.pid) - 1), rest[1..], x);
        WithBitAdds(cur, Distance(s, cur.pid) - 1, x);
      } else {
        var next := NackPair(s, 0);
        PairsAskExactly(next, rest[1..], x);
        FreshPair(s);
        assert ([cur] + Pairs(next, rest[1..]))[1..] == Pairs(next, rest[1..]);
      }
    }
  }

  lemma FreshPair(s: u16)
    ensures PairSeqs(NackPair(s, 0)) == [s]
  {
    NoMask(s, 0);
  }

  /** For every list, in any order and with repeats: the records ask for exactly its members. */
  lemma BitmaskRecordsAreExact(missing: seq<u32>, x: u16)
    ensures x in Asked(BitmaskRecords(missing)) <==> x in Lows(missing)
  {
    if missing != [] {
      FreshPair(Low16(missing[0]));
      PairsAskExactly(NackPair(Low16(missing[0]), 0), missing[1..], x);
    }
  }

  // ---- Order and multiplicity ----

  /** How far `next` lies ahead of `prev`, going forward round the circle. */
  function Forward(prev: u16, next: u16): u16 {
    Distance(next, prev)
  }

  /** A step that goes forward, but not so far as to come round into the sixteen before. */
  predicate Ascends(prev: u16, next: u16) {
    1 <= Forward(prev, next) < 0x1_0000 - WINDOW
  }

  predicate Ascending(last: u16, rest: seq<u32>)
    decreases |rest|
  {
    rest != [] ==> Ascends(last, Low16(rest[0])) && Ascending(Low16(rest[0]), rest[1..])
  }

  /** A record whose highest entry is `last`, `o` above its packet number. */
  predicate EndsAt(p: NackPair, last: u16, o: nat) {
    o <= WINDOW && last == After(p.pid, o) && forall j :: o <= j < WINDOW ==> !Bit(p.blp, j)
  }

  lemma StepFromOffset(pid: u16, o: nat, s: u16)
    requires o <= WINDOW && Ascends(After(pid, o), s)
    ensures Distance(s, pid) == o + Forward(After(pid, o), s)
  {}

  lemma OffsetIsDistance(pid: u16, o: nat)
    requires o <= WINDOW
    ensures Distance(After(pid, o), pid) == o
  {}

  lemma {:induction false} MaskGrows(p: NackPair, k: nat, i: nat)
    requires k < WINDOW && i <= k
    requires forall j :: k <= j < WINDOW ==> !Bit(p.blp, j)
    ensures MaskSeqs(WithBit(p, k), i) == MaskSeqs(p, i) + [After(p.pid, k + 1)]
    decreases WINDOW - i
  {
    hide After, Bit, SetBit;
    BitOfSetBit(p.blp, k, i);
    if i < k {
      MaskGrows(p, k, i + 1);
    } else {
      MaskEnds(p, k + 1);
      forall j | k < j < WINDOW ensures !Bit(SetBit(p.blp, k), j) {
        BitOfSetBit(p.blp, k, j);
      }
      MaskEnds(WithBit(p, k), k + 1);
    }
  }

  lemma {:induction false} MaskEnds(p: NackPair, i: nat)
    requires forall j :: i <= j < WINDOW ==> !Bit(p.blp, j)
    ensures MaskSeqs(p, i) == []
    decreases WINDOW - i
  {
    if i < WINDOW {
      MaskEnds(p, i + 1);
    }
  }

  lemma WithBitAppends(p: NackPair, last: u16, o: nat, k: nat)
    requires EndsAt(p, last, o) && o <= k < WINDOW
    ensures PairSeqs(WithBit(p, k)) == PairSeqs(p) + [After(p.pid, k + 1)]
    ensures EndsAt(WithBit(p, k), After(p.pid, k + 1), k + 1)
  {
    hide After, Bit, SetBit, MaskSeqs;
    MaskGrows(p, k, 0);
    assert WithBit(p, k).pid == p.pid;
    forall j | k < j < WINDOW ensures !Bit(WithBit(p, k).blp, j) {
      BitOfSetBit(p.blp, k, j);
    }
  }

  lemma FreshEnds(s: u16)
    ensures EndsAt(NackPair(s, 0), s, 0)
  {
    forall j: nat | 0 <= j < WINDOW ensures !Bit(0, j) {
      NoBitsInZero(j);
    }
  }

  lemma {:induction false} PairsKeepOrder(cur: NackPair, last: u16, o: nat, rest: seq<u32>)
    requires EndsAt(cur, last, o) && Ascending(last, rest)
    ensures Asked(Pairs(cur, rest)) == PairSeqs(cur) + Lows(rest)
    decreases |rest|
  {
    hide After, Distance, Low16, PairSeqs, EndsAt, WithBit, Ascends;
    if rest == [] {
      assert [cur][1..] == [];
    } else {
      var s := Low16(rest[0]);
      CoveredOffset(cur, last, o, s);
      if Covers(cur.pid, s) {
        var k: nat := Distance(s, cur.pid) - 1;
        WithBitAppends(cur, last, o, k);
        PairsKeepOrder(WithBit(cur, k), s, k + 1, rest[1..]);
        Regroup(PairSeqs(cur), s, [], Lows(rest[1..]));
      } else {
        var next := NackPair(s, 0);
        FreshPair(s);
        FreshEnds(s);
        PairsKeepOrder(next, s, 0, rest[1..]);
        assert ([cur] + Pairs(next, rest[1..]))[1..] == Pairs(next, rest[1..]);
      }
    }
  }

  lemma CoveredOffset(cur: NackPair, last: u16, o: nat, s: u16)
    requires EndsAt(cur, last, o) && Ascends(last, s)
    ensures Distance(s, cur.pid) == o + Forward(last, s)
    ensures Distance(s, cur.pid) > o
    ensures After(cur.pid, Distance(s, cur.pid)) == s
  {
    StepFromOffset(cur.pid, o, s);
    AfterOfDistance(cur.pid, s);
  }

  predicate AscendingList(missing: seq<u32>) {
    missing == [] || Ascending(Low16(missing[0]), missing[1..])
  }

  /** For every ascending list, across the 16-bit wrap and however often round the circle: the
      records ask for exactly the list, in its order. */
  lemma AscendingRecordsAreExact(missing: seq<u32>)
    requires AscendingList(missing)
    ensures Asked(BitmaskRecords(missing)) == Lows(missing)
  {
    if missing != [] {
      var s := Low16(missing[0]);
      FreshPair(s);
      FreshEnds(s);
      PairsKeepOrder(NackPair(s, 0), s, 0, missing[1..]);
    }
  }

  lemma {:induction false} AskedOfSum(a: seq<NackPair>, b: seq<NackPair>)
    ensures Asked(a + b) == Asked(a) + Asked(b)
  {
    hide PairSeqs;
    if a == [] {
      assert a + b == b;
    } else {
      AskedOfSum(a[1..], b);
      assert (a + b)[1..] == a[1..] + b;
      assert PairSeqs(a[0]) + (Asked(a[1..]) + Asked(b)) == PairSeqs(a[0]) + Asked(a[1..]) + Asked(b);
    }
  }

  lemma {:induction false} AskedIsBounded(a: seq<NackPair>)
    ensures |Asked(a)| <= 17 * |a|
  {
    hide PairSeqs;
    if a != [] {
      AskedIsBounded(a[1..]);
    }
  }

  function AllBitmaskMissing(packets: seq<seq<NackPair>>): seq<u16> {
    if packets == [] then [] else BitmaskMissing(packets[0]) + AllBitmaskMissing(packets[1..])
  }

  lemma {:induction false} PacketsLoseNothing(packets: seq<seq<NackPair>>)
    requires forall p :: p in packets ==> |p| <= MAX_NACK_RECORDS_PER_PACKET
    ensures AllBitmaskMissing(packets) == Asked(Flat(packets))
  {
    if packets != [] {
      AskedOfSum(packets[0], Flat(packets[1..]));
      AskedIsBounded(packets[0]);
      PacketsLoseNothing(packets[1..]);
    }
  }

  /** The round trip over whole packets: exact as a set for every list, exact as a list for every
      ascending one, and every packet holds 1 to 16 records. */
  lemma BitmaskRoundTrip(missing: seq<u32>)
    ensures var packets := Chunked(BitmaskRecords(missing));
            && (forall x: u16 :: x in AllBitmaskMissing(packets) <==> x in Lows(missing))
            && (AscendingList(missing) ==> AllBitmaskMissing(packets) == Lows(missing))
            && (forall p :: p in packets ==> 1 <= |p| <= 16)
  {
    var packets := Chunked(BitmaskRecords(missing));
    ChunkedIsFaithful(BitmaskRecords(missing));
    PacketsLoseNothing(packets);
    if AscendingList(missing) {
      AscendingRecordsAreExact(missing);
    }
    forall x: u16 ensures x in AllBitmaskMissing(packets) <==> x in Lows(missing) {
      BitmaskRecordsAreExact(missing, x);
    }
  }

  // ---- Minimality ----

  lemma CoveredBy(p: NackPair, last: u16, o: nat, s: u16)
    requires EndsAt(p, last, o) && Ascends(last, s) && Covers(p.pid, s)
    ensures 0 < Distance(s, p.pid) <= WINDOW
    ensures EndsAt(WithBit(p, Distance(s, p.pid) - 1), s, Distance(s, p.pid))
  {
    hide After, Distance, EndsAt, Forward;
    CoveredOffset(p, last, o, s);
    WithBitAppends(p, last, o, Distance(s, p.pid) - 1);
  }

  /** The number of records depends on the record in progress only through how far it has come;
      starting later costs nothing and saves at most one record. */
  lemma {:induction false} PairsCount(p: NackPair, o: nat, q: NackPair, u: nat, last: u16, rest: seq<u32>)
    requires EndsAt(p, last, o) && EndsAt(q, last, u) && o <= u && Ascending(last, rest)
    ensures |Pairs(p, rest)| <= |Pairs(q, rest)| <= 1 + |Pairs(p, rest)|
    decreases |rest|
  {
    hide After, Distance, Low16, EndsAt, Forward, Ascends, WithBit;
    if rest != [] {
      var s := Low16(rest[0]);
      var next := NackPair(s, 0);
      FreshEnds(s);
      CoveredOffset(p, last, o, s);
      CoveredOffset(q, last, u, s);
      var d, e := Distance(s, p.pid), Distance(s, q.pid);
      if d > WINDOW {
        PairsCount(next, 0, next, 0, s, rest[1..]);
      } else if e > WINDOW {
        CoveredBy(p, last, o, s);
        PairsCount(next, 0, WithBit(p, d - 1), d, s, rest[1..]);
      } else {
        CoveredBy(p, last, o, s);
        CoveredBy(q, last, u, s);
        PairsCount(WithBit(p, d - 1), d, WithBit(q, e - 1), e, s, rest[1..]);
      }
    }
  }

  lemma PairsVersusFresh(p: NackPair, o: nat, last: u16, rest: seq<u32>)
    requires EndsAt(p, last, o) && Ascending(last, rest)
    ensures |BitmaskRecords(rest)| <= |Pairs(p, rest)| <= 1 + |BitmaskRecords(rest)|
  {
    hide After, Distance, Low16, EndsAt, Forward, Ascends, WithBit;
    if rest != [] {
      var s := Low16(rest[0]);
      FreshEnds(s);
      CoveredOffset(p, last, o, s);
      var d := Distance(s, p.pid);
      if d <= WINDOW {
        CoveredBy(p, last, o, s);
        PairsCount(NackPair(s, 0), 0, WithBit(p, d - 1), d, s, rest[1..]);
      }
    }
  }

  /** The packing loop that covers the next `k` entries is done with them. */
  lemma {:induction false} WindowReaches(p: NackPair, o: nat, last: u16, rest: seq<u32>, k: nat)
    requires EndsAt(p, last, o) && Ascending(last, rest) && k <= |rest|
    requires forall x :: x in Lows(rest)[..k] ==> Covers(p.pid, x)
    ensures |Pairs(p, rest)| <= 1 + |BitmaskRecords(rest[k..])|
    decreases k
  {
    hide After, Distance, Low16, EndsAt, Forward, Covers;
    if k == 0 {
      assert rest[0..] == rest;
      PairsVersusFresh(p, o, last, rest);
    } else {
      var s := Low16(rest[0]);
      assert Lows(rest)[..k] == [s] + Lows(rest[1..])[..k - 1];
      assert s in Lows(rest)[..k];
      CoveredBy(p, last, o, s);
      WindowReaches(WithBit(p, Distance(s, p.pid) - 1), Distance(s, p.pid), s, rest[1..], k - 1);
      assert rest[1..][k - 1..] == rest[k..];
    }
  }

  lemma MaskIsCovered(p: NackPair, x: u16)
    requires x in MaskSeqs(p, 0)
    ensures Covers(p.pid, x)
  {
    MaskSeqsAre(p, 0, x);
    var j: nat :| Asks(p, j, x);
    OffsetIsDistance(p.pid, j + 1);
  }

  lemma {:induction false} AscendingTail(last: u16, rest: seq<u32>, k: nat)
    requires Ascending(last, rest) && k <= |rest|
    ensures AscendingList(rest[k..])
    decreases k
  {
    if k > 0 {
      AscendingTail(Low16(rest[0]), rest[1..], k - 1);
      assert rest[1..][k - 1..] == rest[k..];
    } else {
      assert rest[0..] == rest;
    }
  }

  /** No list of records that asks for an ascending list in order is shorter than the greedy one. */
  lemma {:induction false} BitmaskRecordsAreMinimal(missing: seq<u32>, other: seq<NackPair>)
    requires AscendingList(missing) && Asked(other) == Lows(missing)
    ensures |BitmaskRecords(missing)| <= |other|
    decreases |other|
  {
    hide Low16, MaskSeqs, Ascends, Pairs;
    if other != [] {
      var r := other[0];
      var mask := MaskSeqs(r, 0);
      var k := |mask|;
      var rest := missing[1..];
      assert Lows(missing) == [r.pid] + (mask + Asked(other[1..]));
      assert Lows(missing)[0] == Low16(missing[0]) && Lows(missing)[1..] == Lows(rest);
      assert Lows(rest) == mask + Asked(other[1..]);
      assert Lows(rest)[..k] == mask && Lows(rest)[k..] == Asked(other[1..]);
      forall x | x in mask ensures Covers(r.pid, x) {
        MaskIsCovered(r, x);
      }
      FreshEnds(r.pid);
      WindowReaches(NackPair(r.pid, 0), 0, r.pid, rest, k);
      LowsOfTail(rest, k);
      AscendingTail(r.pid, rest, k);
      BitmaskRecordsAreMinimal(rest[k..], other[1..]);
    }
  }

  // ---- The loops ----

  method NackPairsFromSeqs(missing: seq<u32>) returns (pairs: seq<NackPair>)
    requires missing != []
    ensures pairs == BitmaskRecords(missing)
  {
    hide Distance, Low16, SetBit;
    pairs := [];
    var cur := NackPair(Low16(missing[0]), 0);
    assert [] + Pairs(cur, missing[1..]) == BitmaskRecords(missing);
    for i := 1 to |missing|
      invariant pairs + Pairs(cur, missing[i..]) == BitmaskRecords(missing)
    {
      var s := Low16(missing[i]);
      var d := Distance(s, cur.pid);
      assert missing[i..][0] == missing[i] && missing[i..][1..] == missing[i + 1..];
      if 1 <= d <= WINDOW {
        cur := WithBit(cur, d - 1);
      } else {
        assert pairs + ([cur] + Pairs(NackPair(s, 0), missing[i + 1..]))
            == pairs + [cur] + Pairs(NackPair(s, 0), missing[i + 1..]);
        pairs := pairs + [cur];
        cur := NackPair(s, 0);
      }
    }
    assert missing[|missing|..] == [];
    pairs := pairs + [cur];
  }

  /** A record joins the last packet, or starts one when that is full. */
  function Grown<T>(c: seq<seq<T>>, x: T): seq<seq<T>> {
    if c == [] then [[x]]
    else
      var n := |c| - 1;
      if |c[n]| == MAX_NACK_RECORDS_PER_PACKET then c + [[x]] else c[..n] + [c[n] + [x]]
  }

  lemma GrownBehind<T>(full: seq<T>, c: seq<seq<T>>, x: T)
    requires |full| == MAX_NACK_RECORDS_PER_PACKET
    ensures Grown([full] + c, x) == [full] + Grown(c, x)
  {
    if c != [] {
      assert ([full] + c)[..|c|] == [full] + c[..|c| - 1];
    }
  }

  lemma {:induction false} ChunkedGrows<T>(records: seq<T>, x: T)
    ensures Chunked(records + [x]) == Grown(Chunked(records), x)
    decreases |records|
  {
    hide Grown, Chunked;
    var n := MAX_NACK_RECORDS_PER_PACKET;
    if |records| < n {
      ChunkedPart(records);
      ChunkedPart(records + [x]);
      GrownPart(records, x);
    } else {
      var full, rest := records[..n], records[n..];
      ChunkedFull(full, rest + [x]);
      ChunkedFull(full, rest);
      assert full + (rest + [x]) == records + [x];
      assert full + rest == records;
      ChunkedGrows(rest, x);
      GrownBehind(full, Chunked(rest), x);
    }
  }

  lemma GrownPart<T>(part: seq<T>, x: T)
    requires |part| < MAX_NACK_RECORDS_PER_PACKET
    ensures Grown(if part == [] then [] else [part], x) == [part + [x]]
  {
    if part == [] {
      assert part + [x] == [x];
    } else {
      assert [part][..0] == [];
    }
  }

  method EncodeBitmaskNack(missing: seq<u32>) returns (packets: seq<seq<NackPair>>)
    ensures packets == Chunked(BitmaskRecords(missing))
  {
    hide Chunked;
    ChunkedPart<NackPair>([]);
    packets := [];
    if missing == [] {
      assert BitmaskRecords(missing) == [];
      return;
    }
    var pairs := NackPairsFromSeqs(missing);
    for i := 0 to |pairs|
      invariant packets == Chunked(pairs[..i])
    {
      ChunkedGrows(pairs[..i], pairs[i]);
      assert pairs[..i] + [pairs[i]] == pairs[..i + 1];
      if packets == [] || |packets[|packets| - 1]| == MAX_NACK_RECORDS_PER_PACKET {
        packets := packets + [[pairs[i]]];
      } else {
        packets := packets[..|packets| - 1] + [packets[|packets| - 1] + [pairs[i]]];
      }
    }
    assert pairs[..|pairs|] == pairs;
  }

  /** One record, up to the cap; it may fill `dst` but never overshoots. */
  method AppendSeqs(p: NackPair, dst0: seq<u16>, cap: nat) returns (dst: seq<u16>)
    requires |dst0| <= cap
    ensures |dst| <= cap && |dst| <= |dst0 + PairSeqs(p)|
    ensures dst == (dst0 + PairSeqs(p))[..|dst|]
    ensures |dst| < cap ==> dst == dst0 + PairSeqs(p)
  {
    hide Bit, After, MaskSeqs;
    dst := dst0;
    ghost var goal := dst0 + PairSeqs(p);
    if |dst| >= cap {
      return;
    }
    dst := dst + [p.pid];
    assert dst + MaskSeqs(p, 0) == goal;
    for i := 0 to WINDOW
      invariant |dst| <= cap
      invariant dst + MaskSeqs(p, i) == goal
    {
      if |dst| >= cap {
        assert dst == goal[..|dst|];
        return;
      }
      MaskStep(dst, p, i);
      if Bit(p.blp, i) {
        dst := dst + [After(p.pid, i + 1)];
      }
    }
    assert MaskSeqs(p, WINDOW) == [];
    assert dst == goal;
  }

  lemma MaskStep(dst: seq<u16>, p: NackPair, i: nat)
    requires i < WINDOW
    ensures dst + MaskSeqs(p, i)
      == (if Bit(p.blp, i) then dst + [After(p.pid, i + 1)] else dst) + MaskSeqs(p, i + 1)
  {
    hide Bit, After;
  }

  method MissingOfPairs(pairs: seq<NackPair>) returns (dst: seq<u16>)
    ensures dst == BitmaskMissing(pairs)
  {
    hide PairSeqs;
    dst := [];
    assert pairs[0..] == pairs;
    assert [] + Asked(pairs) == Asked(pairs);
    for i := 0 to |pairs|
      invariant |dst| <= MAX_NACK_EXPAND
      invariant dst + Asked(pairs[i..]) == Asked(pairs)
    {
      ghost var tail := Asked(pairs[i + 1..]);
      assert pairs[i..][1..] == pairs[i + 1..] && pairs[i..][0] == pairs[i];
      if |dst| >= MAX_NACK_EXPAND {
        TruncatedStops(dst, Asked(pairs[i..]));
        return;
      }
      ghost var full := dst + PairSeqs(pairs[i]);
      assert dst + (PairSeqs(pairs[i]) + tail) == full + tail;
      dst := AppendSeqs(pairs[i], dst, MAX_NACK_EXPAND);
      if |dst| == MAX_NACK_EXPAND {
        assert full + tail == dst + (full[|dst|..] + tail);
        TruncatedStops(dst, full[|dst|..] + tail);
        return;
      }
    }
    assert pairs[|pairs|..] == [];
    assert dst + [] == dst;
  }
}
