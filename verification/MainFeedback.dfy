/** The feedback path of codec_main.rs: 32-bit retransmission requests over 16-bit RTCP, their upper
    halves carried by EXTSEQ packets or put back from the sender's own position. */
module MainFeedback {
  import opened Bytes
  import opened Codec
  import opened RtcpNack
  import opened RtcpBitmask
  import opened Rtcp

  datatype Feedback =
    | Nack(ssrc: u32, missing: seq<u32>)
    | RttEchoRequest(ssrc: u32, timestamp: u64)
    | RttEchoResponse(ssrc: u32, timestamp: u64, processingDelay: u32)
    | LinkQuality(lqm: Lqm)
    | SenderTiming(ntp: u64, rtpTime: u32)
    | Keepalive
    | SeqExtension(seqHigh: u16)
    | FlowAttribute

  function High16(s: u32): u16 {
    s / 0x1_0000
  }

  function WithHigh(high: u16, low: u16): u32 {
    Join16(high * 0x100, low)
  }

  lemma HalvesJoin(s: u32)
    ensures WithHigh(High16(s), Low16(s)) == s
  {}

  // ---- Encoding ----

  function RangePackets(media: u32, chunks: seq<seq<NackRange>>): (r: seq<Packet>)
    ensures |r| == |chunks|
  {
    if chunks == [] then [] else [RangeNack(media, chunks[0])] + RangePackets(media, chunks[1..])
  }

  function BitmaskPackets(media: u32, chunks: seq<seq<NackPair>>): (r: seq<Packet>)
    ensures |r| == |chunks|
  {
    if chunks == [] then [] else [BitmaskNack(0, media, chunks[0])] + BitmaskPackets(media, chunks[1..])
  }

  /** The packets for one group; the bitmask form sends a zero sender SSRC. */
  function NackPackets(media: u32, missing: seq<u32>, bitmask: bool): seq<Packet> {
    if bitmask then BitmaskPackets(media, Chunked(BitmaskRecords(missing)))
    else RangePackets(media, Chunked(RangeRecords(missing)))
  }

  /** Requests name the stream they are for, and a bitmask request no sender. */
  lemma {:induction false} RequestsAreAddressed(media: u32, ranges: seq<seq<NackRange>>, pairs: seq<seq<NackPair>>)
    ensures forall p :: p in RangePackets(media, ranges) ==> p.RangeNack? && p.mediaSsrc == media
    ensures forall p :: p in BitmaskPackets(media, pairs) ==> p.BitmaskNack? && p.mediaSsrc == media && p.senderSsrc == 0
    decreases |ranges| + |pairs|
  {
    if ranges != [] {
      RequestsAreAddressed(media, ranges[1..], pairs);
    } else if pairs != [] {
      RequestsAreAddressed(media, ranges, pairs[1..]);
    }
  }

  /** The length of the leading run of equal upper halves. */
  function GroupLength(missing: seq<u32>, high: u16): (n: nat)
    ensures n <= |missing|
    ensures forall i :: 0 <= i < n ==> High16(missing[i]) == high
    ensures n < |missing| ==> High16(missing[n]) != high
  {
    if missing == [] || High16(missing[0]) != high then 0 else 1 + GroupLength(missing[1..], high)
  }

  /** Runs of equal upper half, in order. */
  function Groups(missing: seq<u32>): (g: seq<seq<u32>>)
    decreases |missing|
  {
    if missing == [] then []
    else
      var n := GroupLength(missing, High16(missing[0]));
      [missing[..n]] + Groups(missing[n..])
  }

  predicate IsGroup(g: seq<u32>) {
    g != [] && forall s :: s in g ==> High16(s) == High16(g[0])
  }

  lemma {:induction false} GroupsPartition(missing: seq<u32>)
    ensures Flat(Groups(missing)) == missing
    ensures forall i :: 0 <= i < |Groups(missing)| ==> IsGroup(Groups(missing)[i])
    decreases |missing|
  {
    hide High16, GroupLength, Flat;
    if missing == [] {
      NothingFlat();
    } else {
      var n := GroupLength(missing, High16(missing[0]));
      var g, rest := missing[..n], missing[n..];
      GroupsPartition(rest);
      assert g + rest == missing;
      PutFirst(g, Groups(rest));
      assert Groups(missing) == [g] + Groups(rest);
    }
  }

  lemma NothingFlat()
    ensures Flat<u32>([]) == []
  {}

  lemma PutFirst(g: seq<u32>, rest: seq<seq<u32>>)
    ensures Flat([g] + rest) == g + Flat(rest)
  {
    assert ([g] + rest)[1..] == rest;
  }

  predicate NonEmpty(groups: seq<seq<u32>>) {
    forall i :: 0 <= i < |groups| ==> groups[i] != []
  }

  function EncodeGroups(own: u32, media: u32, groups: seq<seq<u32>>, bitmask: bool): seq<Packet>
    requires NonEmpty(groups)
  {
    if groups == [] then []
    else
      [ExtSeq(own, High16(groups[0][0]))] + NackPackets(media, groups[0], bitmask)
      + EncodeGroups(own, media, groups[1..], bitmask)
  }

  predicate NeedsExtension(missing: seq<u32>) {
    exists s :: s in missing && High16(s) != 0
  }

  /** No EXTSEQ when every upper half is zero; otherwise one before each group. */
  function EncodeNack(own: u32, media: u32, missing: seq<u32>, bitmask: bool): seq<Packet> {
    if missing == [] then []
    else if !NeedsExtension(missing) then NackPackets(media, missing, bitmask)
    else
      GroupsPartition(missing);
      EncodeGroups(own, media, Groups(missing), bitmask)
  }

  function NacksIn(own: u32, fb: Feedback, bitmask: bool): seq<Packet> {
    match fb
    case Nack(ssrc, missing) => EncodeNack(own, ssrc, missing, bitmask)
    case _ => []
  }

  function NacksOf(own: u32, fbs: seq<Feedback>, bitmask: bool): seq<Packet> {
    if fbs == [] then [] else NacksIn(own, fbs[0], bitmask) + NacksOf(own, fbs[1..], bitmask)
  }

  /** An originated request carries the codec's own SSRC, a response the requester's. */
  function EchoOf(own: u32, fb: Feedback): seq<Packet> {
    match fb
    case RttEchoRequest(_, timestamp) => [EchoRequest(own, timestamp, [])]
    case RttEchoResponse(ssrc, timestamp, delay) => [EchoResponse(ssrc, timestamp, delay, [])]
    case _ => []
  }

  function EchoesOf(own: u32, fbs: seq<Feedback>): seq<Packet> {
    if fbs == [] then [] else EchoOf(own, fbs[0]) + EchoesOf(own, fbs[1..])
  }

  function FeedbackPackets(own: u32, cname: seq<byte>, lead: Packet, fbs: seq<Feedback>, bitmask: bool): seq<Packet> {
    [lead, Sdes(own, cname)] + NacksOf(own, fbs, bitmask) + EchoesOf(own, fbs)
  }

  // ---- Decoding ----

  /** The high half last announced, and whether it still awaits its NACK. */
  datatype Extension = Extension(high: u16, pending: bool)

  function Widen(low: u16, ext: Extension, nackRef: u32): u32 {
    if ext.pending then WithHigh(ext.high, low) else WidenSeqAtMost(low, nackRef)
  }

  function FoldNack(lows: seq<u16>, ext: Extension, nackRef: u32): (r: seq<u32>)
    ensures |r| == |lows|
  {
    if lows == [] then [] else [Widen(lows[0], ext, nackRef)] + FoldNack(lows[1..], ext, nackRef)
  }

  /** The low halves a NACK packet asks for. */
  function AskedBy(p: Packet): seq<u16> {
    match p
    case RangeNack(_, ranges) => RangeMissing(ranges)
    case BitmaskNack(_, _, fcis) => BitmaskMissing(fcis)
    case _ => []
  }

  function DecodePacket(p: Packet, ext: Extension, nackRef: u32): (Extension, seq<Feedback>) {
    match p
    case ExtSeq(_, high) => (Extension(high, true), [])
    case RangeNack(media, _) => (Extension(ext.high, false), [Nack(media, FoldNack(AskedBy(p), ext, nackRef))])
    case BitmaskNack(_, media, _) => (Extension(ext.high, false), [Nack(media, FoldNack(AskedBy(p), ext, nackRef))])
    case EchoRequest(ssrc, timestamp, _) => (ext, [RttEchoRequest(ssrc, timestamp)])
    case EchoResponse(ssrc, timestamp, delay, _) => (ext, [RttEchoResponse(ssrc, timestamp, delay)])
    case LinkQualityReport(_, lqm) => (ext, [LinkQuality(lqm)])
    case _ => (ext, [])
  }

  function DecodePackets(packets: seq<Packet>, ext: Extension, nackRef: u32): seq<Feedback> {
    if packets == [] then []
    else
      var (next, fbs) := DecodePacket(packets[0], ext, nackRef);
      fbs + DecodePackets(packets[1..], next, nackRef)
  }

  const NO_EXTENSION := Extension(0, false)

  function DecodeFeedback(region: seq<byte>, nackRef: u32): Result<seq<Feedback>, RtcpError> {
    match ParseCompoundSpec(region)
    case Failure(e) => Failure(e)
    case Success(packets) => Success(DecodePackets(packets, NO_EXTENSION, nackRef))
  }

  // ---- What is asked for, end to end ----

  /** Every requested sequence, with its stream, in order. */
  function Requests(fbs: seq<Feedback>): seq<(u32, u32)> {
    if fbs == [] then [] else RequestsIn(fbs[0]) + Requests(fbs[1..])
  }

  function RequestsIn(fb: Feedback): seq<(u32, u32)> {
    match fb
    case Nack(ssrc, missing) => Tagged(ssrc, missing)
    case _ => []
  }

  function Tagged(ssrc: u32, missing: seq<u32>): (r: seq<(u32, u32)>)
    ensures |r| == |missing|
  {
    if missing == [] then [] else [(ssrc, missing[0])] + Tagged(ssrc, missing[1..])
  }

  /** The echoes of a decoded list. */
  function RttOnly(fbs: seq<Feedback>): seq<Feedback> {
    if fbs == [] then []
    else (if fbs[0].RttEchoRequest? || fbs[0].RttEchoResponse? then [fbs[0]] else []) + RttOnly(fbs[1..])
  }

  /** The echoes to be sent; an originated request names its sender. */
  function Echoes(own: u32, fbs: seq<Feedback>): seq<Feedback> {
    if fbs == [] then [] else EchoIn(own, fbs[0]) + Echoes(own, fbs[1..])
  }

  function EchoIn(own: u32, fb: Feedback): seq<Feedback> {
    match fb
    case RttEchoRequest(_, timestamp) => [RttEchoRequest(own, timestamp)]
    case RttEchoResponse(_, _, _) => [fb]
    case _ => []
  }

  /** The requests that reach the decoder with no EXTSEQ pending: everything behind a group's first
      packet, and everything when no upper half is set. The packets of a group ask, between them,
      for the group in order, so these are the group's last entries. */
  function Unqualified(missing: seq<u32>, bitmask: bool): seq<u32> {
    if !NeedsExtension(missing) then missing
    else
      GroupsPartition(missing);
      GroupTails(Groups(missing), bitmask)
  }

  function GroupTails(groups: seq<seq<u32>>, bitmask: bool): seq<u32>
    requires NonEmpty(groups)
  {
    if groups == [] then [] else BehindFirst(groups[0], bitmask) + GroupTails(groups[1..], bitmask)
  }

  function BehindFirst(g: seq<u32>, bitmask: bool): seq<u32>
    requires g != []
  {
    var asked := AskedBy(FirstPacket(g, bitmask));
    if |asked| <= |g| then g[|asked|..] else []
  }

  function FirstPacket(g: seq<u32>, bitmask: bool): (p: Packet)
    requires g != []
    ensures IsNack(p)
  {
    NackPacketsAreNacks(0, g, bitmask);
    NackPackets(0, g, bitmask)[0]
  }

  lemma {:induction false} RangePacketsAre(media: u32, chunks: seq<seq<NackRange>>)
    ensures forall p :: p in RangePackets(media, chunks) ==> p.RangeNack? && p.mediaSsrc == media && p.ranges in chunks
  {
    if chunks != [] {
      RangePacketsAre(media, chunks[1..]);
    }
  }

  lemma {:induction false} BitmaskPacketsAre(media: u32, chunks: seq<seq<NackPair>>)
    ensures forall p :: p in BitmaskPackets(media, chunks) ==> p.BitmaskNack? && p.mediaSsrc == media && p.fcis in chunks
  {
    if chunks != [] {
      BitmaskPacketsAre(media, chunks[1..]);
    }
  }

  predicate NackFor(p: Packet, media: u32) {
    IsNack(p) && p.mediaSsrc == media && WellFormed(p)
  }

  lemma NackPacketsAreNacks(media: u32, g: seq<u32>, bitmask: bool)
    requires g != []
    ensures NackPackets(media, g, bitmask) != []
    ensures forall p :: p in NackPackets(media, g, bitmask) ==> NackFor(p, media)
  {
    hide Low16, BitmaskPackets, RangePackets, Chunked;
    if bitmask {
      ChunkedIsFaithful(BitmaskRecords(g));
      BitmaskPacketsAre(media, Chunked(BitmaskRecords(g)));
    } else {
      ChunkedIsFaithful(RangeRecords(g));
      RangePacketsAre(media, Chunked(RangeRecords(g)));
    }
  }

  /** Everything a list of NACK packets asks for. */
  function AskedByAll(packets: seq<Packet>): seq<u16> {
    if packets == [] then [] else AskedBy(packets[0]) + AskedByAll(packets[1..])
  }

  lemma {:induction false} AskedByRangePackets(media: u32, chunks: seq<seq<NackRange>>)
    ensures AskedByAll(RangePackets(media, chunks)) == AllRangeMissing(chunks)
  {
    hide RangeMissing;
    if chunks != [] {
      assert RangePackets(media, chunks)[1..] == RangePackets(media, chunks[1..]);
      AskedByRangePackets(media, chunks[1..]);
    }
  }

  lemma {:induction false} AskedByBitmaskPackets(media: u32, chunks: seq<seq<NackPair>>)
    ensures AskedByAll(BitmaskPackets(media, chunks)) == AllBitmaskMissing(chunks)
  {
    hide BitmaskMissing;
    if chunks != [] {
      assert BitmaskPackets(media, chunks)[1..] == BitmaskPackets(media, chunks[1..]);
      AskedByBitmaskPackets(media, chunks[1..]);
    }
  }

  /** The lists a packing keeps in order: any list of at most 65536 for ranges, an ascending one for
      bitmasks. */
  predicate Packable(g: seq<u32>, bitmask: bool) {
    if bitmask then AscendingList(g) else |g| <= MAX_NACK_EXPAND
  }

  lemma PackedInOrder(media: u32, g: seq<u32>, bitmask: bool)
    requires g != [] && Packable(g, bitmask)
    ensures AskedByAll(NackPackets(media, g, bitmask)) == Lows(g)
  {
    NackPacketsAreNacks(media, g, bitmask);
    if bitmask {
      BitmaskRoundTrip(g);
      AskedByBitmaskPackets(media, Chunked(BitmaskRecords(g)));
    } else {
      RangeRoundTrip(g);
      AskedByRangePackets(media, Chunked(RangeRecords(g)));
    }
  }

  lemma FirstAsksTheSame(media: u32, g: seq<u32>, bitmask: bool)
    requires g != []
    ensures NackPackets(media, g, bitmask) != [] && IsNack(NackPackets(media, g, bitmask)[0])
    ensures AskedBy(NackPackets(media, g, bitmask)[0]) == AskedBy(FirstPacket(g, bitmask))
  {
    NackPacketsAreNacks(media, g, bitmask);
  }

  // Decoding piece by piece.

  function ExtensionAfter(packets: seq<Packet>, ext: Extension, nackRef: u32): Extension {
    if packets == [] then ext else ExtensionAfter(packets[1..], DecodePacket(packets[0], ext, nackRef).0, nackRef)
  }

  lemma {:induction false} DecodeOfSum(a: seq<Packet>, b: seq<Packet>, ext: Extension, nackRef: u32)
    ensures DecodePackets(a + b, ext, nackRef)
         == DecodePackets(a, ext, nackRef) + DecodePackets(b, ExtensionAfter(a, ext, nackRef), nackRef)
    ensures ExtensionAfter(a + b, ext, nackRef) == ExtensionAfter(b, ExtensionAfter(a, ext, nackRef), nackRef)
  {
    hide DecodePacket;
    if a == [] {
      assert a + b == b;
    } else {
      var (next, fbs) := DecodePacket(a[0], ext, nackRef);
      DecodeOfSum(a[1..], b, next, nackRef);
      assert (a + b)[1..] == a[1..] + b;
      Associate(fbs, DecodePackets(a[1..], next, nackRef), DecodePackets(b, ExtensionAfter(a, ext, nackRef), nackRef));
    }
  }

  lemma {:induction false} RequestsOfSum(a: seq<Feedback>, b: seq<Feedback>)
    ensures Requests(a + b) == Requests(a) + Requests(b)
  {
    hide RequestsIn;
    if a == [] {
      assert a + b == b;
    } else {
      RequestsOfSum(a[1..], b);
      assert (a + b)[1..] == a[1..] + b;
      Associate(RequestsIn(a[0]), Requests(a[1..]), Requests(b));
    }
  }

  lemma {:induction false} TaggedOfSum(ssrc: u32, a: seq<u32>, b: seq<u32>)
    ensures Tagged(ssrc, a + b) == Tagged(ssrc, a) + Tagged(ssrc, b)
  {
    if a == [] {
      assert a + b == b;
    } else {
      TaggedOfSum(ssrc, a[1..], b);
      assert (a + b)[1..] == a[1..] + b && (a + b)[0] == a[0];
      Associate([(ssrc, a[0])], Tagged(ssrc, a[1..]), Tagged(ssrc, b));
    }
  }

  lemma {:induction false} FoldOfSum(a: seq<u16>, b: seq<u16>, ext: Extension, nackRef: u32)
    ensures FoldNack(a + b, ext, nackRef) == FoldNack(a, ext, nackRef) + FoldNack(b, ext, nackRef)
  {
    hide Widen;
    if a == [] {
      assert a + b == b;
    } else {
      FoldOfSum(a[1..], b, ext, nackRef);
      assert (a + b)[1..] == a[1..] + b && (a + b)[0] == a[0];
      Associate([Widen(a[0], ext, nackRef)], FoldNack(a[1..], ext, nackRef), FoldNack(b, ext, nackRef));
    }
  }

  /** NACK packets with nothing pending are one NACK, cut up. */
  lemma {:induction false} UnqualifiedNacks(packets: seq<Packet>, media: u32, ext: Extension, nackRef: u32)
    requires forall i :: 0 <= i < |packets| ==> NackFor(packets[i], media)
    requires !ext.pending
    ensures Requests(DecodePackets(packets, ext, nackRef))
         == Tagged(media, FoldNack(AskedByAll(packets), ext, nackRef))
    ensures ExtensionAfter(packets, ext, nackRef) == ext
    ensures RttOnly(DecodePackets(packets, ext, nackRef)) == []
  {
    hide AskedBy, WellFormed;
    if packets != [] {
      var p := packets[0];
      assert NackFor(p, media);
      UnqualifiedNacks(packets[1..], media, ext, nackRef);
      var first := FoldNack(AskedBy(p), ext, nackRef);
      var rest := DecodePackets(packets[1..], ext, nackRef);
      assert DecodePackets(packets, ext, nackRef) == [Nack(media, first)] + rest;
      assert ([Nack(media, first)] + rest)[1..] == rest;
      FoldOfSum(AskedBy(p), AskedByAll(packets[1..]), ext, nackRef);
      TaggedOfSum(media, first, FoldNack(AskedByAll(packets[1..]), ext, nackRef));
    }
  }

  function Cleared(ext: Extension): Extension {
    Extension(ext.high, false)
  }

  /** With an EXTSEQ pending, the first packet takes its high half and uses it up. */
  lemma QualifiedNacks(packets: seq<Packet>, media: u32, ext: Extension, nackRef: u32)
    requires packets != [] && forall i :: 0 <= i < |packets| ==> NackFor(packets[i], media)
    ensures Requests(DecodePackets(packets, ext, nackRef))
         == Tagged(media, FoldNack(AskedBy(packets[0]), ext, nackRef)
                          + FoldNack(AskedByAll(packets[1..]), Cleared(ext), nackRef))
    ensures ExtensionAfter(packets, ext, nackRef) == Cleared(ext)
    ensures RttOnly(DecodePackets(packets, ext, nackRef)) == []
  {
    hide AskedBy, WellFormed;
    var p := packets[0];
    assert NackFor(p, media);
    UnqualifiedNacks(packets[1..], media, Cleared(ext), nackRef);
    var first := FoldNack(AskedBy(p), ext, nackRef);
    var rest := DecodePackets(packets[1..], Cleared(ext), nackRef);
    assert DecodePackets(packets, ext, nackRef) == [Nack(media, first)] + rest;
    assert ([Nack(media, first)] + rest)[1..] == rest;
    TaggedOfSum(media, first, FoldNack(AskedByAll(packets[1..]), Cleared(ext), nackRef));
  }

  // Which entries come back.

  predicate AllReach(nackRef: u32, s: seq<u32>) {
    forall x :: x in s ==> Reaches(nackRef, x)
  }

  /** Without an EXTSEQ a list comes back unchanged exactly when every entry is less than 2^16
      behind the sender's position. */
  lemma {:induction false} UnqualifiedFold(s: seq<u32>, ext: Extension, nackRef: u32)
    requires !ext.pending
    ensures FoldNack(Lows(s), ext, nackRef) == s <==> AllReach(nackRef, s)
  {
    hide Reaches, WidenSeqAtMost, Low16;
    if s != [] {
      UnqualifiedFold(s[1..], ext, nackRef);
      WidenLow(s[0], nackRef);
      assert s == [s[0]] + s[1..];
      var f := FoldNack(Lows(s), ext, nackRef);
      assert f[1..] == FoldNack(Lows(s[1..]), ext, nackRef);
      assert AllReach(nackRef, s) <==> Reaches(nackRef, s[0]) && AllReach(nackRef, s[1..]);
    }
  }

  lemma WidenLow(s: u32, nackRef: u32)
    ensures WidenSeqAtMost(Low16(s), nackRef) == s <==> Reaches(nackRef, s)
  {
    WidenAtMostIsExact(s, nackRef);
  }

  /** Behind its EXTSEQ a group comes back unchanged. */
  lemma {:induction false} QualifiedFold(s: seq<u32>, ext: Extension, nackRef: u32)
    requires ext.pending && forall x :: x in s ==> High16(x) == ext.high
    ensures FoldNack(Lows(s), ext, nackRef) == s
  {
    hide High16, WithHigh, Low16;
    if s != [] {
      HalvesJoin(s[0]);
      QualifiedFold(s[1..], ext, nackRef);
      assert s == [s[0]] + s[1..];
    }
  }

  lemma {:induction false} LowsOfSum(a: seq<u32>, b: seq<u32>)
    ensures Lows(a + b) == Lows(a) + Lows(b)
  {
    hide Low16;
    if a == [] {
      assert a + b == b;
    } else {
      LowsOfSum(a[1..], b);
      assert (a + b)[1..] == a[1..] + b && (a + b)[0] == a[0];
      Associate([Low16(a[0])], Lows(a[1..]), Lows(b));
    }
  }

  lemma {:induction false} TaggedInjective(ssrc: u32, a: seq<u32>, b: seq<u32>)
    requires Tagged(ssrc, a) == Tagged(ssrc, b)
    ensures a == b
  {
    assert |a| == |b|;
    if a != [] {
      assert Tagged(ssrc, a)[0].1 == a[0] && Tagged(ssrc, b)[0].1 == b[0];
      assert Tagged(ssrc, a)[1..] == Tagged(ssrc, a[1..]) && Tagged(ssrc, b)[1..] == Tagged(ssrc, b[1..]);
      TaggedInjective(ssrc, a[1..], b[1..]);
      assert a == [a[0]] + a[1..] && b == [b[0]] + b[1..];
    }
  }

  /** One group behind its EXTSEQ. */
  lemma GroupComesBack(own: u32, media: u32, g: seq<u32>, bitmask: bool, ext: Extension, nackRef: u32)
    requires IsGroup(g) && Packable(g, bitmask) && ext.high == High16(g[0]) && ext.pending
    ensures var packets := NackPackets(media, g, bitmask);
            var back := DecodePackets(packets, ext, nackRef);
            && |Requests(back)| == |g|
            && (Requests(back) == Tagged(media, g) <==> AllReach(nackRef, BehindFirst(g, bitmask)))
            && !ExtensionAfter(packets, ext, nackRef).pending
            && RttOnly(back) == []
  {
    hide NackPackets, DecodePackets, AskedBy, Low16, High16, Requests, Tagged, Widen, RttOnly, ExtensionAfter;
    var packets := NackPackets(media, g, bitmask);
    NackPacketsAreNacks(media, g, bitmask);
    PackedInOrder(media, g, bitmask);
    FirstAsksTheSame(media, g, bitmask);
    QualifiedNacks(packets, media, ext, nackRef);
    var first, rest := AskedBy(packets[0]), AskedByAll(packets[1..]);
    var n := |first|;
    assert Lows(g) == first + rest;
    LowsOfSum(g[..n], g[n..]);
    assert g == g[..n] + g[n..];
    assert Lows(g)[..n] == first && Lows(g)[n..] == rest;
    QualifiedFold(g[..n], ext, nackRef);
    UnqualifiedFold(g[n..], Cleared(ext), nackRef);
    var back := FoldNack(rest, Cleared(ext), nackRef);
    if Tagged(media, g[..n] + back) == Tagged(media, g) {
      TaggedInjective(media, g[..n] + back, g);
      assert back == (g[..n] + back)[n..];
    }
  }

  lemma NacksWithoutExtension(media: u32, missing: seq<u32>, bitmask: bool, ext: Extension, nackRef: u32)
    requires missing != [] && Packable(missing, bitmask) && !ext.pending
    ensures var packets := NackPackets(media, missing, bitmask);
            var back := DecodePackets(packets, ext, nackRef);
            && |Requests(back)| == |missing|
            && (Requests(back) == Tagged(media, missing) <==> AllReach(nackRef, missing))
            && !ExtensionAfter(packets, ext, nackRef).pending
            && RttOnly(back) == []
  {
    hide NackPackets, DecodePackets, AskedBy, Low16, Requests, Tagged, Widen, RttOnly, ExtensionAfter;
    var packets := NackPackets(media, missing, bitmask);
    NackPacketsAreNacks(media, missing, bitmask);
    PackedInOrder(media, missing, bitmask);
    UnqualifiedNacks(packets, media, ext, nackRef);
    UnqualifiedFold(missing, ext, nackRef);
    if Tagged(media, FoldNack(Lows(missing), ext, nackRef)) == Tagged(media, missing) {
      TaggedInjective(media, FoldNack(Lows(missing), ext, nackRef), missing);
    }
  }

  // ---- Whole lists ----

  /** What the packing of a list keeps in order. */
  predicate PackableList(missing: seq<u32>, bitmask: bool) {
    if NeedsExtension(missing) then forall i :: 0 <= i < |Groups(missing)| ==> Packable(Groups(missing)[i], bitmask)
    else Packable(missing, bitmask)
  }

  lemma {:induction false} GroupsAreShort(missing: seq<u32>)
    ensures forall i :: 0 <= i < |Groups(missing)| ==> |Groups(missing)[i]| <= |missing|
    decreases |missing|
  {
    hide High16;
    if missing != [] {
      GroupsAreShort(missing[GroupLength(missing, High16(missing[0]))..]);
    }
  }

  /** Every list of at most 65536 entries suits the range form. */
  lemma ShortListsArePackable(missing: seq<u32>)
    requires |missing| <= MAX_NACK_EXPAND
    ensures PackableList(missing, false)
  {
    GroupsAreShort(missing);
  }

  ghost predicate ComesBack(packets: seq<Packet>, want: seq<(u32, u32)>, left: seq<u32>, ext: Extension, nackRef: u32) {
    var back := DecodePackets(packets, ext, nackRef);
    && |Requests(back)| == |want|
    && (Requests(back) == want <==> AllReach(nackRef, left))
    && !ExtensionAfter(packets, ext, nackRef).pending
    && RttOnly(back) == []
  }

  lemma NothingComesBack(ext: Extension, nackRef: u32)
    requires !ext.pending
    ensures ComesBack([], [], [], ext, nackRef)
  {}

  lemma {:induction false} RttOfSum(a: seq<Feedback>, b: seq<Feedback>)
    ensures RttOnly(a + b) == RttOnly(a) + RttOnly(b)
  {
    if a == [] {
      assert a + b == b;
    } else {
      RttOfSum(a[1..], b);
      assert (a + b)[1..] == a[1..] + b;
      Associate(if a[0].RttEchoRequest? || a[0].RttEchoResponse? then [a[0]] else [], RttOnly(a[1..]), RttOnly(b));
    }
  }

  lemma BothComeBack(p: seq<Packet>, want: seq<(u32, u32)>, left: seq<u32>,
                     p': seq<Packet>, want': seq<(u32, u32)>, left': seq<u32>, ext: Extension, nackRef: u32)
    requires ComesBack(p, want, left, ext, nackRef)
    requires ComesBack(p', want', left', ExtensionAfter(p, ext, nackRef), nackRef)
    ensures ComesBack(p + p', want + want', left + left', ext, nackRef)
  {
    hide DecodePackets, ExtensionAfter, Requests, RttOnly, Reaches;
    DecodeOfSum(p, p', ext, nackRef);
    var a := DecodePackets(p, ext, nackRef);
    var b := DecodePackets(p', ExtensionAfter(p, ext, nackRef), nackRef);
    RequestsOfSum(a, b);
    RttOfSum(a, b);
    SumsAgree(Requests(a), Requests(b), want, want');
    assert AllReach(nackRef, left + left') <==> AllReach(nackRef, left) && AllReach(nackRef, left');
  }

  lemma SumsAgree<T>(a: seq<T>, b: seq<T>, c: seq<T>, d: seq<T>)
    requires |a| == |c|
    ensures a + b == c + d <==> a == c && b == d
  {
    if a + b == c + d {
      assert a == (a + b)[..|a|] && b == (a + b)[|a|..] && c == (c + d)[..|a|] && d == (c + d)[|a|..];
    }
  }

  lemma GroupWithExtSeq(own: u32, media: u32, g: seq<u32>, bitmask: bool, ext: Extension, nackRef: u32)
    requires IsGroup(g) && Packable(g, bitmask)
    ensures ComesBack([ExtSeq(own, High16(g[0]))] + NackPackets(media, g, bitmask), Tagged(media, g),
                      BehindFirst(g, bitmask), ext, nackRef)
  {
    hide NackPackets, Requests, Tagged, RttOnly, BehindFirst, High16;
    var packets := NackPackets(media, g, bitmask);
    var next := Extension(High16(g[0]), true);
    GroupComesBack(own, media, g, bitmask, next, nackRef);
    var all := [ExtSeq(own, High16(g[0]))] + packets;
    assert all[1..] == packets;
    assert DecodePackets(all, ext, nackRef) == DecodePackets(packets, next, nackRef);
  }

  lemma {:induction false} GroupsComeBack(own: u32, media: u32, groups: seq<seq<u32>>, bitmask: bool, ext: Extension,
                                          nackRef: u32)
    requires forall i :: 0 <= i < |groups| ==> IsGroup(groups[i]) && Packable(groups[i], bitmask)
    requires !ext.pending
    ensures NonEmpty(groups)
    ensures ComesBack(EncodeGroups(own, media, groups, bitmask), Tagged(media, Flat(groups)),
                      GroupTails(groups, bitmask), ext, nackRef)
  {
    hide ComesBack, NackPackets, Packable, BehindFirst, High16;
    if groups == [] {
      NothingComesBack(ext, nackRef);
    } else {
      var first := [ExtSeq(own, High16(groups[0][0]))] + NackPackets(media, groups[0], bitmask);
      GroupWithExtSeq(own, media, groups[0], bitmask, ext, nackRef);
      LeavesNothingPending(first, Tagged(media, groups[0]), BehindFirst(groups[0], bitmask), ext, nackRef);
      var next := ExtensionAfter(first, ext, nackRef);
      GroupsComeBack(own, media, groups[1..], bitmask, next, nackRef);
      BothComeBack(first, Tagged(media, groups[0]), BehindFirst(groups[0], bitmask),
                   EncodeGroups(own, media, groups[1..], bitmask), Tagged(media, Flat(groups[1..])),
                   GroupTails(groups[1..], bitmask), ext, nackRef);
      TaggedOfSum(media, groups[0], Flat(groups[1..]));
    }
  }

  lemma LeavesNothingPending(packets: seq<Packet>, want: seq<(u32, u32)>, left: seq<u32>, ext: Extension, nackRef: u32)
    requires ComesBack(packets, want, left, ext, nackRef)
    ensures !ExtensionAfter(packets, ext, nackRef).pending
  {}

  /** One request list, encoded and decoded: it comes back in order exactly when every entry the
      EXTSEQ packets do not cover is less than 2^16 behind the sender's position. */
  lemma NackComesBack(own: u32, media: u32, missing: seq<u32>, bitmask: bool, ext: Extension, nackRef: u32)
    requires PackableList(missing, bitmask) && !ext.pending
    ensures ComesBack(EncodeNack(own, media, missing, bitmask), Tagged(media, missing),
                      Unqualified(missing, bitmask), ext, nackRef)
  {
    hide NackPackets, Packable, Requests, DecodePackets, RttOnly, ExtensionAfter, Groups;
    if missing == [] {
      NothingComesBack(ext, nackRef);
    } else if !NeedsExtension(missing) {
      NacksWithoutExtension(media, missing, bitmask, ext, nackRef);
    } else {
      GroupsPartition(missing);
      GroupsComeBack(own, media, Groups(missing), bitmask, ext, nackRef);
    }
  }

  predicate PackableFeedback(fbs: seq<Feedback>, bitmask: bool) {
    forall i :: 0 <= i < |fbs| && fbs[i].Nack? ==> PackableList(fbs[i].missing, bitmask)
  }

  function UnqualifiedIn(fb: Feedback, bitmask: bool): seq<u32> {
    match fb
    case Nack(_, missing) => Unqualified(missing, bitmask)
    case _ => []
  }

  /** All the entries of a feedback list that no EXTSEQ covers. */
  function UnqualifiedOf(fbs: seq<Feedback>, bitmask: bool): seq<u32> {
    if fbs == [] then [] else UnqualifiedIn(fbs[0], bitmask) + UnqualifiedOf(fbs[1..], bitmask)
  }

  lemma {:induction false} NacksComeBack(own: u32, fbs: seq<Feedback>, bitmask: bool, ext: Extension, nackRef: u32)
    requires PackableFeedback(fbs, bitmask) && !ext.pending
    ensures ComesBack(NacksOf(own, fbs, bitmask), Requests(fbs), UnqualifiedOf(fbs, bitmask), ext, nackRef)
  {
    hide ComesBack, EncodeNack, PackableList, Unqualified;
    if fbs == [] {
      NothingComesBack(ext, nackRef);
    } else {
      var first := NacksIn(own, fbs[0], bitmask);
      if fbs[0].Nack? {
        NackComesBack(own, fbs[0].ssrc, fbs[0].missing, bitmask, ext, nackRef);
      } else {
        NothingComesBack(ext, nackRef);
      }
      LeavesNothingPending(first, RequestsIn(fbs[0]), UnqualifiedIn(fbs[0], bitmask), ext, nackRef);
      var next := ExtensionAfter(first, ext, nackRef);
      NacksComeBack(own, fbs[1..], bitmask, next, nackRef);
      BothComeBack(first, RequestsIn(fbs[0]), UnqualifiedIn(fbs[0], bitmask), NacksOf(own, fbs[1..], bitmask),
                   Requests(fbs[1..]), UnqualifiedOf(fbs[1..], bitmask), ext, nackRef);
    }
  }

  lemma {:induction false} EchoesComeBack(own: u32, fbs: seq<Feedback>, ext: Extension, nackRef: u32)
    ensures Requests(DecodePackets(EchoesOf(own, fbs), ext, nackRef)) == []
    ensures RttOnly(DecodePackets(EchoesOf(own, fbs), ext, nackRef)) == Echoes(own, fbs)
  {
    if fbs != [] {
      EchoesComeBack(own, fbs[1..], ext, nackRef);
      var rest := EchoesOf(own, fbs[1..]);
      DecodeOfSum(EchoOf(own, fbs[0]), rest, ext, nackRef);
      EchoComesBack(own, fbs[0], ext, nackRef);
      var a := DecodePackets(EchoOf(own, fbs[0]), ext, nackRef);
      RttOfSum(a, DecodePackets(rest, ext, nackRef));
      RequestsOfSum(a, DecodePackets(rest, ext, nackRef));
    }
  }

  lemma EchoComesBack(own: u32, fb: Feedback, ext: Extension, nackRef: u32)
    ensures var back := DecodePackets(EchoOf(own, fb), ext, nackRef);
            Requests(back) == [] && RttOnly(back) == EchoIn(own, fb)
    ensures ExtensionAfter(EchoOf(own, fb), ext, nackRef) == ext
  {
    var e := EchoOf(own, fb);
    if e != [] {
      OnePacket(e[0], ext, nackRef);
      assert e == [e[0]];
      var back := EchoIn(own, fb);
      assert back == [back[0]] && back[1..] == [];
    }
  }

  lemma OnePacket(p: Packet, ext: Extension, nackRef: u32)
    ensures DecodePackets([p], ext, nackRef) == DecodePacket(p, ext, nackRef).1
    ensures ExtensionAfter([p], ext, nackRef) == DecodePacket(p, ext, nackRef).0
  {
    hide DecodePacket;
    assert [p][1..] == [];
  }

  // ---- The compound ----

  predicate AllFeedback(packets: seq<Packet>) {
    && (forall i :: 0 <= i < |packets| ==> WellFormed(packets[i]) && (IsNack(packets[i]) || packets[i].ExtSeq?))
    && (forall i :: 0 <= i < |packets| && packets[i].ExtSeq? ==> i + 1 < |packets| && IsNack(packets[i + 1]))
  }

  lemma AllFeedbackOfSum(a: seq<Packet>, b: seq<Packet>)
    requires AllFeedback(a) && AllFeedback(b)
    ensures AllFeedback(a + b)
  {
    hide WellFormed;
  }

  lemma NackPacketsAreFeedback(media: u32, g: seq<u32>, bitmask: bool)
    requires g != []
    ensures NackPackets(media, g, bitmask) != [] && AllFeedback(NackPackets(media, g, bitmask))
    ensures IsNack(NackPackets(media, g, bitmask)[0])
  {
    hide WellFormed;
    NackPacketsAreNacks(media, g, bitmask);
    var packets := NackPackets(media, g, bitmask);
    forall i | 0 <= i < |packets| ensures NackFor(packets[i], media) {
      assert packets[i] in packets;
    }
  }

  lemma {:induction false} GroupsAreFeedback(own: u32, media: u32, groups: seq<seq<u32>>, bitmask: bool)
    requires NonEmpty(groups)
    ensures AllFeedback(EncodeGroups(own, media, groups, bitmask))
  {
    hide NackPackets;
    if groups != [] {
      NackPacketsAreFeedback(media, groups[0], bitmask);
      GroupsAreFeedback(own, media, groups[1..], bitmask);
      var first := [ExtSeq(own, High16(groups[0][0]))] + NackPackets(media, groups[0], bitmask);
      assert AllFeedback(first) by { hide WellFormed; assert WellFormed(first[0]) by { WellFormedExtSeq(own, High16(groups[0][0])); } }
      AllFeedbackOfSum(first, EncodeGroups(own, media, groups[1..], bitmask));
    }
  }

  lemma WellFormedExtSeq(own: u32, high: u16)
    ensures WellFormed(ExtSeq(own, high))
  {}

  lemma {:induction false} NacksAreFeedback(own: u32, fbs: seq<Feedback>, bitmask: bool)
    ensures AllFeedback(NacksOf(own, fbs, bitmask))
  {
    hide NackPackets, EncodeGroups;
    if fbs != [] {
      NacksAreFeedback(own, fbs[1..], bitmask);
      match fbs[0]
      case Nack(ssrc, missing) =>
        if missing != [] {
          GroupsPartition(missing);
          NackPacketsAreFeedback(ssrc, missing, bitmask);
          GroupsAreFeedback(own, ssrc, Groups(missing), bitmask);
        }
        AllFeedbackOfSum(EncodeNack(own, ssrc, missing, bitmask), NacksOf(own, fbs[1..], bitmask));
      case _ =>
        AllFeedbackOfSum([], NacksOf(own, fbs[1..], bitmask));
    }
  }

  lemma {:induction false} EchoesAreEchoes(own: u32, fbs: seq<Feedback>)
    ensures forall i :: 0 <= i < |EchoesOf(own, fbs)| ==>
              IsEcho(EchoesOf(own, fbs)[i]) && WellFormed(EchoesOf(own, fbs)[i])
  {
    if fbs != [] {
      EchoesAreEchoes(own, fbs[1..]);
    }
  }

  /** Whatever the feedback, the compound is in order; only a lead that is no report is refused. */
  lemma CompoundIsOrdered(own: u32, cname: seq<byte>, lead: Packet, fbs: seq<Feedback>, bitmask: bool)
    ensures Ordered(FeedbackPackets(own, cname, lead, fbs, bitmask)) <==> IsReport(lead)
    ensures WellFormed(lead) && |cname| <= MAX_CNAME_LEN ==> AllWellFormed(FeedbackPackets(own, cname, lead, fbs, bitmask))
  {
    hide NacksOf, EchoesOf, WellFormed;
    NacksAreFeedback(own, fbs, bitmask);
    EchoesAreEchoes(own, fbs);
    SdesFits(own, cname);
    var nacks, echoes := NacksOf(own, fbs, bitmask), EchoesOf(own, fbs);
    var all := FeedbackPackets(own, cname, lead, fbs, bitmask);
    assert all == [lead, Sdes(own, cname)] + nacks + echoes;
    forall i | 2 <= i < |all|
      ensures Placed(all, i) && WellFormed(all[i]) && (IsEcho(all[i]) <==> i >= 2 + |nacks|)
    {
      if i < 2 + |nacks| {
        assert all[i] == nacks[i - 2];
        assert i + 1 < 2 + |nacks| ==> all[i + 1] == nacks[i - 1];
      } else {
        assert all[i] == echoes[i - 2 - |nacks|];
      }
    }
  }

  lemma SdesFits(own: u32, cname: seq<byte>)
    ensures WellFormed(Sdes(own, cname)) <==> |cname| <= MAX_CNAME_LEN
  {}

  /** A longer name goes out cut to 255 bytes. */
  lemma NameIsCut(own: u32, cname: seq<byte>, lead: Packet, fbs: seq<Feedback>, bitmask: bool)
    ensures EncodeAll(FeedbackPackets(own, cname, lead, fbs, bitmask))
         == EncodeAll(FeedbackPackets(own, Cut(cname), lead, fbs, bitmask))
  {
    hide Encode, NacksOf, EchoesOf;
    assert Cut(Cut(cname)) == Cut(cname);
    SameSdes(own, cname);
    var rest := NacksOf(own, fbs, bitmask) + EchoesOf(own, fbs);
    forall c: seq<byte> ensures EncodeAll([lead, Sdes(own, c)] + rest) == Encode(lead) + (Encode(Sdes(own, c)) + EncodeAll(rest)) {
      var all := [lead, Sdes(own, c)] + rest;
      assert all[1..][1..] == rest;
    }
    Associate([lead, Sdes(own, cname)], NacksOf(own, fbs, bitmask), EchoesOf(own, fbs));
    Associate([lead, Sdes(own, Cut(cname))], NacksOf(own, fbs, bitmask), EchoesOf(own, fbs));
  }

  lemma SameSdes(own: u32, cname: seq<byte>)
    ensures Encode(Sdes(own, cname)) == Encode(Sdes(own, Cut(cname)))
  {
    assert Cut(Cut(cname)) == Cut(cname);
  }

  lemma PrefixIsSilent(lead: Packet, own: u32, cname: seq<byte>, nackRef: u32)
    requires IsReport(lead)
    ensures var back := DecodePackets([lead, Sdes(own, cname)], NO_EXTENSION, nackRef);
            Requests(back) == [] && RttOnly(back) == []
    ensures ExtensionAfter([lead, Sdes(own, cname)], NO_EXTENSION, nackRef) == NO_EXTENSION
  {
    var both, name := [lead, Sdes(own, cname)], [Sdes(own, cname)];
    assert both[1..] == name && name[1..] == [];
    assert DecodePackets(name, NO_EXTENSION, nackRef) == [];
    assert ExtensionAfter(name, NO_EXTENSION, nackRef) == NO_EXTENSION;
    assert DecodePacket(lead, NO_EXTENSION, nackRef).0 == NO_EXTENSION;
    var back := DecodePackets(both, NO_EXTENSION, nackRef);
    assert back == if lead.LinkQualityReport? then [LinkQuality(lead.lqm)] else [];
    assert back != [] ==> back[1..] == [];
  }

  /** From feedback to bytes and back: every echo arrives, and the requests arrive in order exactly
      when each entry the EXTSEQ packets do not cover is less than 2^16 behind the sender. */
  lemma FeedbackArrives(own: u32, cname: seq<byte>, lead: Packet, fbs: seq<Feedback>, bitmask: bool, nackRef: u32)
    requires IsReport(lead) && WellFormed(lead) && PackableFeedback(fbs, bitmask)
    ensures var r := DecodeFeedback(EncodeAll(FeedbackPackets(own, cname, lead, fbs, bitmask)), nackRef);
            && r.Success?
            && (Requests(r.value) == Requests(fbs) <==> AllReach(nackRef, UnqualifiedOf(fbs, bitmask)))
            && |Requests(r.value)| == |Requests(fbs)|
            && RttOnly(r.value) == Echoes(own, fbs)
  {
    hide NacksOf, EchoesOf, WellFormed, Requests, RttOnly, DecodePackets, ExtensionAfter, EncodeAll, ParseCompoundSpec;
    hide Ordered, Echoes, UnqualifiedOf;
    NameIsCut(own, cname, lead, fbs, bitmask);
    CompoundIsOrdered(own, Cut(cname), lead, fbs, bitmask);
    CompoundRoundTrip(FeedbackPackets(own, Cut(cname), lead, fbs, bitmask));
    var prefix, nacks, echoes := [lead, Sdes(own, Cut(cname))], NacksOf(own, fbs, bitmask), EchoesOf(own, fbs);
    PrefixIsSilent(lead, own, Cut(cname), nackRef);
    NacksComeBack(own, fbs, bitmask, NO_EXTENSION, nackRef);
    DecodeOfSum(prefix, nacks, NO_EXTENSION, nackRef);
    DecodeOfSum(prefix + nacks, echoes, NO_EXTENSION, nackRef);
    var a := DecodePackets(prefix, NO_EXTENSION, nackRef);
    var b := DecodePackets(nacks, NO_EXTENSION, nackRef);
    var ext := ExtensionAfter(nacks, NO_EXTENSION, nackRef);
    var c := DecodePackets(echoes, ext, nackRef);
    EchoesComeBack(own, fbs, ext, nackRef);
    RequestsOfSum(a, b);
    RequestsOfSum(a + b, c);
    RttOfSum(a, b);
    RttOfSum(a + b, c);
  }

  // ---- When nothing depends on the sender's position ----

  lemma {:induction false} TailsAreMembers(groups: seq<seq<u32>>, bitmask: bool)
    requires NonEmpty(groups)
    ensures forall x :: x in GroupTails(groups, bitmask) ==> x in Flat(groups)
  {
    hide FirstPacket, AskedBy;
    if groups != [] {
      TailsAreMembers(groups[1..], bitmask);
    }
  }

  /** Nothing is unqualified that was not asked for; so requests less than 2^16 behind the sender
      always come back exactly. */
  lemma UnqualifiedAreMembers(missing: seq<u32>, bitmask: bool, nackRef: u32)
    ensures forall x :: x in Unqualified(missing, bitmask) ==> x in missing
    ensures AllReach(nackRef, missing) ==> AllReach(nackRef, Unqualified(missing, bitmask))
  {
    hide Reaches;
    if NeedsExtension(missing) {
      GroupsPartition(missing);
      TailsAreMembers(Groups(missing), bitmask);
    }
  }

  lemma {:induction false} NearRequestsReach(fbs: seq<Feedback>, bitmask: bool, nackRef: u32)
    requires forall i :: 0 <= i < |fbs| && fbs[i].Nack? ==> AllReach(nackRef, fbs[i].missing)
    ensures AllReach(nackRef, UnqualifiedOf(fbs, bitmask))
  {
    hide Reaches, Unqualified;
    if fbs != [] {
      NearRequestsReach(fbs[1..], bitmask, nackRef);
      if fbs[0].Nack? {
        UnqualifiedAreMembers(fbs[0].missing, bitmask, nackRef);
      }
    }
  }

  /** The sender decodes exactly the requests that were missing, in order. */
  ghost predicate Arrives(own: u32, cname: seq<byte>, lead: Packet, fbs: seq<Feedback>, bitmask: bool, nackRef: u32) {
    var r := DecodeFeedback(EncodeAll(FeedbackPackets(own, cname, lead, fbs, bitmask)), nackRef);
    r.Success? && Requests(r.value) == Requests(fbs)
  }

  lemma ArrivesWhenReached(own: u32, cname: seq<byte>, lead: Packet, fbs: seq<Feedback>, bitmask: bool, nackRef: u32)
    requires IsReport(lead) && WellFormed(lead) && PackableFeedback(fbs, bitmask)
    ensures Arrives(own, cname, lead, fbs, bitmask, nackRef) <==> AllReach(nackRef, UnqualifiedOf(fbs, bitmask))
  {
    hide DecodeFeedback, EncodeAll, FeedbackPackets, Requests, Reaches, UnqualifiedOf, WellFormed, PackableFeedback;
    FeedbackArrives(own, cname, lead, fbs, bitmask, nackRef);
  }

  /** Requests less than 2^16 behind the sender's position arrive exactly. */
  lemma NearRequestsArrive(own: u32, cname: seq<byte>, lead: Packet, fbs: seq<Feedback>, bitmask: bool, nackRef: u32)
    requires IsReport(lead) && WellFormed(lead) && PackableFeedback(fbs, bitmask)
    requires forall i :: 0 <= i < |fbs| && fbs[i].Nack? ==> AllReach(nackRef, fbs[i].missing)
    ensures Arrives(own, cname, lead, fbs, bitmask, nackRef)
  {
    hide Arrives, Reaches, UnqualifiedOf, WellFormed, PackableFeedback;
    NearRequestsReach(fbs, bitmask, nackRef);
    ArrivesWhenReached(own, cname, lead, fbs, bitmask, nackRef);
  }

  /** In the range form, for every feedback whose lists hold at most 65536 entries, each less than
      2^16 behind the sender's position: what is decoded is exactly what was asked for, in order. */
  lemma ShortNearRequestsArrive(own: u32, cname: seq<byte>, lead: Packet, fbs: seq<Feedback>, nackRef: u32)
    requires IsReport(lead) && WellFormed(lead)
    requires forall i :: 0 <= i < |fbs| && fbs[i].Nack? ==>
               |fbs[i].missing| <= MAX_NACK_EXPAND && AllReach(nackRef, fbs[i].missing)
    ensures Arrives(own, cname, lead, fbs, false, nackRef)
  {
    hide Arrives, Reaches, WellFormed;
    forall i | 0 <= i < |fbs| && fbs[i].Nack? ensures PackableList(fbs[i].missing, false) {
      ShortListsArePackable(fbs[i].missing);
    }
    NearRequestsArrive(own, cname, lead, fbs, false, nackRef);
  }

  lemma ChunkCount<T>(records: seq<T>)
    ensures |Chunked(records)| <= 1 <==> |records| <= MAX_NACK_RECORDS_PER_PACKET
  {
    if |records| > MAX_NACK_RECORDS_PER_PACKET {
      assert Chunked(records[MAX_NACK_RECORDS_PER_PACKET..]) != [];
    }
  }

  function RecordCount(g: seq<u32>, bitmask: bool): nat {
    if bitmask then |BitmaskRecords(g)| else |RangeRecords(g)|
  }

  lemma NackPacketAsks(p: Packet, media: u32)
    requires NackFor(p, media)
    requires (p.RangeNack? ==> p.ranges != []) && (p.BitmaskNack? ==> p.fcis != [])
    ensures AskedBy(p) != []
  {
    hide WellFormed;
    match p {
      case RangeNack(_, ranges) => assert |Span(ranges[0].start, ranges[0].extra)| > 0;
      case BitmaskNack(_, _, fcis) => assert |PairSeqs(fcis[0])| > 0;
      case _ =>
    }
  }

  lemma PacketsAsk(g: seq<u32>, bitmask: bool, i: nat)
    requires g != [] && i < |NackPackets(0, g, bitmask)|
    ensures AskedBy(NackPackets(0, g, bitmask)[i]) != []
  {
    hide AskedBy, WellFormed, Low16;
    NackPacketsAreNacks(0, g, bitmask);
    var p := NackPackets(0, g, bitmask)[i];
    assert p in NackPackets(0, g, bitmask);
    if bitmask {
      ChunkedIsFaithful(BitmaskRecords(g));
      BitmaskPacketsAre(0, Chunked(BitmaskRecords(g)));
    } else {
      ChunkedIsFaithful(RangeRecords(g));
      RangePacketsAre(0, Chunked(RangeRecords(g)));
    }
    NackPacketAsks(p, 0);
  }

  /** The EXTSEQ covers a whole group exactly when it fits one packet. */
  lemma OnePacketCoversAll(g: seq<u32>, bitmask: bool)
    requires g != [] && Packable(g, bitmask)
    ensures BehindFirst(g, bitmask) == [] <==> RecordCount(g, bitmask) <= MAX_NACK_RECORDS_PER_PACKET
  {
    hide AskedBy, RangeRecords, BitmaskRecords, Low16;
    var packets := NackPackets(0, g, bitmask);
    NackPacketsAreNacks(0, g, bitmask);
    PackedInOrder(0, g, bitmask);
    if bitmask { ChunkCount(BitmaskRecords(g)); } else { ChunkCount(RangeRecords(g)); }
    assert AskedByAll(packets) == AskedBy(packets[0]) + AskedByAll(packets[1..]);
    if |packets| > 1 {
      PacketsAsk(g, bitmask, 1);
      assert AskedByAll(packets[1..]) == AskedBy(packets[1]) + AskedByAll(packets[1..][1..]);
    }
  }

  predicate FitsExtensions(missing: seq<u32>, bitmask: bool) {
    && NeedsExtension(missing)
    && forall i :: 0 <= i < |Groups(missing)| ==> RecordCount(Groups(missing)[i], bitmask) <= MAX_NACK_RECORDS_PER_PACKET
  }

  lemma {:induction false} TailsVanish(groups: seq<seq<u32>>, bitmask: bool)
    requires NonEmpty(groups) && forall i :: 0 <= i < |groups| ==> Packable(groups[i], bitmask)
    ensures GroupTails(groups, bitmask) == []
       <==> forall i :: 0 <= i < |groups| ==> RecordCount(groups[i], bitmask) <= MAX_NACK_RECORDS_PER_PACKET
  {
    hide BehindFirst, RecordCount, Packable;
    if groups != [] {
      OnePacketCoversAll(groups[0], bitmask);
      TailsVanish(groups[1..], bitmask);
      assert forall i :: 1 <= i < |groups| ==> groups[i] == groups[1..][i - 1];
    }
  }

  /** A list that leaves nothing to the sender's position. */
  predicate Independent(missing: seq<u32>, bitmask: bool) {
    missing == [] || FitsExtensions(missing, bitmask)
  }

  lemma NothingUnqualified(missing: seq<u32>, bitmask: bool)
    requires PackableList(missing, bitmask)
    ensures Unqualified(missing, bitmask) == [] <==> Independent(missing, bitmask)
  {
    hide BehindFirst, RecordCount, Packable;
    if NeedsExtension(missing) {
      GroupsPartition(missing);
      TailsVanish(Groups(missing), bitmask);
    }
  }

  lemma {:induction false} NothingUnqualifiedOf(fbs: seq<Feedback>, bitmask: bool)
    requires PackableFeedback(fbs, bitmask)
    ensures UnqualifiedOf(fbs, bitmask) == []
       <==> forall i :: 0 <= i < |fbs| && fbs[i].Nack? ==> Independent(fbs[i].missing, bitmask)
  {
    hide Unqualified, Independent, PackableList;
    if fbs != [] {
      NothingUnqualifiedOf(fbs[1..], bitmask);
      if fbs[0].Nack? {
        NothingUnqualified(fbs[0].missing, bitmask);
      }
      assert forall i :: 1 <= i < |fbs| ==> fbs[i] == fbs[1..][i - 1];
    }
  }

  /** Feedback arrives exactly whatever the sender's position if, and only if, every request list is
      empty, or has some upper half set and every group of one upper half fits a single packet. */
  lemma PositionDoesNotMatter(own: u32, cname: seq<byte>, lead: Packet, fbs: seq<Feedback>, bitmask: bool)
    requires IsReport(lead) && WellFormed(lead) && PackableFeedback(fbs, bitmask)
    ensures (forall nackRef :: Arrives(own, cname, lead, fbs, bitmask, nackRef))
       <==> forall i :: 0 <= i < |fbs| && fbs[i].Nack? ==> Independent(fbs[i].missing, bitmask)
  {
    hide Arrives, UnqualifiedOf, Independent, WellFormed, PackableFeedback, Reaches;
    NothingUnqualifiedOf(fbs, bitmask);
    var left := UnqualifiedOf(fbs, bitmask);
    forall nackRef ensures Arrives(own, cname, lead, fbs, bitmask, nackRef) <==> AllReach(nackRef, left) {
      ArrivesWhenReached(own, cname, lead, fbs, bitmask, nackRef);
    }
    if left != [] {
      OneBehindIsOut(left[0]);
      assert !AllReach(WrapSub32(left[0], 1), left);
    }
  }

  /** Every other sequence from 2^16 on, seventeen in all: one upper half, but no two in a run. */
  function Seventeen(): (r: seq<u32>)
    ensures |r| == 17 && forall i :: 0 <= i < 17 ==> r[i] == 0x1_0000 + 2 * i
  {
    seq<u32>(17, i requires 0 <= i < 17 => 0x1_0000 + 2 * i)
  }

  lemma {:induction false} ApartRecords(cur: NackRange, last: u16, rest: seq<u32>)
    requires rest != [] ==> Low16(rest[0]) != Next16(last)
    requires forall i :: 0 <= i < |rest| - 1 ==> Low16(rest[i + 1]) != Next16(Low16(rest[i]))
    ensures |Runs(cur, last, rest)| == 1 + |rest|
    decreases |rest|
  {
    hide Low16, Next16;
    if rest != [] {
      ApartRecords(NackRange(Low16(rest[0]), 0), Low16(rest[0]), rest[1..]);
    }
  }

  lemma SeventeenHalves(i: nat)
    requires i < 17
    ensures High16(Seventeen()[i]) == 1 && Low16(Seventeen()[i]) == 2 * i
  {}

  lemma SeventeenIsOneGroup()
    ensures NeedsExtension(Seventeen()) && Groups(Seventeen()) == [Seventeen()]
  {
    hide High16, Seventeen;
    var m := Seventeen();
    SeventeenHalves(0);
    assert m[0] in m;
    var n := GroupLength(m, 1);
    if n < 17 {
      SeventeenHalves(n);
    }
    assert m[..17] == m && m[17..] == [];
    NoGroups();
  }

  lemma SeventeenRecords()
    ensures |RangeRecords(Seventeen())| == 17
  {
    hide Low16, Runs, Seventeen;
    var m := Seventeen();
    SeventeenHalves(0);
    SeventeenHalves(1);
    forall i | 0 <= i < 15 ensures Low16(m[1..][i + 1]) != Next16(Low16(m[1..][i])) {
      SeventeenHalves(i + 1);
      SeventeenHalves(i + 2);
    }
    ApartRecords(NackRange(0, 0), 0, m[1..]);
  }

  /** The seventeenth lies behind the one packet the EXTSEQ covers. */
  lemma SeventeenOverflow()
    ensures Unqualified(Seventeen(), false) != []
    ensures PackableList(Seventeen(), false)
  {
    hide BehindFirst, RangeRecords, Seventeen, Groups;
    var m := Seventeen();
    ShortListsArePackable(m);
    SeventeenIsOneGroup();
    SeventeenRecords();
    OnePacketCoversAll(m, false);
    OneTail(m, false);
  }

  lemma OneTail(g: seq<u32>, bitmask: bool)
    requires g != []
    ensures NonEmpty([g]) && GroupTails([g], bitmask) == BehindFirst(g, bitmask)
  {
    hide BehindFirst;
    assert [g][1..] == [];
    assert GroupTails([g][1..], bitmask) == [];
  }

  /** The input that shows it: asked for seventeen sequences of one upper half, a sender whose
      position has moved on to 0x50000 decodes something else. */
  lemma ExtensionIsUsedUp(own: u32, cname: seq<byte>, lead: Packet, media: u32)
    requires IsReport(lead) && WellFormed(lead)
    ensures !Arrives(own, cname, lead, [Nack(media, Seventeen())], false, 0x5_0000)
  {
    hide Arrives, Unqualified, WellFormed, PackableList;
    var fbs, m := [Nack(media, Seventeen())], Seventeen();
    SeventeenOverflow();
    ArrivesWhenReached(own, cname, lead, fbs, false, 0x5_0000);
    UnqualifiedAreMembers(m, false, 0x5_0000);
    assert fbs[1..] == [] && UnqualifiedOf(fbs, false) == Unqualified(m, false);
    var x := Unqualified(m, false)[0];
    assert x in m;
    assert !Reaches(0x5_0000, x);
  }

  lemma OneBehindIsOut(s: u32)
    ensures !Reaches(WrapSub32(s, 1), s)
  {}

  // ---- The codec ----

  /** The peer's name as last learnt: only from an encrypted datagram, and the last one in it. */
  function NameFrom(packets: seq<Packet>, encrypted: bool, before: Option<seq<byte>>): Option<seq<byte>>
    decreases packets
  {
    if packets == [] then before
    else NameFrom(packets[1..], encrypted, if encrypted && packets[0].Sdes? then Some(packets[0].cname) else before)
  }

  lemma {:induction false} CleartextTeachesNoName(packets: seq<Packet>, before: Option<seq<byte>>)
    ensures NameFrom(packets, false, before) == before
    decreases packets
  {
    if packets != [] {
      CleartextTeachesNoName(packets[1..], before);
    }
  }

  lemma {:induction false} NoSdesNoName(packets: seq<Packet>, before: Option<seq<byte>>)
    requires forall i :: 0 <= i < |packets| ==> !packets[i].Sdes?
    ensures NameFrom(packets, true, before) == before
    decreases packets
  {
    if packets != [] {
      NoSdesNoName(packets[1..], before);
    }
  }

  /** An encrypted compound of the peer's teaches the peer's name, cut to 255 bytes. */
  lemma NameArrives(own: u32, cname: seq<byte>, lead: Packet, fbs: seq<Feedback>, bitmask: bool, before: Option<seq<byte>>)
    requires IsReport(lead) && WellFormed(lead)
    ensures var r := ParseCompoundSpec(EncodeAll(FeedbackPackets(own, cname, lead, fbs, bitmask)));
            r.Success? && NameFrom(r.value, true, before) == Some(Cut(cname))
  {
    hide NacksOf, EchoesOf, WellFormed, EncodeAll, ParseCompoundSpec, Ordered;
    NameIsCut(own, cname, lead, fbs, bitmask);
    var packets := FeedbackPackets(own, Cut(cname), lead, fbs, bitmask);
    CompoundIsOrdered(own, Cut(cname), lead, fbs, bitmask);
    CompoundRoundTrip(packets);
    NacksAreFeedback(own, fbs, bitmask);
    EchoesAreEchoes(own, fbs);
    var rest := NacksOf(own, fbs, bitmask) + EchoesOf(own, fbs);
    assert packets == [lead] + ([Sdes(own, Cut(cname))] + rest);
    NoSdesNoName(rest, Some(Cut(cname)));
    assert packets[1..] == [Sdes(own, Cut(cname))] + rest && packets[1..][1..] == rest;
  }

  class MainFeedbackCodec {
    const ssrc: u32
    const cname: seq<byte>
    var lastRxCname: Option<seq<byte>>

    constructor (ssrc: u32, cname: seq<byte>)
      ensures this.ssrc == ssrc && this.cname == cname && lastRxCname == None
    {
      this.ssrc, this.cname, lastRxCname := ssrc, cname, None;
    }

    method NackPacketList(media: u32, missing: seq<u32>, bitmask: bool, out0: seq<Packet>) returns (out: seq<Packet>)
      ensures out == out0 + NackPackets(media, missing, bitmask)
    {
      out := out0;
      if bitmask {
        var chunks := EncodeBitmaskNack(missing);
        assert chunks[0..] == chunks;
        for i := 0 to |chunks|
          invariant out + BitmaskPackets(media, chunks[i..]) == out0 + BitmaskPackets(media, chunks)
        {
          Regroup(out, BitmaskNack(0, media, chunks[i]), [], BitmaskPackets(media, chunks[i + 1..]));
          assert chunks[i..][1..] == chunks[i + 1..];
          out := out + [BitmaskNack(0, media, chunks[i])];
        }
        assert chunks[|chunks|..] == [];
      } else {
        var chunks := EncodeRangeNack(missing);
        assert chunks[0..] == chunks;
        for i := 0 to |chunks|
          invariant out + RangePackets(media, chunks[i..]) == out0 + RangePackets(media, chunks)
        {
          Regroup(out, RangeNack(media, chunks[i]), [], RangePackets(media, chunks[i + 1..]));
          assert chunks[i..][1..] == chunks[i + 1..];
          out := out + [RangeNack(media, chunks[i])];
        }
        assert chunks[|chunks|..] == [];
      }
    }

    method EncodeNackInto(media: u32, missing: seq<u32>, bitmask: bool, out0: seq<Packet>) returns (out: seq<Packet>)
      ensures out == out0 + EncodeNack(ssrc, media, missing, bitmask)
    {
      hide NackPackets, High16, Groups;
      out := out0;
      if missing == [] {
        return;
      }
      if !exists s :: s in missing && High16(s) != 0 {
        out := NackPacketList(media, missing, bitmask, out);
        return;
      }
      GroupsPartition(missing);
      var i := 0;
      assert missing[0..] == missing;
      while i < |missing|
        invariant i <= |missing| && NonEmpty(Groups(missing[i..])) && NonEmpty(Groups(missing))
        invariant out + EncodeGroups(ssrc, media, Groups(missing[i..]), bitmask)
               == out0 + EncodeGroups(ssrc, media, Groups(missing), bitmask)
      {
        var j := GroupEnd(missing, i);
        NextGroup(missing[i..], j - i);
        assert missing[i..j] == missing[i..][..j - i] && missing[i..][j - i..] == missing[j..];
        GroupStep(out, ssrc, media, missing[i..j], Groups(missing[j..]), bitmask);
        out := out + [ExtSeq(ssrc, High16(missing[i]))];
        out := NackPacketList(media, missing[i..j], bitmask, out);
        i := j;
      }
      NoGroups();
      assert missing[i..] == [];
    }

    method BuildFeedback(lead: Packet, fbs: seq<Feedback>, bitmask: bool) returns (r: Result<seq<byte>, RtcpError>)
      ensures r.Success? <==> IsReport(lead)
      ensures r.Success? ==> r.value == EncodeAll(FeedbackPackets(ssrc, cname, lead, fbs, bitmask))
    {
      hide NacksIn, EchoOf, Encode, Ordered, AllWellFormed;
      var nacks: seq<Packet>, echoes: seq<Packet> := [], [];
      assert fbs[0..] == fbs;
      for i := 0 to |fbs|
        invariant nacks + NacksOf(ssrc, fbs[i..], bitmask) == NacksOf(ssrc, fbs, bitmask)
        invariant echoes + EchoesOf(ssrc, fbs[i..]) == EchoesOf(ssrc, fbs)
      {
        assert fbs[i..][0] == fbs[i] && fbs[i..][1..] == fbs[i + 1..];
        Associate(echoes, EchoOf(ssrc, fbs[i]), EchoesOf(ssrc, fbs[i + 1..]));
        Associate(nacks, NacksIn(ssrc, fbs[i], bitmask), NacksOf(ssrc, fbs[i + 1..], bitmask));
        nacks, echoes := AddFeedback(fbs[i], bitmask, nacks, echoes);
      }
      assert fbs[|fbs|..] == [];
      var packets := [lead, Sdes(ssrc, cname)] + nacks + echoes;
      assert packets == FeedbackPackets(ssrc, cname, lead, fbs, bitmask);
      CompoundIsOrdered(ssrc, cname, lead, fbs, bitmask);
      var dst, e := BuildCompound([], packets);
      if e.Some? {
        return Failure(e.value);
      }
      assert [] + EncodeAll(packets) == EncodeAll(packets);
      return Success(dst);
    }

    method AddFeedback(fb: Feedback, bitmask: bool, nacks0: seq<Packet>, echoes0: seq<Packet>)
      returns (nacks: seq<Packet>, echoes: seq<Packet>)
      ensures nacks == nacks0 + NacksIn(ssrc, fb, bitmask)
      ensures echoes == echoes0 + EchoOf(ssrc, fb)
    {
      hide EncodeNack;
      nacks, echoes := nacks0, echoes0;
      match fb {
        case Nack(media, missing) => nacks := EncodeNackInto(media, missing, bitmask, nacks);
        case RttEchoRequest(_, timestamp) => echoes := echoes + [EchoRequest(ssrc, timestamp, [])];
        case RttEchoResponse(media, timestamp, delay) => echoes := echoes + [EchoResponse(media, timestamp, delay, [])];
        case _ =>
      }
    }

    method DecodeFeedbackMain(region: seq<byte>, nackRef: u32, encrypted: bool)
      returns (r: Result<seq<Feedback>, RtcpError>)
      modifies this
      ensures r == DecodeFeedback(region, nackRef)
      ensures var parsed := ParseCompoundSpec(region);
              lastRxCname == if parsed.Success? then NameFrom(parsed.value, encrypted, old(lastRxCname))
                             else old(lastRxCname)
    {
      hide ParseCompoundSpec, DecodePacket;
      var parsed := ParseCompound(region);
      if parsed.Failure? {
        return Failure(parsed.error);
      }
      var packets := parsed.value;
      var out: seq<Feedback> := [];
      var ext := NO_EXTENSION;
      assert packets[0..] == packets;
      for i := 0 to |packets|
        invariant out + DecodePackets(packets[i..], ext, nackRef) == DecodePackets(packets, NO_EXTENSION, nackRef)
        invariant NameFrom(packets[i..], encrypted, lastRxCname) == NameFrom(packets, encrypted, old(lastRxCname))
      {
        assert packets[i..][0] == packets[i] && packets[i..][1..] == packets[i + 1..];
        var next, fbs := DecodeOne(packets[i], ext, nackRef, encrypted);
        Associate(out, fbs, DecodePackets(packets[i + 1..], next, nackRef));
        out, ext := out + fbs, next;
      }
      assert packets[|packets|..] == [];
      assert out + DecodePackets([], ext, nackRef) == out;
      return Success(out);
    }

    /** One turn of the decoding loop. */
    method DecodeOne(p: Packet, ext: Extension, nackRef: u32, encrypted: bool) returns (next: Extension, fbs: seq<Feedback>)
      modifies this
      ensures (next, fbs) == DecodePacket(p, ext, nackRef)
      ensures lastRxCname == if encrypted && p.Sdes? then Some(p.cname) else old(lastRxCname)
    {
      hide AskedBy, FoldNack;
      next, fbs := ext, [];
      match p {
        case ExtSeq(_, high) => next := Extension(high, true);
        case RangeNack(media, ranges) =>
          var lows := MissingOfRanges(ranges);
          AskedByRange(media, ranges);
          fbs := [Nack(media, FoldNack(lows, ext, nackRef))];
          next := Extension(ext.high, false);
        case BitmaskNack(sender, media, fcis) =>
          var lows := MissingOfPairs(fcis);
          AskedByBitmask(sender, media, fcis);
          fbs := [Nack(media, FoldNack(lows, ext, nackRef))];
          next := Extension(ext.high, false);
        case EchoRequest(media, timestamp, _) => fbs := [RttEchoRequest(media, timestamp)];
        case EchoResponse(media, timestamp, delay, _) => fbs := [RttEchoResponse(media, timestamp, delay)];
        case LinkQualityReport(_, lqm) => fbs := [LinkQuality(lqm)];
        case Sdes(_, name) =>
          if encrypted && lastRxCname != Some(name) {
            lastRxCname := Some(name);
          }
        case _ =>
      }
    }
  }

  method GroupEnd(missing: seq<u32>, i: nat) returns (j: nat)
    requires i < |missing|
    ensures i < j <= |missing| && j - i == GroupLength(missing[i..], High16(missing[i]))
  {
    hide High16;
    var high := High16(missing[i]);
    j := i;
    while j < |missing| && High16(missing[j]) == high
      invariant i <= j <= |missing|
      invariant GroupLength(missing[i..], high) == j - i + GroupLength(missing[j..], high)
    {
      assert missing[j..][1..] == missing[j + 1..];
      j := j + 1;
    }
  }

  lemma GroupStep(out: seq<Packet>, own: u32, media: u32, g: seq<u32>, rest: seq<seq<u32>>, bitmask: bool)
    requires g != [] && NonEmpty(rest)
    ensures NonEmpty([g] + rest)
    ensures out + EncodeGroups(own, media, [g] + rest, bitmask)
         == out + [ExtSeq(own, High16(g[0]))] + NackPackets(media, g, bitmask) + EncodeGroups(own, media, rest, bitmask)
  {
    hide NackPackets, High16;
    var ext, nacks, more := [ExtSeq(own, High16(g[0]))], NackPackets(media, g, bitmask), EncodeGroups(own, media, rest, bitmask);
    assert ([g] + rest)[1..] == rest;
    Associate(out, ext + nacks, more);
    Associate(out, ext, nacks);
  }

  lemma NoGroups()
    ensures Groups([]) == []
  {}

  lemma AskedByRange(media: u32, ranges: seq<NackRange>)
    ensures AskedBy(RangeNack(media, ranges)) == RangeMissing(ranges)
  {}

  lemma AskedByBitmask(sender: u32, media: u32, fcis: seq<NackPair>)
    ensures AskedBy(BitmaskNack(sender, media, fcis)) == BitmaskMissing(fcis)
  {}

  lemma NextGroup(missing: seq<u32>, n: nat)
    requires missing != [] && n <= |missing| && 0 < n
    requires GroupLength(missing, High16(missing[0])) == n
    ensures Groups(missing) == [missing[..n]] + Groups(missing[n..])
    ensures NonEmpty(Groups(missing[n..])) && Groups(missing)[1..] == Groups(missing[n..])
  {
    hide GroupLength;
    GroupsPartition(missing[n..]);
  }
}
