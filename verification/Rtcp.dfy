/** The RTCP packets and compound datagrams of rtcp.rs, byte by byte. */
module Rtcp {
  import opened Bytes
  import Modular
  import opened RtcpNack

  const PT_SENDER_REPORT: byte := 200
  const PT_RECEIVER_REPORT: byte := 201
  const PT_SDES: byte := 202
  const PT_APP: byte := 204
  const PT_TRANSPORT_FEEDBACK: byte := 205

  const APP_SUBTYPE_RANGE_NACK: byte := 0
  const APP_SUBTYPE_EXT_SEQ: byte := 1
  const APP_SUBTYPE_ECHO_REQUEST: byte := 2
  const APP_SUBTYPE_ECHO_RESPONSE: byte := 3
  const FMT_GENERIC_NACK: byte := 1
  const NAME_RIST: u32 := 0x5249_5354
  const SDES_ITEM_CNAME: byte := 1

  const HEADER_SIZE := 4
  const APP_FIXED_SIZE := 12
  const SENDER_REPORT_SIZE := 28
  const EMPTY_RR_SIZE := 8
  const RECEIVER_REPORT_SIZE := 32
  const ECHO_FIXED_SIZE := 24
  const EXT_SEQ_SIZE := 16
  const SDES_FIXED_SIZE := 10
  const MAX_CNAME_LEN := 255
  const LQM_EXTENSION_SIZE := 44
  const LQM_REPORT_SIZE := 52

  /** The 44 opaque bytes of a Link Quality Message. */
  type Lqm = b: seq<byte> | |b| == LQM_EXTENSION_SIZE witness Modular.Zeros(44)

  datatype Packet =
    | SenderReport(ssrc: u32, ntp: u64, rtpTime: u32, packetCount: u32, octetCount: u32)
    | ReceiverReport(senderSsrc: u32, mediaSsrc: u32, fractionLost: byte, cumulativeLost: u32,
                     highestSeq: u32, jitter: u32, lsr: u32, dlsr: u32)
    | EmptyReceiverReport(ssrc: u32)
    | LinkQualityReport(ssrc: u32, lqm: Lqm)
    | Sdes(ssrc: u32, cname: seq<byte>)
    | RangeNack(mediaSsrc: u32, ranges: seq<NackRange>)
    | BitmaskNack(senderSsrc: u32, mediaSsrc: u32, fcis: seq<NackPair>)
    | EchoRequest(ssrc: u32, timestamp: u64, padding: seq<byte>)
    | EchoResponse(ssrc: u32, timestamp: u64, processingDelay: u32, padding: seq<byte>)
    | ExtSeq(ssrc: u32, seqHigh: u16)
    | Raw(bytes: seq<byte>)

  datatype RtcpError =
    | ShortPacket(got: nat, need: nat)
    | BadVersion(version: nat)
    | EmptyCompound
    | CompoundOrder(violation: Violation)

  datatype Violation = NoPrefix | BadFirst | BadSecond | LoneExtSeq | Misplaced | EchoFirst

  // ---- Sizes ----

  function PadTo4(n: nat): nat {
    (n + 3) / 4 * 4
  }

  /** The name, at least one zero, and padding. */
  function SdesSize(n: nat): (r: nat)
    ensures r % 4 == 0 && SDES_FIXED_SIZE + n + 1 <= r <= SDES_FIXED_SIZE + n + 4
  {
    (SDES_FIXED_SIZE + n + 1 + 3) / 4 * 4
  }

  function Cut(cname: seq<byte>): (r: seq<byte>)
    ensures |r| == Min(|cname|, MAX_CNAME_LEN)
  {
    cname[..Min(|cname|, MAX_CNAME_LEN)]
  }

  function MarshalSize(p: Packet): nat {
    match p
    case SenderReport(_, _, _, _, _) => SENDER_REPORT_SIZE
    case ReceiverReport(_, _, _, _, _, _, _, _) => RECEIVER_REPORT_SIZE
    case EmptyReceiverReport(_) => EMPTY_RR_SIZE
    case LinkQualityReport(_, _) => LQM_REPORT_SIZE
    case Sdes(_, cname) => SdesSize(Min(|cname|, MAX_CNAME_LEN))
    case RangeNack(_, ranges) => APP_FIXED_SIZE + 4 * |ranges|
    case BitmaskNack(_, _, fcis) => APP_FIXED_SIZE + 4 * |fcis|
    case EchoRequest(_, _, padding) => ECHO_FIXED_SIZE + PadTo4(|padding|)
    case EchoResponse(_, _, _, padding) => ECHO_FIXED_SIZE + PadTo4(|padding|)
    case ExtSeq(_, _) => EXT_SEQ_SIZE
    case Raw(b) => |b|
  }

  // ---- Encoding ----

  /** The fixed header; the length field keeps 16 bits. */
  function Header(count: byte, pt: byte, words: nat): (r: seq<byte>)
    requires count < 32
    ensures |r| == HEADER_SIZE
  {
    [0x80 + count, pt] + Be16(words % 0x1_0000)
  }

  function EncodeRecords<R>(records: seq<R>, split: R -> (u16, u16)): (r: seq<byte>)
    ensures |r| == 4 * |records|
  {
    if records == [] then []
    else
      var s := split(records[0]);
      Be16(s.0) + (Be16(s.1) + EncodeRecords(records[1..], split))
  }

  function SplitRange(r: NackRange): (u16, u16) {
    (r.start, r.extra)
  }

  function SplitPair(r: NackPair): (u16, u16) {
    (r.pid, r.blp)
  }

  function MakeRange(start: u16, extra: u16): NackRange {
    NackRange(start, extra)
  }

  function MakePair(pid: u16, blp: u16): NackPair {
    NackPair(pid, blp)
  }

  function EncodeSenderReport(ssrc: u32, ntp: u64, rtpTime: u32, packets: u32, octets: u32): (r: seq<byte>)
    ensures |r| == SENDER_REPORT_SIZE
  {
    Header(0, PT_SENDER_REPORT, 6) + (Be32(ssrc) + (Be64(ntp) + (Be32(rtpTime) + (Be32(packets) + (Be32(octets) + [])))))
  }

  function Loss(fraction: byte, cumulative: u32): u32 {
    Join16(fraction * 0x1_0000, cumulative % 0x100_0000)
  }

  function EncodeReceiverReport(sender: u32, media: u32, loss: u32, highest: u32, jitter: u32, lsr: u32,
                                dlsr: u32): (r: seq<byte>)
    ensures |r| == RECEIVER_REPORT_SIZE
  {
    Header(1, PT_RECEIVER_REPORT, 7)
    + (Be32(sender) + (Be32(media) + (Be32(loss) + (Be32(highest) + (Be32(jitter) + (Be32(lsr) + (Be32(dlsr) + [])))))))
  }

  function EncodeSdes(ssrc: u32, cname: seq<byte>): (r: seq<byte>)
    requires |cname| <= MAX_CNAME_LEN
    ensures |r| == SdesSize(|cname|)
  {
    Header(1, PT_SDES, SdesSize(|cname|) / 4 - 1)
    + (Be32(ssrc) + ([SDES_ITEM_CNAME, |cname|] + (cname + Modular.Zeros(SdesSize(|cname|) - SDES_FIXED_SIZE - |cname|))))
  }

  function EncodeApp(subtype: byte, ssrc: u32, words: nat, tail: seq<byte>): (r: seq<byte>)
    requires subtype < 32
    ensures |r| == APP_FIXED_SIZE + |tail|
  {
    Header(subtype, PT_APP, words) + (Be32(ssrc) + (Be32(NAME_RIST) + tail))
  }

  function EncodeBitmask(sender: u32, media: u32, fcis: seq<NackPair>): (r: seq<byte>)
    ensures |r| == APP_FIXED_SIZE + 4 * |fcis|
  {
    Header(FMT_GENERIC_NACK, PT_TRANSPORT_FEEDBACK, 2 + |fcis|)
    + (Be32(sender) + (Be32(media) + EncodeRecords(fcis, SplitPair)))
  }

  function EncodeEcho(subtype: byte, ssrc: u32, ts: u64, delay: u32, padding: seq<byte>): (r: seq<byte>)
    requires subtype < 32
    ensures |r| == ECHO_FIXED_SIZE + PadTo4(|padding|)
  {
    EncodeApp(subtype, ssrc, 5 + PadTo4(|padding|) / 4,
              Be64(ts) + (Be32(delay) + (padding + Modular.Zeros(PadTo4(|padding|) - |padding|))))
  }

  function Encode(p: Packet): (r: seq<byte>)
    ensures |r| == MarshalSize(p)
  {
    match p
    case SenderReport(ssrc, ntp, rtpTime, packets, octets) => EncodeSenderReport(ssrc, ntp, rtpTime, packets, octets)
    case ReceiverReport(sender, media, fraction, cumulative, highest, jitter, lsr, dlsr) =>
      EncodeReceiverReport(sender, media, Loss(fraction, cumulative), highest, jitter, lsr, dlsr)
    case EmptyReceiverReport(ssrc) => Header(0, PT_RECEIVER_REPORT, 1) + (Be32(ssrc) + [])
    case LinkQualityReport(ssrc, lqm) => Header(0, PT_RECEIVER_REPORT, 12) + (Be32(ssrc) + lqm)
    case Sdes(ssrc, cname) => EncodeSdes(ssrc, Cut(cname))
    case RangeNack(media, ranges) =>
      EncodeApp(APP_SUBTYPE_RANGE_NACK, media, 2 + |ranges|, EncodeRecords(ranges, SplitRange))
    case BitmaskNack(sender, media, fcis) => EncodeBitmask(sender, media, fcis)
    case EchoRequest(ssrc, ts, padding) => EncodeEcho(APP_SUBTYPE_ECHO_REQUEST, ssrc, ts, 0, padding)
    case EchoResponse(ssrc, ts, delay, padding) => EncodeEcho(APP_SUBTYPE_ECHO_RESPONSE, ssrc, ts, delay, padding)
    case ExtSeq(ssrc, high) => EncodeApp(APP_SUBTYPE_EXT_SEQ, ssrc, 3, Be16(high) + [0, 0])
    case Raw(b) => b
  }

  // ---- Decoding ----

  datatype RtcpHeader = RtcpHeader(count: byte, pt: byte, size: nat)

  function WireSize(words: u16): nat {
    (words + 1) * 4
  }

  function ParseHeader(b: seq<byte>): (r: Result<RtcpHeader, RtcpError>)
    ensures r.Success? ==> HEADER_SIZE <= r.value.size <= |b| && r.value.size % 4 == 0
    ensures r.Failure? && r.error.ShortPacket? ==> r.error.got == |b| < r.error.need
    ensures r.Failure? && !r.error.ShortPacket? ==> |b| >= 4 && r.error == BadVersion(b[0] / 0x40) && r.error.version in {0, 1, 3}
  {
    if |b| < HEADER_SIZE then Failure(ShortPacket(|b|, HEADER_SIZE))
    else if b[0] / 0x40 != 2 then Failure(BadVersion(b[0] / 0x40))
    else
      var size := WireSize(Get16(b, 2));
      if size > |b| then Failure(ShortPacket(|b|, size))
      else Success(RtcpHeader(b[0] % 0x20, b[1], size))
  }

  function DecodeRecords<R>(b: seq<byte>, o: nat, make: (u16, u16) -> R): (r: seq<R>)
    requires o <= |b|
    ensures |r| == (|b| - o) / 4
    decreases |b| - o
  {
    if o + 4 > |b| then [] else [make(Get16(b, o), Get16(b, o + 2))] + DecodeRecords(b, o + 4, make)
  }

  function DecodeSenderReport(count: byte, b: seq<byte>): Option<Packet> {
    if count != 0 || |b| != SENDER_REPORT_SIZE then None
    else Some(SenderReport(Get32(b, 4), Get64(b, 8), Get32(b, 16), Get32(b, 20), Get32(b, 24)))
  }

  function DecodeReceiverReport(count: byte, b: seq<byte>): Option<Packet> {
    if count == 0 && |b| == EMPTY_RR_SIZE then Some(EmptyReceiverReport(Get32(b, 4)))
    else if count == 1 && |b| == RECEIVER_REPORT_SIZE then
      Some(ReceiverReport(Get32(b, 4), Get32(b, 8), b[12], Get32(b, 12) % 0x100_0000,
                          Get32(b, 16), Get32(b, 20), Get32(b, 24), Get32(b, 28)))
    else if count == 0 && |b| == LQM_REPORT_SIZE then Some(LinkQualityReport(Get32(b, 4), b[8..]))
    else None
  }

  function DecodeSdes(count: byte, b: seq<byte>): Option<Packet> {
    if count != 1 || |b| < SDES_FIXED_SIZE + 1 || b[8] != SDES_ITEM_CNAME then None
    else
      var n: nat := b[9];
      if SDES_FIXED_SIZE + n + 1 > |b| then None
      else if exists i :: SDES_FIXED_SIZE + n <= i < |b| && b[i] != 0 then None
      else Some(Sdes(Get32(b, 4), b[SDES_FIXED_SIZE..SDES_FIXED_SIZE + n]))
  }

  function DecodeEcho(subtype: byte, b: seq<byte>): Option<Packet> {
    if |b| < ECHO_FIXED_SIZE then None
    else if subtype == APP_SUBTYPE_ECHO_REQUEST then Some(EchoRequest(Get32(b, 4), Get64(b, 12), b[ECHO_FIXED_SIZE..]))
    else Some(EchoResponse(Get32(b, 4), Get64(b, 12), Get32(b, 20), b[ECHO_FIXED_SIZE..]))
  }

  function DecodeExtSeq(b: seq<byte>): Option<Packet> {
    if |b| != EXT_SEQ_SIZE then None else Some(ExtSeq(Get32(b, 4), Get16(b, 12)))
  }

  function DecodeApp(count: byte, b: seq<byte>): Option<Packet> {
    if |b| < APP_FIXED_SIZE || Get32(b, 8) != NAME_RIST then None
    else if count == APP_SUBTYPE_RANGE_NACK then Some(RangeNack(Get32(b, 4), DecodeRecords(b, APP_FIXED_SIZE, MakeRange)))
    else if count == APP_SUBTYPE_EXT_SEQ then DecodeExtSeq(b)
    else if count == APP_SUBTYPE_ECHO_REQUEST || count == APP_SUBTYPE_ECHO_RESPONSE then DecodeEcho(count, b)
    else None
  }

  function DecodeBitmask(count: byte, b: seq<byte>): Option<Packet> {
    if count != FMT_GENERIC_NACK || |b| < APP_FIXED_SIZE then None
    else Some(BitmaskNack(Get32(b, 4), Get32(b, 8), DecodeRecords(b, APP_FIXED_SIZE, MakePair)))
  }

  /** `b` is exactly one packet. */
  function DecodeTyped(count: byte, pt: byte, b: seq<byte>): Option<Packet> {
    if pt == PT_SENDER_REPORT then DecodeSenderReport(count, b)
    else if pt == PT_RECEIVER_REPORT then DecodeReceiverReport(count, b)
    else if pt == PT_SDES then DecodeSdes(count, b)
    else if pt == PT_APP then DecodeApp(count, b)
    else if pt == PT_TRANSPORT_FEEDBACK then DecodeBitmask(count, b)
    else None
  }

  /** A padded packet is never typed. */
  function DecodeBody(h: RtcpHeader, body: seq<byte>): Packet
    requires body != []
  {
    if body[0] / 0x20 % 2 != 0 then Raw(body)
    else
      match DecodeTyped(h.count, h.pt, body)
      case Some(p) => p
      case None => Raw(body)
  }

  function Parse(b: seq<byte>): (r: Result<(Packet, nat), RtcpError>)
    ensures r.Success? ==> 0 < r.value.1 <= |b|
  {
    match ParseHeader(b)
    case Failure(e) => Failure(e)
    case Success(h) => Success((DecodeBody(h, b[..h.size]), h.size))
  }

  /** The packets of a compound, front to back. */
  function ParseAll(b: seq<byte>): Result<seq<Packet>, RtcpError>
    decreases |b|
  {
    if b == [] then Success([])
    else
      match Parse(b)
      case Failure(e) => Failure(e)
      case Success(r) =>
        match ParseAll(b[r.1..])
        case Failure(e) => Failure(e)
        case Success(rest) => Success([r.0] + rest)
  }

  function ParseCompoundSpec(b: seq<byte>): Result<seq<Packet>, RtcpError> {
    if b == [] then Failure(EmptyCompound) else ParseAll(b)
  }

  /** The parsing loop. */
  method ParseCompound(b: seq<byte>) returns (r: Result<seq<Packet>, RtcpError>)
    ensures r == ParseCompoundSpec(b)
  {
    hide Parse;
    if b == [] {
      return Failure(EmptyCompound);
    }
    var packets: seq<Packet> := [];
    var off: nat := 0;
    assert b[0..] == b;
    assert ParseAll(b).Success? ==> [] + ParseAll(b).value == ParseAll(b).value;
    while off < |b|
      invariant off <= |b|
      invariant ParseAll(b) == (match ParseAll(b[off..])
                                case Failure(e) => Failure(e)
                                case Success(rest) => Success(packets + rest))
    {
      match Parse(b[off..])
      case Failure(e) => return Failure(e);
      case Success(got) =>
        assert b[off..][got.1..] == b[off + got.1..];
        ghost var tail := ParseAll(b[off + got.1..]);
        assert tail.Success? ==> packets + ([got.0] + tail.value) == packets + [got.0] + tail.value;
        packets := packets + [got.0];
        off := off + got.1;
    }
    assert b[off..] == [];
    assert packets + [] == packets;
    return Success(packets);
  }

  // ---- Round trips ----

  /** A packet the wire can carry: every field fits where it goes, and foreign bytes are one
      whole framed packet that no typed decoder claims. */
  predicate WellFormed(p: Packet) {
    match p
    case ReceiverReport(_, _, _, cumulative, _, _, _, _) => cumulative < 0x100_0000
    case Sdes(_, cname) => |cname| <= MAX_CNAME_LEN
    case RangeNack(_, ranges) => 2 + |ranges| < 0x1_0000
    case BitmaskNack(_, _, fcis) => 2 + |fcis| < 0x1_0000
    case EchoRequest(_, _, padding) => PaddingFits(padding)
    case EchoResponse(_, _, _, padding) => PaddingFits(padding)
    case Raw(b) => Foreign(b)
    case _ => true
  }

  predicate PaddingFits(padding: seq<byte>) {
    |padding| % 4 == 0 && 5 + |padding| / 4 < 0x1_0000
  }

  predicate Foreign(b: seq<byte>) {
    var h := ParseHeader(b);
    h.Success? && h.value.size == |b| && DecodeBody(h.value, b) == Raw(b)
  }

  /** A header with the right length frames its packet, whatever follows. */
  lemma HeaderFrames(count: byte, pt: byte, words: u16, tail: seq<byte>, rest: seq<byte>)
    requires count < 32 && |tail| == 4 * words
    ensures ParseHeader(Header(count, pt, words) + tail + rest) == Success(RtcpHeader(count, pt, 4 + |tail|))
    ensures Header(count, pt, words)[0] / 0x20 % 2 == 0
    ensures (Header(count, pt, words) + tail)[4..] == tail
  {
    hide Be16, Get16;
    var b := Header(count, pt, words) + tail + rest;
    assert b[2..] == Be16(words) + (tail + rest);
    Take16(b, 2, words, tail + rest);
    assert (0x80 + count) / 0x40 == 2 && (0x80 + count) % 0x20 == count && (0x80 + count) / 0x20 % 2 == 0;
  }

  /** A typed packet is read back once its body decodes to it. */
  lemma TypedParses(p: Packet, count: byte, pt: byte, words: u16, tail: seq<byte>, rest: seq<byte>)
    requires count < 32 && |tail| == 4 * words
    requires Encode(p) == Header(count, pt, words) + tail
    requires DecodeTyped(count, pt, Encode(p)) == Some(p)
    ensures Parse(Encode(p) + rest) == Success((p, MarshalSize(p)))
  {
    hide ParseHeader, DecodeTyped, Encode, Header;
    HeaderFrames(count, pt, words, tail, rest);
    var b := Encode(p) + rest;
    assert b == Header(count, pt, words) + tail + rest;
    assert b[..4 + |tail|] == Encode(p);
  }

  lemma {:induction false} RecordsReadBack<R>(b: seq<byte>, o: nat, records: seq<R>, split: R -> (u16, u16),
                                              make: (u16, u16) -> R)
    requires forall r :: make(split(r).0, split(r).1) == r
    requires o <= |b| && b[o..] == EncodeRecords(records, split)
    ensures DecodeRecords(b, o, make) == records
    decreases |records|
  {
    hide Be16, Get16;
    assert |b| == o + 4 * |records|;
    if records != [] {
      var s := split(records[0]);
      var tail := EncodeRecords(records[1..], split);
      Take16(b, o, s.0, Be16(s.1) + tail);
      Take16(b, o + 2, s.1, tail);
      RecordsReadBack(b, o + 4, records[1..], split, make);
      assert [records[0]] + records[1..] == records;
    }
  }

  lemma SenderReportReadsBack(p: Packet)
    requires p.SenderReport?
    ensures DecodeTyped(0, PT_SENDER_REPORT, Encode(p)) == Some(p)
  {
    hide Be32, Be64, Get32, Get64, Header;
    var b := Encode(p);
    var t5 := Be32(p.octetCount) + [];
    var t4 := Be32(p.packetCount) + t5;
    var t3 := Be32(p.rtpTime) + t4;
    var t2 := Be64(p.ntp) + t3;
    assert b[4..] == Be32(p.ssrc) + t2;
    Take32(b, 4, p.ssrc, t2);
    Take64(b, 8, p.ntp, t3);
    Take32(b, 16, p.rtpTime, t4);
    Take32(b, 20, p.packetCount, t5);
    Take32(b, 24, p.octetCount, []);
  }

  lemma LossReadsBack(b: seq<byte>, o: nat, fraction: byte, cumulative: u32)
    requires o + 4 <= |b| && Get32(b, o) == Loss(fraction, cumulative) && cumulative < 0x100_0000
    ensures b[o] == fraction && Get32(b, o) % 0x100_0000 == cumulative
  {
    assert Loss(fraction, cumulative) == fraction * 0x100_0000 + cumulative;
    Get32Digits(b, o);
    Digits(b[o], b[o + 1], b[o + 2], b[o + 3]);
  }

  lemma ReceiverReportReadsBack(p: Packet)
    requires p.ReceiverReport? && WellFormed(p)
    ensures DecodeTyped(1, PT_RECEIVER_REPORT, Encode(p)) == Some(p)
  {
    hide Be32, Get32, Header, Loss;
    var b := Encode(p);
    var loss := Loss(p.fractionLost, p.cumulativeLost);
    var t7 := Be32(p.dlsr) + [];
    var t6 := Be32(p.lsr) + t7;
    var t5 := Be32(p.jitter) + t6;
    var t4 := Be32(p.highestSeq) + t5;
    var t3 := Be32(loss) + t4;
    var t2 := Be32(p.mediaSsrc) + t3;
    assert b[4..] == Be32(p.senderSsrc) + t2;
    Take32(b, 4, p.senderSsrc, t2);
    Take32(b, 8, p.mediaSsrc, t3);
    Take32(b, 12, loss, t4);
    Take32(b, 16, p.highestSeq, t5);
    Take32(b, 20, p.jitter, t6);
    Take32(b, 24, p.lsr, t7);
    Take32(b, 28, p.dlsr, []);
    LossReadsBack(b, 12, p.fractionLost, p.cumulativeLost);
  }

  lemma ShortReportsReadBack(p: Packet)
    requires p.EmptyReceiverReport? || p.LinkQualityReport?
    ensures DecodeTyped(0, PT_RECEIVER_REPORT, Encode(p)) == Some(p)
  {
    hide Be32, Get32, Header;
    var b := Encode(p);
    var tail: seq<byte> := if p.EmptyReceiverReport? then [] else p.lqm;
    assert b[4..] == Be32(p.ssrc) + tail;
    Take32(b, 4, p.ssrc, tail);
  }

  lemma SdesReadsBack(p: Packet)
    requires p.Sdes? && WellFormed(p)
    ensures DecodeTyped(1, PT_SDES, Encode(p)) == Some(p)
  {
    hide Be32, Get32, Header, SdesSize;
    var b := Encode(p);
    var n := |p.cname|;
    assert Cut(p.cname) == p.cname;
    var zeros := Modular.Zeros(SdesSize(n) - SDES_FIXED_SIZE - n);
    var t2 := [SDES_ITEM_CNAME, n] + (p.cname + zeros);
    assert b[4..] == Be32(p.ssrc) + t2;
    Take32(b, 4, p.ssrc, t2);
    assert b[8] == b[8..][0] && b[9] == b[8..][1];
    assert b[10..] == b[8..][2..] == p.cname + zeros;
    assert b[10..10 + n] == b[10..][..n] == p.cname;
    assert b[10 + n..] == b[10..][n..] == zeros;
    forall i | SDES_FIXED_SIZE + n <= i < |b| ensures b[i] == 0 {
      assert b[i] == b[10 + n..][i - 10 - n];
    }
  }

  lemma AppReadsBack(subtype: byte, ssrc: u32, words: nat, tail: seq<byte>)
    requires subtype < 32
    ensures var b := EncodeApp(subtype, ssrc, words, tail);
            Get32(b, 4) == ssrc && Get32(b, 8) == NAME_RIST && b[12..] == tail
  {
    hide Be32, Get32, Header;
    var b := EncodeApp(subtype, ssrc, words, tail);
    assert b[4..] == Be32(ssrc) + (Be32(NAME_RIST) + tail);
    Take32(b, 4, ssrc, Be32(NAME_RIST) + tail);
    Take32(b, 8, NAME_RIST, tail);
  }

  lemma RangeNackReadsBack(p: Packet)
    requires p.RangeNack?
    ensures DecodeTyped(APP_SUBTYPE_RANGE_NACK, PT_APP, Encode(p)) == Some(p)
  {
    hide Get32, EncodeApp, EncodeRecords, DecodeRecords;
    AppReadsBack(APP_SUBTYPE_RANGE_NACK, p.mediaSsrc, 2 + |p.ranges|, EncodeRecords(p.ranges, SplitRange));
    RecordsReadBack(Encode(p), 12, p.ranges, SplitRange, MakeRange);
  }

  lemma BitmaskReadsBack(p: Packet)
    requires p.BitmaskNack?
    ensures DecodeTyped(FMT_GENERIC_NACK, PT_TRANSPORT_FEEDBACK, Encode(p)) == Some(p)
  {
    hide Get32, Be32, Header, EncodeRecords, DecodeRecords;
    var b := Encode(p);
    var records := EncodeRecords(p.fcis, SplitPair);
    assert b[4..] == Be32(p.senderSsrc) + (Be32(p.mediaSsrc) + records);
    Take32(b, 4, p.senderSsrc, Be32(p.mediaSsrc) + records);
    Take32(b, 8, p.mediaSsrc, records);
    RecordsReadBack(b, 12, p.fcis, SplitPair, MakePair);
  }

  lemma EchoBodyReadsBack(subtype: byte, ssrc: u32, ts: u64, delay: u32, padding: seq<byte>)
    requires subtype < 32 && |padding| % 4 == 0
    ensures var b := EncodeEcho(subtype, ssrc, ts, delay, padding);
            && Get32(b, 4) == ssrc && Get32(b, 8) == NAME_RIST && Get64(b, 12) == ts
            && Get32(b, 20) == delay && b[24..] == padding
  {
    hide Be32, Be64, Get32, Get64, EncodeApp;
    var b := EncodeEcho(subtype, ssrc, ts, delay, padding);
    assert PadTo4(|padding|) == |padding|;
    assert padding + Modular.Zeros(0) == padding;
    AppReadsBack(subtype, ssrc, 5 + |padding| / 4, Be64(ts) + (Be32(delay) + padding));
    Take64(b, 12, ts, Be32(delay) + padding);
    Take32(b, 20, delay, padding);
  }

  lemma EchoReadsBack(p: Packet)
    requires (p.EchoRequest? || p.EchoResponse?) && WellFormed(p)
    ensures DecodeTyped(if p.EchoRequest? then APP_SUBTYPE_ECHO_REQUEST else APP_SUBTYPE_ECHO_RESPONSE, PT_APP, Encode(p))
         == Some(p)
  {
    hide Get32, Get64, EncodeEcho;
    if p.EchoRequest? {
      EchoBodyReadsBack(APP_SUBTYPE_ECHO_REQUEST, p.ssrc, p.timestamp, 0, p.padding);
    } else {
      EchoBodyReadsBack(APP_SUBTYPE_ECHO_RESPONSE, p.ssrc, p.timestamp, p.processingDelay, p.padding);
    }
  }

  lemma ExtSeqReadsBack(p: Packet)
    requires p.ExtSeq?
    ensures DecodeTyped(APP_SUBTYPE_EXT_SEQ, PT_APP, Encode(p)) == Some(p)
  {
    hide Get32, Get16, Be16, EncodeApp;
    AppReadsBack(APP_SUBTYPE_EXT_SEQ, p.ssrc, 3, Be16(p.seqHigh) + [0, 0]);
    Take16(Encode(p), 12, p.seqHigh, [0, 0]);
  }

  function Count(p: Packet): (r: byte)
    ensures r < 32
  {
    match p
    case ReceiverReport(_, _, _, _, _, _, _, _) => 1
    case Sdes(_, _) => 1
    case BitmaskNack(_, _, _) => FMT_GENERIC_NACK
    case EchoRequest(_, _, _) => APP_SUBTYPE_ECHO_REQUEST
    case EchoResponse(_, _, _, _) => APP_SUBTYPE_ECHO_RESPONSE
    case ExtSeq(_, _) => APP_SUBTYPE_EXT_SEQ
    case _ => 0
  }

  function PacketType(p: Packet): byte {
    if p.SenderReport? then PT_SENDER_REPORT
    else if p.ReceiverReport? || p.EmptyReceiverReport? || p.LinkQualityReport? then PT_RECEIVER_REPORT
    else if p.Sdes? then PT_SDES
    else if p.BitmaskNack? then PT_TRANSPORT_FEEDBACK
    else PT_APP
  }

  lemma EncodeHasHeader(p: Packet)
    requires WellFormed(p) && !p.Raw?
    ensures MarshalSize(p) % 4 == 0 && 4 <= MarshalSize(p) <= 0x4_0000
    ensures Encode(p) == Header(Count(p), PacketType(p), MarshalSize(p) / 4 - 1) + Encode(p)[4..]
  {
    hide Be16, Be32, Be64, Header, EncodeRecords, Loss, Modular.Zeros, Cut;
  }

  lemma TypedReadsBack(p: Packet)
    requires WellFormed(p) && !p.Raw?
    ensures DecodeTyped(Count(p), PacketType(p), Encode(p)) == Some(p)
  {
    hide Encode, DecodeTyped;
    match p
    case SenderReport(_, _, _, _, _) => SenderReportReadsBack(p);
    case ReceiverReport(_, _, _, _, _, _, _, _) => ReceiverReportReadsBack(p);
    case EmptyReceiverReport(_) => ShortReportsReadBack(p);
    case LinkQualityReport(_, _) => ShortReportsReadBack(p);
    case Sdes(_, _) => SdesReadsBack(p);
    case RangeNack(_, _) => RangeNackReadsBack(p);
    case BitmaskNack(_, _, _) => BitmaskReadsBack(p);
    case EchoRequest(_, _, _) => EchoReadsBack(p);
    case EchoResponse(_, _, _, _) => EchoReadsBack(p);
    case ExtSeq(_, _) => ExtSeqReadsBack(p);
  }

  lemma ForeignParses(b: seq<byte>, rest: seq<byte>)
    requires Foreign(b)
    ensures Parse(b + rest) == Success((Raw(b), |b|))
  {
    hide DecodeBody;
    var c := b + rest;
    assert Get16(c, 2) == Get16(b, 2) && c[0] == b[0] && c[1] == b[1];
    assert c[..|b|] == b;
  }

  /** Every well-formed packet is read back from its encoding, whatever follows it, and takes
      exactly its marshal size. */
  lemma ParseOfEncode(p: Packet, rest: seq<byte>)
    requires WellFormed(p)
    ensures Parse(Encode(p) + rest) == Success((p, MarshalSize(p)))
  {
    if p.Raw? {
      ForeignParses(p.bytes, rest);
    } else {
      hide Encode, DecodeTyped, Header, WellFormed, MarshalSize;
      EncodeHasHeader(p);
      TypedReadsBack(p);
      TypedParses(p, Count(p), PacketType(p), MarshalSize(p) / 4 - 1, Encode(p)[4..], rest);
    }
  }

  // ---- What was parsed can be sent again ----

  predicate Sendable(p: Option<Packet>, size: nat) {
    p.Some? ==> !p.value.Raw? && WellFormed(p.value) && MarshalSize(p.value) <= size
  }

  lemma AppIsSendable(count: byte, b: seq<byte>)
    requires |b| % 4 == 0 && |b| <= 0x4_0000
    ensures Sendable(DecodeApp(count, b), |b|)
  {
    hide DecodeRecords, Get32, Get64, Get16;
  }

  lemma ReportIsSendable(count: byte, b: seq<byte>)
    ensures Sendable(DecodeSenderReport(count, b), |b|)
    ensures Sendable(DecodeReceiverReport(count, b), |b|)
  {
    hide Get32, Get64;
  }

  lemma SdesIsSendable(count: byte, b: seq<byte>)
    requires |b| % 4 == 0
    ensures Sendable(DecodeSdes(count, b), |b|)
  {
    hide Get32;
  }

  lemma BitmaskIsSendable(count: byte, b: seq<byte>)
    requires |b| % 4 == 0 && |b| <= 0x4_0000
    ensures Sendable(DecodeBitmask(count, b), |b|)
  {
    hide DecodeRecords, Get32;
  }

  lemma TypedIsSendable(count: byte, pt: byte, b: seq<byte>)
    requires |b| % 4 == 0 && |b| <= 0x4_0000
    ensures Sendable(DecodeTyped(count, pt, b), |b|)
  {
    hide DecodeApp, DecodeSenderReport, DecodeReceiverReport, DecodeSdes, DecodeBitmask;
    AppIsSendable(count, b);
    ReportIsSendable(count, b);
    SdesIsSendable(count, b);
    BitmaskIsSendable(count, b);
  }

  lemma HeaderOfBody(b: seq<byte>)
    requires ParseHeader(b).Success?
    ensures var h := ParseHeader(b).value;
            h.size <= 0x4_0000 && ParseHeader(b[..h.size]) == Success(h)
  {
    var h := ParseHeader(b).value;
    var body := b[..h.size];
    assert body[0] == b[0] && body[1] == b[1] && Get16(body, 2) == Get16(b, 2);
  }

  lemma ParsedIsWellFormed(b: seq<byte>)
    requires Parse(b).Success?
    ensures var (p, n) := Parse(b).value; WellFormed(p) && MarshalSize(p) <= n
  {
    hide ParseHeader, DecodeTyped, MarshalSize;
    HeaderOfBody(b);
    var h := ParseHeader(b).value;
    TypedIsSendable(h.count, h.pt, b[..h.size]);
    var p := Parse(b).value.0;
    if p.Raw? {
      RawSize(p.bytes);
    }
  }

  lemma RawSize(b: seq<byte>)
    ensures MarshalSize(Raw(b)) == |b|
  {}

  // ---- Compounds ----

  function EncodeAll(packets: seq<Packet>): seq<byte> {
    if packets == [] then [] else Encode(packets[0]) + EncodeAll(packets[1..])
  }

  function TotalSize(packets: seq<Packet>): nat {
    if packets == [] then 0 else MarshalSize(packets[0]) + TotalSize(packets[1..])
  }

  predicate AllWellFormed(packets: seq<Packet>) {
    forall p :: p in packets ==> WellFormed(p)
  }

  lemma {:induction false} ParseAllOfEncodeAll(packets: seq<Packet>)
    requires AllWellFormed(packets)
    ensures ParseAll(EncodeAll(packets)) == Success(packets)
    ensures |EncodeAll(packets)| == TotalSize(packets)
  {
    hide Encode, Parse, WellFormed, MarshalSize;
    if packets != [] {
      var b, rest := EncodeAll(packets), EncodeAll(packets[1..]);
      ParseOfEncode(packets[0], rest);
      ParseAllOfEncodeAll(packets[1..]);
      assert b[MarshalSize(packets[0])..] == rest;
      assert [packets[0]] + packets[1..] == packets;
    }
  }

  /** One piece of a compound: all of it is one packet. */
  predicate IsPiece(piece: seq<byte>, p: Packet) {
    Parse(piece) == Success((p, |piece|))
  }

  predicate ArePieces(pieces: seq<seq<byte>>, packets: seq<Packet>) {
    |pieces| == |packets| && forall i :: 0 <= i < |pieces| ==> IsPiece(pieces[i], packets[i])
  }

  /** The bytes are pieces laid end to end, each of them one packet of the list: nothing lies between
      them, before or behind. */
  ghost predicate SplitsInto(b: seq<byte>, packets: seq<Packet>) {
    exists pieces: seq<seq<byte>> :: Flat(pieces) == b && ArePieces(pieces, packets)
  }

  lemma HeaderIsLocal(b: seq<byte>, rest: seq<byte>)
    requires ParseHeader(b).Success?
    ensures ParseHeader(b + rest) == ParseHeader(b)
  {
    var c := b + rest;
    assert c[0] == b[0] && c[1] == b[1] && Get16(c, 2) == Get16(b, 2);
  }

  /** A packet is read the same whatever follows it, and from its own bytes alone. */
  lemma ParseIsLocal(b: seq<byte>)
    requires Parse(b).Success?
    ensures var (p, n) := Parse(b).value; IsPiece(b[..n], p)
  {
    hide ParseHeader, DecodeBody;
    HeaderOfBody(b);
    var n := Parse(b).value.1;
    assert b[..n][..n] == b[..n];
  }

  lemma PieceParses(piece: seq<byte>, p: Packet, rest: seq<byte>)
    requires IsPiece(piece, p)
    ensures Parse(piece + rest) == Success((p, |piece|))
  {
    hide ParseHeader, DecodeBody;
    HeaderIsLocal(piece, rest);
    assert (piece + rest)[..|piece|] == piece[..|piece|];
  }

  lemma {:induction false} PiecesParse(pieces: seq<seq<byte>>, packets: seq<Packet>)
    requires ArePieces(pieces, packets)
    ensures ParseAll(Flat(pieces)) == Success(packets)
  {
    hide Parse;
    if pieces != [] {
      PieceParses(pieces[0], packets[0], Flat(pieces[1..]));
      assert IsPiece(pieces[0], packets[0]);
      PiecesParse(pieces[1..], packets[1..]);
      assert Flat(pieces)[|pieces[0]|..] == Flat(pieces[1..]);
      assert [packets[0]] + packets[1..] == packets;
    }
  }

  lemma {:induction false} ParsedHasPieces(b: seq<byte>)
    requires ParseAll(b).Success?
    ensures SplitsInto(b, ParseAll(b).value)
    decreases |b|
  {
    hide Parse, IsPiece;
    if b == [] {
      assert Flat<byte>([]) == [] && ArePieces([], []);
    } else {
      var (p, n) := Parse(b).value;
      var rest := ParseAll(b[n..]).value;
      ParseIsLocal(b);
      ParsedHasPieces(b[n..]);
      var pieces: seq<seq<byte>> :| Flat(pieces) == b[n..] && ArePieces(pieces, rest);
      var all := [b[..n]] + pieces;
      assert all[1..] == pieces && Flat(all) == b[..n] + b[n..] == b;
      assert ([p] + rest)[1..] == rest;
      assert ArePieces(all, [p] + rest);
    }
  }

  lemma PiecesAreWellFormed(pieces: seq<seq<byte>>, packets: seq<Packet>)
    requires ArePieces(pieces, packets)
    ensures AllWellFormed(packets)
  {
    hide Parse, WellFormed, MarshalSize;
    forall i | 0 <= i < |packets| ensures WellFormed(packets[i]) {
      assert IsPiece(pieces[i], packets[i]);
      ParsedIsWellFormed(pieces[i]);
    }
  }

  lemma {:induction false} PiecesFit(pieces: seq<seq<byte>>, packets: seq<Packet>)
    requires ArePieces(pieces, packets)
    ensures TotalSize(packets) <= |Flat(pieces)|
  {
    hide Parse, WellFormed, MarshalSize;
    if pieces != [] {
      assert IsPiece(pieces[0], packets[0]);
      ParsedIsWellFormed(pieces[0]);
      PiecesFit(pieces[1..], packets[1..]);
    }
  }

  /** For every byte string: it is accepted exactly when it splits completely, and what was parsed
      is well-formed and takes no more bytes when it is sent again. */
  lemma ParseAllSplits(b: seq<byte>, packets: seq<Packet>)
    ensures ParseAll(b) == Success(packets) <==> SplitsInto(b, packets)
    ensures SplitsInto(b, packets) ==> AllWellFormed(packets) && TotalSize(packets) <= |b|
  {
    hide Parse, WellFormed, MarshalSize, IsPiece, ParseAll;
    if ParseAll(b).Success? {
      ParsedHasPieces(b);
    }
    if SplitsInto(b, packets) {
      var pieces: seq<seq<byte>> :| Flat(pieces) == b && ArePieces(pieces, packets);
      PiecesParse(pieces, packets);
      PiecesAreWellFormed(pieces, packets);
      PiecesFit(pieces, packets);
    }
  }

  lemma CompoundReencodes(b: seq<byte>, packets: seq<Packet>)
    requires ParseCompoundSpec(b) == Success(packets)
    ensures SplitsInto(b, packets) && |EncodeAll(packets)| == TotalSize(packets) <= |b|
    ensures ParseCompoundSpec(EncodeAll(packets)) == Success(packets)
  {
    hide IsPiece, WellFormed, MarshalSize;
    ParseAllSplits(b, packets);
    ParseAllOfEncodeAll(packets);
  }

  predicate IsReport(p: Packet) {
    p.SenderReport? || p.ReceiverReport? || p.EmptyReceiverReport? || p.LinkQualityReport?
  }

  predicate IsNack(p: Packet) {
    p.RangeNack? || p.BitmaskNack?
  }

  predicate IsEcho(p: Packet) {
    p.EchoRequest? || p.EchoResponse?
  }

  predicate IsFeedback(p: Packet) {
    IsNack(p) || p.ExtSeq? || p.Raw?
  }

  /** Report, SDES, then feedback with every EXTSEQ right before its NACK, then echoes. */
  predicate Ordered(packets: seq<Packet>) {
    && |packets| >= 2 && IsReport(packets[0]) && packets[1].Sdes?
    && OrderedTo(packets, |packets|)
    && forall i, j :: 2 <= i < j < |packets| && IsEcho(packets[i]) ==> IsEcho(packets[j])
  }

  predicate OrderedTo(packets: seq<Packet>, n: nat)
    requires n <= |packets|
  {
    forall i :: 2 <= i < n ==> Placed(packets, i)
  }

  predicate Placed(packets: seq<Packet>, i: nat)
    requires i < |packets|
  {
    && (IsFeedback(packets[i]) || IsEcho(packets[i]))
    && (packets[i].ExtSeq? ==> i + 1 < |packets| && IsNack(packets[i + 1]))
  }

  /** What is wrong at one place behind the first two, in the order of the checks. */
  function FaultAt(packets: seq<Packet>, i: nat): Option<Violation>
    requires 2 <= i < |packets|
  {
    if packets[i].ExtSeq? && !(i + 1 < |packets| && IsNack(packets[i + 1])) then Some(LoneExtSeq)
    else if !IsFeedback(packets[i]) && !IsEcho(packets[i]) then Some(Misplaced)
    else if i > 2 && IsEcho(packets[i - 1]) && !IsEcho(packets[i]) then Some(EchoFirst)
    else None
  }

  predicate SoundTo(packets: seq<Packet>, n: nat)
    requires n <= |packets|
  {
    forall i :: 2 <= i < n ==> FaultAt(packets, i) == None
  }

  /** The first fault of a list, if it has one. */
  predicate IsFault(packets: seq<Packet>, v: Violation) {
    if |packets| < 2 then v == NoPrefix
    else if !IsReport(packets[0]) then v == BadFirst
    else if !packets[1].Sdes? then v == BadSecond
    else exists i :: 2 <= i < |packets| && SoundTo(packets, i) && FaultAt(packets, i) == Some(v)
  }

  lemma {:induction false} EchoesStayLast(packets: seq<Packet>, i: nat, j: nat)
    requires 2 <= i < j < |packets| && SoundTo(packets, |packets|) && IsEcho(packets[i])
    ensures IsEcho(packets[j])
  {
    assert FaultAt(packets, j) == None;
    if i < j - 1 {
      EchoesStayLast(packets, i, j - 1);
    }
  }

  /** A list is in order exactly when it has no fault. */
  lemma OrderedIsFaultless(packets: seq<Packet>)
    ensures Ordered(packets)
       <==> |packets| >= 2 && IsReport(packets[0]) && packets[1].Sdes? && SoundTo(packets, |packets|)
  {
    if |packets| >= 2 && IsReport(packets[0]) && packets[1].Sdes? {
      if SoundTo(packets, |packets|) {
        forall i | 2 <= i < |packets| ensures Placed(packets, i) {
          assert FaultAt(packets, i) == None;
        }
        forall i, j | 2 <= i < j < |packets| && IsEcho(packets[i]) ensures IsEcho(packets[j]) {
          EchoesStayLast(packets, i, j);
        }
      }
      if Ordered(packets) {
        forall i | 2 <= i < |packets| ensures FaultAt(packets, i) == None {
          assert Placed(packets, i);
        }
      }
    }
  }

  /** In order, or the first fault there is. */
  method CheckCompoundOrder(packets: seq<Packet>) returns (r: Option<Violation>)
    ensures r.None? <==> Ordered(packets)
    ensures r.Some? ==> IsFault(packets, r.value)
  {
    OrderedIsFaultless(packets);
    if |packets| < 2 {
      return Some(NoPrefix);
    }
    if !IsReport(packets[0]) {
      return Some(BadFirst);
    }
    if !packets[1].Sdes? {
      return Some(BadSecond);
    }
    var stage := 0;
    for i := 2 to |packets|
      invariant stage == if i > 2 && IsEcho(packets[i - 1]) then 1 else 0
      invariant SoundTo(packets, i)
    {
      var c;
      match packets[i] {
        case ExtSeq(_, _) =>
          if !(i + 1 < |packets| && IsNack(packets[i + 1])) {
            assert FaultAt(packets, i) == Some(LoneExtSeq);
            return Some(LoneExtSeq);
          }
          c := 0;
        case RangeNack(_, _) => c := 0;
        case BitmaskNack(_, _, _) => c := 0;
        case Raw(_) => c := 0;
        case EchoRequest(_, _, _) => c := 1;
        case EchoResponse(_, _, _, _) => c := 1;
        case _ =>
          assert FaultAt(packets, i) == Some(Misplaced);
          return Some(Misplaced);
      }
      if c < stage {
        assert FaultAt(packets, i) == Some(EchoFirst);
        return Some(EchoFirst);
      }
      stage := c;
    }
    return None;
  }

  lemma {:induction false} EncodeAllOfSum(a: seq<Packet>, b: seq<Packet>)
    ensures EncodeAll(a + b) == EncodeAll(a) + EncodeAll(b)
  {
    hide Encode;
    if a == [] {
      assert a + b == b;
    } else {
      EncodeAllOfSum(a[1..], b);
      assert (a + b)[1..] == a[1..] + b;
      Associate(Encode(a[0]), EncodeAll(a[1..]), EncodeAll(b));
    }
  }

  /** Appends the compound, or leaves `dst` alone. */
  method BuildCompound(dst0: seq<byte>, packets: seq<Packet>) returns (dst: seq<byte>, r: Option<RtcpError>)
    ensures r.None? <==> Ordered(packets)
    ensures r.Some? ==> r.value.CompoundOrder? && IsFault(packets, r.value.violation)
    ensures dst == if r.None? then dst0 + EncodeAll(packets) else dst0
    ensures r.None? && AllWellFormed(packets) ==> ParseCompoundSpec(EncodeAll(packets)) == Success(packets)
  {
    hide Encode, Parse, IsFault;
    dst, r := dst0, None;
    var violation := CheckCompoundOrder(packets);
    if violation.Some? {
      return dst0, Some(CompoundOrder(violation.value));
    }
    for i := 0 to |packets|
      invariant dst == dst0 + EncodeAll(packets[..i])
    {
      EncodeAllOfSum(packets[..i], [packets[i]]);
      assert packets[..i + 1] == packets[..i] + [packets[i]];
      assert EncodeAll([packets[i]]) == Encode(packets[i]);
      dst := dst + Encode(packets[i]);
    }
    assert packets[..|packets|] == packets;
    if AllWellFormed(packets) {
      CompoundRoundTrip(packets);
    }
  }

  /** For every well-formed list in the right order, parsing the compound gives back the list. */
  lemma CompoundRoundTrip(packets: seq<Packet>)
    requires Ordered(packets) && AllWellFormed(packets)
    ensures ParseCompoundSpec(EncodeAll(packets)) == Success(packets)
  {
    hide Encode, Parse, WellFormed;
    ParseAllOfEncodeAll(packets);
    assert MarshalSize(packets[0]) > 0;
  }
}
