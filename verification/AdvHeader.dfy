/** The Advanced-profile header of adv.rs: a fixed part, then optional fields announced by flags and
    mode numbers. */
module AdvHeader {
  import opened Bytes
  import Modular
  import opened Division

  const PAYLOAD_TYPE: byte := 127
  const DYNAMIC_PT_MIN: byte := 96
  const HEADER_MIN := 16
  const LPC_FIELD_PRESENT: nat := 3

  type Word4 = s: seq<byte> | |s| == 4 witness [0, 0, 0, 0]
  type Hash16 = s: seq<byte> | |s| == 16 witness Modular.Zeros(16)

  datatype AdvError =
    | ShortBuffer(got: nat, need: nat)
    | InvalidVersion(flags: byte)
    | InvalidPayloadType(pt: byte)
    | FieldRange

  datatype FlowId = FlowId(outer: u16, inner: u16, sub: byte)

  datatype Pfd = Pfd(idType: byte, idValue: u32)

  datatype Params = Params(
    seqNum: u32, timestamp: u32, ssrc: u32, encType: byte, pskMode: byte, lpcMode: byte,
    firstFrag: bool, lastFrag: bool, expedite: bool, retransmit: bool,
    flowId: Option<FlowId>, pskHash: Option<Hash16>, pskNonce: Option<Word4>, pskIv: Option<Word4>,
    compression: Option<Word4>, pfd: Option<Pfd>, hdrExt: seq<byte>)

  datatype Parsed = Parsed(
    seqNum: u32, timestamp: u32, ssrc: u32, rtpExtPresent: bool, rtpPadding: bool,
    firstFrag: bool, lastFrag: bool, expedite: bool, retransmit: bool,
    pskMode: byte, lpcMode: byte, encType: byte, flowId: Option<FlowId>,
    pskHash: Option<seq<byte>>, pskNonce: Option<seq<byte>>, pskIv: Option<seq<byte>>,
    compression: Option<seq<byte>>, pfd: Option<Pfd>, hdrExt: Option<seq<byte>>, payload: seq<byte>)

  // ---- Modes ----

  predicate HasHash(psk: nat) {
    2 <= psk <= 5 || psk == 7
  }

  predicate HasNonce(psk: nat) {
    psk >= 1
  }

  predicate HasIv(psk: nat) {
    psk == 1 || psk >= 3
  }

  function PskHdrSize(psk: nat): nat {
    (if HasHash(psk) then 16 else 0) + (if HasNonce(psk) then 4 else 0) + if HasIv(psk) then 4 else 0
  }

  function HeaderSize(p: Params): nat {
    HEADER_MIN + (if p.flowId.Some? then 4 else 0) + PskHdrSize(p.pskMode)
    + (if p.lpcMode == LPC_FIELD_PRESENT then 4 else 0) + (if p.pfd.Some? then 4 else 0) + |p.hdrExt|
  }

  // ---- Building ----

  function EncodeFlowId(f: FlowId): (r: seq<byte>)
    ensures |r| == 4
  {
    Be16(f.outer) + [f.inner / 0x10 % 0x100, f.inner % 0x10 * 0x10 + f.sub % 0x10]
  }

  function ParseFlowId(b: seq<byte>): FlowId
    requires |b| == 4
  {
    FlowId(Get16(b, 0), JoinNibble(b[2], b[3] / 0x10), b[3] % 0x10)
  }

  function JoinNibble(high: int, low: int): int {
    high * 0x10 + low
  }

  function EncodePfd(p: Pfd): (r: seq<byte>)
    ensures |r| == 4
  {
    Be32(PackPfd(p))
  }

  function PackPfd(p: Pfd): u32 {
    Join16(p.idType % 0x10 * 0x10_0000, p.idValue % 0x1000_0000)
  }

  function UnpackPfd(v: u32): Pfd {
    Pfd(v / 0x1000_0000, v % 0x1000_0000)
  }

  function ParsePfd(b: seq<byte>): Pfd
    requires |b| == 4
  {
    UnpackPfd(Get32(b, 0))
  }

  function Flag(on: bool, bit: nat): nat {
    if on then bit else 0
  }

  function FlagsByte(p: Params): (r: byte)
    requires p.pskMode <= 7
  {
    Flag(p.firstFrag, 0x80) + Flag(p.lastFrag, 0x40) + Flag(p.expedite, 0x20) + Flag(p.retransmit, 0x10)
    + Flag(p.flowId.Some?, 8) + Flag(p.pfd.Some?, 4) + Flag(p.hdrExt != [], 2) + p.pskMode / 4
  }

  function ParamsByte(p: Params): (r: byte)
    requires p.encType <= 15 && p.lpcMode <= 3
  {
    p.pskMode % 4 * 0x40 + p.lpcMode * 0x10 + p.encType
  }

  /** A field the mode calls for, as zeros when it was not given. */
  function FieldBytes(present: bool, given: Option<seq<byte>>, size: nat): (r: seq<byte>)
    requires given.Some? ==> |given.value| == size
    ensures |r| == if present then size else 0
  {
    if !present then [] else if given.Some? then given.value else Modular.Zeros(size)
  }

  predicate InRange(p: Params) {
    p.encType <= 15 && p.pskMode <= 7 && p.lpcMode <= 3
  }

  function HashBytes(p: Params): seq<byte> {
    FieldBytes(HasHash(p.pskMode), p.pskHash, 16)
  }

  function NonceBytes(p: Params): seq<byte> {
    FieldBytes(HasNonce(p.pskMode), p.pskNonce, 4)
  }

  function IvBytes(p: Params): seq<byte> {
    FieldBytes(HasIv(p.pskMode), p.pskIv, 4)
  }

  function CompressionBytes(p: Params): seq<byte> {
    FieldBytes(p.lpcMode == LPC_FIELD_PRESENT, p.compression, 4)
  }

  function FlowIdBytes(p: Params): seq<byte> {
    if p.flowId.Some? then EncodeFlowId(p.flowId.value) else []
  }

  function PfdBytes(p: Params): seq<byte> {
    if p.pfd.Some? then EncodePfd(p.pfd.value) else []
  }

  function Optional(p: Params, payload: seq<byte>): seq<byte> {
    FlowIdBytes(p) + (HashBytes(p) + (NonceBytes(p) + (IvBytes(p) + (CompressionBytes(p) + (PfdBytes(p) + (p.hdrExt + payload))))))
  }

  /** RTP header and profile extension: the sequence's low half in the one, its high half in the other. */
  function FixedFields(low: u16, timestamp: u32, ssrc: u32, high: u16, flags: byte, params: byte): (r: seq<byte>)
    ensures |r| == HEADER_MIN
  {
    [0x80, PAYLOAD_TYPE] + (Be16(low) + (Be32(timestamp) + (Be32(ssrc) + (Be16(high) + [flags, params]))))
  }

  function Fixed(p: Params): (r: seq<byte>)
    requires InRange(p)
    ensures |r| == HEADER_MIN
  {
    FixedFields(p.seqNum % 0x1_0000, p.timestamp, p.ssrc, p.seqNum / 0x1_0000, FlagsByte(p), ParamsByte(p))
  }

  function Build(p: Params, payload: seq<byte>): (r: Result<seq<byte>, AdvError>)
    ensures r.Success? <==> InRange(p)
  {
    if !InRange(p) then Failure(FieldRange) else Success(Fixed(p) + Optional(p, payload))
  }

  // ---- Parsing ----

  function TakeField(b: seq<byte>, o: nat, present: bool, size: nat): (r: Result<(Option<seq<byte>>, nat), AdvError>)
    requires o <= |b|
    ensures r.Success? ==> o <= r.value.1 <= |b| && (r.value.0.Some? <==> present)
    ensures r.Success? && present ==> r.value.1 == o + size && r.value.0.value == b[o..o + size]
    ensures r.Success? && !present ==> r.value.1 == o
    ensures r.Failure? ==> r.error.ShortBuffer? && r.error.got == |b| < r.error.need
  {
    if !present then Success((None, o))
    else if o + size > |b| then Failure(ShortBuffer(|b|, o + size))
    else Success((Some(b[o..o + size]), o + size))
  }

  /** The extension's own length field says how long it is. */
  function TakeExtension(b: seq<byte>, o: nat, present: bool): (r: Result<(Option<seq<byte>>, nat), AdvError>)
    requires o <= |b|
    ensures r.Success? ==> o <= r.value.1 <= |b| && (r.value.0.Some? <==> present)
    ensures r.Success? && present ==> r.value.0.value == b[o..r.value.1] && Consistent(r.value.0.value)
    ensures r.Success? && !present ==> r.value.1 == o
    ensures r.Failure? ==> r.error.ShortBuffer? && r.error.got == |b| < r.error.need
  {
    if !present then Success((None, o))
    else if o + 4 > |b| then Failure(ShortBuffer(|b|, o + 4))
    else
      var total := 4 + Get16(b, o + 2) * 4;
      if o + total > |b| then Failure(ShortBuffer(|b|, o + total)) else Success((Some(b[o..o + total]), o + total))
  }

  predicate Consistent(ext: seq<byte>) {
    |ext| >= 4 && |ext| == 4 + Get16(ext, 2) * 4
  }

  datatype Announced = Announced(flowId: bool, pfd: bool, hdrExt: bool, psk: byte, lpc: byte)

  datatype Taken = Taken(flowId: Option<seq<byte>>, hash: Option<seq<byte>>, nonce: Option<seq<byte>>, iv: Option<seq<byte>>,
                         compression: Option<seq<byte>>, pfd: Option<seq<byte>>, hdrExt: Option<seq<byte>>, rest: seq<byte>)

  /** Hash, nonce and IV, as the mode calls for them, and where they end. */
  datatype Psk = Psk(hash: Option<seq<byte>>, nonce: Option<seq<byte>>, iv: Option<seq<byte>>, end: nat)

  function TakePsk(b: seq<byte>, o: nat, psk: nat): (r: Result<Psk, AdvError>)
    requires o <= |b|
    ensures r.Success? ==> o <= r.value.end <= |b|
    ensures r.Failure? ==> r.error.ShortBuffer? && r.error.got == |b| < r.error.need
  {
    var hash := TakeField(b, o, HasHash(psk), 16);
    if hash.Failure? then Failure(hash.error) else
    var nonce := TakeField(b, hash.value.1, HasNonce(psk), 4);
    if nonce.Failure? then Failure(nonce.error) else
    var iv := TakeField(b, nonce.value.1, HasIv(psk), 4);
    if iv.Failure? then Failure(iv.error) else
    Success(Psk(hash.value.0, nonce.value.0, iv.value.0, iv.value.1))
  }

  /** Compression field, payload format and header extension, as announced, and the payload. */
  datatype Rest = Rest(compression: Option<seq<byte>>, pfd: Option<seq<byte>>, hdrExt: Option<seq<byte>>,
                       payload: seq<byte>)

  function TakeRest(b: seq<byte>, o: nat, a: Announced): (r: Result<Rest, AdvError>)
    requires o <= |b|
    ensures r.Failure? ==> r.error.ShortBuffer? && r.error.got == |b| < r.error.need
  {
    var comp := TakeField(b, o, a.lpc == LPC_FIELD_PRESENT, 4);
    if comp.Failure? then Failure(comp.error) else
    var pfd := TakeField(b, comp.value.1, a.pfd, 4);
    if pfd.Failure? then Failure(pfd.error) else
    var ext := TakeExtension(b, pfd.value.1, a.hdrExt);
    if ext.Failure? then Failure(ext.error) else
    Success(Rest(comp.value.0, pfd.value.0, ext.value.0, b[ext.value.1..]))
  }

  /** Everything behind the fixed part, in order. */
  function TakeAll(b: seq<byte>, o: nat, a: Announced): (r: Result<Taken, AdvError>)
    requires o <= |b|
    ensures r.Failure? ==> r.error.ShortBuffer? && r.error.got == |b| < r.error.need
  {
    var flow := TakeField(b, o, a.flowId, 4);
    if flow.Failure? then Failure(flow.error) else
    var psk := TakePsk(b, flow.value.1, a.psk);
    if psk.Failure? then Failure(psk.error) else
    var rest := TakeRest(b, psk.value.end, a);
    if rest.Failure? then Failure(rest.error) else
    Success(Taken(flow.value.0, psk.value.hash, psk.value.nonce, psk.value.iv, rest.value.compression, rest.value.pfd,
                  rest.value.hdrExt, rest.value.payload))
  }

  /** Where the profile extension starts: behind the sources and any RFC 3550 extension. */
  function ExtensionAt(b: seq<byte>): (r: Result<nat, AdvError>)
    requires |b| >= HEADER_MIN
    ensures r.Success? ==> 12 <= r.value && r.value + 4 <= |b|
    ensures r.Failure? ==> r.error.ShortBuffer? && r.error.got == |b| < r.error.need
  {
    var o := 12 + b[0] % 0x10 * 4;
    if o > |b| then Failure(ShortBuffer(|b|, o))
    else if b[0] / 0x10 % 2 == 1 then
      if o + 4 > |b| then Failure(ShortBuffer(|b|, o + 4))
      else
        var next := o + 4 + Get16(b, o + 2) * 4;
        if next > |b| then Failure(ShortBuffer(|b|, next))
        else if next + 4 > |b| then Failure(ShortBuffer(|b|, next + 4))
        else Success(next)
    else if o + 4 > |b| then Failure(ShortBuffer(|b|, o + 4))
    else Success(o)
  }

  function AnnouncedBy(flags: byte, params: byte): Announced {
    Announced(flags / 8 % 2 == 1, flags / 4 % 2 == 1, flags / 2 % 2 == 1, flags % 2 * 4 + params / 0x40, params / 0x10 % 4)
  }

  function Assembled(b: seq<byte>, at: nat, t: Taken): Parsed
    requires 12 <= at && at + 4 <= |b|
    requires t.flowId.Some? ==> |t.flowId.value| == 4
    requires t.pfd.Some? ==> |t.pfd.value| == 4
  {
    var flags, params := b[at + 2], b[at + 3];
    var a := AnnouncedBy(flags, params);
    Parsed(JoinSeq(Get16(b, at), Get16(b, 2)), Get32(b, 4), Get32(b, 8), b[0] / 0x10 % 2 == 1, b[0] / 0x20 % 2 == 1,
           flags / 0x80 == 1, flags / 0x40 % 2 == 1, flags / 0x20 % 2 == 1, flags / 0x10 % 2 == 1,
           a.psk, a.lpc, params % 0x10,
           if t.flowId.Some? then Some(ParseFlowId(t.flowId.value)) else None,
           t.hash, t.nonce, t.iv, t.compression,
           if t.pfd.Some? then Some(ParsePfd(t.pfd.value)) else None, t.hdrExt, t.rest)
  }

  function JoinSeq(high: u16, low: u16): u32 {
    Join16(high * 0x100, low)
  }

  /** Refused for its version or payload type, or for being shorter than what it announces. */
  function Parse(b: seq<byte>): (r: Result<Parsed, AdvError>)
    ensures r.Failure? && r.error.ShortBuffer? ==> r.error.got == |b| < r.error.need
    ensures r.Success? ==> |b| >= 16 && 0x80 <= b[0] < 0xC0 && b[1] % 0x80 >= 96
    ensures r.Failure? && !r.error.ShortBuffer? ==>
              |b| >= 16 && r.error == if 0x80 <= b[0] < 0xC0 then InvalidPayloadType(b[1] % 0x80) else InvalidVersion(b[0])
    ensures r.Failure? && r.error.InvalidPayloadType? ==> b[1] % 0x80 < 96
  {
    if |b| < HEADER_MIN then Failure(ShortBuffer(|b|, HEADER_MIN))
    else if b[0] / 0x40 != 2 then Failure(InvalidVersion(b[0]))
    else if b[1] % 0x80 != PAYLOAD_TYPE && b[1] % 0x80 < DYNAMIC_PT_MIN then Failure(InvalidPayloadType(b[1] % 0x80))
    else
      match ExtensionAt(b)
      case Failure(e) => Failure(e)
      case Success(at) =>
        match TakeAll(b, at + 4, AnnouncedBy(b[at + 2], b[at + 3]))
        case Failure(e) => Failure(e)
        case Success(t) => Success(Assembled(b, at, t))
  }

  /** Sources and a foreign extension between the RTP header and the profile's are skipped, whatever
      their lengths. */
  lemma ForeignExtensionIsSkipped(fixed: seq<byte>, sources: seq<byte>, profile: u16, words: u16, body: seq<byte>, rest: seq<byte>)
    requires |fixed| == 12 && |sources| == fixed[0] % 0x10 * 4 && |body| == 4 * words && |rest| >= 4
    ensures fixed[0] / 0x10 % 2 == 1 ==>
              ExtensionAt(fixed + sources + Be16(profile) + Be16(words) + body + rest) == Success(16 + |sources| + |body|)
    ensures fixed[0] / 0x10 % 2 == 0 ==> ExtensionAt(fixed + sources + rest) == Success(12 + |sources|)
  {
    hide Be16, Get16;
    var b := fixed + sources + Be16(profile) + Be16(words) + body + rest;
    assert b[0] == fixed[0] && (fixed + sources + rest)[0] == fixed[0];
    var o := 12 + |sources|;
    assert b[o + 2..o + 4] == Be16(words);
    Get16OfBe16(b, o + 2, words);
  }

  /** Which fields each mode calls for. */
  lemma ModeTable(psk: nat)
    requires psk <= 7
    ensures HasHash(psk) <==> psk in {2, 3, 4, 5, 7}
    ensures HasNonce(psk) <==> psk in {1, 2, 3, 4, 5, 6, 7}
    ensures HasIv(psk) <==> psk in {1, 3, 4, 5, 6, 7}
  {}

  /** The compression field is there in mode 3 only. */
  lemma CompressionField(p: Params)
    ensures |CompressionBytes(p)| == if p.lpcMode == 3 then 4 else 0
  {}

  // ---- Round trip ----

  /** What can be read back: fields in range, and a header extension whose length field is right. */
  predicate WellFormed(p: Params) {
    && InRange(p)
    && (p.flowId.Some? ==> p.flowId.value.inner < 0x1000 && p.flowId.value.sub < 0x10)
    && (p.pfd.Some? ==> p.pfd.value.idType < 0x10 && p.pfd.value.idValue < 0x1000_0000)
    && (p.hdrExt == [] || Consistent(p.hdrExt))
  }

  function FieldRead(present: bool, given: Option<seq<byte>>, size: nat): Option<seq<byte>>
    requires given.Some? ==> |given.value| == size
  {
    if present then Some(FieldBytes(present, given, size)) else None
  }

  /** What a parser makes of the packet. */
  function Received(p: Params, payload: seq<byte>): Parsed {
    Parsed(p.seqNum, p.timestamp, p.ssrc, false, false, p.firstFrag, p.lastFrag, p.expedite, p.retransmit,
           p.pskMode, p.lpcMode, p.encType, p.flowId,
           FieldRead(HasHash(p.pskMode), p.pskHash, 16), FieldRead(HasNonce(p.pskMode), p.pskNonce, 4),
           FieldRead(HasIv(p.pskMode), p.pskIv, 4), FieldRead(p.lpcMode == LPC_FIELD_PRESENT, p.compression, 4),
           p.pfd, if p.hdrExt == [] then None else Some(p.hdrExt), payload)
  }

  lemma FlowIdReadsBack(f: FlowId)
    requires f.inner < 0x1000 && f.sub < 0x10
    ensures ParseFlowId(EncodeFlowId(f)) == f
  {
    var b := EncodeFlowId(f);
    assert b[0..2] == Be16(f.outer);
    Get16OfBe16(b, 0, f.outer);
  }

  lemma PfdReadsBack(p: Pfd)
    requires p.idType < 0x10 && p.idValue < 0x1000_0000
    ensures ParsePfd(EncodePfd(p)) == p
  {
    hide Be32, Get32, PackPfd, UnpackPfd;
    var v := PackPfd(p);
    assert EncodePfd(p)[0..4] == Be32(v);
    Get32OfBe32(EncodePfd(p), 0, v);
    PfdUnpacks(p);
  }

  lemma PfdPacked(p: Pfd)
    requires p.idType < 0x10 && p.idValue < 0x1000_0000
    ensures PackPfd(p) == p.idType * 0x1000_0000 + p.idValue
  {}

  lemma PfdUnpacks(p: Pfd)
    requires p.idType < 0x10 && p.idValue < 0x1000_0000
    ensures UnpackPfd(PackPfd(p)) == p
  {
    hide PackPfd;
    PfdPacked(p);
    Quotient(PackPfd(p), p.idType, p.idValue, 0x1000_0000);
  }

  lemma Even(q: nat, bit: nat)
    requires bit < 2
    ensures (2 * q + bit) % 2 == bit
  {}

  lemma DigitAt(f: nat, q: nat, bit: nat, r: nat, unit: nat)
    requires bit < 2 && r < unit && f == (2 * q + bit) * unit + r
    ensures f / unit % 2 == bit
  {
    Quotient(f, 2 * q + bit, r, unit);
    Even(q, bit);
  }

  /** The eight digits of a byte, from the top. */
  lemma Digits8(f: nat, b7: nat, b6: nat, b5: nat, b4: nat, b3: nat, b2: nat, b1: nat, b0: nat)
    requires b7 < 2 && b6 < 2 && b5 < 2 && b4 < 2 && b3 < 2 && b2 < 2 && b1 < 2 && b0 < 2
    requires f == 0x80 * b7 + 0x40 * b6 + 0x20 * b5 + 0x10 * b4 + 8 * b3 + 4 * b2 + 2 * b1 + b0
    ensures f / 0x80 == b7 && f / 0x40 % 2 == b6 && f / 0x20 % 2 == b5 && f / 0x10 % 2 == b4
            && f / 8 % 2 == b3 && f / 4 % 2 == b2 && f / 2 % 2 == b1 && f % 2 == b0
  {
    var r1 := 2 * b1 + b0;
    var r2 := 4 * b2 + r1;
    var r3 := 8 * b3 + r2;
    var r4 := 0x10 * b4 + r3;
    var r5 := 0x20 * b5 + r4;
    var q6 := b7;
    var q5 := 2 * q6 + b6;
    var q4 := 2 * q5 + b5;
    var q3 := 2 * q4 + b4;
    var q2 := 2 * q3 + b3;
    var q1 := 2 * q2 + b2;
    Quotient(f, b7, 0x40 * b6 + r5, 0x80);
    DigitAt(f, q6, b6, r5, 0x40);
    DigitAt(f, q5, b5, r4, 0x20);
    DigitAt(f, q4, b4, r3, 0x10);
    DigitAt(f, q3, b3, r2, 8);
    DigitAt(f, q2, b2, r1, 4);
    DigitAt(f, q1, b1, b0, 2);
    Even(2 * q1 + b1, b0);
  }

  lemma FlagsReadBack(p: Params)
    requires InRange(p)
    ensures var f := FlagsByte(p);
            && (f / 0x80 == 1 <==> p.firstFrag) && (f / 0x40 % 2 == 1 <==> p.lastFrag)
            && (f / 0x20 % 2 == 1 <==> p.expedite) && (f / 0x10 % 2 == 1 <==> p.retransmit)
            && (f / 8 % 2 == 1 <==> p.flowId.Some?) && (f / 4 % 2 == 1 <==> p.pfd.Some?)
            && (f / 2 % 2 == 1 <==> p.hdrExt != []) && f % 2 == p.pskMode / 4
  {
    Digits8(FlagsByte(p), Flag(p.firstFrag, 1), Flag(p.lastFrag, 1), Flag(p.expedite, 1), Flag(p.retransmit, 1),
            Flag(p.flowId.Some?, 1), Flag(p.pfd.Some?, 1), Flag(p.hdrExt != [], 1), p.pskMode / 4);
  }

  lemma LowTwo(a: nat, b: nat)
    requires b < 4
    ensures (4 * a + b) % 4 == b
  {}

  lemma ParamsReadBack(p: Params)
    requires InRange(p)
    ensures var q := ParamsByte(p); q / 0x40 == p.pskMode % 4 && q / 0x10 % 4 == p.lpcMode && q % 0x10 == p.encType
  {
    var q: nat, m := ParamsByte(p), p.pskMode % 4;
    Quotient(q, m, 0x10 * p.lpcMode + p.encType, 0x40);
    Quotient(q, 4 * m + p.lpcMode, p.encType, 0x10);
    LowTwo(m, p.lpcMode);
  }

  lemma FieldReadsBack(b: seq<byte>, o: nat, present: bool, piece: seq<byte>, size: nat, tail: seq<byte>)
    requires o <= |b| && b[o..] == piece + tail && |piece| == if present then size else 0
    ensures TakeField(b, o, present, size) == Success((if present then Some(piece) else None, o + |piece|))
    ensures o + |piece| <= |b| && b[o + |piece|..] == tail
  {
    assert |b[o..]| == |piece| + |tail|;
    assert b[o + |piece|..] == b[o..][|piece|..] && b[o..o + |piece|] == b[o..][..|piece|];
  }

  lemma ExtensionReadsBack(b: seq<byte>, o: nat, ext: seq<byte>, tail: seq<byte>)
    requires o <= |b| && b[o..] == ext + tail && (ext == [] || Consistent(ext))
    ensures TakeExtension(b, o, ext != []) == Success((if ext != [] then Some(ext) else None, o + |ext|))
    ensures o + |ext| <= |b| && b[o + |ext|..] == tail
  {
    assert |b[o..]| == |ext| + |tail|;
    assert b[o + |ext|..] == b[o..][|ext|..] && b[o..o + |ext|] == b[o..][..|ext|];
    if ext != [] {
      assert b[o + 2] == b[o..][2] == ext[2] && b[o + 3] == b[o..][3] == ext[3];
    }
  }

  lemma PskReadsBack(b: seq<byte>, o: nat, p: Params, tail: seq<byte>)
    requires o <= |b| && b[o..] == HashBytes(p) + (NonceBytes(p) + (IvBytes(p) + tail))
    ensures var end := o + |HashBytes(p)| + |NonceBytes(p)| + |IvBytes(p)|;
            && TakePsk(b, o, p.pskMode)
               == Success(Psk(if HasHash(p.pskMode) then Some(HashBytes(p)) else None,
                              if HasNonce(p.pskMode) then Some(NonceBytes(p)) else None,
                              if HasIv(p.pskMode) then Some(IvBytes(p)) else None, end))
            && end <= |b| && b[end..] == tail
  {
    hide HasHash, HasNonce, HasIv, FieldBytes, TakeField;
    FieldReadsBack(b, o, HasHash(p.pskMode), HashBytes(p), 16, NonceBytes(p) + (IvBytes(p) + tail));
    var o2 := o + |HashBytes(p)|;
    FieldReadsBack(b, o2, HasNonce(p.pskMode), NonceBytes(p), 4, IvBytes(p) + tail);
    FieldReadsBack(b, o2 + |NonceBytes(p)|, HasIv(p.pskMode), IvBytes(p), 4, tail);
  }

  lemma RestReadsBack(b: seq<byte>, o: nat, p: Params, a: Announced, payload: seq<byte>)
    requires o <= |b| && b[o..] == CompressionBytes(p) + (PfdBytes(p) + (p.hdrExt + payload))
    requires p.hdrExt == [] || Consistent(p.hdrExt)
    requires a.lpc == p.lpcMode && a.pfd == p.pfd.Some? && a.hdrExt == (p.hdrExt != [])
    ensures TakeRest(b, o, a)
         == Success(Rest(if p.lpcMode == LPC_FIELD_PRESENT then Some(CompressionBytes(p)) else None,
                         if p.pfd.Some? then Some(PfdBytes(p)) else None,
                         if p.hdrExt != [] then Some(p.hdrExt) else None, payload))
  {
    hide EncodePfd, FieldBytes, TakeField, TakeExtension, Consistent;
    FieldReadsBack(b, o, p.lpcMode == LPC_FIELD_PRESENT, CompressionBytes(p), 4, PfdBytes(p) + (p.hdrExt + payload));
    var o2 := o + |CompressionBytes(p)|;
    FieldReadsBack(b, o2, p.pfd.Some?, PfdBytes(p), 4, p.hdrExt + payload);
    ExtensionReadsBack(b, o2 + |PfdBytes(p)|, p.hdrExt, payload);
  }

  lemma OptionalReadsBack(b: seq<byte>, p: Params, payload: seq<byte>)
    requires WellFormed(p) && |b| >= 16 && b[16..] == Optional(p, payload)
    ensures TakeAll(b, 16, Announced(p.flowId.Some?, p.pfd.Some?, p.hdrExt != [], p.pskMode, p.lpcMode))
         == Success(TakenFrom(p, payload))
  {
    hide HasHash, HasNonce, HasIv, EncodeFlowId, TakeField, Consistent, TakePsk, TakeRest;
    hide HashBytes, NonceBytes, IvBytes, CompressionBytes, PfdBytes;
    var a := Announced(p.flowId.Some?, p.pfd.Some?, p.hdrExt != [], p.pskMode, p.lpcMode);
    var t5 := CompressionBytes(p) + (PfdBytes(p) + (p.hdrExt + payload));
    FieldReadsBack(b, 16, p.flowId.Some?, FlowIdBytes(p), 4, HashBytes(p) + (NonceBytes(p) + (IvBytes(p) + t5)));
    var o := 16 + |FlowIdBytes(p)|;
    PskReadsBack(b, o, p, t5);
    RestReadsBack(b, o + |HashBytes(p)| + |NonceBytes(p)| + |IvBytes(p)|, p, a, payload);
  }

  lemma FixedReadsBack(b: seq<byte>, low: u16, timestamp: u32, ssrc: u32, high: u16, flags: byte, params: byte,
                       tail: seq<byte>)
    requires b == FixedFields(low, timestamp, ssrc, high, flags, params) + tail
    ensures |b| >= 16 && b[0] == 0x80 && b[1] == PAYLOAD_TYPE && b[14] == flags && b[15] == params
    ensures Get16(b, 2) == low && Get32(b, 4) == timestamp && Get32(b, 8) == ssrc && Get16(b, 12) == high
    ensures b[16..] == tail
  {
    hide Be16, Be32, Get16, Get32;
    var t5 := [flags, params] + tail;
    var t4 := Be16(high) + t5;
    var t3 := Be32(ssrc) + t4;
    var t2 := Be32(timestamp) + t3;
    assert b[2..] == Be16(low) + t2;
    Take16(b, 2, low, t2);
    Take32(b, 4, timestamp, t3);
    Take32(b, 8, ssrc, t4);
    Take16(b, 12, high, t5);
    assert b[14] == b[14..][0] && b[15] == b[14..][1] && b[16..] == b[14..][2..];
  }

  lemma SeqReadsBack(s: u32)
    ensures JoinSeq(s / 0x1_0000, s % 0x1_0000) == s
  {}

  /** Every well-formed packet is read back field by field, and its header takes exactly the size
      announced for it. */
  lemma ParseOfBuild(p: Params, payload: seq<byte>)
    requires WellFormed(p)
    ensures Parse(Build(p, payload).value) == Success(Received(p, payload))
    ensures |Build(p, payload).value| == HeaderSize(p) + |payload|
  {
    hide FixedFields, Fixed, Optional, Get16, Get32, FlagsByte, ParamsByte, TakeAll, Assembled, Received, TakenFrom;
    hide ExtensionAt, AnnouncedBy, HeaderSize, WellFormed;
    FitsIsInRange(p);
    var b := Build(p, payload).value;
    HeaderReadsBack(b, p, Optional(p, payload));
    PlainHeader(b);
    OptionalReadsBack(b, p, payload);
    OptionalSize(p, payload);
    AnnouncedReadsBack(p);
    AssembledIsReceived(b, p, payload);
  }

  lemma FitsIsInRange(p: Params)
    requires WellFormed(p)
    ensures InRange(p)
  {}

  lemma PlainHeader(b: seq<byte>)
    requires |b| >= HEADER_MIN && b[0] == 0x80
    ensures ExtensionAt(b) == Success(12)
  {}

  /** The parts of the fixed header that steer the parser. */
  lemma HeaderReadsBack(b: seq<byte>, p: Params, tail: seq<byte>)
    requires InRange(p) && b == Fixed(p) + tail
    ensures |b| >= 16 && b[0] == 0x80 && b[1] == PAYLOAD_TYPE && b[14] == FlagsByte(p) && b[15] == ParamsByte(p)
    ensures b[16..] == tail
  {
    hide FlagsByte, ParamsByte, FixedFields, Get16, Get32;
    FixedReadsBack(b, p.seqNum % 0x1_0000, p.timestamp, p.ssrc, p.seqNum / 0x1_0000, FlagsByte(p), ParamsByte(p), tail);
  }

  lemma AnnouncedReadsBack(p: Params)
    requires InRange(p)
    ensures AnnouncedBy(FlagsByte(p), ParamsByte(p))
         == Announced(p.flowId.Some?, p.pfd.Some?, p.hdrExt != [], p.pskMode, p.lpcMode)
  {
    hide FlagsByte, ParamsByte;
    FlagsReadBack(p);
    ParamsReadBack(p);
  }

  function TakenFrom(p: Params, payload: seq<byte>): Taken {
    Taken(if p.flowId.Some? then Some(FlowIdBytes(p)) else None,
          if HasHash(p.pskMode) then Some(HashBytes(p)) else None,
          if HasNonce(p.pskMode) then Some(NonceBytes(p)) else None,
          if HasIv(p.pskMode) then Some(IvBytes(p)) else None,
          if p.lpcMode == LPC_FIELD_PRESENT then Some(CompressionBytes(p)) else None,
          if p.pfd.Some? then Some(PfdBytes(p)) else None,
          if p.hdrExt != [] then Some(p.hdrExt) else None, payload)
  }

  lemma AssembledIsReceived(b: seq<byte>, p: Params, payload: seq<byte>)
    requires WellFormed(p) && b == Fixed(p) + Optional(p, payload)
    ensures Assembled(b, 12, TakenFrom(p, payload)) == Received(p, payload)
  {
    hide FixedFields, Optional, Get16, Get32, FlagsByte, ParamsByte, HasHash, HasNonce, HasIv, EncodeFlowId, EncodePfd;
    hide ParseFlowId, ParsePfd, Consistent, JoinSeq, FieldBytes, AnnouncedBy;
    FixedReadsBack(b, p.seqNum % 0x1_0000, p.timestamp, p.ssrc, p.seqNum / 0x1_0000, FlagsByte(p), ParamsByte(p),
                   Optional(p, payload));
    AnnouncedReadsBack(p);
    FlagsReadBack(p);
    ParamsReadBack(p);
    SeqReadsBack(p.seqNum);
    if p.flowId.Some? {
      FlowIdReadsBack(p.flowId.value);
    }
    if p.pfd.Some? {
      PfdReadsBack(p.pfd.value);
    }
  }

  lemma OptionalSize(p: Params, payload: seq<byte>)
    ensures HEADER_MIN + |Optional(p, payload)| == HeaderSize(p) + |payload|
  {
    hide HasHash, HasNonce, HasIv, EncodeFlowId, EncodePfd, FieldBytes;
  }

  // ---- What was parsed can be built again ----

  function Again(p: Parsed): Params
    requires p.pskHash.Some? ==> |p.pskHash.value| == 16
    requires p.pskNonce.Some? ==> |p.pskNonce.value| == 4
    requires p.pskIv.Some? ==> |p.pskIv.value| == 4
    requires p.compression.Some? ==> |p.compression.value| == 4
  {
    Params(p.seqNum, p.timestamp, p.ssrc, p.encType, p.pskMode, p.lpcMode, p.firstFrag, p.lastFrag, p.expedite, p.retransmit,
           p.flowId, if p.pskHash.Some? then Some(p.pskHash.value) else None,
           if p.pskNonce.Some? then Some(p.pskNonce.value) else None, if p.pskIv.Some? then Some(p.pskIv.value) else None,
           if p.compression.Some? then Some(p.compression.value) else None, p.pfd,
           if p.hdrExt.Some? then p.hdrExt.value else [])
  }

  predicate FieldsMatch(p: Parsed) {
    && (p.pskHash.Some? <==> HasHash(p.pskMode)) && (p.pskHash.Some? ==> |p.pskHash.value| == 16)
    && (p.pskNonce.Some? <==> HasNonce(p.pskMode)) && (p.pskNonce.Some? ==> |p.pskNonce.value| == 4)
    && (p.pskIv.Some? <==> HasIv(p.pskMode)) && (p.pskIv.Some? ==> |p.pskIv.value| == 4)
    && (p.compression.Some? <==> p.lpcMode == LPC_FIELD_PRESENT) && (p.compression.Some? ==> |p.compression.value| == 4)
    && (p.hdrExt.Some? ==> Consistent(p.hdrExt.value))
    && p.pskMode <= 7 && p.lpcMode <= 3 && p.encType <= 15
    && (p.flowId.Some? ==> p.flowId.value.inner < 0x1000 && p.flowId.value.sub < 0x10)
    && (p.pfd.Some? ==> p.pfd.value.idType < 0x10 && p.pfd.value.idValue < 0x1000_0000)
  }

  lemma TakenMatches(b: seq<byte>, o: nat, a: Announced)
    requires o <= |b| && TakeAll(b, o, a).Success?
    ensures var t := TakeAll(b, o, a).value;
            && (t.hash.Some? <==> HasHash(a.psk)) && (t.hash.Some? ==> |t.hash.value| == 16)
            && (t.nonce.Some? <==> HasNonce(a.psk)) && (t.nonce.Some? ==> |t.nonce.value| == 4)
            && (t.iv.Some? <==> HasIv(a.psk)) && (t.iv.Some? ==> |t.iv.value| == 4)
            && (t.compression.Some? <==> a.lpc == LPC_FIELD_PRESENT) && (t.compression.Some? ==> |t.compression.value| == 4)
            && (t.hdrExt.Some? ==> Consistent(t.hdrExt.value))
            && (t.flowId.Some? ==> |t.flowId.value| == 4) && (t.pfd.Some? ==> |t.pfd.value| == 4)
  {
    hide HasHash, HasNonce, HasIv, TakeField, TakeExtension, Consistent;
  }

  /** Every packet that is accepted can be built again from what was read, and is then read the same,
      with the plain RTP header this side always sends. */
  lemma ParsedBuildsAgain(b: seq<byte>)
    requires Parse(b).Success?
    ensures var p := Parse(b).value;
            && FieldsMatch(p) && WellFormed(Again(p))
            && Parse(Build(Again(p), p.payload).value) == Success(p.(rtpExtPresent := false, rtpPadding := false))
  {
    hide Get16, Get32, TakeAll, ExtensionAt, HasHash, HasNonce, HasIv, Consistent, FieldBytes, Build;
    var at := ExtensionAt(b).value;
    var a := AnnouncedBy(b[at + 2], b[at + 3]);
    TakenMatches(b, at + 4, a);
    var p := Parse(b).value;
    assert FieldsMatch(p);
    AgainIsReceived(p);
    ParseOfBuild(Again(p), p.payload);
  }

  lemma AgainIsReceived(p: Parsed)
    requires FieldsMatch(p)
    ensures WellFormed(Again(p)) && Received(Again(p), p.payload) == p.(rtpExtPresent := false, rtpPadding := false)
  {
    hide HasHash, HasNonce, HasIv;
    assert p.hdrExt.Some? ==> p.hdrExt.value != [];
  }
}
