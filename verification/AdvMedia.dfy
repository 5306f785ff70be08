/** The Advanced-profile data path of codec_adv.rs: payloads compressed when that helps, encrypted,
    and framed with their full sequence, fragment role and retransmission mark. */
module AdvMedia {
  import opened Bytes
  import opened Clock
  import opened Codec
  import opened Crypto
  import opened AdvHeader
  import AdvTime
  import Lpc
  import Modular
  import opened MainMedia

  const TYPE_CONTROL: byte := 4
  const TYPE_DIRECT: byte := 5
  const PSK_NONE: byte := 0
  const PSK_AES_CTR: byte := 1
  const LPC_NONE: byte := 0
  const LPC_LZ4: byte := 1
  const MAX_ADV_DECOMPRESSED: nat := 10_000

  /** The role of a packet in one application write. */
  datatype FragRole = Standalone | FirstPiece | MiddlePiece | LastPiece

  datatype AdvPacket = AdvPacket(seqNum: u32, sourceTime: u64, ssrc: u32, payload: seq<byte>, retransmit: bool, frag: FragRole)

  datatype AdvProfileError =
    | HeaderFailed(adv: AdvError)
    | KeyFailed(crypto: CryptoError)
    | LpcFailed(lpc: Lpc.LpcError)
    | Cleartext
    | NoKey
    | MissingNonceOrIv
    | UnsupportedPsk
    | UnsupportedLpc
    | NotDirect

  function FragToFlags(frag: FragRole): (bool, bool) {
    match frag
    case Standalone => (true, true)
    case FirstPiece => (true, false)
    case MiddlePiece => (false, false)
    case LastPiece => (false, true)
  }

  function FlagsToFrag(first: bool, last: bool): FragRole {
    if first then (if last then Standalone else FirstPiece) else if last then LastPiece else MiddlePiece
  }

  lemma FragReadsBack(frag: FragRole, first: bool, last: bool)
    ensures var (f, l) := FragToFlags(frag); FlagsToFrag(f, l) == frag
    ensures FragToFlags(FlagsToFrag(first, last)) == (first, last)
  {}

  function Protected(ssrc: u32): u32 {
    ssrc / 2 * 2
  }

  function Unprotected(ssrc: u32): u32 {
    ssrc / 2 * 2 + 1
  }

  /** The two flows of one stream: the even SSRC carries media, the odd one control. */
  lemma FlowsAreTold(ssrc: u32)
    ensures Protected(ssrc) % 2 == 0 && Unprotected(ssrc) % 2 == 1
    ensures Protected(ssrc) / 2 == Unprotected(ssrc) / 2 == ssrc / 2
  {}

  /** Microseconds at 2^16 ticks each, the low 32 bits. */
  function AdvTsFromSource(src: u64): u32 {
    ToTimestamp(src) * 0x1_0000 % 0x1_0000_0000
  }

  function FlowIdFromPorts(srcPort: u16, dstPort: u16): FlowId {
    FlowId(dstPort, srcPort % 0x1000, 0)
  }

  // ---- Encoding ----

  /** Compressed only when that is on and makes the payload shorter. */
  ghost predicate Shrinks(compression: bool, payload: seq<byte>) {
    compression && payload != [] && |Lpc.Block(payload)| < |payload|
  }

  ghost function Compressed(compression: bool, payload: seq<byte>): seq<byte> {
    if Shrinks(compression, payload) then Lpc.Block(payload) else payload
  }

  function MediaParams(pkt: AdvPacket, lpcMode: byte, own: u32, srcPort: u16, dstPort: u16, nonce: Option<Nonce>): Params {
    var (first, last) := FragToFlags(pkt.frag);
    Params(pkt.seqNum, AdvTsFromSource(pkt.sourceTime), Protected(own), TYPE_DIRECT,
           if nonce.Some? then PSK_AES_CTR else PSK_NONE, lpcMode, first, last, false, pkt.retransmit,
           if srcPort != 0 || dstPort != 0 then Some(FlowIdFromPorts(srcPort, dstPort)) else None,
           None, if nonce.Some? then Some(nonce.value) else None,
           if nonce.Some? then Some(Be32(pkt.seqNum)) else None, None, None, [])
  }

  function NonceOf(key: Option<KeyView>): Option<Nonce> {
    match key
    case None => None
    case Some(k) => Some(k.nonce)
  }

  ghost function MediaDatagram(pkt: AdvPacket, compression: bool, own: u32, srcPort: u16, dstPort: u16, key: Option<KeyView>)
    : Result<seq<byte>, AdvError>
  {
    var lpcMode := if Shrinks(compression, pkt.payload) then LPC_LZ4 else LPC_NONE;
    Build(MediaParams(pkt, lpcMode, own, srcPort, dstPort, NonceOf(key)),
          Sealed(pkt.seqNum, key, Compressed(compression, pkt.payload)))
  }

  // ---- Decoding ----

  function Unsealed(p: Parsed, recv: Option<Receiver>): (Option<Receiver>, Result<seq<byte>, AdvProfileError>) {
    if p.pskMode == PSK_NONE then
      if recv.Some? then (recv, Failure(Cleartext)) else (recv, Success(p.payload))
    else if p.pskMode == PSK_AES_CTR then
      if recv.None? then (recv, Failure(NoKey))
      else if p.pskNonce.None? || p.pskIv.None? || |p.pskNonce.value| != 4 || |p.pskIv.value| != 4
      then (recv, Failure(MissingNonceOrIv))
      else
        var (state, out) := Decrypted(recv.value.secret, recv.value.state, p.pskNonce.value, Get32(p.pskIv.value, 0), p.payload);
        (Some(recv.value.(state := state)), match out case Failure(e) => Failure(KeyFailed(e)) case Success(b) => Success(b))
    else (recv, Failure(UnsupportedPsk))
  }

  function Inflated(lpcMode: byte, data: seq<byte>): Result<seq<byte>, AdvProfileError> {
    if lpcMode == LPC_NONE then Success(data)
    else if lpcMode == LPC_LZ4 then
      if data == [] then Success(data)
      else
        match Lpc.Decode(data, [], MAX_ADV_DECOMPRESSED)
        case Failure(e) => Failure(LpcFailed(e))
        case Success(b) => Success(b)
    else Failure(UnsupportedLpc)
  }

  function SourceTimeOf(us: nat): u64 {
    FromTimestamp(us % 0x1_0000_0000_0000_0000)
  }

  /** The key and clock after a packet, and what it carries. */
  datatype Outcome = Outcome(recv: Option<Receiver>, clock: AdvTime.TsState, result: Result<AdvPacket, AdvProfileError>)

  function DecodeDirect(p: Parsed, recv: Option<Receiver>, clock: AdvTime.TsState): Outcome {
    var (after, data) := Unsealed(p, recv);
    if data.Failure? then Outcome(after, clock, Failure(data.error))
    else
      match Inflated(p.lpcMode, data.value)
      case Failure(e) => Outcome(after, clock, Failure(e))
      case Success(payload) =>
        Outcome(after, AdvTime.Advanced(clock, p.seqNum, p.timestamp),
                Success(AdvPacket(p.seqNum, SourceTimeOf(AdvTime.MicrosFor(clock, p.seqNum, p.timestamp)), Protected(p.ssrc),
                                  payload, p.retransmit, FlagsToFrag(p.firstFrag, p.lastFrag))))
  }

  function DecodeDatagram(b: seq<byte>, recv: Option<Receiver>, clock: AdvTime.TsState): Outcome {
    match Parse(b)
    case Failure(e) => Outcome(recv, clock, Failure(HeaderFailed(e)))
    case Success(p) => if p.encType == TYPE_DIRECT then DecodeDirect(p, recv, clock) else Outcome(recv, clock, Failure(NotDirect))
  }

  // ---- Layer by layer ----

  /** The Advanced header does not carry the key size: both sides are set to the same. */
  ghost predicate SameKeys(key: Option<KeyView>, recv: Option<Receiver>) {
    match key
    case None => recv.None?
    case Some(k) =>
      recv.Some? && recv.value.secret == k.secret && k.secret.password != [] && Sound(k.secret, recv.value.state)
      && k.bits == recv.value.state.bits && !IsZero(k.nonce)
  }

  predicate UsedUp(key: Option<KeyView>, recv: Option<Receiver>) {
    key.Some? && recv.Some? && recv.value.state.hasNonce && recv.value.state.nonce == key.value.nonce
    && recv.value.state.usedTimes > U32_MAX
  }

  lemma IvReadsBack(s: u32)
    ensures Get32(Be32(s), 0) == s
  {
    assert Be32(s)[0..4] == Be32(s);
    Get32OfBe32(Be32(s), 0, s);
  }

  lemma DatagramIsWellFormed(pkt: AdvPacket, lpcMode: byte, own: u32, srcPort: u16, dstPort: u16, nonce: Option<Nonce>)
    requires lpcMode <= 1
    ensures WellFormed(MediaParams(pkt, lpcMode, own, srcPort, dstPort, nonce))
  {
    hide AdvTsFromSource;
  }

  lemma SealedOpens(pkt: AdvPacket, lpcMode: byte, own: u32, srcPort: u16, dstPort: u16, key: Option<KeyView>,
                    recv: Option<Receiver>, data: seq<byte>)
    requires lpcMode <= 1 && SameKeys(key, recv)
    ensures var params := MediaParams(pkt, lpcMode, own, srcPort, dstPort, NonceOf(key));
            Unsealed(Received(params, Sealed(pkt.seqNum, key, data)), recv).1
            == if UsedUp(key, recv) then Failure(KeyFailed(KeyReuseExhausted)) else Success(data)
  {
    hide Derive, Apply, Decrypted, AdvTsFromSource, Be32, Get32;
    if key.Some? {
      var k, s := key.value, recv.value.state;
      IvReadsBack(pkt.seqNum);
      SentIsRead(k.secret, s, k.nonce, pkt.seqNum, data);
      DecryptAgrees(k.secret, s, k.nonce, pkt.seqNum, Sealed(pkt.seqNum, key, data));
    }
  }

  /** For an arbitrary header: a receiver with a key opens nothing but what its own key decrypts, and one
      without a key nothing that is encrypted. */
  lemma UnsealsOnlyUnderItsKey(p: Parsed, recv: Option<Receiver>)
    requires recv.Some? ==> recv.value.secret.password != [] && Sound(recv.value.secret, recv.value.state)
    ensures Unsealed(p, recv).1.Success? ==>
              if recv.None? then p.pskMode == PSK_NONE && Unsealed(p, recv).1.value == p.payload
              else
                && p.pskMode == PSK_AES_CTR && p.pskNonce.Some? && p.pskIv.Some?
                && |p.pskNonce.value| == |p.pskIv.value| == 4
                && var x := recv.value.secret;
                   OneShot(x.p, x.raw, x.password, recv.value.state.bits, p.pskNonce.value, Get32(p.pskIv.value, 0), p.payload)
                   == Success(Unsealed(p, recv).1.value)
    ensures p.pskMode == PSK_NONE && recv.Some? ==> Unsealed(p, recv) == (recv, Failure(Cleartext))
    ensures p.pskMode == PSK_AES_CTR && recv.None? ==> Unsealed(p, recv) == (recv, Failure(NoKey))
  {
    hide Decrypted, OneShot, Sound, Get32;
    if recv.Some? && p.pskNonce.Some? && p.pskIv.Some? && |p.pskNonce.value| == |p.pskIv.value| == 4 {
      AgreementOnSuccess(recv.value.secret, recv.value.state, p.pskNonce.value, Get32(p.pskIv.value, 0), p.payload);
    }
  }

  lemma CompressedInflates(compression: bool, payload: seq<byte>)
    ensures Inflated(if Shrinks(compression, payload) then LPC_LZ4 else LPC_NONE, Compressed(compression, payload))
         == if Shrinks(compression, payload) && |payload| > MAX_ADV_DECOMPRESSED then Failure(LpcFailed(Lpc.OutputTooLarge))
            else Success(payload)
  {
    hide Lpc.Decode, Lpc.Block;
    Lpc.RoundTrip(payload, MAX_ADV_DECOMPRESSED);
  }

  function Arrival(pkt: AdvPacket, own: u32, clock: AdvTime.TsState): AdvPacket {
    AdvPacket(pkt.seqNum, SourceTimeOf(AdvTime.MicrosFor(clock, pkt.seqNum, AdvTsFromSource(pkt.sourceTime))), Protected(own),
              pkt.payload, pkt.retransmit, pkt.frag)
  }

  /** What a media packet looks like from outside: type 5, its sequence and the low bits of its time, the
      even SSRC, the ports when there are any, and under a key its nonce and the sequence as vector. */
  lemma AdvMediaOnTheWire(pkt: AdvPacket, compression: bool, own: u32, srcPort: u16, dstPort: u16, key: Option<KeyView>)
    ensures var b := MediaDatagram(pkt, compression, own, srcPort, dstPort, key);
            && b.Success? && Parse(b.value).Success?
            && var p := Parse(b.value).value;
               && p.encType == 5 && p.seqNum == pkt.seqNum && p.timestamp == AdvTsFromSource(pkt.sourceTime)
               && p.ssrc / 2 == own / 2 && p.ssrc % 2 == 0 && p.retransmit == pkt.retransmit && !p.expedite
               && (p.firstFrag <==> pkt.frag.Standalone? || pkt.frag.FirstPiece?)
               && (p.lastFrag <==> pkt.frag.Standalone? || pkt.frag.LastPiece?)
               && p.flowId == (if srcPort == 0 && dstPort == 0 then None else Some(FlowId(dstPort, srcPort % 0x1000, 0)))
               && p.lpcMode == (if Shrinks(compression, pkt.payload) then 1 else 0)
               && (key.None? ==> p.pskMode == 0 && p.payload == Compressed(compression, pkt.payload))
               && (key.Some? ==> p.pskMode == 1 && p.pskNonce == Some(key.value.nonce) && p.pskIv == Some(Be32(pkt.seqNum)))
  {
    hide Build, Parse, Shrinks, Compressed, AdvTsFromSource, Be32, WellFormed, Apply;
    var mode := if Shrinks(compression, pkt.payload) then LPC_LZ4 else LPC_NONE;
    var params := MediaParams(pkt, mode, own, srcPort, dstPort, NonceOf(key));
    DatagramIsWellFormed(pkt, mode, own, srcPort, dstPort, NonceOf(key));
    BuildsWhenWellFormed(params, Sealed(pkt.seqNum, key, Compressed(compression, pkt.payload)));
    ParseOfBuild(params, Sealed(pkt.seqNum, key, Compressed(compression, pkt.payload)));
  }

  /** Media end to end, from any state of either side: sequence, payload, retransmission mark and
      fragment role arrive exactly, and the time as the source clock reads it; but a payload that was
      compressed from more than 10000 bytes is refused, and so is everything under a used-up key. */
  lemma AdvMediaArrives(pkt: AdvPacket, compression: bool, own: u32, srcPort: u16, dstPort: u16, key: Option<KeyView>,
                        recv: Option<Receiver>, clock: AdvTime.TsState)
    requires SameKeys(key, recv)
    ensures var b := MediaDatagram(pkt, compression, own, srcPort, dstPort, key);
            b.Success? && DecodeDatagram(b.value, recv, clock).result
            == if UsedUp(key, recv) then Failure(KeyFailed(KeyReuseExhausted))
               else if Shrinks(compression, pkt.payload) && |pkt.payload| > MAX_ADV_DECOMPRESSED
               then Failure(LpcFailed(Lpc.OutputTooLarge))
               else Success(Arrival(pkt, own, clock))
    ensures var b := MediaDatagram(pkt, compression, own, srcPort, dstPort, key);
            b.Success? && (DecodeDatagram(b.value, recv, clock).result.Success? ==>
                             DecodeDatagram(b.value, recv, clock).clock
                             == AdvTime.Advanced(clock, pkt.seqNum, AdvTsFromSource(pkt.sourceTime)))
  {
    hide Build, Parse, Unsealed, Sealed, Inflated, Compressed, Shrinks, UsedUp, AdvTsFromSource, Be32, WellFormed, SourceTimeOf;
    hide AdvTime.MicrosFor, AdvTime.Advanced, FieldRead;
    var mode := if Shrinks(compression, pkt.payload) then LPC_LZ4 else LPC_NONE;
    var params := MediaParams(pkt, mode, own, srcPort, dstPort, NonceOf(key));
    var data := Compressed(compression, pkt.payload);
    DatagramIsWellFormed(pkt, mode, own, srcPort, dstPort, NonceOf(key));
    BuildsWhenWellFormed(params, Sealed(pkt.seqNum, key, data));
    ParseOfBuild(params, Sealed(pkt.seqNum, key, data));
    SealedOpens(pkt, mode, own, srcPort, dstPort, key, recv, data);
    CompressedInflates(compression, pkt.payload);
    FragReadsBack(pkt.frag, true, true);
  }

  lemma BuildsWhenWellFormed(p: Params, payload: seq<byte>)
    requires WellFormed(p)
    ensures Build(p, payload).Success?
  {}

  /** The refusal does happen: any run of one byte longer than 10000 is compressed, and then refused. */
  lemma LongRunIsRefused(pkt: AdvPacket, own: u32, srcPort: u16, dstPort: u16, key: Option<KeyView>, recv: Option<Receiver>,
                         clock: AdvTime.TsState)
    requires SameKeys(key, recv) && !UsedUp(key, recv) && Lpc.IsRun(pkt.payload) && |pkt.payload| > MAX_ADV_DECOMPRESSED
    ensures var b := MediaDatagram(pkt, true, own, srcPort, dstPort, key);
            b.Success? && DecodeDatagram(b.value, recv, clock).result == Failure(LpcFailed(Lpc.OutputTooLarge))
  {
    hide MediaDatagram, DecodeDatagram, SameKeys, UsedUp;
    Lpc.RunShrinks(pkt.payload);
    AdvMediaArrives(pkt, true, own, srcPort, dstPort, key, recv, clock);
  }

  /** One such payload. */
  lemma SuchAPayload()
    ensures Lpc.IsRun(Modular.Zeros(10_001)) && |Modular.Zeros(10_001)| > MAX_ADV_DECOMPRESSED
  {}

  // ---- Whole runs ----

  /** A datagram on its way: the packet and the key it went out under. */
  datatype Parcel = Parcel(pkt: AdvPacket, key: Option<KeyView>)

  /** How the sender is set up. */
  datatype Sender = Sender(compression: bool, ssrc: u32, srcPort: u16, dstPort: u16)

  ghost function DatagramOf(s: Sender, d: Parcel): Result<seq<byte>, AdvError> {
    MediaDatagram(d.pkt, s.compression, s.ssrc, s.srcPort, s.dstPort, d.key)
  }

  ghost function Arrived(s: Sender, d: Parcel, recv: Option<Receiver>, clock: AdvTime.TsState): Outcome {
    match DatagramOf(s, d)
    case Failure(e) => Outcome(recv, clock, Failure(HeaderFailed(e)))
    case Success(b) => DecodeDatagram(b, recv, clock)
  }

  /** Key and clock after the first `n` arrivals of a run. */
  ghost function AfterParcels(s: Sender, run: seq<Parcel>, recv: Option<Receiver>, n: nat): (Option<Receiver>, AdvTime.TsState)
    requires n <= |run|
  {
    if n == 0 then (recv, AdvTime.FRESH)
    else
      var before := AfterParcels(s, run, recv, n - 1);
      var r := Arrived(s, run[n - 1], before.0, before.1);
      (r.recv, r.clock)
  }

  /** Every key fits the receiver, which has room for the whole run under one nonce; and no payload
      is compressed from more than the receiver inflates. */
  ghost predicate FitsAll(s: Sender, run: seq<Parcel>, recv: Option<Receiver>) {
    && (forall i :: 0 <= i < |run| ==>
          SameKeys(run[i].key, recv)
          && (Shrinks(s.compression, run[i].pkt.payload) ==> |run[i].pkt.payload| <= MAX_ADV_DECOMPRESSED))
    && (recv.Some? ==> Sound(recv.value.secret, recv.value.state) && recv.value.state.usedTimes + |run| <= U32_MAX + 1)
  }

  /** The receiver at its size, but for its key slots and at most `n` more packets counted. */
  ghost predicate Kept(recv: Option<Receiver>, now: Option<Receiver>, n: nat) {
    Aged(recv, now, n) && (recv.Some? ==> now.value.state.bits == recv.value.state.bits)
  }

  lemma KeysStaySame(key: Option<KeyView>, recv: Option<Receiver>, now: Option<Receiver>, n: nat)
    requires SameKeys(key, recv) && Kept(recv, now, n)
    ensures SameKeys(key, now)
  {}

  lemma UnsealKeeps(p: Parsed, recv: Option<Receiver>)
    requires recv.Some? ==> Sound(recv.value.secret, recv.value.state)
    ensures Kept(recv, Unsealed(p, recv).0, 1)
  {
    hide Decrypted, Sound, Get32;
    if recv.Some? && p.pskNonce.Some? && p.pskIv.Some? && |p.pskNonce.value| == 4 && |p.pskIv.value| == 4 {
      DecryptKeeps(recv.value.secret, recv.value.state, p.pskNonce.value, Get32(p.pskIv.value, 0), p.payload);
    }
  }

  lemma DatagramKeeps(b: seq<byte>, recv: Option<Receiver>, clock: AdvTime.TsState)
    requires recv.Some? ==> Sound(recv.value.secret, recv.value.state)
    ensures Kept(recv, DecodeDatagram(b, recv, clock).recv, 1)
  {
    hide Unsealed, Sound, Parse, Inflated, AdvTime.Advanced, AdvTime.MicrosFor, SourceTimeOf;
    if Parse(b).Success? {
      UnsealKeeps(Parse(b).value, recv);
    }
  }

  lemma KeptMore(recv: Option<Receiver>, mid: Option<Receiver>, now: Option<Receiver>, n: nat)
    requires Kept(recv, mid, n) && Kept(mid, now, 1)
    ensures Kept(recv, now, n + 1)
  {}

  lemma ParcelArrives(s: Sender, d: Parcel, recv: Option<Receiver>, clock: AdvTime.TsState)
    requires SameKeys(d.key, recv)
    requires recv.Some? ==> Sound(recv.value.secret, recv.value.state) && recv.value.state.usedTimes <= U32_MAX
    requires Shrinks(s.compression, d.pkt.payload) ==> |d.pkt.payload| <= MAX_ADV_DECOMPRESSED
    ensures var o := Arrived(s, d, recv, clock);
            && o.result == Success(Arrival(d.pkt, s.ssrc, clock)) && Kept(recv, o.recv, 1)
            && o.clock == AdvTime.Advanced(clock, d.pkt.seqNum, AdvTsFromSource(d.pkt.sourceTime))
  {
    hide MediaDatagram, DecodeDatagram, Arrival, AdvTime.Advanced, AdvTsFromSource, Sound, SameKeys, Shrinks;
    AdvMediaArrives(d.pkt, s.compression, s.ssrc, s.srcPort, s.dstPort, d.key, recv, clock);
    DatagramKeeps(DatagramOf(s, d).value, recv, clock);
  }

  /** The packets carry the low 32 bits of these sequences and ticks. */
  predicate Bears(run: seq<Parcel>, truth: seq<AdvTime.Sent>) {
    |run| == |truth| && forall i :: 0 <= i < |run| ==>
      run[i].pkt.seqNum == AdvTime.SeqOf(truth[i]) && AdvTsFromSource(run[i].pkt.sourceTime) == AdvTime.WireOf(truth[i])
  }

  lemma {:induction false} ParcelsTrack(s: Sender, run: seq<Parcel>, recv: Option<Receiver>, truth: seq<AdvTime.Sent>, n: nat)
    requires n <= |run| && FitsAll(s, run, recv) && Bears(run, truth)
    ensures var (now, clock) := AfterParcels(s, run, recv, n);
            Kept(recv, now, n) && clock == AdvTime.After(truth, n)
  {
    hide Arrived, SameKeys, Sound, AdvTsFromSource, AdvTime.Advanced, Shrinks;
    if n > 0 {
      ParcelsTrack(s, run, recv, truth, n - 1);
      var (mid, clock) := AfterParcels(s, run, recv, n - 1);
      KeysStaySame(run[n - 1].key, recv, mid, n - 1);
      ParcelArrives(s, run[n - 1], mid, clock);
      KeptMore(recv, mid, AfterParcels(s, run, recv, n).0, n - 1);
    }
  }

  /** Whole runs of Advanced media, in any arrival order: on ticks affine in the sequence, with
      sequences spanning less than 2^31 and a start within 2^31 ticks, every datagram is delivered
      whole, with its true time up to one constant for the run; so a retransmission is delivered with
      its original's time. */
  lemma AdvRunArrives(s: Sender, run: seq<Parcel>, recv: Option<Receiver>, truth: seq<AdvTime.Sent>, rate: int, i: nat)
    requires i < |run| && FitsAll(s, run, recv) && Bears(run, truth)
    requires AdvTime.Affine(truth, rate) && AdvTime.CloseStart(truth) && AdvTime.ShortSpan(truth)
    ensures var (now, clock) := AfterParcels(s, run, recv, i);
            var p := run[i].pkt;
            Arrived(s, run[i], now, clock).result
            == Success(AdvPacket(p.seqNum, SourceTimeOf(AdvTime.MicrosOfTicks(truth[i].ticks - AdvTime.Offset(truth))),
                                 Protected(s.ssrc), p.payload, p.retransmit, p.frag))
  {
    hide Arrived, SameKeys, Sound, AdvTsFromSource, Shrinks, AfterParcels, SourceTimeOf, AdvTime.MicrosFor,
      AdvTime.MicrosOfTicks, AdvTime.Affine, AdvTime.CloseStart, AdvTime.ShortSpan, AdvTime.After, AdvTime.Offset;
    ParcelsTrack(s, run, recv, truth, i);
    var (now, clock) := AfterParcels(s, run, recv, i);
    KeysStaySame(run[i].key, recv, now, i);
    ParcelArrives(s, run[i], now, clock);
    AdvTime.AffineRunIsReadTrue(truth, rate, i, i);
  }

  /** A packet as its sender sees it: its unwrapped sequence, and its time in microseconds. */
  datatype AdvMoment = AdvMoment(pos: int, us: u64)

  function SentAs(moments: seq<AdvMoment>): seq<AdvTime.Sent> {
    seq(|moments|, i requires 0 <= i < |moments| => AdvTime.Sent(moments[i].pos, moments[i].us * 0x1_0000))
  }

  predicate StampedAt(run: seq<Parcel>, moments: seq<AdvMoment>) {
    |run| == |moments| && forall i :: 0 <= i < |run| ==>
      && run[i].pkt.seqNum == moments[i].pos % 0x1_0000_0000
      && run[i].pkt.sourceTime == FromTimestamp(moments[i].us)
  }

  /** The wire timestamp of a time is that time in ticks of 2^-16 microseconds, modulo 2^32. */
  lemma AdvWireTimeIsTicks(us: u64)
    ensures AdvTsFromSource(FromTimestamp(us)) == us * 0x1_0000 % 0x1_0000_0000
  {
    hide FromTimestamp, ToTimestamp;
    NtpRoundTrip(us);
    var k := us / ERA * US_PER_SECOND * 0x1_0000;
    assert us == us % ERA + us / ERA * ERA;
    assert us * 0x1_0000 == us % ERA * 0x1_0000 + k * 0x1_0000_0000;
    LowShift32(us * 0x1_0000, k * 0x1_0000_0000);
  }

  lemma StampedBears(run: seq<Parcel>, moments: seq<AdvMoment>)
    requires StampedAt(run, moments)
    ensures Bears(run, SentAs(moments))
  {
    hide AdvTsFromSource, FromTimestamp;
    forall i | 0 <= i < |run|
      ensures AdvTsFromSource(run[i].pkt.sourceTime) == moments[i].us * 0x1_0000 % 0x1_0000_0000
    {
      AdvWireTimeIsTicks(moments[i].us);
    }
  }

  lemma AdvTimeReadsBack(us: u64, first: u64)
    requires us - first / 0x1_0000 * 0x1_0000 < ERA
    ensures var shift := first / 0x1_0000 * 0x1_0000;
            ToTimestamp(SourceTimeOf(AdvTime.MicrosOfTicks(us * 0x1_0000 - Floor32(first * 0x1_0000))))
            == if us < shift then 0 else us - shift
  {
    hide FromTimestamp, ToTimestamp;
    var shift := first / 0x1_0000 * 0x1_0000;
    assert Floor32(first * 0x1_0000) == shift * 0x1_0000;
    assert us * 0x1_0000 - shift * 0x1_0000 == (us - shift) * 0x1_0000;
    var back: nat := if us < shift then 0 else us - shift;
    NtpRoundTrip(back);
  }

  /** In source times, and for sequences and times no more regular than the source clock needs: in any
      arrival order the times read back by the receiver are exactly the sender's, up to one constant
      for the run, and never below zero. */
  lemma AdvRunKeepsTime(s: Sender, run: seq<Parcel>, recv: Option<Receiver>, moments: seq<AdvMoment>, i: nat)
    requires i < |run| && FitsAll(s, run, recv) && StampedAt(run, moments)
    requires AdvTime.OnLine(SentAs(moments)) && AdvTime.ShortSpan(SentAs(moments))
    ensures var (now, clock) := AfterParcels(s, run, recv, i);
            var r := Arrived(s, run[i], now, clock).result;
            var shift := moments[0].us / 0x1_0000 * 0x1_0000;
            && r.Success? && r.value.seqNum == moments[i].pos % 0x1_0000_0000 && r.value.payload == run[i].pkt.payload
            && (moments[i].us - shift < ERA ==>
                  ToTimestamp(r.value.sourceTime) == if moments[i].us < shift then 0 else moments[i].us - shift)
  {
    hide Arrived, SameKeys, Sound, AdvTsFromSource, Shrinks, AfterParcels, SourceTimeOf, AdvTime.MicrosFor, FromTimestamp,
      ToTimestamp, AdvTime.MicrosOfTicks, AdvTime.OnLine, AdvTime.ShortSpan, AdvTime.After, Floor32;
    var truth := SentAs(moments);
    StampedBears(run, moments);
    ParcelsTrack(s, run, recv, truth, i);
    var (now, clock) := AfterParcels(s, run, recv, i);
    KeysStaySame(run[i].key, recv, now, i);
    ParcelArrives(s, run[i], now, clock);
    AdvTime.ReadingIsTrue(truth, i);
    if moments[i].us - moments[0].us / 0x1_0000 * 0x1_0000 < ERA {
      AdvTimeReadsBack(moments[i].us, moments[0].us);
    }
  }

  // ---- The codec ----

  class AdvCodec {
    const sendKey: Option<Key>
    const recvKey: Option<Decryptor>
    const compression: bool
    const ssrc: u32
    const srcPort: u16
    const dstPort: u16
    const clock: AdvTime.SourceClock
    var ctrlSeq: u32

    ghost predicate Valid()
      reads this, if sendKey.Some? then {sendKey.value} else {}, if recvKey.Some? then {recvKey.value} else {}
    {
      && (sendKey.Some? ==> sendKey.value.Valid() && sendKey.value.secret.password != [])
      && (recvKey.Some? ==> recvKey.value.Valid())
    }

    ghost function View(): Option<KeyView>
      reads if sendKey.Some? then {sendKey.value} else {}
    {
      if sendKey.None? then None else Some(KeyView(sendKey.value.secret, sendKey.value.bits, sendKey.value.nonce))
    }

    ghost function Recv(): Option<Receiver>
      reads if recvKey.Some? then {recvKey.value} else {}
    {
      if recvKey.None? then None else Some(Receiver(recvKey.value.secret, recvKey.value.State()))
    }

    constructor (sendKey: Option<Key>, recvKey: Option<Decryptor>, compression: bool, ssrc: u32, srcPort: u16, dstPort: u16)
      requires sendKey.Some? ==> sendKey.value.Valid() && sendKey.value.secret.password != []
      requires recvKey.Some? ==> recvKey.value.Valid()
      ensures Valid() && ctrlSeq == 0 && clock.State() == AdvTime.FRESH
      ensures this.sendKey == sendKey && this.recvKey == recvKey && this.compression == compression
      ensures this.ssrc == ssrc && this.srcPort == srcPort && this.dstPort == dstPort
    {
      this.sendKey, this.recvKey, this.compression := sendKey, recvKey, compression;
      this.ssrc, this.srcPort, this.dstPort, ctrlSeq := ssrc, srcPort, dstPort, 0;
      clock := new AdvTime.SourceClock();
    }

    method EncodeMedia(pkt: AdvPacket, draws: seq<Option<Nonce>>) returns (r: Result<seq<byte>, AdvProfileError>)
      requires Valid() && |draws| == 8
      modifies if sendKey.Some? then {sendKey.value} else {}
      ensures Valid()
      ensures r.Success? ==> Success(r.value) == MediaDatagram(pkt, compression, ssrc, srcPort, dstPort, View())
      ensures sendKey.None? ==> r.Success?
      ensures sendKey.Some? ==>
                var (after, failed) := EncStep(sendKey.value.Fixed(), old(sendKey.value.State()), draws);
                && sendKey.value.State() == after
                && match r case Failure(e) => failed.Some? && e == KeyFailed(failed.value) case Success(_) => failed.None?
    {
      hide Build, Lpc.Block, Apply, Derive, AdvTsFromSource, MediaParams, EncStep;
      var payload := pkt.payload;
      var lpcMode := LPC_NONE;
      if compression && payload != [] {
        var comp := Lpc.Compress([], payload);
        assert [] + Lpc.Block(payload) == Lpc.Block(payload);
        if |comp| < |payload| {
          payload := comp;
          lpcMode := LPC_LZ4;
        }
      }
      assert payload == Compressed(compression, pkt.payload);
      var nonce := None;
      if sendKey.Some? {
        var ct := sendKey.value.Encrypt(draws, pkt.seqNum, payload);
        if ct.Failure? {
          return Failure(KeyFailed(ct.error));
        }
        payload := ct.value;
        nonce := Some(sendKey.value.nonce);
      }
      var params := MediaParams(pkt, lpcMode, ssrc, srcPort, dstPort, nonce);
      DatagramIsWellFormed(pkt, lpcMode, ssrc, srcPort, dstPort, nonce);
      BuildsWhenWellFormed(params, payload);
      return Success(Build(params, payload).value);
    }

    method DecodeMedia(p: Parsed) returns (r: Result<AdvPacket, AdvProfileError>)
      requires Valid()
      modifies clock, if recvKey.Some? then {recvKey.value} else {}
      ensures Valid() && Outcome(Recv(), clock.State(), r) == DecodeDirect(p, old(Recv()), old(clock.State()))
    {
      hide Apply, Derive, Decrypted, Lpc.Decode, AdvTime.Advanced, AdvTime.MicrosFor, SourceTimeOf;
      var data := Open(p);
      if data.Failure? {
        return Failure(data.error);
      }
      var payload := Inflate(p.lpcMode, data.value);
      if payload.Failure? {
        return Failure(payload.error);
      }
      var us := clock.SourceMicros(p.seqNum, p.timestamp);
      return Success(AdvPacket(p.seqNum, SourceTimeOf(us), Protected(p.ssrc), payload.value, p.retransmit,
                               FlagsToFrag(p.firstFrag, p.lastFrag)));
    }

    method Open(p: Parsed) returns (r: Result<seq<byte>, AdvProfileError>)
      requires Valid()
      modifies if recvKey.Some? then {recvKey.value} else {}
      ensures Valid() && (Recv(), r) == Unsealed(p, old(Recv()))
    {
      hide Apply, Derive, Decrypted, Get32;
      if p.pskMode == PSK_NONE {
        if recvKey.Some? {
          return Failure(Cleartext);
        }
        return Success(p.payload);
      }
      if p.pskMode != PSK_AES_CTR {
        return Failure(UnsupportedPsk);
      }
      if recvKey.None? {
        return Failure(NoKey);
      }
      if p.pskNonce.None? || p.pskIv.None? || |p.pskNonce.value| != 4 || |p.pskIv.value| != 4 {
        return Failure(MissingNonceOrIv);
      }
      var out := recvKey.value.Decrypt(p.pskNonce.value, Get32(p.pskIv.value, 0), p.payload);
      return match out case Failure(e) => Failure(KeyFailed(e)) case Success(b) => Success(b);
    }

    method Inflate(lpcMode: byte, data: seq<byte>) returns (r: Result<seq<byte>, AdvProfileError>)
      ensures r == Inflated(lpcMode, data)
    {
      hide Lpc.Decode;
      if lpcMode == LPC_NONE {
        return Success(data);
      }
      if lpcMode != LPC_LZ4 {
        return Failure(UnsupportedLpc);
      }
      if data == [] {
        return Success(data);
      }
      ghost var decoded := Lpc.Decode(data, [], MAX_ADV_DECOMPRESSED);
      assert decoded.Success? ==> [] + decoded.value == decoded.value;
      var out, error := Lpc.Decompress([], data, MAX_ADV_DECOMPRESSED);
      if error.Some? {
        return Failure(LpcFailed(error.value));
      }
      return Success(out);
    }

    /** One fragment of a control message; each takes the next sequence of the control flow, which is
        the odd SSRC. */
    method FrameControlFrag(payload: seq<byte>, first: bool, last: bool, ts: u32) returns (r: seq<byte>)
      modifies this
      ensures ctrlSeq == WrapAdd32(old(ctrlSeq), 1)
      ensures Parse(r) == Success(Received(ControlParams(old(ctrlSeq), Unprotected(ssrc), first, last, ts), payload))
    {
      hide Parse, Build, Received;
      var params := ControlParams(ctrlSeq, Unprotected(ssrc), first, last, ts);
      ctrlSeq := WrapAdd32(ctrlSeq, 1);
      ParseOfBuild(params, payload);
      BuildsWhenWellFormed(params, payload);
      return Build(params, payload).value;
    }
  }

  /** Control goes out in clear and uncompressed, as type 4, expedited. */
  function ControlParams(seqNum: u32, ssrc: u32, first: bool, last: bool, ts: u32): (p: Params)
    ensures WellFormed(p)
    ensures p.encType == 4 && p.expedite && !p.retransmit && p.pskMode == 0 && p.lpcMode == 0
    ensures p.seqNum == seqNum && p.ssrc == ssrc && p.timestamp == ts && (p.firstFrag, p.lastFrag) == (first, last)
  {
    Params(seqNum, ts, ssrc, TYPE_CONTROL, PSK_NONE, LPC_NONE, first, last, true, false, None, None, None, None, None, None, [])
  }
}
