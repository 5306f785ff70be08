/** The Main-profile data path of codec_main.rs: RTP with null-packet deletion, framed in GRE and
    encrypted, and the receiver that undoes each layer. */
module MainMedia {
  import opened Bytes
  import opened Crypto
  import opened Clock
  import opened Codec
  import Npd
  import Rtp
  import Gre
  import opened MainFeedback
  import Rtcp

  datatype MediaPacket = MediaPacket(seqNum: u32, sourceTime: u64, ssrc: u32, payload: seq<byte>, retransmit: bool,
                                     ports: Gre.Reduced)

  datatype CodecError =
    | RtpFailed(rtp: Rtp.RtpError)
    | GreFailed(gre: Gre.GreError)
    | CryptoFailed(crypto: CryptoError)
    | NpdFailed(npd: Npd.NpdError)
    | RtcpFailed(rtcp: Rtcp.RtcpError)
    | BadVersion(version: byte)
    | NotReduced
    | NoDecryptor
    | NotEncrypted
    | TooShort

  // ---- Encoding ----

  /** The payload whose FEC both ends compute. */
  function FecPayload(npdEnabled: bool, payload: seq<byte>): seq<byte> {
    if !npdEnabled then payload
    else
      match Npd.Suppress(payload)
      case Failure(_) => payload
      case Success(r) =>
        if r.suppressed == 0 then payload
        else
          match Npd.Expand(r.payload, r.bits)
          case Failure(_) => payload
          case Success(canon) => canon
  }

  /** Suppression takes place only when it is on, applies, and cuts something. */
  function ReducedFor(npdEnabled: bool, payload: seq<byte>): Option<Npd.Reduced> {
    if !npdEnabled then None
    else
      match Npd.Suppress(payload)
      case Failure(_) => None
      case Success(r) => if r.suppressed > 0 then Some(r) else None
  }

  function ExtFor(bits: byte): Npd.Ext {
    Npd.Ext(true, bits / 0x80 == 1, bits % 0x80, 0)
  }

  function MediaHeader(pkt: MediaPacket, extension: Option<seq<byte>>): Rtp.Header {
    Rtp.Header(Rtp.VERSION, false, extension.Some?, 0, false, Rtp.PAYLOAD_TYPE_MPEGTS, pkt.seqNum % 0x1_0000,
               RtpTsFromSource(pkt.sourceTime), Rtp.WireSsrc(pkt.ssrc, pkt.retransmit), [],
               if extension.Some? then Npd.IDENTIFIER else 0, if extension.Some? then extension.value else [])
  }

  function MediaRtp(npdEnabled: bool, pkt: MediaPacket): Rtp.Packet {
    match ReducedFor(npdEnabled, pkt.payload)
    case None => Rtp.Packet(MediaHeader(pkt, None), pkt.payload, 0)
    case Some(r) => Rtp.Packet(MediaHeader(pkt, Some(Npd.EncodeExt(ExtFor(r.bits))[4..])), r.payload, 0)
  }

  /** What the sender encrypts with, once any rotation is done. */
  datatype KeyView = KeyView(secret: Secret, bits: AesKeyBits, nonce: Nonce)

  function DataHeader(seqNum: u32, size256: bool, key: Option<KeyView>): Gre.Header {
    match key
    case None => Gre.Header(Gre.VERSION_MIN, false, true, false, Gre.NO_NONCE, seqNum, Gre.PROTO_REDUCED)
    case Some(k) => Gre.Header(Gre.VERSION_MIN, true, true, size256, k.nonce, seqNum, Gre.PROTO_REDUCED)
  }

  function Sealed(seqNum: u32, key: Option<KeyView>, region: seq<byte>): seq<byte> {
    match key
    case None => region
    case Some(k) => Apply(k.secret.p, k.secret.Key(k.nonce, k.bits), seqNum, region)
  }

  function Framed(inner: seq<byte>, seqNum: u32, ports: Gre.Reduced, size256: bool, key: Option<KeyView>): seq<byte> {
    Gre.Encode(DataHeader(seqNum, size256, key), Sealed(seqNum, key, Gre.EncodeReduced(ports, inner))).value
  }

  // ---- Decoding ----

  datatype Receiver = Receiver(secret: Secret, state: DecState)

  /** The receiving key after a datagram, and the region behind the GRE header. */
  function Unwrapped(hdr: Gre.Header, after: seq<byte>, recv: Option<Receiver>)
    : (Option<Receiver>, Result<seq<byte>, CodecError>)
  {
    if hdr.hasKey then
      match recv
      case None => (recv, Failure(NoDecryptor))
      case Some(r) =>
        var (state, out) := Decrypted(r.secret, WithKeyBits(r.state, FromHBit(hdr.keySize256)), hdr.nonce, hdr.seqNum, after);
        (Some(r.(state := state)), match out case Failure(e) => Failure(CryptoFailed(e)) case Success(b) => Success(b))
    else if recv.Some? then (recv, Failure(NotEncrypted))
    else (recv, Success(after))
  }

  datatype Region =
    | Inner(bytes: seq<byte>, isRtcp: bool, encrypted: bool, ports: Gre.Reduced)
    | Control(subtype: u16, body: seq<byte>)

  /** The payload type alone tells RTCP from RTP. */
  predicate IsRtcp(inner: seq<byte>)
    requires |inner| > 1
  {
    72 <= inner[1] % 0x80 <= 77
  }

  /** RTCP packet types 200 to 205 are RTCP, and nothing else is; an RTP packet without its marker of type
      33 or of a dynamic type is not. */
  lemma TypesAreTold(inner: seq<byte>)
    requires |inner| > 1
    ensures 200 <= inner[1] <= 205 ==> IsRtcp(inner)
    ensures IsRtcp(inner) ==> 200 <= inner[1] <= 205 || 72 <= inner[1] <= 77
    ensures inner[1] % 0x80 == 33 || inner[1] % 0x80 >= 96 ==> !IsRtcp(inner)
  {}

  function Demuxed(region: seq<byte>, encrypted: bool): Result<Region, CodecError> {
    match Gre.ParseReduced(region)
    case Failure(e) => Failure(GreFailed(e))
    case Success((ports, n)) =>
      var inner := region[n..];
      if |inner| <= 1 then Failure(TooShort) else Success(Inner(inner, IsRtcp(inner), encrypted, ports))
  }

  function Opened(region: seq<byte>, isVsf: bool, encrypted: bool): Result<Region, CodecError> {
    if !isVsf then Demuxed(region, encrypted)
    else
      match Gre.ParseVsf(region)
      case Failure(e) => Failure(GreFailed(e))
      case Success((vsf, n)) =>
        if vsf.subtype != Gre.VSF_SUBTYPE_REDUCED then Success(Control(vsf.subtype, region[n..]))
        else Demuxed(region[n..], encrypted)
  }

  function MainRegion(b: seq<byte>, recv: Option<Receiver>): (Option<Receiver>, Result<Region, CodecError>) {
    match Gre.Parse(b)
    case Failure(e) => (recv, Failure(GreFailed(e)))
    case Success((hdr, off)) =>
      if hdr.protType != Gre.PROTO_REDUCED && hdr.protType != Gre.PROTO_VSF then (recv, Failure(NotReduced))
      else
        var (after, out) := Unwrapped(hdr, b[off..], recv);
        (after, match out case Failure(e) => Failure(e)
                          case Success(region) => Opened(region, hdr.protType == Gre.PROTO_VSF, hdr.hasKey))
  }

  /** The payload with its null packets put back, when the extension is the RIST one. */
  function Restored(p: Rtp.Packet): Result<seq<byte>, CodecError> {
    if p.header.extension && p.header.extensionProfile == Npd.IDENTIFIER && |p.header.extensionPayload| == 4 then
      match Npd.ParseExt(Be16(Npd.IDENTIFIER) + Be16(Npd.LENGTH) + p.header.extensionPayload)
      case Failure(e) => Failure(NpdFailed(e))
      case Success((ext, _)) =>
        if !ext.npd then Success(p.payload)
        else
          match Npd.Expand(p.payload, Npd.NpdBits(ext.size204, ext.nullBitmap))
          case Failure(e) => Failure(NpdFailed(e))
          case Success(b) => Success(b)
    else Success(p.payload)
  }

  function DecodeMedia(inner: seq<byte>, ports: Gre.Reduced, dec: DecoderState): (DecoderState, Result<MediaPacket, CodecError>) {
    match Rtp.Decode(inner)
    case Failure(e) => (dec, Failure(RtpFailed(e)))
    case Success(p) =>
      if p.header.version != Rtp.VERSION then (dec, Failure(BadVersion(p.header.version)))
      else
        match Restored(p)
        case Failure(e) => (dec, Failure(e))
        case Success(payload) =>
          var next := Widened(dec, p.header.sequenceNumber, p.header.timestamp);
          var reading := ReadingOf(next);
          (next, Success(MediaPacket(reading.seqNum, reading.sourceTime, Rtp.NormalizeSsrc(p.header.ssrc), payload,
                                     Rtp.IsRetransmit(p.header.ssrc), ports)))
  }

  // ---- Layer by layer ----

  /** The FEC payload is the payload in normal form when suppression cuts something, and otherwise
      the payload; so it is its own FEC payload. */
  lemma FecPayloadIsStable(npdEnabled: bool, payload: seq<byte>)
    ensures FecPayload(npdEnabled, payload)
         == if ReducedFor(npdEnabled, payload).Some? then Npd.Normal(payload) else payload
    ensures FecPayload(npdEnabled, FecPayload(npdEnabled, payload)) == FecPayload(npdEnabled, payload)
    ensures |FecPayload(npdEnabled, payload)| == |payload|
    ensures FecPayload(npdEnabled, payload) == payload <==> ReducedFor(npdEnabled, payload).None? || Npd.AllCanonical(payload)
  {
    hide Npd.Suppress, Npd.Expand, Npd.Normal, Npd.AllCanonical;
    if npdEnabled && Npd.Suppress(payload).Success? {
      SuppressedHasSize(payload);
      Npd.ExpandOfSuppress(payload);
      Npd.NormalIsNormal(payload);
      if Npd.Suppress(payload).value.suppressed > 0 {
        Npd.NormalSendsTheSame(payload);
        Npd.ExpandOfSuppress(Npd.Normal(payload));
      }
    }
  }

  lemma SuppressedHasSize(payload: seq<byte>)
    ensures Npd.Suppress(payload).Success? ==> Npd.SizeOf(|payload|).Some?
  {}

  lemma BitsReadBack(bits: byte)
    ensures Npd.NpdBits(ExtFor(bits).size204, ExtFor(bits).nullBitmap) == bits
    ensures ExtFor(bits).nullBitmap < 0x80
  {}

  lemma ExtensionRestores(bits: byte)
    ensures var x := Npd.EncodeExt(ExtFor(bits))[4..];
            |x| == 4 && Npd.ParseExt(Be16(Npd.IDENTIFIER) + Be16(Npd.LENGTH) + x) == Success((ExtFor(bits), Npd.EXT_SIZE))
  {
    hide Be16, Npd.ParseExt;
    var e := Npd.EncodeExt(ExtFor(bits));
    BitsReadBack(bits);
    Npd.ExtRoundTrip(ExtFor(bits), []);
    assert e + [] == e;
    assert Be16(Npd.IDENTIFIER) + Be16(Npd.LENGTH) + e[4..] == e;
  }

  lemma MediaIsWellFormed(npdEnabled: bool, pkt: MediaPacket)
    ensures Rtp.WellFormed(MediaRtp(npdEnabled, pkt))
    ensures Rtp.HeaderFault(MediaRtp(npdEnabled, pkt).header).None?
  {
    hide ReducedFor, RtpTsFromSource;
  }

  /** Suppression and its extension are undone to the FEC payload. */
  lemma {:induction false} RestoredIsFecPayload(npdEnabled: bool, pkt: MediaPacket)
    ensures var r := Restored(MediaRtp(npdEnabled, pkt));
            r.Success? && r.value == FecPayload(npdEnabled, pkt.payload)
  {
    hide Npd.Suppress, Npd.Expand, Npd.EncodeExt, Npd.ParseExt, RtpTsFromSource, Be16;
    var r := ReducedFor(npdEnabled, pkt.payload);
    if r.Some? {
      Npd.ExpandOfSuppress(pkt.payload);
      ExtensionRestores(r.value.bits);
      BitsReadBack(r.value.bits);
    }
  }

  /** What a receiver makes of a media packet. */
  function Delivered(npdEnabled: bool, pkt: MediaPacket, ports: Gre.Reduced, dec: DecoderState): MediaPacket {
    var reading := ReadingOf(Widened(dec, pkt.seqNum % 0x1_0000, RtpTsFromSource(pkt.sourceTime)));
    MediaPacket(reading.seqNum, reading.sourceTime, Rtp.NormalizeSsrc(Rtp.WireSsrc(pkt.ssrc, pkt.retransmit)),
                FecPayload(npdEnabled, pkt.payload), Rtp.IsRetransmit(Rtp.WireSsrc(pkt.ssrc, pkt.retransmit)), ports)
  }

  function MediaBytes(npdEnabled: bool, pkt: MediaPacket): seq<byte> {
    MediaIsWellFormed(npdEnabled, pkt);
    Rtp.Encode(MediaRtp(npdEnabled, pkt))
  }

  lemma {:induction false} MediaDecodes(npdEnabled: bool, pkt: MediaPacket, ports: Gre.Reduced, dec: DecoderState)
    ensures var (next, r) := DecodeMedia(MediaBytes(npdEnabled, pkt), ports, dec);
            && r.Success? && r.value == Delivered(npdEnabled, pkt, ports, dec)
            && next == Widened(dec, pkt.seqNum % 0x1_0000, RtpTsFromSource(pkt.sourceTime))
  {
    hide Restored, FecPayload, Rtp.Encode, Rtp.Decode, ReducedFor, ReadingOf, Widened, RtpTsFromSource;
    MediaIsWellFormed(npdEnabled, pkt);
    Rtp.DecodeOfEncode(MediaRtp(npdEnabled, pkt));
    RestoredIsFecPayload(npdEnabled, pkt);
  }

  lemma MediaIsNotRtcp(npdEnabled: bool, pkt: MediaPacket)
    ensures |MediaBytes(npdEnabled, pkt)| > 1 && !IsRtcp(MediaBytes(npdEnabled, pkt))
  {
    hide ReducedFor, RtpTsFromSource;
    MediaIsWellFormed(npdEnabled, pkt);
    var h := MediaRtp(npdEnabled, pkt).header;
    assert MediaBytes(npdEnabled, pkt)[1] == Rtp.Fixed(h)[1] == Rtp.Second(h);
  }

  /** The key the sender used is the one the header tells the receiver to derive. */
  ghost predicate KeysAgree(size256: bool, key: Option<KeyView>, recv: Option<Receiver>) {
    match key
    case None => recv.None?
    case Some(k) =>
      recv.Some? && recv.value.secret == k.secret && k.secret.password != [] && Sound(k.secret, recv.value.state)
      && k.bits == FromHBit(size256) && !IsZero(k.nonce)
  }

  /** The receiver has decrypted 2^32 packets in a row under this nonce and size. */
  predicate Exhausted(size256: bool, key: Option<KeyView>, recv: Option<Receiver>) {
    key.Some? && recv.Some?
    && var s := recv.value.state;
       s.bits == FromHBit(size256) && s.hasNonce && s.nonce == key.value.nonce && s.usedTimes > U32_MAX
  }

  lemma RegionUnwraps(region: seq<byte>, seqNum: u32, size256: bool, key: Option<KeyView>, recv: Option<Receiver>)
    requires KeysAgree(size256, key, recv)
    ensures Unwrapped(DataHeader(seqNum, size256, key), Sealed(seqNum, key, region), recv).1
         == if Exhausted(size256, key, recv) then Failure(CryptoFailed(KeyReuseExhausted)) else Success(region)
  {
    hide Derive, Apply, Decrypted;
    if key.Some? {
      var k, s := key.value, WithKeyBits(recv.value.state, FromHBit(size256));
      StepIsSound(k.secret, recv.value.state, DecOp.SetKeyBits(FromHBit(size256)));
      SentIsRead(k.secret, s, k.nonce, seqNum, region);
      DecryptAgrees(k.secret, s, k.nonce, seqNum, Sealed(seqNum, key, region));
    }
  }

  /** Whatever is framed is unframed: the same inner packet and ports come out, unless the receiver's
      key is used up. */
  lemma FrameOpens(inner: seq<byte>, seqNum: u32, ports: Gre.Reduced, size256: bool, key: Option<KeyView>,
                   recv: Option<Receiver>)
    requires |inner| > 1 && KeysAgree(size256, key, recv)
    ensures MainRegion(Framed(inner, seqNum, ports, size256, key), recv).1
         == if Exhausted(size256, key, recv) then Failure(CryptoFailed(KeyReuseExhausted))
            else Success(Inner(inner, IsRtcp(inner), key.Some?, ports))
  {
    hide Sealed, Unwrapped, Exhausted, Gre.Encode, Gre.Parse, Gre.EncodeReduced, Gre.ParseReduced;
    var hdr := DataHeader(seqNum, size256, key);
    var region := Gre.EncodeReduced(ports, inner);
    var sealed := Sealed(seqNum, key, region);
    Gre.ParseOfEncode(hdr, sealed);
    RegionUnwraps(region, seqNum, size256, key, recv);
    Gre.ParseOfReduced(ports, inner);
  }

  /** The same behind the VSF wrapper: a reduced packet in it opens alike, and any other subtype is
      handed on as a control body. */
  lemma VsfFrameOpens(subtype: u16, body: seq<byte>, inner: seq<byte>, seqNum: u32, ports: Gre.Reduced, size256: bool,
                      key: Option<KeyView>, recv: Option<Receiver>)
    requires |inner| > 1 && KeysAgree(size256, key, recv) && !Exhausted(size256, key, recv)
    requires subtype == Gre.VSF_SUBTYPE_REDUCED ==> body == Gre.EncodeReduced(ports, inner)
    ensures var hdr := DataHeader(seqNum, size256, key).(protType := Gre.PROTO_VSF);
            var b := Gre.Encode(hdr, Sealed(seqNum, key, Gre.EncodeVsf(subtype, body)));
            && b.Success?
            && MainRegion(b.value, recv).1
               == Success(if subtype == Gre.VSF_SUBTYPE_REDUCED then Inner(inner, IsRtcp(inner), key.Some?, ports)
                          else Control(subtype, body))
  {
    hide Sealed, Unwrapped, Exhausted, Gre.Encode, Gre.Parse, Gre.EncodeReduced, Gre.ParseReduced, Gre.EncodeVsf, Gre.ParseVsf;
    var hdr := DataHeader(seqNum, size256, key).(protType := Gre.PROTO_VSF);
    var region := Gre.EncodeVsf(subtype, body);
    Gre.ParseOfEncode(hdr, Sealed(seqNum, key, region));
    RegionUnwraps(region, seqNum, size256, key, recv);
    UnwrappingIgnoresProtocol(seqNum, size256, key, region, recv);
    Gre.ParseOfVsf(subtype, body);
    Gre.ParseOfReduced(ports, inner);
  }

  lemma UnwrappingIgnoresProtocol(seqNum: u32, size256: bool, key: Option<KeyView>, region: seq<byte>, recv: Option<Receiver>)
    ensures var hdr := DataHeader(seqNum, size256, key);
            Unwrapped(hdr.(protType := Gre.PROTO_VSF), Sealed(seqNum, key, region), recv)
            == Unwrapped(hdr, Sealed(seqNum, key, region), recv)
  {
    hide Sealed, Decrypted, WithKeyBits;
  }

  /** The extension is sent only when it cuts something. */
  lemma OnlyCutsAreMarked(npdEnabled: bool, payload: seq<byte>)
    ensures ReducedFor(npdEnabled, payload).Some?
       <==> npdEnabled && Npd.Suppress(payload).Success? && Npd.Suppress(payload).value.suppressed > 0
    ensures ReducedFor(npdEnabled, payload).Some? ==> ReducedFor(npdEnabled, payload).value == Npd.Suppress(payload).value
  {
    hide Npd.Suppress;
  }

  /** What a framed packet looks like from outside: version 1, a sequence always, a key's nonce and size
      when there is one. */
  lemma FrameOnTheWire(inner: seq<byte>, seqNum: u32, ports: Gre.Reduced, size256: bool, key: Option<KeyView>)
    ensures var r := Gre.Parse(Framed(inner, seqNum, ports, size256, key));
            && r.Success?
            && var h := r.value.0;
               && h.version == 1 && h.hasSeq && h.seqNum == seqNum && h.protType == 0x88B6
               && (h.hasKey <==> key.Some?)
               && (key.Some? ==> h.nonce == key.value.nonce && h.keySize256 == size256)
               && r.value.1 == if key.Some? then 12 else 8
  {
    hide Sealed, Gre.Encode, Gre.Parse, Gre.EncodeReduced;
    Gre.ParseOfEncode(DataHeader(seqNum, size256, key), Sealed(seqNum, key, Gre.EncodeReduced(ports, inner)));
  }

  /** And the media packet inside: RTP version 2, payload type 33, no sources, the RIST extension exactly when
      null packets were cut. */
  lemma MediaOnTheWire(npdEnabled: bool, pkt: MediaPacket)
    ensures var r := Rtp.Decode(MediaBytes(npdEnabled, pkt));
            && r.Success?
            && var (h, cut) := (r.value.header, ReducedFor(npdEnabled, pkt.payload));
               && h.version == 2 && h.payloadType == 33 && !h.marker && h.csrc == [] && r.value.paddingSize == 0
               && h.sequenceNumber == pkt.seqNum % 0x1_0000 && h.timestamp == RtpTsFromSource(pkt.sourceTime)
               && h.ssrc / 2 == pkt.ssrc / 2 && (pkt.ssrc % 2 == 0 ==> (h.ssrc % 2 == 1 <==> pkt.retransmit))
               && (h.extension <==> cut.Some?)
               && (h.extension ==> h.extensionProfile == 0x5249 && |h.extensionPayload| == 4)
               && r.value.payload == if cut.Some? then cut.value.payload else pkt.payload
  {
    hide ReducedFor, Rtp.Encode, Rtp.Decode, RtpTsFromSource;
    MediaIsWellFormed(npdEnabled, pkt);
    Rtp.DecodeOfEncode(MediaRtp(npdEnabled, pkt));
  }

  // ---- What a receiver accepts ----

  /** For arbitrary bytes: a receiver with a key opens nothing but what its own key decrypts, and one
      without a key opens nothing that claims one. */
  lemma OpensOnlyUnderItsKey(b: seq<byte>, recv: Option<Receiver>)
    requires recv.Some? ==> recv.value.secret.password != [] && Sound(recv.value.secret, recv.value.state)
    ensures MainRegion(b, recv).1.Success? ==>
              && Gre.Parse(b).Success?
              && var (hdr, off) := Gre.Parse(b).value;
                 && (hdr.hasKey <==> recv.Some?)
                 && hdr.protType in {Gre.PROTO_REDUCED, Gre.PROTO_VSF}
                 && var plain := if recv.None? then Success(b[off..])
                                 else var x := recv.value.secret;
                                      OneShot(x.p, x.raw, x.password, FromHBit(hdr.keySize256), hdr.nonce, hdr.seqNum, b[off..]);
                    plain.Success? && MainRegion(b, recv).1 == Opened(plain.value, hdr.protType == Gre.PROTO_VSF, recv.Some?)
  {
    hide Gre.Parse, Opened, Decrypted, OneShot, Agrees, Sound;
    if Gre.Parse(b).Success? && Gre.Parse(b).value.0.hasKey && recv.Some? {
      var (hdr, off) := Gre.Parse(b).value;
      var x, bits := recv.value.secret, FromHBit(hdr.keySize256);
      StepIsSound(x, recv.value.state, DecOp.SetKeyBits(bits));
      DecryptAgrees(x, WithKeyBits(recv.value.state, bits), hdr.nonce, hdr.seqNum, b[off..]);
      AgreementOnSuccess(x, WithKeyBits(recv.value.state, bits), hdr.nonce, hdr.seqNum, b[off..]);
    }
  }

  lemma AgreementOnSuccess(x: Secret, s: DecState, nonce: Nonce, seqNum: u32, src: seq<byte>)
    requires Sound(x, s) && x.password != []
    ensures Decrypted(x, s, nonce, seqNum, src).1.Success? ==>
              Decrypted(x, s, nonce, seqNum, src).1 == OneShot(x.p, x.raw, x.password, s.bits, nonce, seqNum, src)
  {
    hide Decrypted, OneShot, Sound;
    DecryptAgrees(x, s, nonce, seqNum, src);
  }

  /** The mixed cases are refused by name, and leave the receiving key as it was. */
  lemma MixedKeysAreRefused(b: seq<byte>, recv: Option<Receiver>)
    requires Gre.Parse(b).Success? && Gre.Parse(b).value.0.protType in {Gre.PROTO_REDUCED, Gre.PROTO_VSF}
    ensures Gre.Parse(b).value.0.hasKey && recv.None? ==> MainRegion(b, recv) == (recv, Failure(NoDecryptor))
    ensures !Gre.Parse(b).value.0.hasKey && recv.Some? ==> MainRegion(b, recv) == (recv, Failure(NotEncrypted))
  {
    hide Gre.Parse, Opened, Decrypted;
  }

  lemma DeliveredSequence(npdEnabled: bool, pkt: MediaPacket, ports: Gre.Reduced, dec: DecoderState)
    ensures Delivered(npdEnabled, pkt, ports, dec).seqNum % 0x1_0000 == pkt.seqNum % 0x1_0000
  {
    hide TimeOf, FecPayload, WidenTicks, WidenSeq, RtpTsFromSource;
    WidenSeqKeepsLow(pkt.seqNum % 0x1_0000, dec.refSeq);
  }

  /** Media end to end, from any state of either side: the packet is delivered with its payload in
      FEC form, its sequence modulo 2^16, sequence and time as the decoder widens them, and its
      retransmission mark and stream; the last two exactly when the stream's SSRC is even. */
  lemma MediaArrives(npdEnabled: bool, pkt: MediaPacket, seqNum: u32, ports: Gre.Reduced, size256: bool,
                     key: Option<KeyView>, recv: Option<Receiver>, dec: DecoderState)
    requires KeysAgree(size256, key, recv) && !Exhausted(size256, key, recv)
    ensures var r := MainRegion(Framed(MediaBytes(npdEnabled, pkt), seqNum, ports, size256, key), recv).1;
            && r.Success? && r.value.Inner? && !r.value.isRtcp && r.value.ports == ports
            && var m := DecodeMedia(r.value.bytes, ports, dec).1;
               && m == Success(Delivered(npdEnabled, pkt, ports, dec))
               && m.value.payload == FecPayload(npdEnabled, pkt.payload)
               && m.value.seqNum % 0x1_0000 == pkt.seqNum % 0x1_0000
               && (m.value.ssrc == pkt.ssrc && m.value.retransmit == pkt.retransmit <==> pkt.ssrc % 2 == 0)
  {
    hide MainRegion, Framed, MediaBytes, DecodeMedia, FecPayload, ReadingOf, Widened, RtpTsFromSource, IsRtcp;
    MediaIsNotRtcp(npdEnabled, pkt);
    FrameOpens(MediaBytes(npdEnabled, pkt), seqNum, ports, size256, key, recv);
    MediaDecodes(npdEnabled, pkt, ports, dec);
    DeliveredSequence(npdEnabled, pkt, ports, dec);
    Rtp.MarkReadsBack(pkt.ssrc, pkt.retransmit);
  }

  // ---- Whole runs ----

  /** A datagram on its way: the packet, its GRE sequence and the key it went out under. */
  datatype Shipment = Shipment(pkt: MediaPacket, seqNum: u32, key: Option<KeyView>)

  /** The link both ends are set up for. */
  datatype Link = Link(npdEnabled: bool, ports: Gre.Reduced, size256: bool)

  function Datagram(l: Link, d: Shipment): seq<byte> {
    Framed(MediaBytes(l.npdEnabled, d.pkt), d.seqNum, l.ports, l.size256, d.key)
  }

  /** One datagram in: the receiving key, the decoder, and the packet. */
  function Receive(b: seq<byte>, recv: Option<Receiver>, dec: DecoderState)
    : (Option<Receiver>, DecoderState, Result<MediaPacket, CodecError>)
  {
    var (after, region) := MainRegion(b, recv);
    if region.Failure? then (after, dec, Failure(region.error))
    else if !region.value.Inner? || region.value.isRtcp then (after, dec, Failure(NotReduced))
    else
      var (next, r) := DecodeMedia(region.value.bytes, region.value.ports, dec);
      (after, next, r)
  }

  /** Key and decoder after the first `n` datagrams of a run. */
  function AfterAll(l: Link, run: seq<Shipment>, recv: Option<Receiver>, n: nat): (Option<Receiver>, DecoderState)
    requires n <= |run|
  {
    if n == 0 then (recv, DecoderState(false, 0, 0))
    else
      var before := AfterAll(l, run, recv, n - 1);
      var r := Receive(Datagram(l, run[n - 1]), before.0, before.1);
      (r.0, r.1)
  }

  /** Every key fits the receiver, which has room for the whole run under one nonce. */
  ghost predicate Fits(l: Link, run: seq<Shipment>, recv: Option<Receiver>) {
    && (forall i :: 0 <= i < |run| ==> KeysAgree(l.size256, run[i].key, recv))
    && (recv.Some? ==> recv.value.state.usedTimes + |run| <= U32_MAX + 1)
  }

  /** The receiver as it was, but for its key slots and at most `n` more packets counted. */
  ghost predicate Aged(recv: Option<Receiver>, now: Option<Receiver>, n: nat) {
    match recv
    case None => now.None?
    case Some(r) =>
      now.Some? && now.value.secret == r.secret && Sound(r.secret, now.value.state)
      && now.value.state.usedTimes <= r.state.usedTimes + n
  }

  lemma KeysStillAgree(size256: bool, key: Option<KeyView>, recv: Option<Receiver>, now: Option<Receiver>, n: nat)
    requires KeysAgree(size256, key, recv) && Aged(recv, now, n)
    ensures KeysAgree(size256, key, now)
  {}

  lemma UnwrapAges(hdr: Gre.Header, after: seq<byte>, recv: Option<Receiver>)
    requires recv.Some? ==> Sound(recv.value.secret, recv.value.state)
    ensures Aged(recv, Unwrapped(hdr, after, recv).0, 1)
  {
    hide Decrypted, Sound, WithKeyBits;
    if hdr.hasKey && recv.Some? {
      var r := recv.value;
      var s := WithKeyBits(r.state, FromHBit(hdr.keySize256));
      SizeChange(r.secret, r.state, FromHBit(hdr.keySize256));
      DecryptKeeps(r.secret, s, hdr.nonce, hdr.seqNum, after);
    }
  }

  lemma SizeChange(x: Secret, s: DecState, bits: AesKeyBits)
    requires Sound(x, s)
    ensures Sound(x, WithKeyBits(s, bits)) && WithKeyBits(s, bits).usedTimes == s.usedTimes
  {}

  lemma RegionAges(b: seq<byte>, recv: Option<Receiver>)
    requires recv.Some? ==> Sound(recv.value.secret, recv.value.state)
    ensures Aged(recv, MainRegion(b, recv).0, 1)
  {
    hide Unwrapped, Sound, Gre.Parse;
    match Gre.Parse(b)
    case Failure(_) =>
    case Success((hdr, off)) => UnwrapAges(hdr, b[off..], recv);
  }

  lemma AgedMore(recv: Option<Receiver>, mid: Option<Receiver>, now: Option<Receiver>, n: nat)
    requires Aged(recv, mid, n) && Aged(mid, now, 1)
    ensures Aged(recv, now, n + 1)
  {}

  /** One datagram of a run, in whatever state the earlier ones left. */
  lemma ShipmentArrives(l: Link, d: Shipment, recv: Option<Receiver>, dec: DecoderState)
    requires KeysAgree(l.size256, d.key, recv) && (recv.Some? ==> recv.value.state.usedTimes <= U32_MAX)
    ensures var (after, next, r) := Receive(Datagram(l, d), recv, dec);
            && r == Success(Delivered(l.npdEnabled, d.pkt, l.ports, dec)) && Aged(recv, after, 1)
            && next == Widened(dec, d.pkt.seqNum % 0x1_0000, RtpTsFromSource(d.pkt.sourceTime))
  {
    hide MainRegion, Framed, MediaBytes, DecodeMedia, Delivered, Widened, RtpTsFromSource, IsRtcp, Sound;
    MediaArrives(l.npdEnabled, d.pkt, d.seqNum, l.ports, l.size256, d.key, recv, dec);
    MediaDecodes(l.npdEnabled, d.pkt, l.ports, dec);
    MediaIsNotRtcp(l.npdEnabled, d.pkt);
    FrameOpens(MediaBytes(l.npdEnabled, d.pkt), d.seqNum, l.ports, l.size256, d.key, recv);
    RegionAges(Datagram(l, d), recv);
  }

  /** The packets of a run carry the low bits of these true sequences and ticks. */
  predicate Carries(run: seq<Shipment>, truth: seq<True>) {
    |run| == |truth| && forall i :: 0 <= i < |run| ==>
      && run[i].pkt.seqNum % 0x1_0000 == truth[i].pos % 0x1_0000
      && RtpTsFromSource(run[i].pkt.sourceTime) == truth[i].ticks % 0x1_0000_0000
  }

  lemma {:induction false} RunAges(l: Link, run: seq<Shipment>, recv: Option<Receiver>, truth: seq<True>, n: nat)
    requires n <= |run| && Fits(l, run, recv) && Carries(run, truth)
    requires recv.Some? ==> Sound(recv.value.secret, recv.value.state)
    ensures var (now, dec) := AfterAll(l, run, recv, n);
            Aged(recv, now, n) && dec == After(truth, n)
  {
    hide Receive, Datagram, KeysAgree, Sound, RtpTsFromSource, Widened;
    if n > 0 {
      RunAges(l, run, recv, truth, n - 1);
      var (mid, dec) := AfterAll(l, run, recv, n - 1);
      KeysStillAgree(l.size256, run[n - 1].key, recv, mid, n - 1);
      ShipmentArrives(l, run[n - 1], mid, dec);
      AgedMore(recv, mid, AfterAll(l, run, recv, n).0, n - 1);
    }
  }

  /** Whole runs of media, in clear or encrypted, with retransmissions among them: while each packet's
      true sequence and ticks are near its predecessor's, every packet is delivered, with its true
      sequence and time up to one offset for the run; so a retransmission is delivered with its
      original's. */
  lemma MediaRunArrives(l: Link, run: seq<Shipment>, recv: Option<Receiver>, truth: seq<True>, i: nat)
    requires i < |run| && Fits(l, run, recv) && Carries(run, truth) && Steady(truth)
    requires recv.Some? ==> Sound(recv.value.secret, recv.value.state)
    ensures var (now, dec) := AfterAll(l, run, recv, i);
            var r := Receive(Datagram(l, run[i]), now, dec).2;
            && r.Success? && Reading(r.value.seqNum, r.value.sourceTime) == TrueReading(truth, i)
            && r.value.payload == FecPayload(l.npdEnabled, run[i].pkt.payload)
            && (run[i].pkt.ssrc % 2 == 0 ==> r.value.ssrc == run[i].pkt.ssrc && r.value.retransmit == run[i].pkt.retransmit)
  {
    hide Receive, Datagram, KeysAgree, Sound, RtpTsFromSource, FecPayload, TimeOf, Widened, TrueReading, AfterAll, Steady;
    RunAges(l, run, recv, truth, i);
    var (now, dec) := AfterAll(l, run, recv, i);
    KeysStillAgree(l.size256, run[i].key, recv, now, i);
    ShipmentArrives(l, run[i], now, dec);
    SteadyRunIsReadTrue(truth, i, i);
    Rtp.MarkReadsBack(run[i].pkt.ssrc, run[i].pkt.retransmit);
  }

  /** A packet as its sender sees it: its unwrapped sequence, and its time in microseconds. */
  datatype Moment = Moment(pos: int, us: u64)

  function TruthOf(moments: seq<Moment>): seq<True> {
    seq(|moments|, i requires 0 <= i < |moments| => True(moments[i].pos, moments[i].us * 9 / 100))
  }

  /** The packets are stamped with these times and numbered with these sequences. */
  predicate Stamped(run: seq<Shipment>, moments: seq<Moment>) {
    |run| == |moments| && forall i :: 0 <= i < |run| ==>
      && run[i].pkt.seqNum == moments[i].pos % 0x1_0000_0000
      && run[i].pkt.sourceTime == FromTimestamp(moments[i].us)
  }

  /** Each packet is less than 2^15 sequences and some six and a half hours from the one before it. */
  predicate Gradual(moments: seq<Moment>) {
    forall i :: 0 < i < |moments| ==>
      && -0x8000 < moments[i].pos - moments[i - 1].pos < 0x8000
      && -0x7FFF_FFFF * 100 < (moments[i].us - moments[i - 1].us) * 9 < 0x7FFF_FFFF * 100
  }

  lemma StampedCarries(run: seq<Shipment>, moments: seq<Moment>)
    requires Stamped(run, moments)
    ensures Carries(run, TruthOf(moments))
  {
    hide RtpTsFromSource, FromTimestamp;
    forall i | 0 <= i < |run|
      ensures run[i].pkt.seqNum % 0x1_0000 == moments[i].pos % 0x1_0000
      ensures RtpTsFromSource(run[i].pkt.sourceTime) == moments[i].us * 9 / 100 % 0x1_0000_0000
    {
      WireTimeIsTicks(moments[i].us);
    }
  }

  lemma GradualIsSteady(moments: seq<Moment>)
    requires Gradual(moments)
    ensures Steady(TruthOf(moments))
  {
    forall i | 0 < i < |moments| ensures Near(TruthOf(moments)[i], TruthOf(moments)[i - 1]) {
      var a: int, b: int := moments[i].us, moments[i - 1].us;
      assert -0x8000_0000 < a * 9 / 100 - b * 9 / 100 < 0x8000_0000;
    }
  }

  /** In source times: the times of a run of packets, stamped by their sender and read back by the
      receiver, are the sender's, up to one constant for the run and at most thirteen microseconds of
      rounding; and never below zero. */
  lemma MediaRunKeepsTime(l: Link, run: seq<Shipment>, recv: Option<Receiver>, moments: seq<Moment>, i: nat)
    requires i < |run| && Fits(l, run, recv) && Stamped(run, moments) && Gradual(moments)
    requires recv.Some? ==> Sound(recv.value.secret, recv.value.state)
    ensures var (now, dec) := AfterAll(l, run, recv, i);
            var r := Receive(Datagram(l, run[i]), now, dec).2;
            var first := moments[0].us * 9 / 100 / 0x1_0000_0000 * 0x1_0000_0000;
            var us := moments[i].us - ShiftOf(first);
            && r.Success? && r.value.seqNum == (moments[i].pos - moments[0].pos / 0x1_0000 * 0x1_0000) % 0x1_0000_0000
            && (us < ERA ==>
                  var back := ToTimestamp(r.value.sourceTime);
                  if moments[i].us * 9 / 100 < first then back == 0 else us - 13 <= back <= us)
  {
    hide Receive, Datagram, AfterAll, Fits, Steady, Carries, Gradual, Sound, TimeOf, FromTimestamp, ToTimestamp, ShiftOf;
    StampedCarries(run, moments);
    GradualIsSteady(moments);
    MediaRunArrives(l, run, recv, TruthOf(moments), i);
    var first := moments[0].us * 9 / 100 / 0x1_0000_0000 * 0x1_0000_0000;
    if moments[i].us - ShiftOf(first) < ERA {
      TimeReadsBack(moments[i].us, first);
    }
  }

  lemma CompoundIsRtcp(own: u32, cname: seq<byte>, lead: Rtcp.Packet, fbs: seq<Feedback>, bitmask: bool)
    requires Rtcp.IsReport(lead)
    ensures var b := Rtcp.EncodeAll(FeedbackPackets(own, cname, lead, fbs, bitmask)); |b| > 1 && IsRtcp(b)
  {
    hide NacksOf, EchoesOf;
    var packets := FeedbackPackets(own, cname, lead, fbs, bitmask);
    assert packets[0] == lead;
    LeadType(lead);
    var b := Rtcp.EncodeAll(packets);
    assert b[1] == Rtcp.Encode(lead)[1];
  }

  lemma LeadType(lead: Rtcp.Packet)
    requires Rtcp.IsReport(lead)
    ensures |Rtcp.Encode(lead)| > 1 && 200 <= Rtcp.Encode(lead)[1] <= 201
  {}

  /** Feedback end to end: a framed compound is told from media, opened, and read as in clear. */
  lemma FeedbackFrameArrives(own: u32, cname: seq<byte>, lead: Rtcp.Packet, fbs: seq<Feedback>, bitmask: bool,
                             seqNum: u32, ports: Gre.Reduced, size256: bool, key: Option<KeyView>, recv: Option<Receiver>)
    requires Rtcp.IsReport(lead) && KeysAgree(size256, key, recv) && !Exhausted(size256, key, recv)
    ensures var b := Rtcp.EncodeAll(FeedbackPackets(own, cname, lead, fbs, bitmask));
            MainRegion(Framed(b, seqNum, ports, size256, key), recv).1 == Success(Inner(b, true, key.Some?, ports))
  {
    hide MainRegion, Framed, IsRtcp, FeedbackPackets;
    CompoundIsRtcp(own, cname, lead, fbs, bitmask);
    FrameOpens(Rtcp.EncodeAll(FeedbackPackets(own, cname, lead, fbs, bitmask)), seqNum, ports, size256, key, recv);
  }

  // ---- The codec ----

  datatype Decoded = Media(packet: MediaPacket) | FeedbackList(fbs: seq<Feedback>) | Ignored(subtype: u16, body: seq<byte>)

  class MainCodec {
    const sendKey: Option<Key>
    const recvKey: Option<Decryptor>
    const keySize256: bool
    const ports: Gre.Reduced
    const dec: MediaDecoder
    const feedback: MainFeedbackCodec
    var greSeq: u32
    var npdEnabled: bool

    ghost predicate Valid()
      reads this, if sendKey.Some? then {sendKey.value} else {}, if recvKey.Some? then {recvKey.value} else {}
    {
      && (sendKey.Some? ==> sendKey.value.Valid() && sendKey.value.secret.password != [])
      && (recvKey.Some? ==> recvKey.value.Valid())
    }

    /** The key packets are now encrypted under. */
    ghost function View(): Option<KeyView>
      reads if sendKey.Some? then {sendKey.value} else {}
    {
      if sendKey.None? then None else Some(KeyView(sendKey.value.secret, sendKey.value.bits, sendKey.value.nonce))
    }

    ghost function Recv(): Option<Receiver>
      reads if recvKey.Some? then {recvKey.value} else {}
    {
      if recvKey.None? then None else Some(Receiver(recvKey.value.secret, recvKey.value.State()))
    }

    constructor (sendKey: Option<Key>, recvKey: Option<Decryptor>, keySize256: bool, ports: Gre.Reduced, npdEnabled: bool,
                 ssrc: u32, cname: seq<byte>)
      requires sendKey.Some? ==> sendKey.value.Valid() && sendKey.value.secret.password != []
      requires recvKey.Some? ==> recvKey.value.Valid()
      ensures Valid() && greSeq == 0 && this.npdEnabled == npdEnabled && this.ports == ports
      ensures this.sendKey == sendKey && this.recvKey == recvKey && this.keySize256 == keySize256
      ensures dec.State() == DecoderState(false, 0, 0) && feedback.ssrc == ssrc && feedback.cname == cname
    {
      this.sendKey, this.recvKey, this.keySize256, this.ports := sendKey, recvKey, keySize256, ports;
      this.npdEnabled, greSeq := npdEnabled, 0;
      dec := new MediaDecoder();
      feedback := new MainFeedbackCodec(ssrc, cname);
    }

    /** One datagram, under a GRE sequence of its own and the key then in force. */
    method Frame(inner: seq<byte>, draws: seq<Option<Nonce>>) returns (r: Result<seq<byte>, CodecError>)
      requires Valid() && |draws| == 8
      modifies this, if sendKey.Some? then {sendKey.value} else {}
      ensures Valid() && greSeq == WrapAdd32(old(greSeq), 1) && npdEnabled == old(npdEnabled)
      ensures r.Success? ==> r.value == Framed(inner, old(greSeq), ports, keySize256, View())
      ensures sendKey.None? ==> r.Success?
      ensures sendKey.Some? ==>
                var (after, failed) := EncStep(sendKey.value.Fixed(), old(sendKey.value.State()), draws);
                && sendKey.value.State() == after
                && match r case Failure(e) => failed.Some? && e == CryptoFailed(failed.value) case Success(_) => failed.None?
    {
      hide Apply, Derive, EncStep;
      var seqNum := greSeq;
      greSeq := WrapAdd32(greSeq, 1);
      var region := Gre.EncodeReduced(ports, inner);
      if sendKey.None? {
        return Success(Gre.Encode(DataHeader(seqNum, keySize256, None), region).value);
      }
      var ct := sendKey.value.Encrypt(draws, seqNum, region);
      if ct.Failure? {
        return Failure(CryptoFailed(ct.error));
      }
      var view := KeyView(sendKey.value.secret, sendKey.value.bits, sendKey.value.nonce);
      return Success(Gre.Encode(DataHeader(seqNum, keySize256, Some(view)), ct.value).value);
    }

    method EncodeMedia(pkt: MediaPacket, draws: seq<Option<Nonce>>) returns (r: Result<seq<byte>, CodecError>)
      requires Valid() && |draws| == 8
      modifies this, if sendKey.Some? then {sendKey.value} else {}
      ensures Valid() && greSeq == WrapAdd32(old(greSeq), 1)
      ensures r.Success? ==>
                r.value == Framed(MediaBytes(old(npdEnabled), pkt), old(greSeq), ports, keySize256, View())
      ensures sendKey.None? ==> r.Success?
      ensures sendKey.Some? ==>
                var (after, failed) := EncStep(sendKey.value.Fixed(), old(sendKey.value.State()), draws);
                && sendKey.value.State() == after
                && match r case Failure(e) => failed.Some? && e == CryptoFailed(failed.value) case Success(_) => failed.None?
    {
      hide Framed, Npd.Suppress, RtpTsFromSource, EncStep;
      var inner := BuildMediaRtp(pkt);
      r := Frame(inner, draws);
    }

    method BuildMediaRtp(pkt: MediaPacket) returns (inner: seq<byte>)
      ensures inner == MediaBytes(npdEnabled, pkt)
    {
      hide Npd.Suppress, RtpTsFromSource, Npd.EncodeExt, Rtp.Encode;
      MediaIsWellFormed(npdEnabled, pkt);
      if npdEnabled {
        var r := Npd.SuppressLoop(pkt.payload);
        if r.Success? && r.value.suppressed > 0 {
          var ext := Npd.EncodeExt(ExtFor(r.value.bits));
          return Rtp.Encode(Rtp.Packet(MediaHeader(pkt, Some(ext[4..])), r.value.payload, 0));
        }
      }
      return Rtp.Encode(Rtp.Packet(MediaHeader(pkt, None), pkt.payload, 0));
    }

    method Region(b: seq<byte>) returns (r: Result<Region, CodecError>)
      requires Valid()
      modifies if recvKey.Some? then {recvKey.value} else {}
      ensures Valid() && (Recv(), r) == MainRegion(b, old(Recv()))
    {
      hide Gre.Parse, Apply, Derive, Decrypted, Opened;
      var parsed := Gre.Parse(b);
      if parsed.Failure? {
        return Failure(GreFailed(parsed.error));
      }
      var (hdr, off) := parsed.value;
      if hdr.protType != Gre.PROTO_REDUCED && hdr.protType != Gre.PROTO_VSF {
        return Failure(NotReduced);
      }
      var region := b[off..];
      if hdr.hasKey {
        if recvKey.None? {
          return Failure(NoDecryptor);
        }
        recvKey.value.SetKeyBits(FromHBit(hdr.keySize256));
        var plain := recvKey.value.Decrypt(hdr.nonce, hdr.seqNum, region);
        if plain.Failure? {
          return Failure(CryptoFailed(plain.error));
        }
        region := plain.value;
      } else if recvKey.Some? {
        return Failure(NotEncrypted);
      }
      return Opened(region, hdr.protType == Gre.PROTO_VSF, hdr.hasKey);
    }

    method DecodeMediaMain(inner: seq<byte>, virtPorts: Gre.Reduced) returns (r: Result<MediaPacket, CodecError>)
      modifies dec
      ensures (dec.State(), r) == DecodeMedia(inner, virtPorts, old(dec.State()))
    {
      hide Rtp.Decode, WidenSeq, WidenTicks, TimeOf, Npd.Expand, Npd.ParseExt;
      var decoded := Rtp.Decode(inner);
      if decoded.Failure? {
        return Failure(RtpFailed(decoded.error));
      }
      var p := decoded.value;
      if p.header.version != Rtp.VERSION {
        return Failure(BadVersion(p.header.version));
      }
      var payload := Restore(p);
      if payload.Failure? {
        return Failure(payload.error);
      }
      var seq32, time := dec.Widen(p.header.sequenceNumber, p.header.timestamp);
      return Success(MediaPacket(seq32, time, Rtp.NormalizeSsrc(p.header.ssrc), payload.value,
                                 Rtp.IsRetransmit(p.header.ssrc), virtPorts));
    }

    method Restore(p: Rtp.Packet) returns (r: Result<seq<byte>, CodecError>)
      ensures r == Restored(p)
    {
      hide Npd.Expand, Npd.ParseExt;
      if p.header.extension && p.header.extensionProfile == Npd.IDENTIFIER && |p.header.extensionPayload| == 4 {
        var ext := Npd.ParseExt(Be16(Npd.IDENTIFIER) + Be16(Npd.LENGTH) + p.header.extensionPayload);
        if ext.Failure? {
          return Failure(NpdFailed(ext.error));
        }
        if ext.value.0.npd {
          var out := Npd.ExpandLoop(p.payload, Npd.NpdBits(ext.value.0.size204, ext.value.0.nullBitmap));
          return match out case Failure(e) => Failure(NpdFailed(e)) case Success(b) => Success(b);
        }
      }
      return Success(p.payload);
    }

    /** One datagram in: media, feedback or control, as the layers above say. */
    method Decode(b: seq<byte>, nackRef: u32) returns (r: Result<Decoded, CodecError>)
      requires Valid()
      modifies dec, feedback, if recvKey.Some? then {recvKey.value} else {}
      ensures Valid()
      ensures var (recv, region) := MainRegion(b, old(Recv()));
              && Recv() == recv
              && (region.Failure? ==> r == Failure(region.error) && dec.State() == old(dec.State()))
              && (region.Success? && region.value.Control? ==>
                    r == Success(Ignored(region.value.subtype, region.value.body)) && dec.State() == old(dec.State()))
              && (region.Success? && region.value.Inner? && !region.value.isRtcp ==>
                    var (next, m) := DecodeMedia(region.value.bytes, region.value.ports, old(dec.State()));
                    dec.State() == next && (match m case Failure(e) => r == Failure(e) case Success(p) => r == Success(Media(p))))
              && (region.Success? && region.value.Inner? && region.value.isRtcp ==>
                    dec.State() == old(dec.State())
                    && match DecodeFeedback(region.value.bytes, nackRef)
                       case Failure(e) => r == Failure(RtcpFailed(e))
                       case Success(fbs) => r == Success(FeedbackList(fbs)))
    {
      hide MainRegion, DecodeMedia, DecodeFeedback;
      var region := Region(b);
      if region.Failure? {
        return Failure(region.error);
      }
      match region.value {
        case Control(subtype, body) => return Success(Ignored(subtype, body));
        case Inner(inner, isRtcp, encrypted, virtPorts) =>
          if isRtcp {
            var fbs := feedback.DecodeFeedbackMain(inner, nackRef, encrypted);
            return match fbs case Failure(e) => Failure(RtcpFailed(e)) case Success(list) => Success(FeedbackList(list));
          }
          var m := DecodeMediaMain(inner, virtPorts);
          return match m case Failure(e) => Failure(e) case Success(p) => Success(Media(p));
      }
    }
  }
}
