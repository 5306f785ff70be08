/** Byte vectors that the repository's tests record (the golden tables of gre.rs, rtp.rs, rtcp.rs, npd.rs,
    adv.rs, eap.rs and crypto.rs), and a few values beside them. Round trips hold of any layout
    both ends share; these fix the layout and the constants of the wire. */
module Vectors {
  import opened Bytes
  import Clock
  import Gre
  import Rtp
  import Rtcp
  import Npd
  import AdvHeader
  import EapFrame
  import Crypto
  import Lpc
  import Modular
  import opened RtcpNack

  lemma Word(a: byte, b: byte, c: byte, d: byte)
    ensures Be32(Join32(a, b, c, d)) == [a, b, c, d]
  {
    var x := Join32(a, b, c, d);
    Digits(a, b, c, d);
    assert BigEndian(x / 0x100_0000, 1) == [a];
    assert BigEndian(x / 0x1_0000, 2) == [a, b];
    assert BigEndian(x / 0x100, 3) == [a, b, c];
  }

  lemma GreHeader(h: Gre.Header, a: byte, b: byte, c: byte, d: byte)
    requires h.version <= 7 && h.hasSeq && h.seqNum == Join32(a, b, c, d)
    ensures Gre.Encode(h, []).Success?
    ensures Gre.Encode(h, []).value
         == [Gre.Flags1(h), Gre.Flags2(h), h.protType / 0x100, h.protType % 0x100] + (if h.hasKey then h.nonce else []) + [a, b, c, d]
  {
    hide Be32;
    Word(a, b, c, d);
  }

  lemma GreHeaders()
    ensures var s, n := 0x0102_0304, [0xAA, 0xBB, 0xCC, 0xDD];
            var clear := Gre.Encode(Gre.Header(1, false, true, false, [0, 0, 0, 0], s, Gre.PROTO_REDUCED), []);
            var aes128 := Gre.Encode(Gre.Header(1, true, true, false, n, s, Gre.PROTO_REDUCED), []);
            var aes256 := Gre.Encode(Gre.Header(1, true, true, true, n, s, Gre.PROTO_REDUCED), []);
            var vsf := Gre.Encode(Gre.Header(2, false, true, false, [0, 0, 0, 0], s, Gre.PROTO_VSF), []);
            && clear.Success? && clear.value == [0x10, 0x08, 0x88, 0xB6, 1, 2, 3, 4]
            && aes128.Success? && aes128.value == [0x30, 0x08, 0x88, 0xB6, 0xAA, 0xBB, 0xCC, 0xDD, 1, 2, 3, 4]
            && aes256.Success? && aes256.value == [0x30, 0x48, 0x88, 0xB6, 0xAA, 0xBB, 0xCC, 0xDD, 1, 2, 3, 4]
            && vsf.Success? && vsf.value == [0x10, 0x10, 0xCC, 0xE0, 1, 2, 3, 4]
    ensures Gre.EncodeReduced(Gre.Reduced(1971, 1968), []) == [0x07, 0xB3, 0x07, 0xB0]
    ensures Gre.EncodeVsf(Gre.VSF_SUBTYPE_REDUCED, []) == [0, 0, 0, 0] && Gre.EncodeVsf(0x8000, []) == [0, 0, 0x80, 0]
  {
    hide Gre.Encode;
    var s, n := 0x0102_0304, [0xAA, 0xBB, 0xCC, 0xDD];
    GreHeader(Gre.Header(1, false, true, false, [0, 0, 0, 0], s, Gre.PROTO_REDUCED), 1, 2, 3, 4);
    GreHeader(Gre.Header(1, true, true, false, n, s, Gre.PROTO_REDUCED), 1, 2, 3, 4);
    GreHeader(Gre.Header(1, true, true, true, n, s, Gre.PROTO_REDUCED), 1, 2, 3, 4);
    GreHeader(Gre.Header(2, false, true, false, [0, 0, 0, 0], s, Gre.PROTO_VSF), 1, 2, 3, 4);
  }

  lemma Words(x: u32, b: seq<byte>)
    requires |b| == 4 && x == Join32(b[0], b[1], b[2], b[3])
    ensures Be32(x) == b
  {
    Word(b[0], b[1], b[2], b[3]);
    assert b == [b[0], b[1], b[2], b[3]];
  }

  // ---- RTP ----

  function RtpFixed(h: Rtp.Header, time: seq<byte>, ssrc: seq<byte>): seq<byte>
    requires Rtp.HeaderFault(h).None?
  {
    [Rtp.First(h), Rtp.Second(h), h.sequenceNumber / 0x100, h.sequenceNumber % 0x100] + time + ssrc
  }

  lemma RtpHeader(h: Rtp.Header, time: seq<byte>, ssrc: seq<byte>)
    requires Rtp.HeaderFault(h).None? && |time| == 4 && |ssrc| == 4
    requires h.timestamp == Join32(time[0], time[1], time[2], time[3])
    requires h.ssrc == Join32(ssrc[0], ssrc[1], ssrc[2], ssrc[3])
    ensures Rtp.Fixed(h) == RtpFixed(h, time, ssrc)
  {
    hide Be32;
    Words(h.timestamp, time);
    Words(h.ssrc, ssrc);
  }

  const PLAIN := Rtp.Header(2, false, false, 0, false, Rtp.PAYLOAD_TYPE_MPEGTS, 0x1234, 0xDEAD_BEEF, 0x4D4F_4F56, [], 0, [])

  lemma PlainRtp()
    ensures Rtp.HeaderFault(PLAIN).None?
    ensures Rtp.Encode(Rtp.Packet(PLAIN, [0x47, 0x11, 0x22, 0x33], 0))
         == [0x80, 0x21, 0x12, 0x34, 0xDE, 0xAD, 0xBE, 0xEF, 0x4D, 0x4F, 0x4F, 0x56, 0x47, 0x11, 0x22, 0x33]
    ensures Rtp.WireSsrc(0x4D4F_4F56, true) == 0x4D4F_4F57 && Rtp.WireSsrc(0x4D4F_4F56, false) == 0x4D4F_4F56
  {
    hide Be32, Rtp.Fixed;
    RtpHeader(PLAIN, [0xDE, 0xAD, 0xBE, 0xEF], [0x4D, 0x4F, 0x4F, 0x56]);
    assert Rtp.Fixed(PLAIN) == [0x80, 0x21, 0x12, 0x34, 0xDE, 0xAD, 0xBE, 0xEF, 0x4D, 0x4F, 0x4F, 0x56];
  }

  const LOADED := Rtp.Header(2, true, true, 2, true, 96, 0xFFFF, 0x0102_0304, 0x1122_3344, [0x5566_7788, 0x99AA_BBCC],
                             Npd.IDENTIFIER, [0x80, 0, 0xAB, 0xCD])

  /** Two sources, an extension and padding. */
  lemma LoadedRtp()
    ensures Rtp.HeaderFault(LOADED).None?
    ensures Rtp.Encode(Rtp.Packet(LOADED, [0xDE, 0xAD], 2))
         == [0xB2, 0xE0, 0xFF, 0xFF, 1, 2, 3, 4, 0x11, 0x22, 0x33, 0x44] + [0x55, 0x66, 0x77, 0x88, 0x99, 0xAA, 0xBB, 0xCC]
            + [0x52, 0x49, 0, 1, 0x80, 0, 0xAB, 0xCD] + [0xDE, 0xAD, 0, 2]
  {
    hide Be32, Rtp.Fixed, Rtp.EncodeWords;
    RtpHeader(LOADED, [1, 2, 3, 4], [0x11, 0x22, 0x33, 0x44]);
    assert Rtp.Fixed(LOADED) == [0xB2, 0xE0, 0xFF, 0xFF, 1, 2, 3, 4, 0x11, 0x22, 0x33, 0x44];
    TwoWords();
    assert Rtp.PaddingBytes(2) == [0, 2];
  }

  lemma TwoWords()
    ensures Rtp.EncodeWords([0x5566_7788, 0x99AA_BBCC]) == [0x55, 0x66, 0x77, 0x88, 0x99, 0xAA, 0xBB, 0xCC]
  {
    hide Be32;
    Words(0x5566_7788, [0x55, 0x66, 0x77, 0x88]);
    Words(0x99AA_BBCC, [0x99, 0xAA, 0xBB, 0xCC]);
    var w: seq<u32> := [0x5566_7788, 0x99AA_BBCC];
    assert w[1..] == [0x99AA_BBCC] && w[1..][1..] == [];
    assert Rtp.EncodeWords(w) == Be32(w[0]) + (Be32(w[1]) + []);
  }

  // ---- RTCP ----

  lemma EmptyReport()
    ensures Rtcp.Encode(Rtcp.EmptyReceiverReport(0xDEAD_BEEF))
         == [0x80, 0xC9, 0, 1, 0xDE, 0xAD, 0xBE, 0xEF]
  {
    hide Be32;
    Words(0xdeadbeef, [0xDE, 0xAD, 0xBE, 0xEF]);
  }

  lemma ShortName()
    ensures Rtcp.Encode(Rtcp.Sdes(0x1122_3344, [0x61, 0x62, 0x63, 0x64, 0x65]))
         == [0x81, 0xCA, 0, 3, 0x11, 0x22, 0x33, 0x44, 1, 5, 0x61, 0x62, 0x63, 0x64, 0x65, 0]
  {
    hide Be32;
    Words(0x11223344, [0x11, 0x22, 0x33, 0x44]);
  }

  lemma Extension()
    ensures Rtcp.Encode(Rtcp.ExtSeq(0xCAFE_BABE, 0x0102))
         == [0x81, 0xCC, 0, 3, 0xCA, 0xFE, 0xBA, 0xBE, 0x52, 0x49, 0x53, 0x54, 1, 2, 0, 0]
  {
    hide Be32;
    Words(0xcafebabe, [0xCA, 0xFE, 0xBA, 0xBE]);
    Words(0x52495354, [0x52, 0x49, 0x53, 0x54]);
  }

  lemma RangeRequest()
    ensures Rtcp.Encode(Rtcp.RangeNack(0xCAFE, [NackRange(100, 0), NackRange(200, 4)]))
         == [0x80, 0xCC, 0, 4, 0, 0, 0xCA, 0xFE, 0x52, 0x49, 0x53, 0x54, 0, 0x64, 0, 0, 0, 0xC8, 0, 4]
  {
    hide Be32;
    Words(0xcafe, [0, 0, 0xCA, 0xFE]);
    Words(0x52495354, [0x52, 0x49, 0x53, 0x54]);
  }

  /** How the remaining packets begin. */
  lemma ReportBeginnings()
    ensures Rtcp.Encode(Rtcp.SenderReport(0x1234_5678, 0x83AA_7E80_4000_0000, 0x0001_5180, 256, 8192))[..4] == [0x80, 0xC8, 0, 6]
    ensures Rtcp.Encode(Rtcp.ReceiverReport(1, 0xCAFE_BABE, 0x10, 0x0102, 0x0001_0003, 32, 0x7E80_4000, 0x0001_0000))[..4]
         == [0x81, 0xC9, 0, 7]
  {
    hide Be32, Be64;
  }

  lemma BitmaskBeginning()
    ensures Rtcp.Encode(Rtcp.BitmaskNack(0, 0xCAFE, [NackPair(1000, 5)]))[..4] == [0x81, 0xCD, 0, 3]
  {
    hide Be32, Rtcp.EncodeRecords;
  }

  lemma EchoBeginnings()
    ensures Rtcp.Encode(Rtcp.EchoRequest(0xBEEF, 0xE3D1_5C00_8000_0000, []))[..4] == [0x82, 0xCC, 0, 5]
    ensures Rtcp.Encode(Rtcp.EchoResponse(0xBEEF, 0xE3D1_5C00_8000_0000, 1500, []))[..4] == [0x83, 0xCC, 0, 5]
  {
    hide Be32, Be64;
  }

  lemma Losses()
    ensures Rtcp.Loss(0x10, 0x0102) == 0x1000_0102
    ensures Rtcp.EncodeRecords([NackPair(1000, 5)], Rtcp.SplitPair) == [3, 0xE8, 0, 5]
  {}

  // ---- The rest ----

  /** One second, half of one, and the start of the second era. */
  lemma NtpTimes()
    ensures Clock.FromTimestamp(1_000_000) == 0x1_0000_0000 && Clock.FromTimestamp(500_000) == 0x8000_0000
    ensures Clock.FromTimestamp(4_294_967_296_000_000) == 0
    ensures Clock.ToTimestamp(0x1_8000_0000) == 1_500_000
  {}

  /** A header without a key is read with no nonce. */
  lemma GreClear()
    ensures var r := Gre.Parse([0x10, 0x08, 0x88, 0xB6, 1, 2, 3, 4]);
            r.Success? && r.value.1 == 8 && r.value.0.nonce == [0, 0, 0, 0] && !r.value.0.hasKey && r.value.0.version == 1
  {}

  lemma NullMap()
    ensures Npd.EncodeExt(Npd.Ext(true, false, 0x50, 0x1234)) == [0x52, 0x49, 0, 1, 0x80, 0x50, 0x12, 0x34]
    ensures Npd.EncodeExt(Npd.Ext(true, true, 0x40, 0xABCD)) == [0x52, 0x49, 0, 1, 0x80, 0xC0, 0xAB, 0xCD]
    ensures Npd.EncodeExt(Npd.Ext(false, false, 0, 0)) == [0x52, 0x49, 0, 1, 0, 0, 0, 0]
    ensures Npd.EncodeExt(Npd.Ext(true, false, 0xFF, 1)) == [0x52, 0x49, 0, 1, 0x80, 0x7F, 0, 1]
  {}

  lemma CounterStart()
    ensures Crypto.BuildIv(0x0A0B_0C0D) == [0x0A, 0x0B, 0x0C, 0x0D, 0, 0, 0, 0, 0, 0, 0, 0, 0, 0, 0, 0]
  {
    Words(0x0A0B_0C0D, [0x0A, 0x0B, 0x0C, 0x0D]);
  }

  lemma AdvClear()
    ensures var p := AdvHeader.Params(0x1234_5678, 1_000_000, 0xAABB_CC00, 5, 0, 0, true, true, false, false, None, None, None,
                                      None, None, None, []);
            AdvHeader.Build(p, [0xDE, 0xAD]).Success?
            && AdvHeader.Build(p, [0xDE, 0xAD]).value
               == [0x80, 0x7F, 0x56, 0x78, 0, 0x0F, 0x42, 0x40, 0xAA, 0xBB, 0xCC, 0, 0x12, 0x34, 0xC0, 5, 0xDE, 0xAD]
  {
    hide Be32;
    Words(1_000_000, [0, 0x0F, 0x42, 0x40]);
    Words(0xAABB_CC00, [0xAA, 0xBB, 0xCC, 0]);
  }

  const ENCRYPTED := AdvHeader.Params(1, 0, 0x10, 5, 1, 0, true, true, false, false, None, None, Some([0x11, 0x11, 0x11, 0x11]),
                                      Some([0x22, 0x22, 0x22, 0x22]), None, None, [])

  lemma AdvFields()
    ensures AdvHeader.Optional(ENCRYPTED, [0x42]) == [0x11, 0x11, 0x11, 0x11, 0x22, 0x22, 0x22, 0x22, 0x42]
  {}

  lemma AdvEncrypted()
    ensures AdvHeader.FlagsByte(ENCRYPTED) == 0xC0 && AdvHeader.ParamsByte(ENCRYPTED) == 0x45
  {}

  /** The match finder's hash at two values. */
  lemma HashValues()
    ensures Lpc.Hash(1) == 2531 && Lpc.Hash(0x10_0000) == 2481
  {}

  /** A frame of version 3 with nothing in it yet. */
  function Blank(code: EapFrame.Code, id: byte, kind: EapFrame.Kind): EapFrame.Frame {
    EapFrame.DEFAULT.(version := 3, code := code, identifier := id, kind := kind)
  }

  lemma Openings()
    ensures EapFrame.Encode(Blank(EapFrame.Request, 0, EapFrame.Start)) == [3, 1, 0, 0]
    ensures EapFrame.Encode(Blank(EapFrame.Request, 0, EapFrame.Logoff)) == [3, 2, 0, 0]
    ensures EapFrame.Encode(Blank(EapFrame.Request, 0x11, EapFrame.IdentityRequest)) == [3, 0, 0, 5, 1, 0x11, 0, 5, 1]
    ensures EapFrame.Encode(Blank(EapFrame.FailureCode, 0x24, EapFrame.EapFailure)) == [3, 0, 0, 4, 4, 0x24, 0, 4]
  {}

  /** What the passphrase exchange puts behind the header. */
  lemma PassphraseFrames(secret: seq<byte>)
    ensures EapFrame.EncodeBody(Blank(EapFrame.Request, 1, EapFrame.PassphraseRequest)) == [0x13, 0x10]
    ensures EapFrame.EncodeBody(Blank(EapFrame.Response, 1, EapFrame.PassphraseResponse).(ppUseKey := true)) == [0x13, 0x10, 0x80]
    ensures EapFrame.EncodeBody(Blank(EapFrame.Response, 1, EapFrame.PassphraseResponse).(passphrase := secret))
         == [0x13, 0x10, 0x40] + secret
    ensures EapFrame.EncodeBody(Blank(EapFrame.SuccessCode, 1, EapFrame.EapSuccess)) == [0, 0]
  {}

  lemma IdentityFrame()
    ensures EapFrame.Encode(Blank(EapFrame.Response, 0x11, EapFrame.IdentityResponse).(username := [0x72, 0x69, 0x73, 0x74]))
         == [3, 0, 0, 9, 2, 0x11, 0, 9, 1, 0x72, 0x69, 0x73, 0x74]
  {}

  lemma ChallengeFrame()
    ensures EapFrame.EncodeBody(Blank(EapFrame.Request, 0x22, EapFrame.Challenge).(salt := [0xAA, 0xBB, 0xCC, 0xDD]))
         == [0x13, 1, 0, 0, 0, 4, 0xAA, 0xBB, 0xCC, 0xDD, 0, 0]
  {}

  lemma KeyFrames()
    ensures EapFrame.EncodeBody(Blank(EapFrame.Response, 0x22, EapFrame.ClientKey).(public := [1, 2, 3])) == [0x13, 1, 1, 2, 3]
    ensures EapFrame.EncodeBody(Blank(EapFrame.Request, 0x23, EapFrame.ServerKey).(public := [1, 2, 3])) == [0x13, 2, 1, 2, 3]
  {}

  lemma ProofFrames(proof: seq<byte>)
    ensures EapFrame.EncodeBody(Blank(EapFrame.Response, 0x23, EapFrame.ClientValidator).(proof := proof))
         == [0x13, 2, 0, 0, 0, 0] + proof
    ensures EapFrame.EncodeBody(Blank(EapFrame.Request, 0x24, EapFrame.ServerValidator).(proof := proof))
         == [0x13, 3, 0, 0, 0, 0] + proof
  {}
}
