/** The GRE framing of gre.rs: base header, reduced-overhead ports and the VSF wrapper. */
module Gre {
  import opened Bytes
  import opened Crypto

  const PROTO_REDUCED: u16 := 0x88B6
  const PROTO_VSF: u16 := 0xCCE0
  const VSF_TYPE_RIST: u16 := 0
  const VSF_SUBTYPE_REDUCED: u16 := 0
  const VERSION_MIN: byte := 1
  const BASE_HEADER_SIZE := 4
  const REDUCED_HEADER_SIZE := 4
  const VSF_PROTO_SIZE := 4

  const NO_NONCE: Nonce := [0, 0, 0, 0]

  datatype Header = Header(version: byte, hasKey: bool, hasSeq: bool, keySize256: bool, nonce: Nonce, seqNum: u32,
                           protType: u16)

  datatype Reduced = Reduced(srcPort: u16, dstPort: u16)

  datatype VsfProto = VsfProto(ty: u16, subtype: u16)

  datatype GreError =
    | ShortBuffer(got: nat, need: nat)
    | NonConformant(flags1: byte, flags2: byte)
    | UnsupportedVsfProto(ty: u16)
    | VersionTooLarge(version: byte)

  function Size(h: Header): nat {
    BASE_HEADER_SIZE + (if h.hasKey then 4 else 0) + if h.hasSeq then 4 else 0
  }

  function Flags1(h: Header): byte {
    (if h.hasKey then 0x20 else 0) + if h.hasSeq then 0x10 else 0
  }

  function Flags2(h: Header): byte
    requires h.version <= 7
  {
    h.version * 8 + if h.hasKey && h.keySize256 then 0x40 else 0
  }

  function Fields(h: Header, rest: seq<byte>): seq<byte> {
    (if h.hasKey then h.nonce else []) + ((if h.hasSeq then Be32(h.seqNum) else []) + rest)
  }

  /** The header in front of `rest`. */
  function Encode(h: Header, rest: seq<byte>): Result<seq<byte>, GreError> {
    if h.version > 7 then Failure(VersionTooLarge(h.version))
    else Success([Flags1(h), Flags2(h)] + (Be16(h.protType) + Fields(h, rest)))
  }

  /** Four bytes are skipped for a checksum, which is never sent. */
  function Parse(b: seq<byte>): (r: Result<(Header, nat), GreError>)
    ensures r.Success? ==> r.value.1 <= |b|
  {
    if |b| < BASE_HEADER_SIZE then Failure(ShortBuffer(|b|, BASE_HEADER_SIZE))
    else if b[0] / 0x40 % 2 == 1 || b[1] % 8 != 0 then Failure(NonConformant(b[0], b[1]))
    else
      var hasKey := b[0] / 0x20 % 2 == 1;
      var hasSeq := b[0] / 0x10 % 2 == 1;
      var start := BASE_HEADER_SIZE + if b[0] / 0x80 == 1 then 4 else 0;
      var afterKey := start + if hasKey then 4 else 0;
      var need := afterKey + if hasSeq then 4 else 0;
      if |b| < need then Failure(ShortBuffer(|b|, need))
      else
        Success((Header(b[1] / 8 % 8, hasKey, hasSeq, hasKey && b[1] / 0x40 % 2 == 1,
                        if hasKey then b[start..start + 4] else NO_NONCE,
                        if hasSeq then Get32(b, afterKey) else 0,
                        Get16(b, 2)), need))
  }

  /** Which headers are read, and how the others are refused: for reserved bits, or for being shorter than
      what their flags announce. */
  lemma ParseRules(b: seq<byte>)
    ensures Parse(b).Success?
       <==> && |b| >= 4 && b[0] / 0x40 % 2 == 0 && b[1] % 8 == 0
            && |b| >= 4 + (if b[0] >= 0x80 then 4 else 0) + (if b[0] % 0x40 >= 0x20 then 4 else 0)
                        + if b[0] % 0x20 >= 0x10 then 4 else 0
    ensures Parse(b).Failure? ==>
              if |b| >= 4 && (b[0] % 0x80 >= 0x40 || b[1] % 8 > 0) then Parse(b).error == NonConformant(b[0], b[1])
              else Parse(b).error.ShortBuffer? && Parse(b).error.got == |b| < Parse(b).error.need <= 16
  {
    hide Get16, Get32;
  }

  /** Versions that leave bit 6 of the second octet free; nothing in the fields that are not sent. */
  predicate WellFormed(h: Header) {
    && h.version <= 7
    && (!h.hasKey ==> !h.keySize256 && h.nonce == NO_NONCE)
    && (!h.hasSeq ==> h.seqNum == 0)
  }

  lemma FlagsReadBack(h: Header)
    requires h.version <= 7
    ensures var f, g := Flags1(h), Flags2(h);
            && f / 0x80 == 0 && f / 0x40 % 2 == 0 && (f / 0x20 % 2 == 1 <==> h.hasKey) && (f / 0x10 % 2 == 1 <==> h.hasSeq)
            && g % 8 == 0 && g / 8 % 8 == h.version
            && (h.hasKey ==> (g / 0x40 % 2 == 1 <==> h.keySize256))
  {}

  lemma FieldsReadBack(b: seq<byte>, h: Header, rest: seq<byte>)
    requires 4 <= |b| && b[4..] == Fields(h, rest)
    ensures Size(h) <= |b| && b[Size(h)..] == rest
    ensures h.hasKey ==> b[4..8] == h.nonce
    ensures h.hasSeq ==> Get32(b, Size(h) - 4) == h.seqNum
  {
    hide Be32, Get32;
    var o := if h.hasKey then 8 else 4;
    var tail := (if h.hasSeq then Be32(h.seqNum) else []) + rest;
    assert |b[4..]| == |Fields(h, rest)|;
    assert h.hasKey ==> b[4..8] == b[4..][..4];
    assert b[o..] == b[4..][o - 4..] == tail;
    if h.hasSeq {
      Take32(b, o, h.seqNum, rest);
    } else {
      assert tail == rest;
    }
  }

  /** Every well-formed header is read back, whatever follows it, and takes exactly its size. */
  lemma ParseOfEncode(h: Header, rest: seq<byte>)
    requires WellFormed(h)
    ensures Encode(h, rest).Success? && Parse(Encode(h, rest).value) == Success((h, Size(h)))
    ensures Encode(h, rest).value[Size(h)..] == rest
  {
    hide Be16, Get16, Get32, Be32, Flags1, Flags2, Fields;
    var b := Encode(h, rest).value;
    FlagsReadBack(h);
    assert b[2..] == Be16(h.protType) + Fields(h, rest);
    Take16(b, 2, h.protType, Fields(h, rest));
    FieldsReadBack(b, h, rest);
  }

  /** A checksum is skipped: with its bit and four more bytes the header is read the same. */
  lemma ChecksumIsSkipped(h: Header, checksum: seq<byte>, rest: seq<byte>)
    requires WellFormed(h) && |checksum| == 4
    ensures var b := [0x80 + Flags1(h), Flags2(h)] + (Be16(h.protType) + (checksum + Fields(h, rest)));
            Parse(b) == Success((h, Size(h) + 4)) && b[Size(h) + 4..] == rest
  {
    hide Be16, Get16, Get32, Be32, Flags1, Flags2;
    FlagsReadBack(h);
    FlagsFit(h);
    var b := [0x80 + Flags1(h), Flags2(h)] + (Be16(h.protType) + (checksum + Fields(h, rest)));
    var o := if h.hasKey then 12 else 8;
    assert b[2..] == Be16(h.protType) + (checksum + Fields(h, rest));
    Take16(b, 2, h.protType, checksum + Fields(h, rest));
    assert b[8..] == Fields(h, rest);
    if h.hasKey {
      assert b[8..12] == h.nonce && b[12..] == (if h.hasSeq then Be32(h.seqNum) else []) + rest;
    }
    if h.hasSeq {
      Take32(b, o, h.seqNum, rest);
    }
  }

  lemma FlagsFit(h: Header)
    ensures Flags1(h) < 0x40
    ensures (0x80 + Flags1(h)) / 0x40 % 2 == 0 && (0x80 + Flags1(h)) / 0x80 == 1
    ensures (0x80 + Flags1(h)) / 0x20 % 2 == Flags1(h) / 0x20 % 2 && (0x80 + Flags1(h)) / 0x10 % 2 == Flags1(h) / 0x10 % 2
  {}

  /** What was accepted can be sent again, without the checksum, and is read back the same. */
  lemma ParsedIsWellFormed(b: seq<byte>)
    requires Parse(b).Success?
    ensures WellFormed(Parse(b).value.0)
    ensures Size(Parse(b).value.0) == Parse(b).value.1 - if b[0] / 0x80 == 1 then 4 else 0
  {
    hide Get16, Get32;
  }

  function EncodeReduced(r: Reduced, rest: seq<byte>): seq<byte> {
    Be16(r.srcPort) + (Be16(r.dstPort) + rest)
  }

  function ParseReduced(b: seq<byte>): Result<(Reduced, nat), GreError> {
    if |b| < REDUCED_HEADER_SIZE then Failure(ShortBuffer(|b|, REDUCED_HEADER_SIZE))
    else Success((Reduced(Get16(b, 0), Get16(b, 2)), REDUCED_HEADER_SIZE))
  }

  lemma ParseOfReduced(r: Reduced, rest: seq<byte>)
    ensures ParseReduced(EncodeReduced(r, rest)) == Success((r, REDUCED_HEADER_SIZE))
    ensures EncodeReduced(r, rest)[REDUCED_HEADER_SIZE..] == rest
  {
    hide Be16, Get16;
    var b := EncodeReduced(r, rest);
    assert b[0..] == b;
    Take16(b, 0, r.srcPort, Be16(r.dstPort) + rest);
    Take16(b, 2, r.dstPort, rest);
  }

  function EncodeVsf(subtype: u16, rest: seq<byte>): seq<byte> {
    Be16(VSF_TYPE_RIST) + (Be16(subtype) + rest)
  }

  function ParseVsf(b: seq<byte>): Result<(VsfProto, nat), GreError> {
    if |b| < VSF_PROTO_SIZE then Failure(ShortBuffer(|b|, VSF_PROTO_SIZE))
    else if Get16(b, 0) != VSF_TYPE_RIST then Failure(UnsupportedVsfProto(Get16(b, 0)))
    else Success((VsfProto(Get16(b, 0), Get16(b, 2)), VSF_PROTO_SIZE))
  }

  lemma ParseOfVsf(subtype: u16, rest: seq<byte>)
    ensures ParseVsf(EncodeVsf(subtype, rest)) == Success((VsfProto(VSF_TYPE_RIST, subtype), VSF_PROTO_SIZE))
    ensures EncodeVsf(subtype, rest)[VSF_PROTO_SIZE..] == rest
  {
    hide Be16, Get16;
    var b := EncodeVsf(subtype, rest);
    assert b[0..] == b;
    Take16(b, 0, VSF_TYPE_RIST, Be16(subtype) + rest);
    Take16(b, 2, subtype, rest);
  }
}
