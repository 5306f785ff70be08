/** The RTP packets of rtp.rs (RFC 3550 section 5.1), and the retransmission mark in the SSRC. */
module Rtp {
  import opened Bytes
  import Modular

  const VERSION: byte := 2
  const FIXED_HEADER_SIZE := 12
  const MAX_CSRC := 15
  const PAYLOAD_TYPE_MPEGTS: byte := 0x21

  datatype Header = Header(
    version: byte, padding: bool, extension: bool, csrcCount: byte, marker: bool, payloadType: byte,
    sequenceNumber: u16, timestamp: u32, ssrc: u32, csrc: seq<u32>, extensionProfile: u16,
    extensionPayload: seq<byte>)

  datatype Packet = Packet(header: Header, payload: seq<byte>, paddingSize: byte)

  datatype RtpError =
    | HeaderTooShort(got: nat, need: nat)
    | ExtensionTooShort(got: nat, need: nat)
    | PacketTooShort
    | InvalidPadding
    | ShortBuffer(got: nat, need: nat)
    | InvalidVersion
    | TooManyCsrc
    | ExtensionNotAligned
    | ExtensionTooLong

  // ---- Encoding ----

  function HeaderSize(h: Header): nat {
    FIXED_HEADER_SIZE + 4 * |h.csrc| + if h.extension then 4 + |h.extensionPayload| else 0
  }

  function MarshalSize(p: Packet): nat {
    HeaderSize(p.header) + |p.payload| + p.paddingSize
  }

  function HeaderFault(h: Header): Option<RtpError> {
    if h.version > 3 then Some(InvalidVersion)
    else if |h.csrc| > MAX_CSRC then Some(TooManyCsrc)
    else if h.extension && |h.extensionPayload| % 4 != 0 then Some(ExtensionNotAligned)
    else if h.extension && |h.extensionPayload| / 4 > 0xFFFF then Some(ExtensionTooLong)
    else None
  }

  /** Why a packet cannot be written into `room` bytes, if it cannot. */
  function Fault(p: Packet, room: nat): Option<RtpError> {
    if p.header.padding != (p.paddingSize > 0) then Some(InvalidPadding)
    else if room < MarshalSize(p) then Some(ShortBuffer(room, MarshalSize(p)))
    else HeaderFault(p.header)
  }

  function First(h: Header): (r: byte)
    requires HeaderFault(h).None?
  {
    h.version * 0x40 + (if h.padding then 0x20 else 0) + (if h.extension then 0x10 else 0) + |h.csrc|
  }

  function Second(h: Header): (r: byte) {
    h.payloadType % 0x80 + if h.marker then 0x80 else 0
  }

  function EncodeWords(words: seq<u32>): (r: seq<byte>)
    ensures |r| == 4 * |words|
  {
    if words == [] then [] else Be32(words[0]) + EncodeWords(words[1..])
  }

  function EncodeExtension(h: Header): (r: seq<byte>)
    requires HeaderFault(h).None?
    ensures |r| == if h.extension then 4 + |h.extensionPayload| else 0
  {
    if h.extension then Be16(h.extensionProfile) + (Be16(|h.extensionPayload| / 4) + h.extensionPayload) else []
  }

  /** The twelve bytes every header starts with. */
  function Fixed(h: Header): (r: seq<byte>)
    requires HeaderFault(h).None?
    ensures |r| == FIXED_HEADER_SIZE
  {
    [First(h), Second(h)] + (Be16(h.sequenceNumber) + (Be32(h.timestamp) + Be32(h.ssrc)))
  }

  function EncodeHeader(h: Header, rest: seq<byte>): (r: seq<byte>)
    requires HeaderFault(h).None?
    ensures |r| == HeaderSize(h) + |rest|
  {
    Fixed(h) + (EncodeWords(h.csrc) + (EncodeExtension(h) + rest))
  }

  function PaddingBytes(n: byte): (r: seq<byte>)
    ensures |r| == n
  {
    if n == 0 then [] else Modular.Zeros(n - 1) + [n]
  }

  function Encode(p: Packet): (r: seq<byte>)
    requires HeaderFault(p.header).None?
    ensures |r| == MarshalSize(p)
  {
    EncodeHeader(p.header, p.payload + PaddingBytes(p.paddingSize))
  }

  /** A packet is refused for padding that its header does not announce, or announces in vain, for a
      buffer too short for it, and for a header that does not fit; and for nothing else. */
  lemma FaultRules(p: Packet, room: nat)
    ensures Fault(p, room).None? <==> && (p.header.padding <==> p.paddingSize > 0) && room >= MarshalSize(p)
                                      && p.header.version <= 3 && |p.header.csrc| <= 15
                                      && (p.header.extension ==> |p.header.extensionPayload| % 4 == 0
                                                                 && |p.header.extensionPayload| < 0x4_0000)
    ensures Fault(p, room) == Some(InvalidPadding) <==> (p.header.padding != (p.paddingSize > 0))
    ensures forall got, need :: Fault(p, room) == Some(ShortBuffer(got, need)) ==> got == room < need == MarshalSize(p)
  {}

  // ---- Decoding ----

  function DecodeWords(b: seq<byte>, o: nat, n: nat): (r: seq<u32>)
    requires o + 4 * n <= |b|
    ensures |r| == n
    decreases n
  {
    if n == 0 then [] else [Get32(b, o)] + DecodeWords(b, o + 4, n - 1)
  }

  function DecodeExtension(b: seq<byte>, h: Header, n: nat): (r: Result<(Header, nat), RtpError>)
    requires n <= |b|
    ensures r.Success? ==> n <= r.value.1 <= |b|
  {
    if !h.extension then Success((h, n))
    else if |b| < n + 4 then Failure(ExtensionTooShort(|b|, n + 4))
    else
      var extLen := Get16(b, n + 2) * 4;
      if |b| < n + 4 + extLen then Failure(ExtensionTooShort(|b|, n + 4 + extLen))
      else Success((h.(extensionProfile := Get16(b, n), extensionPayload := b[n + 4..n + 4 + extLen]), n + 4 + extLen))
  }

  function DecodeHeader(b: seq<byte>): (r: Result<(Header, nat), RtpError>)
    ensures r.Success? ==> r.value.1 <= |b|
  {
    if |b| < FIXED_HEADER_SIZE then Failure(HeaderTooShort(|b|, FIXED_HEADER_SIZE))
    else
      var count := b[0] % 0x10;
      var n := FIXED_HEADER_SIZE + count * 4;
      if |b| < n then Failure(HeaderTooShort(|b|, n))
      else
        var h := Header(b[0] / 0x40, b[0] / 0x20 % 2 == 1, b[0] / 0x10 % 2 == 1, count, b[1] / 0x80 == 1, b[1] % 0x80,
                        Get16(b, 2), Get32(b, 4), Get32(b, 8), DecodeWords(b, 12, count), 0, []);
        DecodeExtension(b, h, n)
  }

  function Decode(b: seq<byte>): Result<Packet, RtpError> {
    match DecodeHeader(b)
    case Failure(e) => Failure(e)
    case Success((h, n)) =>
      if !h.padding then Success(Packet(h, b[n..], 0))
      else if |b| <= n then Failure(PacketTooShort)
      else
        var pad := b[|b| - 1];
        if pad == 0 || pad > |b| - n then Failure(InvalidPadding)
        else Success(Packet(h, b[n..|b| - pad], pad))
  }

  /** A header is refused only for being shorter than what it announces, and the refusal says so. */
  lemma ShortHeaders(b: seq<byte>)
    ensures var r := DecodeHeader(b);
            r.Failure? ==> (r.error.HeaderTooShort? || r.error.ExtensionTooShort?) && r.error.got == |b| < r.error.need
  {
    hide Get32, Get16, DecodeWords;
  }

  /** Padding is refused when there is no byte for its length, or when it is none or more than there is. */
  lemma PaddingRules(b: seq<byte>)
    requires DecodeHeader(b).Success?
    ensures var (h, n) := DecodeHeader(b).value;
            && (!h.padding ==> Decode(b) == Success(Packet(h, b[n..], 0)))
            && (h.padding && |b| == n ==> Decode(b) == Failure(PacketTooShort))
            && (h.padding && |b| > n ==>
                  var last := b[|b| - 1];
                  Decode(b) == if 1 <= last <= |b| - n then Success(Packet(h, b[n..|b| - last], last)) else Failure(InvalidPadding))
  {
    hide DecodeHeader;
  }

  // ---- Round trip ----

  /** What the wire can carry: fields that fit, and nothing in the fields that are not sent. */
  predicate WellFormed(p: Packet) {
    Received(p.header) && p.header.padding == (p.paddingSize > 0)
  }

  lemma TakeSlice(b: seq<byte>, o: nat, piece: seq<byte>, tail: seq<byte>)
    requires o <= |b| && b[o..] == piece + tail
    ensures o + |piece| <= |b| && b[o..o + |piece|] == piece && b[o + |piece|..] == tail
  {
    assert |b[o..]| == |piece| + |tail|;
    assert b[o..o + |piece|] == b[o..][..|piece|] && b[o + |piece|..] == b[o..][|piece|..];
  }

  lemma {:induction false} WordsReadBack(b: seq<byte>, o: nat, words: seq<u32>, tail: seq<byte>)
    requires o <= |b| && b[o..] == EncodeWords(words) + tail
    ensures o + 4 * |words| <= |b| && DecodeWords(b, o, |words|) == words && b[o + 4 * |words|..] == tail
    decreases |words|
  {
    hide Be32, Get32;
    if words != [] {
      Associate(Be32(words[0]), EncodeWords(words[1..]), tail);
      Take32(b, o, words[0], EncodeWords(words[1..]) + tail);
      WordsReadBack(b, o + 4, words[1..], tail);
      assert [words[0]] + words[1..] == words;
    } else {
      assert b[o..] == tail;
    }
  }

  lemma FirstReadsBack(h: Header)
    requires HeaderFault(h).None?
    ensures var f := First(h);
            f / 0x40 == h.version && (f / 0x20 % 2 == 1 <==> h.padding) && (f / 0x10 % 2 == 1 <==> h.extension)
            && f % 0x10 == |h.csrc|
    ensures Second(h) / 0x80 == 1 <==> h.marker
    ensures Second(h) % 0x80 == h.payloadType % 0x80
  {}

  lemma ExtensionReadsBack(b: seq<byte>, h: Header, bare: Header, n: nat, rest: seq<byte>)
    requires HeaderFault(h).None? && n <= |b| && b[n..] == EncodeExtension(h) + rest
    requires bare == h.(extensionProfile := 0, extensionPayload := [])
    requires !h.extension ==> bare == h
    ensures DecodeExtension(b, bare, n) == Success((h, n + |EncodeExtension(h)|))
    ensures b[n + |EncodeExtension(h)|..] == rest
  {
    hide Be16, Get16;
    if h.extension {
      var x := h.extensionPayload;
      assert b[n..] == Be16(h.extensionProfile) + (Be16(|x| / 4) + (x + rest));
      Take16(b, n, h.extensionProfile, Be16(|x| / 4) + (x + rest));
      Take16(b, n + 2, |x| / 4, x + rest);
      TakeSlice(b, n + 4, x, rest);
    }
  }

  lemma FixedReadsBack(b: seq<byte>, h: Header, tail: seq<byte>)
    requires HeaderFault(h).None? && b == Fixed(h) + tail
    ensures |b| >= 12 && b[0] == First(h) && b[1] == Second(h) && Get16(b, 2) == h.sequenceNumber
            && Get32(b, 4) == h.timestamp && Get32(b, 8) == h.ssrc && b[12..] == tail
  {
    hide Be16, Be32, Get16, Get32, First, Second;
    var t3 := Be32(h.ssrc) + tail;
    var t2 := Be32(h.timestamp) + t3;
    assert b[2..] == Be16(h.sequenceNumber) + t2;
    Take16(b, 2, h.sequenceNumber, t2);
    Take32(b, 4, h.timestamp, t3);
    Take32(b, 8, h.ssrc, tail);
  }

  lemma HeaderReadsBack(h: Header, rest: seq<byte>)
    requires HeaderFault(h).None? && h.csrcCount == |h.csrc| && h.payloadType < 0x80
    requires !h.extension ==> h.extensionProfile == 0 && h.extensionPayload == []
    ensures DecodeHeader(EncodeHeader(h, rest)) == Success((h, HeaderSize(h)))
    ensures EncodeHeader(h, rest)[HeaderSize(h)..] == rest
  {
    hide Be16, Be32, Get16, Get32, Fixed, EncodeExtension, DecodeExtension;
    var b := EncodeHeader(h, rest);
    var t5 := EncodeExtension(h) + rest;
    FixedReadsBack(b, h, EncodeWords(h.csrc) + t5);
    WordsReadBack(b, 12, h.csrc, t5);
    FirstReadsBack(h);
    ExtensionReadsBack(b, h, h.(extensionProfile := 0, extensionPayload := []), 12 + 4 * |h.csrc|, rest);
  }

  /** Every well-formed packet is read back whole. */
  lemma DecodeOfEncode(p: Packet)
    requires WellFormed(p)
    ensures Decode(Encode(p)) == Success(p)
  {
    hide EncodeHeader, DecodeHeader, HeaderFault;
    var rest := p.payload + PaddingBytes(p.paddingSize);
    HeaderReadsBack(p.header, rest);
    var b := Encode(p);
    var n := HeaderSize(p.header);
    assert b[n..] == rest;
    if p.paddingSize > 0 {
      assert b[|b| - 1] == rest[|rest| - 1] == p.paddingSize;
      assert b[n..|b| - p.paddingSize] == rest[..|p.payload|];
    } else {
      assert rest == p.payload;
    }
  }

  lemma {:induction false} WordsWriteBack(b: seq<byte>, o: nat, n: nat)
    requires o + 4 * n <= |b|
    ensures EncodeWords(DecodeWords(b, o, n)) == b[o..o + 4 * n]
    decreases n
  {
    hide Be32, Get32;
    if n > 0 {
      WordsWriteBack(b, o + 4, n - 1);
      Be32OfGet32(b, o);
      assert b[o..o + 4 * n] == b[o..o + 4] + b[o + 4..o + 4 * n];
    }
  }

  lemma FlagsWriteBack(x: byte, y: byte)
    ensures x / 0x40 * 0x40 + (if x / 0x20 % 2 == 1 then 0x20 else 0) + (if x / 0x10 % 2 == 1 then 0x10 else 0) + x % 0x10 == x
    ensures y % 0x80 % 0x80 + (if y / 0x80 == 1 then 0x80 else 0) == y
  {}

  lemma Together(b: seq<byte>, i: nat, j: nat, k: nat)
    requires i <= j <= k <= |b|
    ensures b[i..j] + b[j..k] == b[i..k]
  {}

  lemma FixedWritesBack(b: seq<byte>, h: Header)
    requires |b| >= 12 && HeaderFault(h).None?
    requires First(h) == b[0] && Second(h) == b[1] && h.sequenceNumber == Get16(b, 2)
    requires h.timestamp == Get32(b, 4) && h.ssrc == Get32(b, 8)
    ensures Fixed(h) == b[..12]
  {
    hide Be16, Be32, Get16, Get32, First, Second;
    Be16OfGet16(b, 2);
    Be32OfGet32(b, 4);
    Be32OfGet32(b, 8);
    Together(b, 4, 8, 12);
    Together(b, 2, 4, 12);
    assert [b[0], b[1]] + b[2..12] == b[..12];
  }

  predicate Received(h: Header) {
    && HeaderFault(h).None? && h.csrcCount == |h.csrc| && h.payloadType < 0x80
    && (!h.extension ==> h.extensionProfile == 0 && h.extensionPayload == [])
  }

  lemma DecodedHeader(b: seq<byte>)
    requires DecodeHeader(b).Success?
    ensures var (h, n) := DecodeHeader(b).value;
            && Received(h) && First(h) == b[0] && Second(h) == b[1] && h.sequenceNumber == Get16(b, 2)
            && h.timestamp == Get32(b, 4) && h.ssrc == Get32(b, 8)
            && h.csrc == DecodeWords(b, 12, h.csrcCount) && n == HeaderSize(h)
            && (h.extension ==> var c: nat := 12 + 4 * h.csrcCount;
                                c + 4 <= n && h.extensionPayload == b[c + 4..n] && h.extensionProfile == Get16(b, c)
                                && |h.extensionPayload| / 4 == Get16(b, c + 2))
  {
    hide Get16, Get32, DecodeWords;
    FlagsWriteBack(b[0], b[1]);
  }

  /** What was decoded is well-formed, and encodes to the very header it came from. */
  lemma {:induction false} HeaderWritesBack(b: seq<byte>)
    requires DecodeHeader(b).Success?
    ensures var (h, n) := DecodeHeader(b).value; Received(h) && n == HeaderSize(h)
    ensures var (h, n) := DecodeHeader(b).value; EncodeHeader(h, b[n..]) == b
  {
    hide Get16, Get32, DecodeWords, DecodeHeader, EncodeExtension, Fixed, First, Second, HeaderFault;
    DecodedHeader(b);
    var (h, n) := DecodeHeader(b).value;
    FixedWritesBack(b, h);
    var c: nat := 12 + 4 * h.csrcCount;
    WordsWriteBack(b, 12, h.csrcCount);
    if h.extension {
      Be16OfGet16(b, c);
      Be16OfGet16(b, c + 2);
      ExtensionWritesBack(b, h, c, n);
    } else {
      NoExtension(h);
    }
    assert b[12..c] + b[c..] == b[12..];
    assert b[..12] + b[12..] == b;
  }

  lemma NoExtension(h: Header)
    requires !h.extension && HeaderFault(h).None?
    ensures EncodeExtension(h) == []
  {}

  lemma ExtensionWritesBack(b: seq<byte>, h: Header, c: nat, n: nat)
    requires c + 4 <= n <= |b| && h.extension && HeaderFault(h).None?
    requires h.extensionPayload == b[c + 4..n] && Be16(h.extensionProfile) == b[c..c + 2]
    requires Be16(|h.extensionPayload| / 4) == b[c + 2..c + 4]
    ensures EncodeExtension(h) + b[n..] == b[c..]
  {
    hide Be16;
    assert b[c..c + 2] + (b[c + 2..c + 4] + b[c + 4..n]) == b[c..n];
    assert b[c..n] + b[n..] == b[c..];
  }

  /** Every packet that is accepted is well-formed, so it can be sent again; and the bytes sent are
      the bytes received, but that padding is sent as zeros. */
  lemma DecodedIsWellFormed(b: seq<byte>)
    requires Decode(b).Success?
    ensures var p := Decode(b).value;
            && WellFormed(p) && |Encode(p)| == |b|
            && Encode(p)[..|b| - p.paddingSize] == b[..|b| - p.paddingSize]
            && (Encode(p) == b <==> forall i :: |b| - p.paddingSize <= i < |b| - 1 ==> b[i] == 0)
  {
    hide DecodeHeader, EncodeHeader, Received, HeaderFault, HeaderSize;
    HeaderWritesBack(b);
    PaddingFits(b);
    ReceivedFits(Decode(b).value.header);
    var p := Decode(b).value;
    var n := HeaderSize(p.header);
    SameTail(p.header, b[n..], p.payload + PaddingBytes(p.paddingSize));
    SamePayload(b, n, p.payload, p.paddingSize);
  }

  lemma ReceivedFits(h: Header)
    requires Received(h)
    ensures HeaderFault(h).None?
  {}

  lemma PaddingFits(b: seq<byte>)
    requires Decode(b).Success?
    ensures var (h, n) := DecodeHeader(b).value;
            var p := Decode(b).value;
            && p.header == h && n + p.paddingSize <= |b| && p.payload == b[n..|b| - p.paddingSize]
            && (h.padding <==> p.paddingSize > 0) && (p.paddingSize > 0 ==> b[|b| - 1] == p.paddingSize)
  {
    hide DecodeHeader;
  }

  /** Payload and zero padding behind the same first `n` bytes. */
  lemma SamePayload(b: seq<byte>, n: nat, payload: seq<byte>, pad: byte)
    requires n + pad <= |b| && payload == b[n..|b| - pad] && (pad > 0 ==> b[|b| - 1] == pad)
    ensures var e := b[..n] + (payload + PaddingBytes(pad));
            && |e| == |b| && e[..|b| - pad] == b[..|b| - pad]
            && (e == b <==> forall i :: |b| - pad <= i < |b| - 1 ==> b[i] == 0)
  {
    hide PaddingBytes;
    PaddingIs(pad);
    var e := b[..n] + (payload + PaddingBytes(pad));
    var m: nat := |b| - pad;
    assert e[..m] == b[..m];
    assert forall i :: m <= i < |b| ==> e[i] == PaddingBytes(pad)[i - m];
  }

  lemma {:induction false} ZerosAre(n: nat)
    ensures forall i :: 0 <= i < n ==> Modular.Zeros(n)[i] == 0
  {
    if n > 0 {
      ZerosAre(n - 1);
    }
  }

  lemma PaddingIs(n: byte)
    ensures forall i :: 0 <= i < n - 1 ==> PaddingBytes(n)[i] == 0
    ensures n > 0 ==> PaddingBytes(n)[n - 1] == n
  {
    if n > 0 {
      ZerosAre(n - 1);
    }
  }

  lemma SameTail(h: Header, a: seq<byte>, c: seq<byte>)
    requires HeaderFault(h).None?
    ensures EncodeHeader(h, c) == EncodeHeader(h, a)[..HeaderSize(h)] + c
  {
    hide Fixed, EncodeWords, EncodeExtension;
    var pre := Fixed(h) + (EncodeWords(h.csrc) + EncodeExtension(h));
    assert EncodeHeader(h, a) == pre + a;
    assert EncodeHeader(h, c) == pre + c;
  }

  // ---- Writing in place ----

  /** Extends what is written, `done`, by a piece; the rest of the buffer stays as it was. */
  method CopyInto(buf: array<byte>, n: nat, piece: seq<byte>, ghost done: seq<byte>, ghost was: seq<byte>) returns (m: nat)
    requires n + |piece| <= buf.Length == |was| && |done| == n
    requires buf[..] == done + was[n..]
    modifies buf
    ensures m == n + |piece|
    ensures buf[..] == (done + piece) + was[m..]
  {
    for i := 0 to |piece|
      invariant buf[..] == (done + piece[..i]) + was[n + i..]
    {
      buf[n + i] := piece[i];
      assert done + piece[..i + 1] == (done + piece[..i]) + [piece[i]];
    }
    m := n + |piece|;
    assert piece[..|piece|] == piece;
  }

  /** The contributing sources, one after the other. */
  method CopyWords(buf: array<byte>, n: nat, words: seq<u32>, ghost done: seq<byte>, ghost was: seq<byte>) returns (m: nat)
    requires n + 4 * |words| <= buf.Length == |was| && |done| == n
    requires buf[..] == done + was[n..]
    modifies buf
    ensures m == n + 4 * |words|
    ensures buf[..] == (done + EncodeWords(words)) + was[m..]
  {
    hide Be32;
    ghost var out := done;
    m := n;
    var i := 0;
    assert words[0..] == words;
    while i < |words|
      invariant i <= |words| && m == n + 4 * i == |out|
      invariant buf[..] == out + was[m..]
      invariant out + EncodeWords(words[i..]) == done + EncodeWords(words)
    {
      assert words[i..][0] == words[i] && words[i..][1..] == words[i + 1..];
      Associate(out, Be32(words[i]), EncodeWords(words[i + 1..]));
      m := CopyInto(buf, m, Be32(words[i]), out, was);
      out := out + Be32(words[i]);
      i := i + 1;
    }
    assert words[i..] == [];
    assert out + [] == out;
  }

  /** Writes the packet at the front of `buf` and nothing behind it; a refusal writes nothing. */
  method MarshalTo(p: Packet, buf: array<byte>) returns (r: Result<nat, RtpError>)
    modifies buf
    ensures r.Failure? <==> Fault(p, buf.Length).Some?
    ensures r.Failure? ==> Some(r.error) == Fault(p, buf.Length) && buf[..] == old(buf[..])
    ensures r.Success? ==> r.value == MarshalSize(p) && buf[..] == Encode(p) + old(buf[..])[MarshalSize(p)..]
  {
    hide Fixed, EncodeWords, EncodeExtension, PaddingBytes, HeaderFault;
    var fault := Fault(p, buf.Length);
    if fault.Some? {
      return Failure(fault.value);
    }
    var h := p.header;
    ghost var was := buf[..];
    assert buf[..] == [] + was[0..];
    var n := CopyInto(buf, 0, Fixed(h), [], was);
    ghost var done := [] + Fixed(h);
    n := CopyWords(buf, n, h.csrc, done, was);
    done := done + EncodeWords(h.csrc);
    n := CopyInto(buf, n, EncodeExtension(h), done, was);
    done := done + EncodeExtension(h);
    n := CopyInto(buf, n, p.payload, done, was);
    done := done + p.payload;
    n := CopyInto(buf, n, PaddingBytes(p.paddingSize), done, was);
    Nested(Fixed(h), EncodeWords(h.csrc), EncodeExtension(h), p.payload, PaddingBytes(p.paddingSize));
    return Success(n);
  }

  lemma Nested(a: seq<byte>, b: seq<byte>, c: seq<byte>, d: seq<byte>, e: seq<byte>)
    ensures [] + a + b + c + d + e == a + (b + (c + (d + e)))
  {}

  // ---- Retransmission mark ----

  function NormalizeSsrc(ssrc: u32): u32 {
    ssrc / 2 * 2
  }

  function MarkRetransmit(ssrc: u32): u32 {
    ssrc / 2 * 2 + 1
  }

  predicate IsRetransmit(ssrc: u32) {
    ssrc % 2 == 1
  }

  function WireSsrc(ssrc: u32, retransmit: bool): u32 {
    if retransmit then MarkRetransmit(ssrc) else ssrc
  }

  /** Both the flow and the mark come back exactly when the flow's SSRC is even. */
  lemma MarkReadsBack(ssrc: u32, retransmit: bool)
    ensures NormalizeSsrc(WireSsrc(ssrc, retransmit)) == ssrc <==> ssrc % 2 == 0
    ensures IsRetransmit(WireSsrc(ssrc, retransmit)) == retransmit <==> ssrc % 2 == 0 || retransmit
  {}
}
