/** Null-packet deletion of npd.rs: MPEG-TS null packets are cut out of a payload and put back from a
    seven-bit map. */
module Npd {
  import opened Bytes
  import opened Bits

  const IDENTIFIER: u16 := 0x5249
  const LENGTH: u16 := 1
  const EXT_SIZE := 8
  const MAX_PACKETS: nat := 7
  const SYNC_BYTE: byte := 0x47
  const NULL_PID: u16 := 0x1FFF

  datatype NpdError = ShortExt | BadIdentifier | BadLength | PayloadSize | TooManyPackets | SyncByte | Truncated

  /** The size of an MPEG-TS packet, without or with its parity trailer. */
  type TsSize = n: nat | n == 188 || n == 204 witness 188

  datatype Ext = Ext(npd: bool, size204: bool, nullBitmap: byte, seqExt: u16)

  // ---- The header extension ----

  function NpdBits(size204: bool, bitmap: byte): byte {
    bitmap % 0x80 + if size204 then 0x80 else 0
  }

  function EncodeExt(e: Ext): (r: seq<byte>)
    ensures |r| == EXT_SIZE
  {
    Be16(IDENTIFIER) + Be16(LENGTH) + [if e.npd then 0x80 else 0, NpdBits(e.size204, e.nullBitmap)] + Be16(e.seqExt)
  }

  function ParseExt(b: seq<byte>): Result<(Ext, nat), NpdError> {
    if |b| < EXT_SIZE then Failure(ShortExt)
    else if Get16(b, 0) != IDENTIFIER then Failure(BadIdentifier)
    else if Get16(b, 2) != LENGTH then Failure(BadLength)
    else Success((Ext(b[4] / 0x80 == 1, b[5] / 0x80 == 1, b[5] % 0x80, Get16(b, 6)), EXT_SIZE))
  }

  lemma ExtRoundTrip(e: Ext, rest: seq<byte>)
    requires e.nullBitmap < 0x80
    ensures ParseExt(EncodeExt(e) + rest) == Success((e, EXT_SIZE))
  {
    var b := EncodeExt(e) + rest;
    assert b[0..2] == Be16(IDENTIFIER) && b[2..4] == Be16(LENGTH) && b[6..8] == Be16(e.seqExt);
    Get16OfBe16(b, 0, IDENTIFIER);
    Get16OfBe16(b, 2, LENGTH);
    Get16OfBe16(b, 6, e.seqExt);
  }

  // ---- Packets ----

  function Split(b: seq<byte>, size: TsSize): (r: seq<seq<byte>>)
    ensures forall i :: 0 <= i < |r| ==> |r[i]| == size
    decreases |b|
  {
    if |b| < size then [] else [b[..size]] + Split(b[size..], size)
  }

  function Join(packets: seq<seq<byte>>): seq<byte> {
    if packets == [] then [] else packets[0] + Join(packets[1..])
  }

  predicate Sized(packets: seq<seq<byte>>, size: TsSize) {
    forall i :: 0 <= i < |packets| ==> |packets[i]| == size
  }

  lemma {:induction false} SplitOfJoin(packets: seq<seq<byte>>, size: TsSize)
    requires Sized(packets, size)
    ensures Split(Join(packets), size) == packets
    ensures |Join(packets)| == |packets| * size
  {
    if packets != [] {
      var b := Join(packets);
      SplitOfJoin(packets[1..], size);
      assert b[..size] == packets[0] && b[size..] == Join(packets[1..]);
      assert packets == [packets[0]] + packets[1..];
    }
  }

  lemma LessOne(n: nat, size: TsSize)
    requires n >= size
    ensures (n - size) % size == n % size && (n - size) / size == n / size - 1
  {
    if size == 188 {
      LessOne188(n);
    } else {
      LessOne204(n);
    }
  }

  lemma LessOne188(n: nat)
    requires n >= 188
    ensures (n - 188) % 188 == n % 188 && (n - 188) / 188 == n / 188 - 1
  {}

  lemma LessOne204(n: nat)
    requires n >= 204
    ensures (n - 204) % 204 == n % 204 && (n - 204) / 204 == n / 204 - 1
  {}

  lemma SmallQuotient(n: nat, size: TsSize)
    requires n < size
    ensures n / size == 0 && n % size == n
  {}

  lemma {:induction false} JoinOfSplit(b: seq<byte>, size: TsSize)
    ensures |Split(b, size)| == |b| / size
    ensures |b| % size == 0 ==> Join(Split(b, size)) == b
    decreases |b|
  {
    if |b| >= size {
      JoinOfSplit(b[size..], size);
      LessOne(|b|, size);
      assert b[..size] + b[size..] == b;
      assert Split(b, size)[1..] == Split(b[size..], size);
    } else {
      SmallQuotient(|b|, size);
    }
  }

  lemma {:induction false} SplitAt(b: seq<byte>, size: TsSize, i: nat)
    requires i < |Split(b, size)|
    ensures i * size + size <= |b| && Split(b, size)[i] == b[i * size..i * size + size]
    decreases i
  {
    if i > 0 {
      SplitAt(b[size..], size, i - 1);
      assert i * size == (i - 1) * size + size;
      SliceOfTail(b, size, (i - 1) * size);
    }
  }

  lemma SliceOfTail(b: seq<byte>, size: TsSize, o: nat)
    requires size + o + size <= |b|
    ensures b[size..][o..o + size] == b[o + size..o + size + size]
  {}

  predicate IsNull(p: seq<byte>) {
    |p| >= 4 && Get16(p, 1) == NULL_PID
  }

  function Fill(n: nat): (r: seq<byte>)
    ensures |r| == n && forall i :: 0 <= i < n ==> r[i] == 0xFF
  {
    if n == 0 then [] else Fill(n - 1) + [0xFF]
  }

  /** What stands in for a suppressed packet: a header with the null PID, and stuffing. */
  function NullPacket(size: TsSize): (r: seq<byte>)
    ensures |r| == size && IsNull(r) && r[0] == 0x47 && r[3] == 0x10
    ensures forall i :: 4 <= i < size ==> r[i] == 0xFF
  {
    [SYNC_BYTE, 0x1F, 0xFF, 0x10] + Fill(size - 4)
  }

  function Kept(packets: seq<seq<byte>>): seq<seq<byte>> {
    if packets == [] then [] else (if IsNull(packets[0]) then [] else [packets[0]]) + Kept(packets[1..])
  }

  /** The packets with every null packet in the one form an expander produces. */
  function Canonical(packets: seq<seq<byte>>, size: TsSize): (r: seq<seq<byte>>)
    ensures |r| == |packets|
    ensures forall i :: 0 <= i < |r| ==> r[i] == if IsNull(packets[i]) then NullPacket(size) else packets[i]
  {
    if packets == [] then []
    else [if IsNull(packets[0]) then NullPacket(size) else packets[0]] + Canonical(packets[1..], size)
  }

  // ---- The map ----

  /** Bit 6 - i says packet `i` is null; the map of the first `n` packets. */
  function Bitmap(packets: seq<seq<byte>>, n: nat): (r: byte)
    requires n <= |packets| <= MAX_PACKETS
    ensures r < 0x80
  {
    if n == 0 then 0
    else if IsNull(packets[n - 1]) then Marked(Bitmap(packets, n - 1), 6 - (n - 1))
    else Bitmap(packets, n - 1)
  }

  function Marked(bits: byte, k: nat): (r: byte)
    requires bits < 0x80 && k < 7
    ensures r < 0x80
  {
    assert Pow2(7) == 0x80 by { assert Pow2(3) == 8; }
    SetBitBound(bits, k, 7);
    SetBit(bits, k)
  }

  lemma {:induction false} BitmapTells(packets: seq<seq<byte>>, n: nat, k: nat)
    requires n <= |packets| <= MAX_PACKETS && k < MAX_PACKETS
    ensures Bit(Bitmap(packets, n), 6 - k) <==> k < n && IsNull(packets[k])
  {
    hide Bit, SetBit, IsNull;
    if n == 0 {
      NoBitsInZero(6 - k);
    } else {
      BitmapTells(packets, n - 1, k);
      BitOfSetBit(Bitmap(packets, n - 1), 6 - (n - 1), 6 - k);
    }
  }

  /** How many of the seven positions from `i` on are marked. */
  function Ones(bitmap: byte, i: nat): (n: nat)
    ensures n <= if i < MAX_PACKETS then MAX_PACKETS - i else 0
    decreases MAX_PACKETS - i
  {
    if i >= MAX_PACKETS then 0 else (if Bit(bitmap, 6 - i) then 1 else 0) + Ones(bitmap, i + 1)
  }

  function NullCount(packets: seq<seq<byte>>): nat {
    if packets == [] then 0 else (if IsNull(packets[0]) then 1 else 0) + NullCount(packets[1..])
  }

  lemma {:induction false} KeptIsShorter(packets: seq<seq<byte>>)
    ensures |Kept(packets)| + NullCount(packets) == |packets|
    ensures NullCount(packets) == 0 <==> forall i :: 0 <= i < |packets| ==> !IsNull(packets[i])
    ensures NullCount(packets) == 0 ==> Kept(packets) == packets
  {
    hide IsNull;
    if packets != [] {
      KeptIsShorter(packets[1..]);
      assert packets == [packets[0]] + packets[1..];
    }
  }

  lemma {:induction false} OnesAreNulls(packets: seq<seq<byte>>, i: nat)
    requires |packets| <= MAX_PACKETS && i <= MAX_PACKETS
    ensures Ones(Bitmap(packets, |packets|), i) == if i < |packets| then NullCount(packets[i..]) else 0
    decreases MAX_PACKETS - i
  {
    hide Bit, Bitmap, IsNull;
    if i < MAX_PACKETS {
      OnesAreNulls(packets, i + 1);
      BitmapTells(packets, |packets|, i);
      if i < |packets| {
        assert packets[i..][1..] == packets[i + 1..];
      }
      if i + 1 == |packets| {
        assert packets[i + 1..] == [];
      }
    }
  }

  // ---- Suppression ----

  /** Kept bytes, map with the size flag, and the number of bytes cut. */
  datatype Reduced = Reduced(payload: seq<byte>, bits: byte, suppressed: nat)

  function SizeOf(n: nat): Option<TsSize> {
    if n % 188 == 0 then Some(188) else if n % 204 == 0 then Some(204) else None
  }

  predicate Synced(packets: seq<seq<byte>>)
    requires forall i :: 0 <= i < |packets| ==> packets[i] != []
  {
    forall i :: 0 <= i < |packets| ==> packets[i][0] == SYNC_BYTE
  }

  function Suppress(input: seq<byte>): Result<Reduced, NpdError> {
    match SizeOf(|input|)
    case None => Failure(PayloadSize)
    case Some(size) =>
      var packets := Split(input, size);
      if |packets| > MAX_PACKETS then Failure(TooManyPackets)
      else if !Synced(packets) then Failure(SyncByte)
      else
        var bits := NpdBits(size == 204, Bitmap(packets, |packets|));
        if NullCount(packets) == 0 then Success(Reduced(input, bits, 0))
        else Success(Reduced(Join(Kept(packets)), bits, NullCount(packets) * size))
  }

  /** What is suppressed at all: up to seven packets of 188 bytes, or else of 204, each with its sync byte;
      every refusal is named. */
  lemma SuppressAccepts(input: seq<byte>)
    ensures Suppress(input).Success?
       <==> exists size: TsSize :: |input| % size == 0 && (size == 204 ==> |input| % 188 != 0) && |input| / size <= 7
                                   && forall i :: 0 <= i < |input| && i % size == 0 ==> input[i] == 0x47
    ensures Suppress(input) == Failure(PayloadSize) <==> |input| % 188 != 0 && |input| % 204 != 0
    ensures Suppress(input) == Failure(TooManyPackets)
       <==> (|input| % 188 == 0 && |input| > 1316) || (|input| % 188 != 0 && |input| % 204 == 0 && |input| > 1428)
  {
    hide Split, Bitmap, NullCount, Kept, Join, NpdBits;
    if SizeOf(|input|).Some? {
      var size := SizeOf(|input|).value;
      JoinOfSplit(input, size);
      SyncedAt(input, size);
      assert |input| / size <= 7 <==> |input| <= 7 * (size as int);
    }
  }

  lemma SyncedAt(input: seq<byte>, size: TsSize)
    requires |input| % size == 0
    ensures Synced(Split(input, size)) <==> forall i :: 0 <= i < |input| && i % size == 0 ==> input[i] == 0x47
  {
    hide Split;
    JoinOfSplit(input, size);
    var packets := Split(input, size);
    forall k | 0 <= k < |packets| ensures k * size < |input| && k * size % size == 0 && packets[k][0] == input[k * size] {
      SplitAt(input, size, k);
      MultipleOf(k, size);
    }
    if Synced(packets) {
      forall i | 0 <= i < |input| && i % size == 0 ensures input[i] == 0x47 {
        var k := i / size;
        assert i == k * size && k < |packets|;
        assert packets[k][0] == input[k * size];
      }
    }
  }

  lemma MultipleOf(k: nat, size: TsSize)
    ensures k * size % size == 0
  {}

  // ---- Expansion ----

  function PacketSize(bits: byte): TsSize {
    if bits / 0x80 == 1 then 204 else 188
  }

  function ExpandFrom(input: seq<byte>, size: TsSize, bitmap: byte, i: nat, total: nat): Result<seq<byte>, NpdError>
    requires i <= total <= MAX_PACKETS
    decreases total - i
  {
    if i == total then Success([])
    else if Bit(bitmap, 6 - i) then
      match ExpandFrom(input, size, bitmap, i + 1, total)
      case Failure(e) => Failure(e)
      case Success(rest) => Success(NullPacket(size) + rest)
    else if |input| < size then Failure(Truncated)
    else
      match ExpandFrom(input[size..], size, bitmap, i + 1, total)
      case Failure(e) => Failure(e)
      case Success(rest) => Success(input[..size] + rest)
  }

  function Expand(input: seq<byte>, bits: byte): Result<seq<byte>, NpdError> {
    var size := PacketSize(bits);
    var bitmap := bits % 0x80;
    var nulls := Ones(bitmap, 0);
    if nulls == 0 then Success(input)
    else
      var total := |input| / size + nulls;
      if total > MAX_PACKETS then Failure(TooManyPackets) else ExpandFrom(input, size, bitmap, 0, total)
  }

  lemma {:induction false} ExpandFromRestores(packets: seq<seq<byte>>, size: TsSize, i: nat)
    requires Sized(packets, size) && |packets| <= MAX_PACKETS && i <= |packets|
    ensures ExpandFrom(Join(Kept(packets[i..])), size, Bitmap(packets, |packets|), i, |packets|)
         == Success(Join(Canonical(packets, size)[i..]))
    decreases |packets| - i
  {
    hide Bit, Bitmap, IsNull, NullPacket;
    if i < |packets| {
      ExpandFromRestores(packets, size, i + 1);
      BitmapTells(packets, |packets|, i);
      assert packets[i..][1..] == packets[i + 1..] && packets[i..][0] == packets[i];
      var canon := Canonical(packets, size);
      assert canon[i..][1..] == canon[i + 1..] && canon[i..][0] == canon[i];
      var kept := Kept(packets[i + 1..]);
      var input := Join(Kept(packets[i..]));
      if !IsNull(packets[i]) {
        assert Kept(packets[i..]) == [packets[i]] + kept && ([packets[i]] + kept)[1..] == kept;
        assert input[..size] == packets[i] && input[size..] == Join(kept);
      } else {
        assert Kept(packets[i..]) == kept;
      }
    } else {
      assert packets[i..] == [] && Canonical(packets, size)[i..] == [];
    }
  }

  lemma {:induction false} KeptIsSized(packets: seq<seq<byte>>, size: TsSize)
    requires Sized(packets, size)
    ensures Sized(Kept(packets), size)
  {
    if packets != [] {
      KeptIsSized(packets[1..], size);
    }
  }

  /** What comes out of suppressing and expanding. */
  function Normal(input: seq<byte>): seq<byte> {
    match SizeOf(|input|)
    case None => input
    case Some(size) => Join(Canonical(Split(input, size), size))
  }

  lemma MultipleDivides(n: nat, size: TsSize)
    ensures n * size / size == n && n * size % size == 0
  {}

  /** Expanding a suppressed payload gives back the payload with its null packets in canonical form:
      every other byte is kept, in place; and the bytes cut are counted exactly. */
  lemma ExpandOfSuppress(input: seq<byte>)
    requires Suppress(input).Success?
    ensures var r := Suppress(input).value;
            && Expand(r.payload, r.bits) == Success(Normal(input))
            && |Normal(input)| == |input| == |r.payload| + r.suppressed
            && (r.suppressed == 0 ==> Normal(input) == input)
  {
    hide Bit, Bitmap, IsNull, NullPacket, ExpandFrom, Ones, Canonical, Split, Join, Kept;
    var size := SizeOf(|input|).value;
    var packets := Split(input, size);
    var canon := Canonical(packets, size);
    JoinOfSplit(input, size);
    SplitOfJoin(packets, size);
    SplitOfJoin(canon, size);
    KeptIsShorter(packets);
    KeptIsSized(packets, size);
    SplitOfJoin(Kept(packets), size);
    OnesAreNulls(packets, 0);
    assert packets[0..] == packets;
    var bits := NpdBits(size == 204, Bitmap(packets, |packets|));
    assert bits % 0x80 == Bitmap(packets, |packets|) && PacketSize(bits) == size;
    if NullCount(packets) == 0 {
      assert canon == packets;
      EmptyCount(packets);
    } else {
      MultipleDivides(|Kept(packets)|, size);
      ExpandFromRestores(packets, size, 0);
      assert canon[0..] == canon;
      Distribute(|packets|, |Kept(packets)|, size);
    }
  }

  lemma EmptyCount(packets: seq<seq<byte>>)
    requires |packets| <= MAX_PACKETS && NullCount(packets) == 0
    ensures Ones(Bitmap(packets, |packets|), 0) == 0
  {
    OnesAreNulls(packets, 0);
    assert packets[0..] == packets;
  }

  lemma Distribute(a: nat, b: nat, s: nat)
    requires b <= a
    ensures (a - b) * s + b * s == a * s
  {}

  predicate AllCanonical(input: seq<byte>) {
    match SizeOf(|input|)
    case None => true
    case Some(size) => forall p :: p in Split(input, size) && IsNull(p) ==> p == NullPacket(size)
  }

  /** The normal form is its own normal form, and is the payload itself exactly when every null
      packet is canonical already. */
  lemma NormalIsNormal(input: seq<byte>)
    requires SizeOf(|input|).Some?
    ensures |Normal(input)| == |input| && Normal(Normal(input)) == Normal(input)
    ensures Normal(input) == input <==> AllCanonical(input)
  {
    hide IsNull, NullPacket, Split, Join, SizeOf, Canonical;
    var size := SizeOf(|input|).value;
    var packets := Split(input, size);
    var canon := Canonical(packets, size);
    NormalSplits(input, size);
    CanonicalTwice(packets, size);
    SameWhenCanonical(packets, size);
    assert AllCanonical(input) <==> forall p :: p in packets && IsNull(p) ==> p == NullPacket(size);
  }

  lemma CanonicalTwice(packets: seq<seq<byte>>, size: TsSize)
    ensures Canonical(Canonical(packets, size), size) == Canonical(packets, size)
  {
    hide IsNull, Canonical;
  }

  lemma SameWhenCanonical(packets: seq<seq<byte>>, size: TsSize)
    ensures Canonical(packets, size) == packets <==> forall p :: p in packets && IsNull(p) ==> p == NullPacket(size)
  {
    hide IsNull, NullPacket, Canonical;
    var canon := Canonical(packets, size);
    if forall p :: p in packets && IsNull(p) ==> p == NullPacket(size) {
      assert forall i :: 0 <= i < |packets| ==> packets[i] in packets;
      assert canon == packets;
    }
    if canon == packets {
      forall p | p in packets && IsNull(p) ensures p == NullPacket(size) {
        var i :| 0 <= i < |packets| && packets[i] == p;
        assert canon[i] == packets[i];
      }
    }
  }

  lemma NormalSplits(input: seq<byte>, size: TsSize)
    requires SizeOf(|input|) == Some(size)
    ensures Normal(input) == Join(Canonical(Split(input, size), size)) && |Normal(input)| == |input|
    ensures Split(Normal(input), size) == Canonical(Split(input, size), size)
    ensures Join(Split(input, size)) == input
  {
    hide IsNull, NullPacket, Split, Join, Canonical;
    var packets := Split(input, size);
    JoinOfSplit(input, size);
    SplitOfJoin(packets, size);
    SplitOfJoin(Canonical(packets, size), size);
  }

  /** Once a packet is cut, the payload and its normal form are sent as the very same bytes. */
  lemma NormalSendsTheSame(input: seq<byte>)
    requires Suppress(input).Success? && Suppress(input).value.suppressed > 0
    ensures Suppress(Normal(input)) == Suppress(input)
  {
    hide IsNull, NullPacket, Split, Join, Kept, Bitmap, SizeOf, Canonical, NpdBits;
    var size := SizeOf(|input|).value;
    var packets := Split(input, size);
    NormalSplits(input, size);
    SameNulls(packets, size);
    SameBitmap(packets, size, |packets|);
  }

  lemma {:induction false} SameNulls(packets: seq<seq<byte>>, size: TsSize)
    requires Sized(packets, size)
    ensures Kept(Canonical(packets, size)) == Kept(packets)
    ensures NullCount(Canonical(packets, size)) == NullCount(packets)
    ensures Synced(packets) ==> Synced(Canonical(packets, size))
  {
    hide IsNull, NullPacket;
    if packets != [] {
      SameNulls(packets[1..], size);
      var canon := Canonical(packets, size);
      assert canon[1..] == Canonical(packets[1..], size);
    }
  }

  lemma {:induction false} SameBitmap(packets: seq<seq<byte>>, size: TsSize, n: nat)
    requires n <= |packets| <= MAX_PACKETS
    ensures Bitmap(Canonical(packets, size), n) == Bitmap(packets, n)
  {
    hide IsNull, NullPacket, Marked, Canonical;
    if n > 0 {
      SameBitmap(packets, size, n - 1);
    }
  }

  // ---- The loops ----

  method SuppressLoop(input: seq<byte>) returns (r: Result<Reduced, NpdError>)
    ensures r == Suppress(input)
  {
    hide Bit, SetBit, IsNull, Join, Kept, Split, Bitmap;
    var sized := SizeOf(|input|);
    if sized.None? {
      return Failure(PayloadSize);
    }
    var size := sized.value;
    ghost var packets := Split(input, size);
    JoinOfSplit(input, size);
    var count := |input| / size;
    if count > MAX_PACKETS {
      return Failure(TooManyPackets);
    }
    var bitmap, nulls, failed := MarkNulls(input, size, count);
    if failed {
      return Failure(SyncByte);
    }
    var bits := NpdBits(size == 204, bitmap);
    KeptIsShorter(packets);
    if nulls == 0 {
      return Success(Reduced(input, bits, 0));
    }
    var dst := KeepOthers(input, size, count, bitmap);
    return Success(Reduced(dst, bits, nulls * size));
  }

  method MarkNulls(input: seq<byte>, size: TsSize, count: nat) returns (bitmap: byte, nulls: nat, failed: bool)
    requires count == |Split(input, size)| <= MAX_PACKETS
    ensures failed <==> !Synced(Split(input, size))
    ensures !failed ==> bitmap == Bitmap(Split(input, size), count) && nulls == NullCount(Split(input, size))
  {
    hide SetBit, Kept, Split;
    ghost var packets := Split(input, size);
    bitmap, nulls, failed := 0, 0, false;
    for i := 0 to count
      invariant bitmap == Bitmap(packets, i)
      invariant nulls == NullCount(packets[..i])
      invariant forall j :: 0 <= j < i ==> packets[j][0] == SYNC_BYTE
    {
      SplitAt(input, size, i);
      NullCountGrows(packets, i);
      var off := i * size;
      ghost var p := packets[i];
      assert p == input[off..off + size] && p[0] == input[off] && Get16(p, 1) == Get16(input, off + 1);
      if input[off] != SYNC_BYTE {
        failed := true;
        return;
      }
      if Get16(input, off + 1) == NULL_PID {
        bitmap := Marked(bitmap, 6 - i);
        nulls := nulls + 1;
      }
    }
    assert packets[..count] == packets;
  }

  lemma {:induction false} KeptOfSum(a: seq<seq<byte>>, b: seq<seq<byte>>)
    ensures Kept(a + b) == Kept(a) + Kept(b)
  {
    hide IsNull;
    if a == [] {
      assert a + b == b;
    } else {
      KeptOfSum(a[1..], b);
      assert (a + b)[1..] == a[1..] + b && (a + b)[0] == a[0];
      Associate(if IsNull(a[0]) then [] else [a[0]], Kept(a[1..]), Kept(b));
    }
  }

  lemma NullCountGrows(packets: seq<seq<byte>>, i: nat)
    requires i < |packets|
    ensures Kept(packets[..i + 1]) == Kept(packets[..i]) + if IsNull(packets[i]) then [] else [packets[i]]
    ensures NullCount(packets[..i + 1]) == NullCount(packets[..i]) + if IsNull(packets[i]) then 1 else 0
  {
    hide IsNull;
    KeptIsShorter(packets[..i]);
    KeptIsShorter(packets[..i + 1]);
    assert packets[..i + 1] == packets[..i] + [packets[i]];
    KeptOfSum(packets[..i], [packets[i]]);
    ghost var one := [packets[i]];
    assert one[1..] == [];
  }

  lemma {:induction false} JoinOfSum(a: seq<seq<byte>>, b: seq<byte>)
    ensures Join(a + [b]) == Join(a) + b
  {
    if a == [] {
      assert a + [b] == [b] && [b][1..] == [];
    } else {
      JoinOfSum(a[1..], b);
      assert (a + [b])[1..] == a[1..] + [b] && (a + [b])[0] == a[0];
      Associate(a[0], Join(a[1..]), b);
    }
  }

  method KeepOthers(input: seq<byte>, size: TsSize, count: nat, bitmap: byte) returns (dst: seq<byte>)
    requires count == |Split(input, size)| <= MAX_PACKETS && bitmap == Bitmap(Split(input, size), count)
    ensures dst == Join(Kept(Split(input, size)))
  {
    hide Bit, Bitmap, IsNull, Split, Join, Kept;
    ghost var packets := Split(input, size);
    dst := [];
    assert packets[..0] == [];
    NothingKept();
    for i := 0 to count
      invariant dst == Join(Kept(packets[..i]))
    {
      SplitAt(input, size, i);
      NullCountGrows(packets, i);
      BitmapTells(packets, count, i);
      if !Bit(bitmap, 6 - i) {
        var off := i * size;
        JoinOfSum(Kept(packets[..i]), packets[i]);
        dst := dst + input[off..off + size];
      } else {
        assert Kept(packets[..i + 1]) == Kept(packets[..i]);
      }
    }
    assert packets[..count] == packets;
  }

  lemma NothingKept()
    ensures Join(Kept([])) == []
  {}

  method ExpandLoop(input: seq<byte>, bits: byte) returns (r: Result<seq<byte>, NpdError>)
    ensures r == Expand(input, bits)
  {
    hide Bit, Ones, NullPacket;
    var size := PacketSize(bits);
    var bitmap := bits % 0x80;
    var nulls := Ones(bitmap, 0);
    if nulls == 0 {
      return Success(input);
    }
    var total := |input| / size + nulls;
    if total > MAX_PACKETS {
      return Failure(TooManyPackets);
    }
    var dst: seq<byte> := [];
    var off: nat := 0;
    ghost var all := ExpandFrom(input, size, bitmap, 0, total);
    assert input[0..] == input;
    assert all.Success? ==> [] + all.value == all.value;
    for i := 0 to total
      invariant off <= |input|
      invariant all == (match ExpandFrom(input[off..], size, bitmap, i, total)
                        case Failure(e) => Failure(e)
                        case Success(rest) => Success(dst + rest))
    {
      ghost var left := input[off..];
      if !Bit(bitmap, 6 - i) {
        if off + size > |input| {
          return Failure(Truncated);
        }
        assert left[size..] == input[off + size..] && left[..size] == input[off..off + size];
        ghost var rest := ExpandFrom(left[size..], size, bitmap, i + 1, total);
        Associate(dst, left[..size], if rest.Success? then rest.value else []);
        dst := dst + input[off..off + size];
        off := off + size;
      } else {
        ghost var rest := ExpandFrom(left, size, bitmap, i + 1, total);
        Associate(dst, NullPacket(size), if rest.Success? then rest.value else []);
        dst := dst + NullPacket(size);
      }
    }
    assert dst + [] == dst;
    return Success(dst);
  }
}
