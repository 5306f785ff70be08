/** The raw LZ4 block codec (lpc.rs): a greedy hash-table compressor and a bounds-checked
    decompressor.

    A block is described by a `Plan`: the sequences it holds and the literals that end it.
    `Encode` is the wire form of a plan, `Replay` is its meaning, `PlanOf` is the plan the match
    finder builds, and `Decode` is the recursive reference decoder. The two methods are proved
    against these; the lemmas relate the four. */
module Lpc {
  import opened Bytes

  datatype LpcError = Corrupt | OutputTooLarge

  const MIN_MATCH := 4
  const LAST_LITERALS := 5
  const MF_LIMIT := MIN_MATCH + LAST_LITERALS
  const MIN_LENGTH := MF_LIMIT + 1
  const HASH_TABLE_SIZE := 4096
  const RUN_MASK := 15
  const MAX_OFFSET := 65535

  /** One sequence of a block: literals, then a back-reference. */
  datatype Sequence = Sequence(literals: seq<byte>, offset: nat, matchLen: nat)

  datatype Plan = Plan(sequences: seq<Sequence>, tail: seq<byte>)

  function CompressBound(n: nat): nat {
    n + n / 255 + 16
  }

  // ---- Meaning of a plan ----

  /** Appends `n` bytes to `out`, each read from position `pos` onwards at the time it is
      appended, so the source may run into the bytes being produced. */
  function CopyMatch(out: seq<byte>, pos: nat, n: nat): (r: seq<byte>)
    requires pos < |out|
    ensures |r| == |out| + n
    decreases n
  {
    if n == 0 then out else CopyMatch(out + [out[pos]], pos + 1, n - 1)
  }

  ghost predicate ValidSequence(s: Sequence, produced: nat) {
    && 1 <= s.offset <= MAX_OFFSET
    && s.offset <= produced + |s.literals|
    && MIN_MATCH <= s.matchLen
  }

  /** Every offset of the plan stays inside the bytes produced before it. */
  ghost predicate ValidPlan(p: Plan, produced: nat)
    decreases |p.sequences|
  {
    p.sequences != [] ==>
      var s := p.sequences[0];
      ValidSequence(s, produced)
      && ValidPlan(Plan(p.sequences[1..], p.tail), produced + |s.literals| + s.matchLen)
  }

  function ApplySequence(out: seq<byte>, s: Sequence): (r: seq<byte>)
    requires ValidSequence(s, |out|)
    ensures |r| == |out| + |s.literals| + s.matchLen
  {
    var o := out + s.literals;
    CopyMatch(o, |o| - s.offset, s.matchLen)
  }

  /** The bytes a plan stands for, appended to `out`. */
  ghost function Replay(out: seq<byte>, p: Plan): (r: seq<byte>)
    requires ValidPlan(p, |out|)
    ensures |out| <= |r|
    decreases |p.sequences|
  {
    if p.sequences == [] then out + p.tail
    else Replay(ApplySequence(out, p.sequences[0]), Plan(p.sequences[1..], p.tail))
  }

  function Prepend(s: Sequence, p: Plan): Plan {
    Plan([s] + p.sequences, p.tail)
  }

  lemma ReplayPrepend(out: seq<byte>, s: Sequence, p: Plan)
    requires ValidSequence(s, |out|) && ValidPlan(p, |out| + |s.literals| + s.matchLen)
    ensures ValidPlan(Prepend(s, p), |out|)
    ensures Replay(out, Prepend(s, p)) == Replay(ApplySequence(out, s), p)
  {
    assert Plan(Prepend(s, p).sequences[1..], p.tail) == p;
  }

  lemma ReplayTail(out: seq<byte>, tail: seq<byte>)
    ensures ValidPlan(Plan([], tail), |out|) && Replay(out, Plan([], tail)) == out + tail
  {}

  // ---- Wire form of a plan ----

  /** A length continued in bytes of 255. */
  function LengthBytes(n: nat): seq<byte> {
    if n >= 255 then [255] + LengthBytes(n - 255) else [n]
  }

  function Nibble(n: nat): (r: nat)
    ensures r <= 15
  {
    if n >= RUN_MASK then RUN_MASK else n
  }

  /** The continuation bytes of a length whose nibble is full. */
  function Extra(n: nat): seq<byte> {
    if n >= RUN_MASK then LengthBytes(n - RUN_MASK) else []
  }

  function Token(high: nat, low: nat): byte
    requires high < 16 && low < 16
  {
    16 * high + low
  }

  lemma TokenParts(high: nat, low: nat)
    requires high < 16 && low < 16
    ensures Token(high, low) / 16 == high && Token(high, low) % 16 == low
  {}

  /** The little-endian offset field. */
  function Le16(offset: nat): (b: seq<byte>)
    ensures |b| == 2
  {
    [offset % 256, offset / 256 % 256]
  }

  lemma Le16Value(offset: nat)
    requires offset <= MAX_OFFSET
    ensures Join16(Le16(offset)[1], Le16(offset)[0]) == offset
  {}

  lemma Le16OfBytes(lo: byte, hi: byte)
    ensures 0 <= Join16(hi, lo) <= MAX_OFFSET && Le16(Join16(hi, lo)) == [lo, hi]
  {}

  function EncodeSequence(s: Sequence): seq<byte>
    requires s.matchLen >= MIN_MATCH
  {
    var m := s.matchLen - MIN_MATCH;
    [Token(Nibble(|s.literals|), Nibble(m))] + Extra(|s.literals|) + s.literals
    + Le16(s.offset) + Extra(m)
  }

  /** The sequence that ends a block. A decoder ignores its low nibble, which every encoder
      here leaves at zero. */
  function EncodeTail(tail: seq<byte>, low: nat): (b: seq<byte>)
    requires low < 16
    ensures |b| > 0
  {
    [Token(Nibble(|tail|), low)] + Extra(|tail|) + tail
  }

  function Encode(p: Plan, low: nat): (b: seq<byte>)
    requires low < 16
    requires forall s :: s in p.sequences ==> s.matchLen >= MIN_MATCH
    ensures |b| > 0
    decreases |p.sequences|
  {
    if p.sequences == [] then EncodeTail(p.tail, low)
    else EncodeSequence(p.sequences[0]) + Encode(Plan(p.sequences[1..], p.tail), low)
  }

  lemma ValidPlanLengths(p: Plan, produced: nat)
    requires ValidPlan(p, produced)
    ensures forall s :: s in p.sequences ==> s.matchLen >= MIN_MATCH
    decreases |p.sequences|
  {
    if p.sequences != [] {
      var s := p.sequences[0];
      ValidPlanLengths(Plan(p.sequences[1..], p.tail), produced + |s.literals| + s.matchLen);
    }
  }

  lemma EncodePrepend(s: Sequence, p: Plan, low: nat)
    requires low < 16 && s.matchLen >= MIN_MATCH
    requires forall s :: s in p.sequences ==> s.matchLen >= MIN_MATCH
    ensures Encode(Prepend(s, p), low) == EncodeSequence(s) + Encode(p, low)
  {
    assert Plan(Prepend(s, p).sequences[1..], p.tail) == p;
  }

  // ---- The reference decoder ----

  /** Reads a 255-continued length: its total and the number of bytes it takes. */
  function LengthField(b: seq<byte>): (r: Option<(nat, nat)>)
    ensures r.Some? ==> 1 <= r.value.1 <= |b|
  {
    if b == [] then None
    else if b[0] != 255 then Some((b[0], 1))
    else
      match LengthField(b[1..])
      case None => None
      case Some(v) => Some((255 + v.0, 1 + v.1))
  }

  /** A length from its nibble and, when that is full, its continuation bytes. */
  function LengthFrom(nibble: nat, b: seq<byte>): (r: Option<(nat, nat)>)
    ensures r.Some? ==> r.value.1 <= |b|
  {
    if nibble != RUN_MASK then Some((nibble, 0))
    else
      match LengthField(b)
      case None => None
      case Some(v) => Some((RUN_MASK + v.0, v.1))
  }

  /** Decodes the block `b`, appending to `out` up to `maxOut` bytes in all. */
  function Decode(b: seq<byte>, out: seq<byte>, maxOut: nat): (r: Result<seq<byte>, LpcError>)
    decreases |b|
  {
    if b == [] then Success(out)
    else
      var lit := LengthFrom(b[0] / 16, b[1..]);
      if lit.None? then Failure(Corrupt)
      else
        var (litLen, litAdv) := lit.value;
        var body := b[1 + litAdv..];
        if litLen > |body| then Failure(Corrupt)
        else if |out| + litLen > maxOut then Failure(OutputTooLarge)
        else
          var out1 := out + body[..litLen];
          var rest := body[litLen..];
          if rest == [] then Success(out1)
          else if |rest| < 2 then Failure(Corrupt)
          else DecodeMatch(b[0] % 16, rest, out1, maxOut)
  }

  /** The match half of a sequence, from its offset field onwards. */
  function DecodeMatch(low: nat, b: seq<byte>, out: seq<byte>, maxOut: nat)
    : (r: Result<seq<byte>, LpcError>)
    requires |b| >= 2
    decreases |b|
  {
    var offset := Join16(b[1], b[0]);
    if offset == 0 then Failure(Corrupt)
    else
      var m := LengthFrom(low, b[2..]);
      if m.None? then Failure(Corrupt)
      else
        var matchLen := m.value.0 + MIN_MATCH;
        if offset > |out| then Failure(Corrupt)
        else if |out| + matchLen > maxOut then Failure(OutputTooLarge)
        else
          var rest := b[2 + m.value.1..];
          if rest == [] then Failure(Corrupt)
          else Decode(rest, CopyMatch(out, |out| - offset, matchLen), maxOut)
  }

  // ---- The match finder ----

  function Load32(b: seq<byte>, i: nat): u32
    requires i + 4 <= |b|
  {
    Join32(b[i + 3], b[i + 2], b[i + 1], b[i])
  }

  function Hash(v: u32): (h: nat)
    ensures h < HASH_TABLE_SIZE
  {
    v * 2654435761 % 0x1_0000_0000 / 0x10_0000
  }

  /** How far a match at `m` against the earlier position `r` extends before `limit`. */
  function MatchEnd(src: seq<byte>, m: nat, r: nat, limit: nat): (e: nat)
    requires r < m <= limit <= |src|
    ensures m <= e <= limit
    decreases limit - m
  {
    if m < limit && src[m] == src[r] then MatchEnd(src, m + 1, r + 1, limit) else m
  }

  /** The match is as long as the bytes agree, and no longer. */
  lemma {:induction false} MatchEndAgrees(src: seq<byte>, m: nat, r: nat, limit: nat)
    requires r < m <= limit <= |src|
    ensures var e := MatchEnd(src, m, r, limit);
            && src[m..e] == src[r..r + (e - m)]
            && (e < limit ==> src[e] != src[r + (e - m)])
    decreases limit - m
  {
    if m < limit && src[m] == src[r] {
      MatchEndAgrees(src, m + 1, r + 1, limit);
      var e := MatchEnd(src, m, r, limit);
      assert src[m..e] == [src[m]] + src[m + 1..e];
      assert src[r..r + (e - m)] == [src[r]] + src[r + 1..r + (e - m)];
    }
  }

  /** Every remembered position lies before `ip`. Positions are stored as 32-bit signed
      integers, so a huge one may come back smaller, or negative like an empty slot. */
  ghost predicate TableBefore(table: seq<int>, ip: nat) {
    |table| == HASH_TABLE_SIZE && forall k :: 0 <= k < |table| ==> table[k] < ip
  }

  ghost predicate Searching(src: seq<byte>, table: seq<int>, ip: nat, anchor: nat) {
    && |src| >= MIN_LENGTH
    && anchor <= ip
    && anchor <= |src| - LAST_LITERALS
    && TableBefore(table, ip)
  }

  function Stored(ip: nat): (r: int)
    ensures r <= ip
  {
    AsI32(ip)
  }

  function Remember(src: seq<byte>, table: seq<int>, ip: nat): (t: seq<int>)
    requires |table| == HASH_TABLE_SIZE && ip + 4 <= |src|
    ensures |t| == HASH_TABLE_SIZE
  {
    table[Hash(Load32(src, ip)) := Stored(ip)]
  }

  /** The earlier position to match against at `ip`, when the table holds a usable one. */
  function Candidate(src: seq<byte>, table: seq<int>, ip: nat): (r: Option<nat>)
    requires |table| == HASH_TABLE_SIZE && ip + 4 <= |src|
    requires TableBefore(table, ip)
    ensures r.Some? ==> r.value < ip
  {
    var r := table[Hash(Load32(src, ip))];
    if r < 0 || ip - r > MAX_OFFSET || Load32(src, r) != Load32(src, ip) then None else Some(r)
  }

  /** Where the match at `ip` against `r` ends. */
  function EndOf(src: seq<byte>, ip: nat, r: nat): (e: nat)
    requires r < ip <= |src| - MF_LIMIT
    ensures ip + MIN_MATCH <= e <= |src| - LAST_LITERALS
  {
    MatchEnd(src, ip + MIN_MATCH, r + MIN_MATCH, |src| - LAST_LITERALS)
  }

  /** After a match the position just before its end is remembered as well. */
  function RememberEnd(src: seq<byte>, table: seq<int>, e: nat): (t: seq<int>)
    requires |table| == HASH_TABLE_SIZE && 1 <= e <= |src| && |src| >= MF_LIMIT
    ensures |t| == HASH_TABLE_SIZE
  {
    if e - 1 <= |src| - MF_LIMIT then Remember(src, table, e - 1) else table
  }

  /** The greedy search from `ip`, with the bytes from `anchor` not emitted yet. */
  ghost function Find(src: seq<byte>, table: seq<int>, ip: nat, anchor: nat): (p: Plan)
    requires Searching(src, table, ip, anchor)
    decreases |src| - ip
  {
    if ip > |src| - MF_LIMIT then Plan([], src[anchor..])
    else
      var t := Remember(src, table, ip);
      match Candidate(src, table, ip)
      case None => Find(src, t, ip + 1, anchor)
      case Some(r) =>
        var e := EndOf(src, ip, r);
        Prepend(Sequence(src[anchor..ip], ip - r, e - ip), Find(src, RememberEnd(src, t, e), e, e))
  }

  /** The plan `Compress` emits for `src`. */
  ghost function PlanOf(src: seq<byte>): Plan {
    if |src| < MIN_LENGTH then Plan([], src)
    else Find(src, Remember(src, EmptyTable(), 0), 1, 0)
  }

  /** The block `Compress` emits for `src`. */
  ghost function Block(src: seq<byte>): (b: seq<byte>)
    ensures |b| > 0
  {
    PlanOfIsFaithful(src);
    ValidPlanLengths(PlanOf(src), 0);
    Encode(PlanOf(src), 0)
  }

  // ---- The plan of an input means that input ----

  lemma Load32Injective(b: seq<byte>, i: nat, j: nat)
    requires i + 4 <= |b| && j + 4 <= |b| && Load32(b, i) == Load32(b, j)
    ensures b[i..i + 4] == b[j..j + 4]
  {
    hide Join32;
    Join32Injective(b[i + 3], b[i + 2], b[i + 1], b[i], b[j + 3], b[j + 2], b[j + 1], b[j]);
  }

  /** Copying from an earlier position of `src` continues `src` as long as the bytes agree. */
  lemma {:induction false} CopyMatchContinues(src: seq<byte>, r: nat, ip: nat, n: nat)
    requires r < ip && ip + n <= |src|
    requires src[ip..ip + n] == src[r..r + n]
    ensures CopyMatch(src[..ip], r, n) == src[..ip + n]
    decreases n
  {
    if n > 0 {
      assert src[ip] == src[ip..ip + n][0] == src[r];
      assert src[..ip] + [src[..ip][r]] == src[..ip + 1];
      assert src[ip + 1..ip + n] == src[ip..ip + n][1..];
      assert src[r + 1..r + n] == src[r..r + n][1..];
      CopyMatchContinues(src, r + 1, ip + 1, n - 1);
    }
  }

  lemma {:induction false} FindIsFaithful(src: seq<byte>, table: seq<int>, ip: nat, anchor: nat)
    requires Searching(src, table, ip, anchor)
    ensures ValidPlan(Find(src, table, ip, anchor), anchor)
    ensures Replay(src[..anchor], Find(src, table, ip, anchor)) == src
    ensures |Find(src, table, ip, anchor).tail| >= LAST_LITERALS
    decreases |src| - ip
  {
    hide Remember, RememberEnd, Candidate, EndOf, Replay, ValidPlan, ValidSequence, ApplySequence;
    if ip > |src| - MF_LIMIT {
      ReplayTail(src[..anchor], src[anchor..]);
      assert src[..anchor] + src[anchor..] == src;
    } else {
      var t := Remember(src, table, ip);
      RememberKeepsOrder(src, table, ip);
      match Candidate(src, table, ip)
      case None =>
        FindIsFaithful(src, t, ip + 1, anchor);
      case Some(r) =>
        var e := EndOf(src, ip, r);
        RememberEndKeepsOrder(src, t, ip, e);
        var rest := Find(src, RememberEnd(src, t, e), e, e);
        FindIsFaithful(src, RememberEnd(src, t, e), e, e);
        MatchIsFaithful(src, table, ip, anchor);
        ReplayPrepend(src[..anchor], Sequence(src[anchor..ip], ip - r, e - ip), rest);
    }
  }

  lemma RememberKeepsOrder(src: seq<byte>, table: seq<int>, ip: nat)
    requires TableBefore(table, ip) && ip + 4 <= |src|
    ensures TableBefore(Remember(src, table, ip), ip + 1)
  {}

  lemma RememberEndKeepsOrder(src: seq<byte>, table: seq<int>, ip: nat, e: nat)
    requires TableBefore(table, ip + 1) && ip < e <= |src| && |src| >= MF_LIMIT
    ensures TableBefore(RememberEnd(src, table, e), e)
  {}

  lemma MatchIsFaithful(src: seq<byte>, table: seq<int>, ip: nat, anchor: nat)
    requires TableBefore(table, ip) && anchor <= ip <= |src| - MF_LIMIT
    requires Candidate(src, table, ip).Some?
    ensures var r := Candidate(src, table, ip).value;
            var e := EndOf(src, ip, r);
            var s := Sequence(src[anchor..ip], ip - r, e - ip);
            ValidSequence(s, anchor) && ApplySequence(src[..anchor], s) == src[..e]
  {
    hide Load32, Hash, EndOf, CopyMatch;
    var r := Candidate(src, table, ip).value;
    var e := EndOf(src, ip, r);
    MatchedBytes(src, ip, r);
    assert src[..anchor] + src[anchor..ip] == src[..ip];
    CopyMatchContinues(src, r, ip, e - ip);
  }

  lemma MatchedBytes(src: seq<byte>, ip: nat, r: nat)
    requires r < ip <= |src| - MF_LIMIT && Load32(src, r) == Load32(src, ip)
    ensures var e := EndOf(src, ip, r); src[ip..e] == src[r..r + (e - ip)]
  {
    hide Load32, MatchEnd;
    var e := EndOf(src, ip, r);
    Load32Injective(src, r, ip);
    MatchEndAgrees(src, ip + MIN_MATCH, r + MIN_MATCH, |src| - LAST_LITERALS);
    assert src[ip..e] == src[ip..ip + 4] + src[ip + 4..e];
    assert src[r..r + (e - ip)] == src[r..r + 4] + src[r + 4..r + (e - ip)];
  }

  /** The match finder loses nothing: replaying the plan of `src` gives `src`, and the last
      five bytes of anything long enough to be searched are left as literals. */
  lemma PlanOfIsFaithful(src: seq<byte>)
    ensures ValidPlan(PlanOf(src), 0)
    ensures Replay([], PlanOf(src)) == src
    ensures |src| >= MIN_LENGTH ==> |PlanOf(src).tail| >= LAST_LITERALS
    ensures |src| < MIN_LENGTH ==> PlanOf(src).tail == src
  {
    if |src| >= MIN_LENGTH {
      var t := Remember(src, EmptyTable(), 0);
      FindIsFaithful(src, t, 1, 0);
      assert src[..0] == [];
    }
  }

  // ---- Decoding the wire form of a plan ----

  lemma {:induction false} LengthFieldOfBytes(n: nat, rest: seq<byte>)
    ensures LengthField(LengthBytes(n) + rest) == Some((n, |LengthBytes(n)|))
  {
    if n >= 255 {
      LengthFieldOfBytes(n - 255, rest);
      assert (LengthBytes(n) + rest)[1..] == LengthBytes(n - 255) + rest;
    }
  }

  lemma LengthFromNibble(n: nat, rest: seq<byte>)
    ensures LengthFrom(Nibble(n), Extra(n) + rest) == Some((n, |Extra(n)|))
  {
    if n >= RUN_MASK {
      LengthFieldOfBytes(n - RUN_MASK, rest);
    } 
  }

  /** Any successful reading of a length is of exactly the bytes `Nibble` and `Extra` write. */
  lemma {:induction false} LengthFieldIsCanonical(b: seq<byte>)
    requires LengthField(b).Some?
    ensures var (n, adv) := LengthField(b).value; b[..adv] == LengthBytes(n)
  {
    if b[0] == 255 {
      LengthFieldIsCanonical(b[1..]);
      var (n, adv) := LengthField(b[1..]).value;
      assert b[..1 + adv] == [255] + b[1..][..adv];
    } else {
      assert b[..1] == [b[0]];
    }
  }

  lemma LengthFromIsCanonical(nibble: nat, b: seq<byte>)
    requires nibble < 16 && LengthFrom(nibble, b).Some?
    ensures var (n, adv) := LengthFrom(nibble, b).value; Nibble(n) == nibble && b[..adv] == Extra(n)
  {
    if nibble == RUN_MASK {
      LengthFieldIsCanonical(b);
    }
  }

  /** The decoder over a token, its literals and whatever follows them. */
  lemma DecodeLiterals(lits: seq<byte>, low: nat, after: seq<byte>, out: seq<byte>, maxOut: nat)
    requires low < 16
    ensures Decode([Token(Nibble(|lits|), low)] + Extra(|lits|) + lits + after, out, maxOut)
            == if |out| + |lits| > maxOut then Failure(OutputTooLarge)
               else if after == [] then Success(out + lits)
               else if |after| < 2 then Failure(Corrupt)
               else DecodeMatch(low, after, out + lits, maxOut)
  {
    hide Token, Nibble;
    var b := [Token(Nibble(|lits|), low)] + Extra(|lits|) + lits + after;
    TokenParts(Nibble(|lits|), low);
    assert b[1..] == Extra(|lits|) + (lits + after);
    LengthFromNibble(|lits|, lits + after);
    var body := b[1 + |Extra(|lits|)|..];
    assert body == lits + after;
    assert body[..|lits|] == lits && body[|lits|..] == after;
  }

  /** One step of the decoder over one encoded sequence. */
  lemma DecodeSequence(s: Sequence, rest: seq<byte>, out: seq<byte>, maxOut: nat)
    requires ValidSequence(s, |out|) && rest != []
    ensures Decode(EncodeSequence(s) + rest, out, maxOut)
            == if |out| + |s.literals| + s.matchLen > maxOut then Failure(OutputTooLarge)
               else Decode(rest, ApplySequence(out, s), maxOut)
  {
    hide Token, Nibble, Le16, Decode, DecodeMatch, Extra;
    var m := s.matchLen - MIN_MATCH;
    var after := Le16(s.offset) + Extra(m) + rest;
    DecodeLiterals(s.literals, Nibble(m), after, out, maxOut);
    assert EncodeSequence(s) + rest
        == [Token(Nibble(|s.literals|), Nibble(m))] + Extra(|s.literals|) + s.literals + after;
    DecodeMatchStep(s.offset, s.matchLen, rest, out + s.literals, maxOut);
  }

  lemma DecodeMatchStep(offset: nat, matchLen: nat, rest: seq<byte>, out: seq<byte>, maxOut: nat)
    requires 1 <= offset <= MAX_OFFSET && offset <= |out| && MIN_MATCH <= matchLen && rest != []
    ensures var m := matchLen - MIN_MATCH;
            DecodeMatch(Nibble(m), Le16(offset) + Extra(m) + rest, out, maxOut)
            == if |out| + matchLen > maxOut then Failure(OutputTooLarge)
               else Decode(rest, CopyMatch(out, |out| - offset, matchLen), maxOut)
  {
    hide Nibble, Le16, Decode, CopyMatch, Extra, Join16;
    var m := matchLen - MIN_MATCH;
    var after := Le16(offset) + Extra(m) + rest;
    Le16Value(offset);
    assert after[2..] == Extra(m) + rest;
    LengthFromNibble(m, rest);
    assert after[2 + |Extra(m)|..] == rest;
  }

  lemma DecodeTail(tail: seq<byte>, low: nat, out: seq<byte>, maxOut: nat)
    requires low < 16
    ensures Decode(EncodeTail(tail, low), out, maxOut)
            == if |out| + |tail| > maxOut then Failure(OutputTooLarge) else Success(out + tail)
  {
    DecodeLiterals(tail, low, [], out, maxOut);
    assert EncodeTail(tail, low)
        == [Token(Nibble(|tail|), low)] + Extra(|tail|) + tail + [];
  }

  /** Decoding the wire form of a valid plan gives its meaning, or reports that the meaning
      does not fit. */
  lemma {:induction false} DecodeOfEncode(p: Plan, low: nat, out: seq<byte>, maxOut: nat)
    requires low < 16 && ValidPlan(p, |out|)
    ensures forall s :: s in p.sequences ==> s.matchLen >= MIN_MATCH
    ensures Decode(Encode(p, low), out, maxOut)
            == if |Replay(out, p)| > maxOut then Failure(OutputTooLarge)
               else Success(Replay(out, p))
    decreases |p.sequences|
  {
    ValidPlanLengths(p, |out|);
    if p.sequences == [] {
      DecodeTail(p.tail, low, out, maxOut);
    } else {
      var s := p.sequences[0];
      var rest := Plan(p.sequences[1..], p.tail);
      DecodeSequence(s, Encode(rest, low), out, maxOut);
      DecodeOfEncode(rest, low, ApplySequence(out, s), maxOut);
    }
  }

  /** `b` is the wire form of the plan, which replays behind `out` to `v`. */
  ghost predicate Records(p: Plan, low: nat, b: seq<byte>, out: seq<byte>, v: seq<byte>) {
    && low < 16 && ValidPlan(p, |out|)
    && (forall s :: s in p.sequences ==> s.matchLen >= MIN_MATCH)
    && b == Encode(p, low) && Replay(out, p) == v
  }

  /** The decoder accepts only wire forms of valid plans: whatever it accepts, it replayed. */
  lemma {:induction false} DecodeIsReplay(b: seq<byte>, out: seq<byte>, maxOut: nat)
    requires b != [] && Decode(b, out, maxOut).Success?
    ensures exists p: Plan, low: nat :: Records(p, low, b, out, Decode(b, out, maxOut).value)
    decreases |b|
  {
    hide Token, CopyMatch, Replay, ValidPlan, ApplySequence, Encode, EncodeSequence,
      EncodeTail, LengthFrom, Extra, Nibble, Decode, DecodeMatch;
    var v := Decode(b, out, maxOut).value;
    SplitLiterals(b, out, maxOut);
    var lits, rest :| LiteralsFirst(b, out, maxOut, lits, rest);
    if rest == [] {
      ReplayTail(out, lits);
      EncodeTailOnly(lits, b[0] % 16);
      assert Records(Plan([], lits), b[0] % 16, b, out, v);
    } else {
      SplitMatch(b, lits, rest, out, maxOut);
      var s, rest2 :| MatchFirst(b, out, maxOut, lits, rest, s, rest2);
      DecodeIsReplay(rest2, ApplySequence(out, s), maxOut);
      var q, low: nat :| Records(q, low, rest2, ApplySequence(out, s), v);
      ReplayPrepend(out, s, q);
      EncodePrepend(s, q, low);
      assert Records(Prepend(s, q), low, b, out, v);
    }
  }

  lemma EncodeTailOnly(tail: seq<byte>, low: nat)
    requires low < 16
    ensures Encode(Plan([], tail), low) == EncodeTail(tail, low)
  {}

  /** The literals a decoded block begins with, and what follows them. */
  ghost predicate LiteralsFirst(b: seq<byte>, out: seq<byte>, maxOut: nat, lits: seq<byte>, rest: seq<byte>) {
    && b != [] && |rest| < |b|
    && b == [Token(Nibble(|lits|), b[0] % 16)] + Extra(|lits|) + lits + rest
    && (rest == [] ==> b == EncodeTail(lits, b[0] % 16) && Decode(b, out, maxOut) == Success(out + lits))
    && (rest != [] ==>
          |rest| >= 2 && DecodeMatch(b[0] % 16, rest, out + lits, maxOut) == Decode(b, out, maxOut))
  }

  lemma SplitLiterals(b: seq<byte>, out: seq<byte>, maxOut: nat)
    requires b != [] && Decode(b, out, maxOut).Success?
    ensures exists lits: seq<byte>, rest: seq<byte> :: LiteralsFirst(b, out, maxOut, lits, rest)
  {
    hide DecodeMatch, Extra, Nibble, LengthFrom;
    var (litLen, litAdv) := LengthFrom(b[0] / 16, b[1..]).value;
    LengthFromIsCanonical(b[0] / 16, b[1..]);
    var body := b[1 + litAdv..];
    var lits, rest := body[..litLen], body[litLen..];
    assert b[0] == Token(b[0] / 16, b[0] % 16);
    assert b == [b[0]] + b[1..][..litAdv] + lits + rest;
    if rest == [] {
      assert [b[0]] + Extra(|lits|) + lits + [] == [b[0]] + Extra(|lits|) + lits;
    }
    assert LiteralsFirst(b, out, maxOut, lits, rest);
  }

  /** The first whole sequence of a decoded block, and what follows it. */
  ghost predicate MatchFirst(b: seq<byte>, out: seq<byte>, maxOut: nat, lits: seq<byte>, rest: seq<byte>,
                             s: Sequence, rest2: seq<byte>)
    requires |rest| >= 2 && b != []
  {
    && ValidSequence(s, |out|)
    && b == EncodeSequence(s) + rest2 && rest2 != [] && |rest2| < |rest|
    && Decode(rest2, ApplySequence(out, s), maxOut) == DecodeMatch(b[0] % 16, rest, out + lits, maxOut)
  }

  lemma SplitMatch(b: seq<byte>, lits: seq<byte>, rest: seq<byte>, out: seq<byte>, maxOut: nat)
    requires |rest| >= 2 && b != []
    requires b == [Token(Nibble(|lits|), b[0] % 16)] + Extra(|lits|) + lits + rest
    requires DecodeMatch(b[0] % 16, rest, out + lits, maxOut).Success?
    ensures exists s: Sequence, rest2: seq<byte> :: MatchFirst(b, out, maxOut, lits, rest, s, rest2)
  {
    hide Decode, Extra, Nibble, LengthFrom, CopyMatch, Token, Join16, Le16;
    var (m, mAdv) := LengthFrom(b[0] % 16, rest[2..]).value;
    LengthFromIsCanonical(b[0] % 16, rest[2..]);
    Le16OfBytes(rest[0], rest[1]);
    var s := Sequence(lits, Join16(rest[1], rest[0]), m + MIN_MATCH);
    var rest2 := rest[2 + mAdv..];
    assert rest == Le16(s.offset) + rest[2..][..mAdv] + rest2;
    assert b == EncodeSequence(s) + rest2;
    assert MatchFirst(b, out, maxOut, lits, rest, s, rest2);
  }

  /** `b` is a block in the published format whose meaning is `v`: some valid plan encodes to it
      and replays to `v`. */
  ghost predicate IsBlockOf(b: seq<byte>, v: seq<byte>) {
    exists p: Plan, low: nat :: Records(p, low, b, [], v)
  }

  /** The decoder accepts exactly the blocks of the format whose output fits, and the empty
      input, and returns their meaning: nothing malformed passes and nothing valid is refused. */
  lemma DecodeAcceptsExactlyBlocks(b: seq<byte>, v: seq<byte>, maxOut: nat)
    ensures Decode(b, [], maxOut) == Success(v)
            <==> (b == [] && v == []) || (IsBlockOf(b, v) && |v| <= maxOut)
  {
    hide Replay, Encode, ValidPlan;
    if b != [] && Decode(b, [], maxOut) == Success(v) {
      DecodeIsReplay(b, [], maxOut);
      var p, low: nat :| Records(p, low, b, [], v);
      DecodeOfEncode(p, low, [], maxOut);
    }
    if IsBlockOf(b, v) && |v| <= maxOut {
      var p, low: nat :| Records(p, low, b, [], v);
      DecodeOfEncode(p, low, [], maxOut);
    }
  }

  /** The round trip, for every input and every sufficient bound: the decoder undoes the
      compressor. With a smaller bound it reports exactly that the output does not fit. */
  lemma RoundTrip(src: seq<byte>, maxOut: nat)
    ensures Decode(Block(src), [], maxOut)
            == if |src| > maxOut then Failure(OutputTooLarge) else Success(src)
  {
    PlanOfIsFaithful(src);
    DecodeOfEncode(PlanOf(src), 0, [], maxOut);
  }

  ghost predicate EndsWith(b: seq<byte>, t: seq<byte>) {
    |t| <= |b| && b[|b| - |t|..] == t
  }

  lemma EndsWithPrefix(x: seq<byte>, b: seq<byte>, t: seq<byte>)
    requires EndsWith(b, t)
    ensures EndsWith(x + b, t)
  {}

  lemma EndsWithLast(b: seq<byte>, t: seq<byte>, n: nat)
    requires EndsWith(b, t) && n <= |t|
    ensures b[|b| - n..] == t[|t| - n..]
  {
    assert b[|b| - n..] == b[|b| - |t|..][|t| - n..];
  }

  lemma {:induction false} PlanEndsWithTail(p: Plan, out: seq<byte>)
    requires ValidPlan(p, |out|)
    requires forall s :: s in p.sequences ==> s.matchLen >= MIN_MATCH
    ensures EndsWith(Replay(out, p), p.tail) && EndsWith(Encode(p, 0), p.tail)
    decreases |p.sequences|
  {
    hide ApplySequence, EncodeSequence, EndsWith;
    if p.sequences == [] {
      TailEnds(out, p.tail);
    } else {
      var rest := Plan(p.sequences[1..], p.tail);
      PlanEndsWithTail(rest, ApplySequence(out, p.sequences[0]));
      EndsWithPrefix(EncodeSequence(p.sequences[0]), Encode(rest, 0), p.tail);
    }
  }

  lemma TailEnds(out: seq<byte>, tail: seq<byte>)
    ensures EndsWith(out + tail, tail) && EndsWith(EncodeTail(tail, 0), tail)
  {
    EndsWithPrefix(out, tail, tail);
    EndsWithPrefix([Token(Nibble(|tail|), 0)] + Extra(|tail|), tail, tail);
  }

  /** The last five bytes of any input of ten or more are literals: the block ends with them. */
  lemma LastBytesAreLiterals(src: seq<byte>)
    requires |src| >= 10
    ensures |Block(src)| >= LAST_LITERALS
    ensures Block(src)[|Block(src)| - LAST_LITERALS..] == src[|src| - LAST_LITERALS..]
  {
    hide PlanOf, Replay, Encode;
    PlanOfIsFaithful(src);
    var p := PlanOf(src);
    ValidPlanLengths(p, 0);
    PlanEndsWithTail(p, []);
    EndsWithLast(Block(src), p.tail, LAST_LITERALS);
    EndsWithLast(src, p.tail, LAST_LITERALS);
  }

  // ---- The size bound ----

  lemma {:induction false} LengthBytesSize(n: nat)
    ensures |LengthBytes(n)| == n / 255 + 1
  {
    if n >= 255 {
      LengthBytesSize(n - 255);
    }
  }

  lemma ExtraSize(n: nat)
    ensures |Extra(n)| == if n >= RUN_MASK then (n - RUN_MASK) / 255 + 1 else 0
  {
    if n >= RUN_MASK {
      LengthBytesSize(n - RUN_MASK);
    }
  }

  /** A sequence never costs more than the bytes it stands for, plus one in every 255. */
  lemma SequenceCost(s: Sequence)
    requires s.matchLen >= MIN_MATCH
    ensures |EncodeSequence(s)|
            <= |s.literals| + s.matchLen + (|s.literals| + s.matchLen) / 255
  {
    ExtraSize(|s.literals|);
    ExtraSize(s.matchLen - MIN_MATCH);
  }

  lemma {:induction false} PlanCost(p: Plan, out: seq<byte>)
    requires ValidPlan(p, |out|)
    ensures forall s :: s in p.sequences ==> s.matchLen >= MIN_MATCH
    ensures var n := |Replay(out, p)| - |out|; |Encode(p, 0)| <= n + n / 255 + 2
    decreases |p.sequences|
  {
    ValidPlanLengths(p, |out|);
    ExtraSize(|p.tail|);
    if p.sequences != [] {
      var s := p.sequences[0];
      SequenceCost(s);
      PlanCost(Plan(p.sequences[1..], p.tail), ApplySequence(out, s));
    }
  }

  /** The compressor never exceeds its published bound; it stays fourteen bytes below it. */
  lemma BlockFitsBound(src: seq<byte>)
    ensures |Block(src)| + 14 <= CompressBound(|src|)
  {
    PlanOfIsFaithful(src);
    PlanCost(PlanOf(src), []);
  }

  // ---- The loops ----

  /** One byte over and over. */
  predicate IsRun(src: seq<byte>) {
    forall i :: 0 <= i < |src| ==> src[i] == src[0]
  }

  /** A run is one literal, one match that overlaps itself, and the last five bytes. */
  lemma RunIsOneMatch(src: seq<byte>)
    requires |src| >= 10 && IsRun(src)
    ensures PlanOf(src) == Plan([Sequence(src[..1], 1, |src| - LAST_LITERALS - 1)], src[|src| - LAST_LITERALS..])
  {
    hide Hash, Load32, Find;
    var t0 := Remember(src, EmptyTable(), 0);
    SameWords(src, 0, 1);
    assert t0[Hash(Load32(src, 1))] == 0;
    assert Candidate(src, t0, 1) == Some(0);
    var e := |src| - LAST_LITERALS;
    RunMatchesOn(src);
    var t1 := Remember(src, t0, 1);
    RememberEndKeepsOrder(src, t1, 1, e);
    FindsMatch(src, t0);
    FindsTail(src, RememberEnd(src, t1, e), e);
  }

  lemma SameWords(src: seq<byte>, i: nat, j: nat)
    requires IsRun(src) && i + 4 <= |src| && j + 4 <= |src|
    ensures Load32(src, i) == Load32(src, j)
  {
    assert src[i] == src[j] && src[i + 1] == src[j + 1] && src[i + 2] == src[j + 2] && src[i + 3] == src[j + 3];
  }

  lemma RunMatchesOn(src: seq<byte>)
    requires |src| >= 10 && IsRun(src)
    ensures EndOf(src, 1, 0) == |src| - LAST_LITERALS
  {
    MatchEndAgrees(src, 1 + MIN_MATCH, MIN_MATCH, |src| - LAST_LITERALS);
  }

  lemma FindsMatch(src: seq<byte>, table: seq<int>)
    requires Searching(src, table, 1, 0) && Candidate(src, table, 1) == Some(0)
    requires EndOf(src, 1, 0) == |src| - LAST_LITERALS
    requires TableBefore(RememberEnd(src, Remember(src, table, 1), |src| - LAST_LITERALS), |src| - LAST_LITERALS)
    ensures var e := |src| - LAST_LITERALS;
            Find(src, table, 1, 0)
            == Prepend(Sequence(src[..1], 1, e - 1), Find(src, RememberEnd(src, Remember(src, table, 1), e), e, e))
  {
    hide Candidate, Remember, RememberEnd;
    assert src[0..1] == src[..1];
  }

  lemma FindsTail(src: seq<byte>, table: seq<int>, e: nat)
    requires e == |src| - LAST_LITERALS && Searching(src, table, e, e)
    ensures Find(src, table, e, e) == Plan([], src[e..])
  {}

  /** So a run of 26 bytes or more always shrinks. */
  lemma RunShrinks(src: seq<byte>)
    requires |src| >= 26 && IsRun(src)
    ensures |Block(src)| < |src|
  {
    hide PlanOf, Replay, EncodeSequence, EncodeTail, Extra;
    RunIsOneMatch(src);
    var s := Sequence(src[..1], 1, |src| - LAST_LITERALS - 1);
    var tail := src[|src| - LAST_LITERALS..];
    PlanOfIsFaithful(src);
    ValidPlanLengths(PlanOf(src), 0);
    EncodePrepend(s, Plan([], tail), 0);
    assert Prepend(s, Plan([], tail)) == PlanOf(src);
    EncodeTailOnly(tail, 0);
    RunSizes(s, tail);
  }

  lemma RunSizes(s: Sequence, tail: seq<byte>)
    requires |s.literals| == 1 && s.offset == 1 && s.matchLen >= 20 && |tail| == LAST_LITERALS
    ensures |EncodeSequence(s)| + |EncodeTail(tail, 0)| <= 1 + 1 + 2 + ((s.matchLen - 19) / 255 + 1) + 1 + 5
  {
    ExtraSize(|s.literals|);
    ExtraSize(s.matchLen - MIN_MATCH);
    ExtraSize(|tail|);
  }


  method AppendLength(dst: seq<byte>, n0: nat) returns (out: seq<byte>)
    ensures out == dst + LengthBytes(n0)
  {
    out := dst;
    var n := n0;
    while n >= 255
      invariant out + LengthBytes(n) == dst + LengthBytes(n0)
    {
      out := out + [255];
      n := n - 255;
    }
    out := out + [n];
  }

  method EmitSequence(dst: seq<byte>, s: Sequence) returns (out: seq<byte>)
    requires s.matchLen >= MIN_MATCH
    ensures out == dst + EncodeSequence(s)
  {
    hide Le16, LengthBytes;
    var litLen := |s.literals|;
    var mtok := s.matchLen - MIN_MATCH;
    var token := if litLen >= RUN_MASK then 16 * RUN_MASK else 16 * litLen;
    token := token + if mtok >= RUN_MASK then RUN_MASK else mtok;
    out := dst + [token];
    ghost var sent := [Token(Nibble(litLen), Nibble(mtok))];
    if litLen >= RUN_MASK {
      out := AppendLength(out, litLen - RUN_MASK);
    }
    sent := sent + Extra(litLen);
    assert out == dst + sent;
    out := out + s.literals;
    sent := sent + s.literals;
    assert out == dst + sent;
    out := out + Le16(s.offset);
    sent := sent + Le16(s.offset);
    assert out == dst + sent;
    if mtok >= RUN_MASK {
      out := AppendLength(out, mtok - RUN_MASK);
    }
    sent := sent + Extra(mtok);
    assert out == dst + sent;
  }

  method EmitLastLiterals(dst: seq<byte>, literals: seq<byte>) returns (out: seq<byte>)
    ensures out == dst + EncodeTail(literals, 0)
  {
    hide LengthBytes;
    var litLen := |literals|;
    out := dst;
    if litLen >= RUN_MASK {
      out := out + [16 * RUN_MASK];
      out := AppendLength(out, litLen - RUN_MASK);
    } else {
      out := out + [16 * litLen];
    }
    assert out == dst + ([Token(Nibble(litLen), 0)] + Extra(litLen));
    out := out + literals;
    assert out == dst + ([Token(Nibble(litLen), 0)] + Extra(litLen) + literals);
  }

  /** The part of the block that `Find` still has to emit. */
  ghost function Pending(src: seq<byte>, table: seq<int>, ip: nat, anchor: nat): seq<byte>
    requires Searching(src, table, ip, anchor)
  {
    FindIsFaithful(src, table, ip, anchor);
    ValidPlanLengths(Find(src, table, ip, anchor), anchor);
    Encode(Find(src, table, ip, anchor), 0)
  }

  method ExtendMatch(src: seq<byte>, ip: nat, r: nat) returns (e: nat)
    requires r < ip <= |src| - MF_LIMIT
    ensures e == EndOf(src, ip, r)
  {
    var matchLimit := |src| - LAST_LITERALS;
    e := ip + MIN_MATCH;
    var rEnd: nat := r + MIN_MATCH;
    while e < matchLimit && src[e] == src[rEnd]
      invariant rEnd < e <= matchLimit
      invariant MatchEnd(src, e, rEnd, matchLimit) == EndOf(src, ip, r)
      decreases matchLimit - e
    {
      e := e + 1;
      rEnd := rEnd + 1;
    }
  }

  function EmptyTable(): (t: seq<int>)
    ensures TableBefore(t, 0)
  {
    seq(HASH_TABLE_SIZE, _ => -1)
  }

  method NewTable() returns (table: array<int>)
    ensures fresh(table) && table[..] == EmptyTable()
  {
    table := new int[HASH_TABLE_SIZE](_ => -1);
  }

  /** Looks up the slot of `ip` and overwrites it with `ip`. */
  method Probe(table: array<int>, src: seq<byte>, ip: nat) returns (cand: Option<nat>)
    requires TableBefore(table[..], ip) && ip + 4 <= |src|
    modifies table
    ensures cand == Candidate(src, old(table[..]), ip)
    ensures table[..] == Remember(src, old(table[..]), ip)
  {
    hide Load32, Hash;
    var h := Hash(Load32(src, ip));
    var r := table[h];
    table[h] := Stored(ip);
    if r < 0 {
      return None;
    }
    if ip - r > MAX_OFFSET || Load32(src, r) != Load32(src, ip) {
      return None;
    }
    cand := Some(r);
  }

  method RecordEnd(table: array<int>, src: seq<byte>, ip: nat)
    requires table.Length == HASH_TABLE_SIZE && 1 <= ip <= |src| && |src| >= MF_LIMIT
    modifies table
    ensures table[..] == RememberEnd(src, old(table[..]), ip)
  {
    hide Load32, Hash;
    if ip >= 1 && ip - 1 <= |src| - MF_LIMIT {
      table[Hash(Load32(src, ip - 1))] := Stored(ip - 1);
    }
  }

  method Compress(dst: seq<byte>, src: seq<byte>) returns (out: seq<byte>)
    ensures out == dst + Block(src)
  {
    hide Find, Candidate, Remember, RememberEnd, EndOf, EncodeSequence, EncodeTail, Block, Pending;
    BlockStarts(src);
    if |src| < MIN_LENGTH {
      out := EmitLastLiterals(dst, src);
      return;
    }
    out := dst;
    var table := NewTable();
    var anchor: nat, ip: nat := 0, 0;
    var searchLimit := |src| - MF_LIMIT;
    var cand := Probe(table, src, ip);
    ip := ip + 1;

    while ip <= searchLimit
      invariant Searching(src, table[..], ip, anchor)
      invariant out + Pending(src, table[..], ip, anchor) == dst + Block(src)
      decreases |src| - ip
    {
      PendingUnfolds(src, table[..], ip, anchor);
      cand := Probe(table, src, ip);
      if cand.None? {
        ip := ip + 1;
      } else {
        var e := ExtendMatch(src, ip, cand.value);
        var s := Sequence(src[anchor..ip], ip - cand.value, e - ip);
        ghost var sent := out;
        out := EmitSequence(out, s);
        ip := e;
        anchor := ip;
        RecordEnd(table, src, ip);
        Associate(sent, EncodeSequence(s), Pending(src, table[..], ip, anchor));
      }
    }
    PendingEnds(src, table[..], ip, anchor);
    out := EmitLastLiterals(out, src[anchor..]);
  }

  lemma BlockStarts(src: seq<byte>)
    ensures |src| < MIN_LENGTH ==> Block(src) == EncodeTail(src, 0)
    ensures |src| >= MIN_LENGTH ==>
              var t := Remember(src, EmptyTable(), 0);
              Searching(src, t, 1, 0) && Block(src) == Pending(src, t, 1, 0)
  {}

  /** What one position of the search contributes to the block. */
  lemma PendingUnfolds(src: seq<byte>, table: seq<int>, ip: nat, anchor: nat)
    requires Searching(src, table, ip, anchor) && ip <= |src| - MF_LIMIT
    ensures var t := Remember(src, table, ip);
            match Candidate(src, table, ip)
            case None =>
              && Searching(src, t, ip + 1, anchor)
              && Pending(src, table, ip, anchor) == Pending(src, t, ip + 1, anchor)
            case Some(r) =>
              var e := EndOf(src, ip, r);
              && Searching(src, RememberEnd(src, t, e), e, e)
              && Pending(src, table, ip, anchor)
                 == EncodeSequence(Sequence(src[anchor..ip], ip - r, e - ip))
                    + Pending(src, RememberEnd(src, t, e), e, e)
  {
    hide Candidate, EndOf, Remember, RememberEnd, EncodeSequence;
    var t := Remember(src, table, ip);
    RememberKeepsOrder(src, table, ip);
    match Candidate(src, table, ip)
    case None =>
    case Some(r) =>
      var e := EndOf(src, ip, r);
      RememberEndKeepsOrder(src, t, ip, e);
      var rest := Find(src, RememberEnd(src, t, e), e, e);
      FindIsFaithful(src, RememberEnd(src, t, e), e, e);
      ValidPlanLengths(rest, e);
      EncodePrepend(Sequence(src[anchor..ip], ip - r, e - ip), rest, 0);
  }

  lemma PendingEnds(src: seq<byte>, table: seq<int>, ip: nat, anchor: nat)
    requires Searching(src, table, ip, anchor) && ip > |src| - MF_LIMIT
    ensures Pending(src, table, ip, anchor) == EncodeTail(src[anchor..], 0)
  {}

  method ReadLength(src: seq<byte>, start: nat) returns (r: Option<(nat, nat)>)
    requires start <= |src|
    ensures r == LengthField(src[start..])
  {
    var sp := start;
    var total, advance := 0, 0;
    while true
      invariant start <= sp <= |src| && advance == sp - start
      invariant LengthField(src[start..])
                == (match LengthField(src[sp..])
                    case None => None
                    case Some(v) => Some((total + v.0, advance + v.1)))
      decreases |src| - sp
    {
      if sp >= |src| {
        return None;
      }
      var b := src[sp];
      assert src[sp..][1..] == src[sp + 1..];
      sp := sp + 1;
      advance := advance + 1;
      total := total + b;
      if b != 255 {
        return Some((total, advance));
      }
    }
  }

  method CopyLoop(out0: seq<byte>, matchPos: nat, n: nat) returns (out: seq<byte>)
    requires matchPos < |out0|
    ensures out == CopyMatch(out0, matchPos, n)
  {
    out := out0;
    for i := 0 to n
      invariant matchPos + i < |out|
      invariant CopyMatch(out, matchPos + i, n - i) == CopyMatch(out0, matchPos, n)
    {
      out := out + [out[matchPos + i]];
    }
  }

  /** The literals of the sequence at `start`. */
  method TakeLiterals(src: seq<byte>, start: nat, out0: seq<byte>, maxOut: nat)
    returns (sp: nat, out: seq<byte>, error: Option<LpcError>)
    requires start < |src|
    ensures start < sp <= |src|
    ensures Decode(src[start..], out0, maxOut)
            == if error.Some? then Failure(error.value)
               else if sp == |src| then Success(out)
               else if |src| - sp < 2 then Failure(Corrupt)
               else DecodeMatch(src[start] % 16, src[sp..], out, maxOut)
  {
    hide LengthField, DecodeMatch;
    ghost var b := src[start..];
    sp, out, error := start + 1, out0, None;
    var litLen: nat := src[start] / 16;
    assert b[1..] == src[sp..];
    if litLen == RUN_MASK {
      var f := ReadLength(src, sp);
      if f.None? {
        error := Some(Corrupt);
        return;
      }
      litLen := litLen + f.value.0;
      sp := sp + f.value.1;
    }
    assert b[sp - start..] == src[sp..];
    if litLen > |src| - sp {
      error := Some(Corrupt);
      return;
    }
    if |out| + litLen > maxOut {
      error := Some(OutputTooLarge);
      return;
    }
    assert src[sp..][..litLen] == src[sp..sp + litLen];
    assert src[sp..][litLen..] == src[sp + litLen..];
    out := out + src[sp..sp + litLen];
    sp := sp + litLen;
  }

  /** The match of a sequence, from its offset field at `start`. */
  method TakeMatch(src: seq<byte>, start: nat, low: nat, out0: seq<byte>, maxOut: nat)
    returns (sp: nat, out: seq<byte>, error: Option<LpcError>)
    requires start + 2 <= |src| && low < 16
    ensures start < sp <= |src|
    ensures DecodeMatch(low, src[start..], out0, maxOut)
            == if error.Some? then Failure(error.value)
               else if sp == |src| then Failure(Corrupt)
               else Decode(src[sp..], out, maxOut)
  {
    hide LengthField, Decode, Join16;
    ghost var b := src[start..];
    var offset := Join16(src[start + 1], src[start]);
    assert 0 <= offset by { Le16OfBytes(src[start], src[start + 1]); }
    sp, out, error := start + 2, out0, None;
    assert b[2..] == src[sp..];
    if offset == 0 {
      error := Some(Corrupt);
      return;
    }
    var matchLen := low + MIN_MATCH;
    if low == RUN_MASK {
      var f := ReadLength(src, sp);
      if f.None? {
        error := Some(Corrupt);
        return;
      }
      matchLen := matchLen + f.value.0;
      sp := sp + f.value.1;
    }
    assert b[sp - start..] == src[sp..];
    if offset > |out| {
      error := Some(Corrupt);
      return;
    }
    var matchPos := |out| - offset;
    if |out| + matchLen > maxOut {
      error := Some(OutputTooLarge);
      return;
    }
    out := CopyLoop(out, matchPos, matchLen);
  }

  /** On failure the destination is returned as it came. */
  method Decompress(dst: seq<byte>, src: seq<byte>, maxOut: nat)
    returns (res: seq<byte>, error: Option<LpcError>)
    ensures match Decode(src, [], maxOut)
            case Success(v) => res == dst + v && error == None
            case Failure(e) => res == dst && error == Some(e)
  {
    hide DecodeMatch;
    var out: seq<byte> := [];
    var n := |src|;
    var sp: nat := 0;
    assert src[0..] == src;
    while sp < n
      invariant 0 <= sp <= n
      invariant Decode(src[sp..], out, maxOut) == Decode(src, [], maxOut)
      decreases n - sp
    {
      var token := src[sp];
      sp, out, error := TakeLiterals(src, sp, out, maxOut);
      if error.Some? {
        return dst, error;
      }
      if sp == n {
        return dst + out, None;
      }
      if sp + 2 > n {
        return dst, Some(Corrupt);
      }
      sp, out, error := TakeMatch(src, sp, token % 16, out, maxOut);
      if error.Some? {
        return dst, error;
      }
      if sp == n {
        return dst, Some(Corrupt);
      }
    }
    return dst + out, None;
  }
}
