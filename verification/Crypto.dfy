/** The pre-shared-key layer of crypto.rs: key derivation per nonce, rotation on the sending side and
    a cache of announced keys on the receiving side. The key derivation and the cipher's keystream
    are parameters. */
module Crypto {
  import opened Bytes
  import opened Bits
  import opened Division
  import opened Modular

  datatype CryptoError = EmptyPassword | ZeroNonce | KeyReuseExhausted | Csprng

  datatype AesKeyBits = Aes128 | Aes192 | Aes256

  const NONCE_SIZE := 4
  const MAX_PASSWORD_LEN := 127
  const U32_MAX: nat := 0xFFFF_FFFF

  type Nonce = n: seq<byte> | |n| == NONCE_SIZE witness [0, 0, 0, 0]

  /** PBKDF2 (password, salt, size) and one byte of the cipher's keystream (key, IV, position). */
  datatype Primitives = Primitives(kdf: (seq<byte>, seq<byte>, AesKeyBits) -> seq<byte>,
                                   stream: (seq<byte>, seq<byte>, nat) -> byte)

  function FromHBit(h: bool): AesKeyBits {
    if h then Aes256 else Aes128
  }

  // ---- Passphrases ----

  function FirstNul(password: seq<byte>): (n: nat)
    ensures n <= |password|
    ensures forall i :: 0 <= i < n ==> password[i] != 0
    ensures n < |password| ==> password[n] == 0
  {
    if password == [] || password[0] == 0 then 0 else 1 + FirstNul(password[1..])
  }

  /** The passphrase up to its first NUL, at most 127 bytes of it. */
  function BoundPassword(password: seq<byte>): (r: seq<byte>)
    ensures |r| <= MAX_PASSWORD_LEN && r <= password && 0 !in r
    ensures |r| < |password| && |r| < MAX_PASSWORD_LEN ==> password[|r|] == 0
  {
    var end := FirstNul(password);
    password[..if end < MAX_PASSWORD_LEN then end else MAX_PASSWORD_LEN]
  }

  /** Two passphrases key alike when they agree up to the first NUL or the 127th byte, whichever
      comes first; and bounding twice is bounding once. */
  lemma BoundedAlike(a: seq<byte>, b: seq<byte>)
    ensures BoundPassword(BoundPassword(a)) == BoundPassword(a)
    ensures BoundPassword(a) == BoundPassword(b)
       <==> exists n: nat :: n <= |a| && n <= |b| && n <= 127 && a[..n] == b[..n] && 0 !in a[..n]
                             && Ends(a, n) && Ends(b, n)
  {
    var x, y := BoundPassword(a), BoundPassword(b);
    assert a[..|x|] == x && b[..|y|] == y;
    assert BoundPassword(x) == x by { EndIsUnique(x, |x|); }
    if exists n: nat :: n <= |a| && n <= |b| && n <= MAX_PASSWORD_LEN && a[..n] == b[..n] && 0 !in a[..n]
                        && Ends(a, n) && Ends(b, n) {
      var n: nat :| n <= |a| && n <= |b| && n <= MAX_PASSWORD_LEN && a[..n] == b[..n] && 0 !in a[..n]
                    && Ends(a, n) && Ends(b, n);
      EndIsUnique(a, n);
      EndIsUnique(b, n);
    }
  }

  lemma EndIsUnique(a: seq<byte>, m: nat)
    requires m <= |a| && m <= MAX_PASSWORD_LEN && 0 !in a[..m] && Ends(a, m)
    ensures BoundPassword(a) == a[..m]
  {
    forall i | 0 <= i < m ensures a[i] != 0 {
      assert a[i] in a[..m];
    }
    assert m <= FirstNul(a);
  }

  predicate Ends(a: seq<byte>, n: nat)
    requires n <= |a|
  {
    n == 127 || n == |a| || a[n] == 0
  }

  /** A raw key keeps every byte; a configured passphrase is bounded. */
  function Derive(p: Primitives, raw: bool, password: seq<byte>, nonce: Nonce, bits: AesKeyBits): seq<byte> {
    p.kdf(if raw then password else BoundPassword(password), nonce, bits)
  }

  // ---- The cipher ----

  /** The sequence number, big-endian, then twelve zero bytes. */
  function BuildIv(seqNum: u32): (iv: seq<byte>)
    ensures |iv| == 16
  {
    Be32(seqNum) + [0, 0, 0, 0, 0, 0, 0, 0, 0, 0, 0, 0]
  }

  lemma IvTellsSequencesApart(a: u32, b: u32)
    requires BuildIv(a) == BuildIv(b)
    ensures a == b
  {
    assert Be32(a) == BuildIv(a)[..4] == BuildIv(b)[..4] == Be32(b);
    Get32OfBe32(Be32(a), 0, a);
    assert Be32(a)[0..4] == Be32(b);
    Get32OfBe32(Be32(a), 0, b);
  }

  /** The number a counter block starts from: the sequence, above twelve zero bytes. */
  lemma IvIsNumber(seqNum: u32)
    ensures FromBytes(BuildIv(seqNum)) == seqNum * Power256(12)
  {
    FromBytesOfSum(Be32(seqNum), Zeros(12));
    FromPadded(12, []);
    assert Zeros(12) + [] == Zeros(12);
    assert BuildIv(seqNum) == Be32(seqNum) + Zeros(12);
    Powers();
    FromBigEndian(seqNum, 4);
  }

  /** The cipher counts up from the vector, one per block of sixteen bytes. Counter blocks of
      different sequences never coincide, however long the packets. */
  lemma CounterBlocksAreApart(a: u32, b: u32, i: nat, j: nat)
    requires i < Power256(12) && j < Power256(12)
    ensures FromBytes(BuildIv(a)) + i == FromBytes(BuildIv(b)) + j <==> a == b && i == j
  {
    IvIsNumber(a);
    IvIsNumber(b);
    SameParts(a, i, b, j, Power256(12));
  }

  function Keystream(p: Primitives, key: seq<byte>, iv: seq<byte>, n: nat): (r: seq<byte>)
    ensures |r| == n
  {
    seq<byte>(n, i requires 0 <= i < n => p.stream(key, iv, i))
  }

  function Apply(p: Primitives, key: seq<byte>, seqNum: u32, data: seq<byte>): (r: seq<byte>)
    ensures |r| == |data|
  {
    XorBytes(data, Keystream(p, key, BuildIv(seqNum), |data|))
  }

  lemma ApplyTwice(p: Primitives, key: seq<byte>, seqNum: u32, data: seq<byte>)
    ensures Apply(p, key, seqNum, Apply(p, key, seqNum, data)) == data
  {
    XorBytesTwice(data, Keystream(p, key, BuildIv(seqNum), |data|));
  }

  predicate IsZero(nonce: Nonce) {
    nonce == [0, 0, 0, 0]
  }

  /** One packet on its own: derive, then decrypt. */
  function OneShot(p: Primitives, raw: bool, password: seq<byte>, bits: AesKeyBits, nonce: Nonce, seqNum: u32,
                   src: seq<byte>): Result<seq<byte>, CryptoError> {
    if IsZero(nonce) then Failure(ZeroNonce)
    else if password == [] then Failure(EmptyPassword)
    else Success(Apply(p, Derive(p, raw, password, nonce, bits), seqNum, src))
  }

  // ---- What key and cipher depend on ----

  /** A derivation that marks one triple of arguments. */
  function MarkingKdf(password: seq<byte>, nonce: seq<byte>, bits: AesKeyBits): Primitives {
    Primitives((w, n, b) => if w == password && n == nonce && b == bits then [1] else [0], (k, v, i) => 0)
  }

  /** Both ends share the derivation, so that they agree says nothing of what goes into it: some
      derivation tells any two keys apart, unless they are for one nonce, one size and passphrases
      that are bounded alike. */
  lemma KeyDependsOn(raw: bool, password: seq<byte>, nonce: Nonce, bits: AesKeyBits,
                     raw': bool, password': seq<byte>, nonce': Nonce, bits': AesKeyBits)
    ensures (forall p: Primitives :: Derive(p, raw, password, nonce, bits) == Derive(p, raw', password', nonce', bits'))
            <==> && (if raw then password else BoundPassword(password)) == (if raw' then password' else BoundPassword(password'))
                 && nonce == nonce' && bits == bits'
  {
    var p := MarkingKdf(if raw then password else BoundPassword(password), nonce, bits);
    assert Derive(p, raw, password, nonce, bits) == [1];
    assert Derive(p, raw', password', nonce', bits') in {[0], [1]};
  }

  /** A stream that marks one key, one vector and one position. */
  function MarkingStream(key: seq<byte>, iv: seq<byte>, i: nat): Primitives {
    Primitives((w, n, b) => [], (k, v, j) => if k == key && v == iv && j == i then 1 else 0)
  }

  /** Every byte of a packet meets the stream's byte of its own position, key and sequence: changing
      any of the three is told apart by some stream, at that byte. */
  lemma CipherDependsOn(key: seq<byte>, seqNum: u32, key': seq<byte>, seqNum': u32, data: seq<byte>, i: nat, j: nat)
    requires i < |data| && j < |data|
    ensures var p := MarkingStream(key, BuildIv(seqNum), i);
            && Apply(p, key, seqNum, data)[i] != data[i]
            && (Apply(p, key', seqNum', data)[j] == data[j] <==> key' != key || seqNum' != seqNum || j != i)
  {
    XorWithMark(data[i]);
    XorWithMark(data[j]);
    if BuildIv(seqNum) == BuildIv(seqNum') {
      IvTellsSequencesApart(seqNum, seqNum');
    }
  }

  lemma XorWithMark(b: byte)
    ensures XorByte(b, 1) != b && XorByte(b, 0) == b
  {
    XorOfZero(b);
    assert Xor(b, 1) == 2 * Xor(b / 2, 0) + (b + 1) % 2;
  }

  // ---- The receiving side ----

  datatype Slot = Slot(nonce: Nonce, bits: AesKeyBits, key: seq<byte>)

  /** The key in use and its packet count, and the key announced ahead. */
  datatype DecState = DecState(bits: AesKeyBits, hasNonce: bool, nonce: Nonce, key: seq<byte>, usedTimes: nat,
                               hasNext: bool, next: Slot)

  datatype Secret = Secret(p: Primitives, raw: bool, password: seq<byte>) {
    function Key(nonce: Nonce, bits: AesKeyBits): seq<byte> {
      Derive(p, raw, password, nonce, bits)
    }
  }

  /** Both slots hold what their nonce and size derive. */
  predicate Sound(x: Secret, s: DecState) {
    && (s.hasNonce ==> s.key == x.Key(s.nonce, s.bits))
    && (s.hasNext ==> s.next.key == x.Key(s.next.nonce, s.next.bits))
    && s.usedTimes <= U32_MAX + 1
  }

  function NewDec(bits: AesKeyBits): DecState {
    DecState(bits, false, [0, 0, 0, 0], [], 0, false, Slot([0, 0, 0, 0], bits, []))
  }

  function Precomputed(x: Secret, s: DecState, nonce: Nonce, bits: AesKeyBits): DecState {
    if IsZero(nonce) || (s.hasNonce && nonce == s.nonce && bits == s.bits)
       || (s.hasNext && nonce == s.next.nonce && bits == s.next.bits) then s
    else s.(hasNext := true, next := Slot(nonce, bits, x.Key(nonce, bits)))
  }

  function WithKeyBits(s: DecState, bits: AesKeyBits): DecState {
    if bits == s.bits then s else s.(bits := bits, hasNonce := false, hasNext := false)
  }

  /** The right key for a nonce in place, and counted from zero when it is new. */
  function Keyed(x: Secret, s: DecState, nonce: Nonce): DecState {
    if s.hasNonce && nonce == s.nonce then s
    else if s.hasNext && nonce == s.next.nonce && s.bits == s.next.bits
    then s.(key := s.next.key, next := s.next.(key := []), hasNext := false, nonce := nonce, hasNonce := true, usedTimes := 0)
    else s.(key := x.Key(nonce, s.bits), nonce := nonce, hasNonce := true, usedTimes := 0)
  }

  function Decrypted(x: Secret, s: DecState, nonce: Nonce, seqNum: u32, src: seq<byte>)
    : (DecState, Result<seq<byte>, CryptoError>)
  {
    if IsZero(nonce) then (s, Failure(ZeroNonce))
    else
      var k := Keyed(x, s, nonce);
      if k.usedTimes > U32_MAX then (k, Failure(KeyReuseExhausted))
      else (k.(usedTimes := k.usedTimes + 1), Success(Apply(x.p, k.key, seqNum, src)))
  }

  datatype DecOp =
    | Precompute(nonce: Nonce, bits: AesKeyBits)
    | SetKeyBits(bits: AesKeyBits)
    | Decrypt(nonce: Nonce, seqNum: u32, src: seq<byte>)

  function DecStep(x: Secret, s: DecState, op: DecOp): (DecState, seq<Result<seq<byte>, CryptoError>>) {
    match op
    case Precompute(nonce, bits) => (Precomputed(x, s, nonce, bits), [])
    case SetKeyBits(bits) => (WithKeyBits(s, bits), [])
    case Decrypt(nonce, seqNum, src) => var (t, r) := Decrypted(x, s, nonce, seqNum, src); (t, [r])
  }

  /** What a sequence of calls returns. */
  function DecRun(x: Secret, s: DecState, ops: seq<DecOp>): seq<Result<seq<byte>, CryptoError>>
    decreases |ops|
  {
    if ops == [] then []
    else
      var (t, out) := DecStep(x, s, ops[0]);
      out + DecRun(x, t, ops[1..])
  }

  /** What one-shot decryption at the key size then in force returns for each packet. */
  function OneShotRun(x: Secret, bits: AesKeyBits, ops: seq<DecOp>): seq<Result<seq<byte>, CryptoError>>
    decreases |ops|
  {
    if ops == [] then []
    else
      match ops[0]
      case Precompute(_, _) => OneShotRun(x, bits, ops[1..])
      case SetKeyBits(b) => OneShotRun(x, b, ops[1..])
      case Decrypt(nonce, seqNum, src) =>
        [OneShot(x.p, x.raw, x.password, bits, nonce, seqNum, src)] + OneShotRun(x, bits, ops[1..])
  }

  lemma StepIsSound(x: Secret, s: DecState, op: DecOp)
    requires Sound(x, s)
    ensures Sound(x, DecStep(x, s, op).0)
    ensures DecStep(x, s, op).0.bits == if op.SetKeyBits? then op.bits else s.bits
  {
    hide Derive, Apply;
  }

  predicate Agrees(got: Result<seq<byte>, CryptoError>, want: Result<seq<byte>, CryptoError>) {
    got == want || (got == Failure(KeyReuseExhausted) && want.Success?)
  }

  lemma DecryptAgrees(x: Secret, s: DecState, nonce: Nonce, seqNum: u32, src: seq<byte>)
    requires Sound(x, s) && x.password != []
    ensures Agrees(Decrypted(x, s, nonce, seqNum, src).1, OneShot(x.p, x.raw, x.password, s.bits, nonce, seqNum, src))
    ensures Decrypted(x, s, nonce, seqNum, src).1 == Failure(KeyReuseExhausted)
       <==> !IsZero(nonce) && s.hasNonce && nonce == s.nonce && s.usedTimes > U32_MAX
  {
    hide Derive, Apply;
  }

  /** A packet leaves the state sound, at the same size, and adds at most one to its count. */
  lemma DecryptKeeps(x: Secret, s: DecState, nonce: Nonce, seqNum: u32, src: seq<byte>)
    requires Sound(x, s)
    ensures var t := Decrypted(x, s, nonce, seqNum, src).0;
            Sound(x, t) && t.bits == s.bits && t.usedTimes <= s.usedTimes + 1
  {
    hide Derive, Apply;
  }

  /** Across every sequence of calls: each packet is decrypted exactly as it would be on its own, or
      refused because 2^32 packets used its key already. */
  lemma {:induction false} EveryRunAgrees(x: Secret, s: DecState, ops: seq<DecOp>)
    requires Sound(x, s) && x.password != []
    ensures var got, want := DecRun(x, s, ops), OneShotRun(x, s.bits, ops);
            |got| == |want| && forall i :: 0 <= i < |got| ==> Agrees(got[i], want[i])
    decreases |ops|
  {
    hide Decrypted, OneShot, Agrees, Sound, Precomputed, WithKeyBits;
    if ops != [] {
      var op := ops[0];
      StepIsSound(x, s, op);
      EveryRunAgrees(x, DecStep(x, s, op).0, ops[1..]);
      if op.Decrypt? {
        DecryptAgrees(x, s, op.nonce, op.seqNum, op.src);
      }
    }
  }

  lemma FreshIsSound(x: Secret, bits: AesKeyBits)
    ensures Sound(x, NewDec(bits))
  {}

  /** So from a fresh decryptor every answer is the one-shot answer, or the refusal. */
  lemma FreshRunAgrees(x: Secret, bits: AesKeyBits, ops: seq<DecOp>)
    requires x.password != []
    ensures var got, want := DecRun(x, NewDec(bits), ops), OneShotRun(x, bits, ops);
            |got| == |want| && forall i :: 0 <= i < |got| ==> Agrees(got[i], want[i])
  {
    hide DecRun, OneShotRun, Agrees, Sound;
    FreshIsSound(x, bits);
    EveryRunAgrees(x, NewDec(bits), ops);
  }

  function WithoutAnnouncements(ops: seq<DecOp>): seq<DecOp> {
    if ops == [] then []
    else (if ops[0].Precompute? then [] else [ops[0]]) + WithoutAnnouncements(ops[1..])
  }

  /** Alike but for the key announced ahead. */
  predicate SameKey(s: DecState, t: DecState) {
    s.bits == t.bits && s.hasNonce == t.hasNonce && s.nonce == t.nonce && s.usedTimes == t.usedTimes
    && (s.hasNonce ==> s.key == t.key)
  }

  lemma SameKeyStep(x: Secret, s: DecState, t: DecState, op: DecOp)
    requires Sound(x, s) && Sound(x, t) && SameKey(s, t)
    ensures SameKey(DecStep(x, s, op).0, if op.Precompute? then t else DecStep(x, t, op).0)
    ensures DecStep(x, s, op).1 == if op.Precompute? then [] else DecStep(x, t, op).1
  {
    hide Derive, Apply;
  }

  /** Announcements, whatever they announce and in whatever order, never change an answer. */
  lemma {:induction false} AnnouncementsChangeNothing(x: Secret, s: DecState, t: DecState, ops: seq<DecOp>)
    requires Sound(x, s) && Sound(x, t) && SameKey(s, t)
    ensures DecRun(x, s, ops) == DecRun(x, t, WithoutAnnouncements(ops))
    decreases |ops|
  {
    hide DecStep, Sound, SameKey;
    if ops != [] {
      var op := ops[0];
      SameKeyStep(x, s, t, op);
      StepIsSound(x, s, op);
      var rest := WithoutAnnouncements(ops[1..]);
      if op.Precompute? {
        AnnouncementsChangeNothing(x, DecStep(x, s, op).0, t, ops[1..]);
        assert WithoutAnnouncements(ops) == rest;
      } else {
        StepIsSound(x, t, op);
        AnnouncementsChangeNothing(x, DecStep(x, s, op).0, DecStep(x, t, op).0, ops[1..]);
        assert WithoutAnnouncements(ops) == [op] + rest && ([op] + rest)[1..] == rest;
      }
    }
  }

  class Decryptor {
    const secret: Secret
    var bits: AesKeyBits
    var nonce: Nonce
    var key: seq<byte>
    var hasNonce: bool
    var usedTimes: nat
    var nextNonce: Nonce
    var nextBits: AesKeyBits
    var nextKey: seq<byte>
    var hasNext: bool

    ghost function State(): DecState
      reads this
    {
      DecState(bits, hasNonce, nonce, key, usedTimes, hasNext, Slot(nextNonce, nextBits, nextKey))
    }

    ghost predicate Valid()
      reads this
    {
      secret.password != [] && Sound(secret, State())
    }

    constructor (secret: Secret, bits: AesKeyBits)
      requires secret.password != []
      ensures Valid() && State() == NewDec(bits) && this.secret == secret
    {
      this.secret := secret;
      this.bits, nonce, key, hasNonce, usedTimes := bits, [0, 0, 0, 0], [], false, 0;
      nextNonce, nextBits, nextKey, hasNext := [0, 0, 0, 0], bits, [], false;
    }

    method Precompute(announced: Nonce, size: AesKeyBits)
      requires Valid()
      modifies this
      ensures Valid() && State() == DecStep(secret, old(State()), DecOp.Precompute(announced, size)).0
    {
      hide Derive;
      StepIsSound(secret, State(), DecOp.Precompute(announced, size));
      if IsZero(announced) || (hasNonce && announced == nonce && size == bits)
         || (hasNext && announced == nextNonce && size == nextBits) {
        return;
      }
      nextNonce, nextBits, nextKey, hasNext := announced, size, secret.Key(announced, size), true;
    }

    method SetKeyBits(size: AesKeyBits)
      requires Valid()
      modifies this
      ensures Valid() && State() == DecStep(secret, old(State()), DecOp.SetKeyBits(size)).0
    {
      StepIsSound(secret, State(), DecOp.SetKeyBits(size));
      if size != bits {
        bits, hasNonce, hasNext := size, false, false;
      }
    }

    method Decrypt(inbound: Nonce, seqNum: u32, src: seq<byte>) returns (r: Result<seq<byte>, CryptoError>)
      requires Valid()
      modifies this
      ensures Valid()
      ensures (State(), r) == Decrypted(secret, old(State()), inbound, seqNum, src)
      ensures Agrees(r, OneShot(secret.p, secret.raw, secret.password, old(bits), inbound, seqNum, src))
    {
      hide Derive, Apply;
      StepIsSound(secret, State(), DecOp.Decrypt(inbound, seqNum, src));
      DecryptAgrees(secret, State(), inbound, seqNum, src);
      if IsZero(inbound) {
        return Failure(ZeroNonce);
      }
      if !hasNonce || inbound != nonce {
        if hasNext && inbound == nextNonce && bits == nextBits {
          key := nextKey;
          nextKey := [];
          hasNext := false;
        } else {
          key := secret.Key(inbound, bits);
        }
        nonce, hasNonce, usedTimes := inbound, true, 0;
      }
      if usedTimes > U32_MAX {
        return Failure(KeyReuseExhausted);
      }
      usedTimes := usedTimes + 1;
      return Success(Apply(secret.p, key, seqNum, src));
    }
  }

  // ---- The sending side ----

  /** Bit 7 of the first byte says which of the two passphrases this is. */
  function Stamp(raw: Nonce, odd: bool): Nonce {
    [raw[0] % 0x80 + if odd then 0x80 else 0] + raw[1..]
  }

  /** The first non-zero of up to eight draws, stamped; a draw that fails ends it. */
  function NonceFrom(draws: seq<Option<Nonce>>, odd: bool): Result<Nonce, CryptoError> {
    if draws == [] || draws[0].None? then Failure(Csprng)
    else if !IsZero(draws[0].value) then Success(Stamp(draws[0].value, odd))
    else NonceFrom(draws[1..], odd)
  }

  method GenerateNonce(draws: seq<Option<Nonce>>, odd: bool) returns (r: Result<Nonce, CryptoError>)
    requires |draws| == 8
    ensures r == NonceFrom(draws, odd)
  {
    assert draws[0..] == draws;
    for i := 0 to 8
      invariant NonceFrom(draws[i..], odd) == NonceFrom(draws, odd)
    {
      assert draws[i..][0] == draws[i] && draws[i..][1..] == draws[i + 1..];
      if draws[i].None? {
        return Failure(Csprng);
      }
      if !IsZero(draws[i].value) {
        return Success(Stamp(draws[i].value, odd));
      }
    }
    return Failure(Csprng);
  }

  /** The draw that is used: the first that is not zero, if no draw failed before it. */
  function FirstDraw(draws: seq<Option<Nonce>>): Option<Nonce> {
    if draws == [] || draws[0].None? then None
    else if !IsZero(draws[0].value) then draws[0]
    else FirstDraw(draws[1..])
  }

  lemma StampedNonce(raw: Nonce, odd: bool)
    requires !IsZero(raw)
    ensures Stamp(raw, odd)[0] >= 0x80 <==> odd
    ensures IsZero(Stamp(raw, odd)) <==> raw == [0x80, 0, 0, 0] && !odd
  {
    var n := Stamp(raw, odd);
    assert n[1] == raw[1] && n[2] == raw[2] && n[3] == raw[3];
    if n[0] == 0 && raw[1..] == [0, 0, 0] {
      assert raw == [raw[0]] + [0, 0, 0];
    }
    assert IsZero(n) ==> n[1..] == [0, 0, 0] && n[0] == 0;
    if raw == [0x80, 0, 0, 0] && !odd {
      assert n == [0, 0, 0, 0];
    }
  }

  /** A nonce is generated exactly when some draw can be used, and its marker is always right; but
      because the draw is tested before it is stamped, the nonce is zero exactly when the draw used
      was the marker alone and the marker is then cleared. */
  lemma {:induction false} GeneratedNonce(draws: seq<Option<Nonce>>, odd: bool)
    ensures var r, first := NonceFrom(draws, odd), FirstDraw(draws);
            && (r.Success? <==> first.Some?)
            && (r.Success? ==>
                  && (r.value[0] >= 0x80 <==> odd)
                  && r.value[1..] == first.value[1..] && r.value[0] % 0x80 == first.value[0] % 0x80
                  && (IsZero(r.value) <==> first == Some([0x80, 0, 0, 0]) && !odd))
  {
    hide Stamp;
    if draws != [] && draws[0].Some? {
      if IsZero(draws[0].value) {
        GeneratedNonce(draws[1..], odd);
      } else {
        StampedNonce(draws[0].value, odd);
        StampKeepsTheRest(draws[0].value, odd);
      }
    }
  }

  lemma StampKeepsTheRest(raw: Nonce, odd: bool)
    ensures Stamp(raw, odd)[1..] == raw[1..] && Stamp(raw, odd)[0] % 0x80 == raw[0] % 0x80
  {}

  /** Eight draws that show it, whatever the last seven are. */
  lemma ZeroNonceIsPossible(rest: seq<Option<Nonce>>)
    requires |rest| == 7
    ensures NonceFrom([Some([0x80, 0, 0, 0])] + rest, false) == Success([0, 0, 0, 0])
  {
    StampedNonce([0x80, 0, 0, 0], false);
  }

  /** What a key is made with, and does not change. */
  datatype Policy = Policy(secret: Secret, bits: AesKeyBits, keyRotation: u32, odd: bool) {
    function KeyFor(nonce: Nonce): seq<byte> {
      secret.Key(nonce, bits)
    }

    /** How many packets one key serves. */
    function Limit(): (n: nat)
      ensures 0 < n <= U32_MAX
    {
      if keyRotation > 0 then keyRotation else U32_MAX
    }
  }

  datatype EncState = EncState(nonce: Nonce, key: seq<byte>, usedTimes: nat)

  /** One call: the state after it, and whether a packet went out. Only a call at the limit takes a
      nonce from its draws; if they give none, nothing is sent and nothing changes. */
  function EncStep(c: Policy, s: EncState, draws: seq<Option<Nonce>>): (EncState, Option<CryptoError>) {
    if s.usedTimes < c.Limit() then (s.(usedTimes := s.usedTimes + 1), None)
    else
      match NonceFrom(draws, c.odd)
      case Failure(e) => (s, Some(e))
      case Success(n) => (EncState(n, c.KeyFor(n), 1), None)
  }

  class Key {
    const secret: Secret
    const bits: AesKeyBits
    const keyRotation: u32
    const odd: bool
    var nonce: Nonce
    var key: seq<byte>
    var usedTimes: nat

    ghost function Fixed(): Policy {
      Policy(secret, bits, keyRotation, odd)
    }

    ghost function State(): EncState
      reads this
    {
      EncState(nonce, key, usedTimes)
    }

    ghost predicate Valid()
      reads this
    {
      key == secret.Key(nonce, bits) && usedTimes <= Fixed().Limit()
    }

    constructor (secret: Secret, bits: AesKeyBits, keyRotation: u32, odd: bool, first: Nonce)
      requires secret.password != []
      ensures Valid() && State() == EncState(first, secret.Key(first, bits), 0)
      ensures this.secret == secret && this.bits == bits && this.keyRotation == keyRotation && this.odd == odd
    {
      this.secret, this.bits, this.keyRotation, this.odd := secret, bits, keyRotation, odd;
      nonce, key, usedTimes := first, secret.Key(first, bits), 0;
    }

    /** A new key draws its first nonce as every later one. */
    static method New(secret: Secret, bits: AesKeyBits, keyRotation: u32, odd: bool, draws: seq<Option<Nonce>>)
      returns (k: Key?, error: Option<CryptoError>)
      requires |draws| == 8
      ensures secret.password == [] ==> k == null && error == Some(EmptyPassword)
      ensures secret.password != [] ==>
                match NonceFrom(draws, odd)
                case Failure(e) => k == null && error == Some(e)
                case Success(n) =>
                  && k != null && fresh(k) && error == None && k.Valid()
                  && k.State() == EncState(n, secret.Key(n, bits), 0) && k.Fixed() == Policy(secret, bits, keyRotation, odd)
    {
      if secret.password == [] {
        return null, Some(EmptyPassword);
      }
      var n := GenerateNonce(draws, odd);
      if n.Failure? {
        return null, Some(n.error);
      }
      k := new Key(secret, bits, keyRotation, odd, n.value);
      error := None;
    }

    predicate RotateDue()
      reads this
    {
      usedTimes == U32_MAX || (keyRotation > 0 && usedTimes >= keyRotation)
    }

    method Rekey(draws: seq<Option<Nonce>>) returns (failed: Option<CryptoError>)
      requires |draws| == 8
      modifies this
      ensures var n := NonceFrom(draws, odd);
              if n.Success? then
                failed == None && nonce == n.value && key == secret.Key(n.value, bits) && usedTimes == 0
              else
                failed == Some(n.error) && nonce == old(nonce) && key == old(key) && usedTimes == old(usedTimes)
    {
      hide Derive;
      var n := GenerateNonce(draws, odd);
      if n.Failure? {
        return Some(n.error);
      }
      nonce, key, usedTimes := n.value, secret.Key(n.value, bits), 0;
      return None;
    }

    /** Rotates first when due; the packet goes out under the nonce then in force, and decrypts. */
    method Encrypt(draws: seq<Option<Nonce>>, seqNum: u32, plaintext: seq<byte>) returns (r: Result<seq<byte>, CryptoError>)
      requires Valid() && secret.password != [] && |draws| == 8
      modifies this
      ensures Valid()
      ensures var (after, failed) := EncStep(Fixed(), old(State()), draws);
              State() == after && match r case Failure(e) => failed == Some(e) case Success(_) => failed == None
      ensures r.Success? ==> r.value == Apply(secret.p, secret.Key(nonce, bits), seqNum, plaintext)
      ensures r.Success? && !IsZero(nonce) ==>
                OneShot(secret.p, secret.raw, secret.password, bits, nonce, seqNum, r.value) == Success(plaintext)
    {
      hide Derive, Apply, NonceFrom;
      if RotateDue() {
        var failed := Rekey(draws);
        if failed.Some? {
          return Failure(failed.value);
        }
      }
      ApplyTwice(secret.p, key, seqNum, plaintext);
      usedTimes := usedTimes + 1;
      return Success(Apply(secret.p, key, seqNum, plaintext));
    }
  }

  // Whole runs: a tape gives the draws of each call, failed ones included.

  function EncAfter(c: Policy, s: EncState, tape: seq<seq<Option<Nonce>>>): EncState
    decreases |tape|
  {
    if tape == [] then s
    else EncStep(c, EncAfter(c, s, tape[..|tape| - 1]), tape[|tape| - 1]).0
  }

  /** The nonces in force, one after the other: the first, and one more at every successful rekey. */
  function Nonces(c: Policy, s: EncState, tape: seq<seq<Option<Nonce>>>): (r: seq<Nonce>)
    ensures r != []
    decreases |tape|
  {
    if tape == [] then [s.nonce]
    else
      var n := |tape| - 1;
      var before := EncAfter(c, s, tape[..n]);
      var drawn := NonceFrom(tape[n], c.odd);
      Nonces(c, s, tape[..n]) + if before.usedTimes >= c.Limit() && drawn.Success? then [drawn.value] else []
  }

  /** The key of every packet that went out, in order. */
  function KeysUsed(c: Policy, s: EncState, tape: seq<seq<Option<Nonce>>>): seq<seq<byte>>
    decreases |tape|
  {
    if tape == [] then []
    else
      var n := |tape| - 1;
      var (after, failed) := EncStep(c, EncAfter(c, s, tape[..n]), tape[n]);
      KeysUsed(c, s, tape[..n]) + if failed.None? then [after.key] else []
  }

  /** Which of the nonces packet `k` is under. */
  function NumberOf(c: Policy, k: nat): nat {
    k / c.Limit()
  }

  /** How many packets `m` nonces serve. */
  function Spent(c: Policy, m: nat): nat {
    m * c.Limit()
  }

  lemma NumberInRound(c: Policy, m: nat, u: nat)
    requires u < c.Limit()
    ensures NumberOf(c, Spent(c, m) + u) == m
  {
    hide Policy.Limit;
    Quotient(Spent(c, m) + u, m, u, c.Limit());
  }

  lemma SpentNext(c: Policy, m: nat)
    ensures Spent(c, m + 1) == Spent(c, m) + c.Limit()
  {
    hide Policy.Limit;
    Distribute(c.Limit(), m);
  }

  /** Packet `k` is under the key of nonce `k / limit`, and the last nonce has served `used` packets. */
  predicate Served(c: Policy, nonces: seq<Nonce>, keys: seq<seq<byte>>, used: nat) {
    && nonces != [] && used <= c.Limit() && |keys| == Spent(c, |nonces| - 1) + used
    && forall k :: 0 <= k < |keys| ==> NumberOf(c, k) < |nonces| && keys[k] == c.KeyFor(nonces[NumberOf(c, k)])
  }

  lemma ServesOneMore(c: Policy, nonces: seq<Nonce>, keys: seq<seq<byte>>, used: nat)
    requires Served(c, nonces, keys, used) && used < c.Limit()
    ensures Served(c, nonces, keys + [c.KeyFor(nonces[|nonces| - 1])], used + 1)
  {
    hide Policy.KeyFor, Policy.Limit, NumberOf, Spent;
    NumberInRound(c, |nonces| - 1, used);
  }

  lemma ServesNext(c: Policy, nonces: seq<Nonce>, keys: seq<seq<byte>>, nonce: Nonce)
    requires Served(c, nonces, keys, c.Limit())
    ensures Served(c, nonces + [nonce], keys + [c.KeyFor(nonce)], 1)
  {
    hide Policy.KeyFor, NumberOf, Spent;
    SpentNext(c, |nonces| - 1);
    NumberInRound(c, |nonces|, 0);
  }

  /** In every run from a fresh key, failed draws included, packet `k` goes out under the key derived
      from nonce `k / limit`: between two successful rekeys exactly the limit of packets goes out,
      all under one derived key, and never one more. */
  lemma {:induction false} RotationIsExact(c: Policy, s: EncState, tape: seq<seq<Option<Nonce>>>)
    requires s.key == c.KeyFor(s.nonce) && s.usedTimes == 0
    ensures var nonces, keys, after := Nonces(c, s, tape), KeysUsed(c, s, tape), EncAfter(c, s, tape);
            && (forall k :: 0 <= k < |keys| ==>
                  NumberOf(c, k) < |nonces| && keys[k] == c.KeyFor(nonces[NumberOf(c, k)]))
            && |keys| == Spent(c, |nonces| - 1) + after.usedTimes && after.usedTimes <= c.Limit()
            && after.nonce == nonces[|nonces| - 1] && after.key == c.KeyFor(after.nonce)
    decreases |tape|
  {
    hide NonceFrom, Policy.KeyFor, Policy.Limit, NumberOf, Spent;
    if tape == [] {
      NothingSpent(c);
    } else {
      var tail, draws := tape[..|tape| - 1], tape[|tape| - 1];
      RotationIsExact(c, s, tail);
      var before, nonces, keys := EncAfter(c, s, tail), Nonces(c, s, tail), KeysUsed(c, s, tail);
      if before.usedTimes < c.Limit() {
        ServesOneMore(c, nonces, keys, before.usedTimes);
      } else if NonceFrom(draws, c.odd).Success? {
        ServesNext(c, nonces, keys, NonceFrom(draws, c.odd).value);
      }
      assert Served(c, Nonces(c, s, tape), KeysUsed(c, s, tape), EncAfter(c, s, tape).usedTimes);
    }
  }

  lemma NothingSpent(c: Policy)
    ensures Spent(c, 0) == 0
  {
    hide Policy.Limit;
  }

  /** Sender to receiver: with the same secret and size, and whatever either side did before, a
      packet that was not sent under a zero nonce is read back, or refused as over-used. */
  lemma SentIsRead(x: Secret, s: DecState, nonce: Nonce, seqNum: u32, plaintext: seq<byte>)
    requires Sound(x, s) && x.password != [] && !IsZero(nonce)
    ensures var cipher := Apply(x.p, x.Key(nonce, s.bits), seqNum, plaintext);
            var r := Decrypted(x, s, nonce, seqNum, cipher).1;
            r == Success(plaintext) || r == Failure(KeyReuseExhausted)
  {
    var cipher := Apply(x.p, x.Key(nonce, s.bits), seqNum, plaintext);
    ApplyTwice(x.p, x.Key(nonce, s.bits), seqNum, plaintext);
    DecryptAgrees(x, s, nonce, seqNum, cipher);
  }
}
