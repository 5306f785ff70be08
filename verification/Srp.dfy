/** SRP-6a over a hash function (srp.rs): the verifier, the client and the server.

    The hash is a parameter. The per-handshake secret each side draws is an input, `None`
    standing for a failed draw. */
module Srp {
  import opened Bytes
  import opened Modular
  import Bits

  const HASH_LEN := 32
  const MAX_SALT_LEN := 1024

  type Digest = d: seq<byte> | |d| == 32 witness Zeros(32)
  type HashFunction = seq<byte> -> Digest

  datatype SrpError = InvalidGroup | InvalidSalt | SaltTooLong | InvalidVerifier | BadParameter | Csprng

  /** A modulus and a generator. */
  datatype Group = Group(n: nat, g: nat) {
    /** The byte length of the modulus. */
    function Length(): nat {
      |MinimalBytes(n)|
    }

    predicate Valid() {
      n > 0 && g > 0
    }

    /** The generator can be padded to the length of the modulus. */
    predicate Paddable() {
      Valid() && |MinimalBytes(g)| <= Length()
    }

    function Pad(x: nat): (b: seq<byte>)
      requires |MinimalBytes(x)| <= Length()
      ensures |b| == Length()
    {
      Zeros(Length() - |MinimalBytes(x)|) + MinimalBytes(x)
    }

    function HashPair(h: HashFunction, a: nat, b: nat, legacy: bool): nat
      requires |MinimalBytes(a)| <= Length() && |MinimalBytes(b)| <= Length()
    {
      FromBytes(if legacy then h(MinimalBytes(a) + MinimalBytes(b)) else h(Pad(a) + Pad(b)))
    }

    function KValue(h: HashFunction, legacy: bool): nat
      requires Paddable()
    {
      HashPair(h, n, g, legacy)
    }

    /** The scrambling parameter. */
    function UValue(h: HashFunction, a: nat, b: nat, legacy: bool): nat
      requires |MinimalBytes(a)| <= Length() && |MinimalBytes(b)| <= Length()
    {
      HashPair(h, a, b, legacy)
    }

    function CalcM1(h: HashFunction, user: seq<byte>, salt: seq<byte>, a: nat, b: nat, key: Digest): Digest {
      h(Bits.XorBytes(h(MinimalBytes(n)), h(MinimalBytes(g)))
        + h(user) + CanonSalt(salt) + MinimalBytes(a) + MinimalBytes(b) + key)
    }
  }

  function ValidateSalt(salt: seq<byte>): Option<SrpError> {
    if salt == [] then Some(InvalidSalt)
    else if |salt| > MAX_SALT_LEN then Some(SaltTooLong)
    else None
  }

  function CanonSalt(salt: seq<byte>): seq<byte> {
    MinimalBytes(FromBytes(salt))
  }

  const COLON: byte := 0x3A

  function CalcX(h: HashFunction, salt: seq<byte>, user: seq<byte>, password: seq<byte>): nat {
    FromBytes(h(CanonSalt(salt) + h(user + [COLON] + password)))
  }

  function SessionKey(h: HashFunction, s: nat): Digest {
    h(MinimalBytes(s))
  }

  function CalcM2(h: HashFunction, a: nat, m1: Digest, key: Digest): Digest {
    h(MinimalBytes(a) + m1 + key)
  }

  function MakeVerifier(h: HashFunction, gr: Group, user: seq<byte>, password: seq<byte>, salt: seq<byte>)
    : Option<seq<byte>>
  {
    if !gr.Valid() || ValidateSalt(salt).Some? then None
    else Some(MinimalBytes(ModPow(gr.g, CalcX(h, salt, user, password), gr.n)))
  }

  /** `B`: the verifier, masked. */
  function PublicB(gr: Group, k: nat, v: nat, b: nat): (r: nat)
    requires gr.n > 0
    ensures r < gr.n
  {
    (k * v + ModPow(gr.g, b, gr.n)) % gr.n
  }

  /** The client's premaster secret from the server's public value. */
  function ClientPremaster(gr: Group, pubB: nat, k: nat, a: nat, u: nat, x: nat): nat
    requires gr.n > 0
  {
    var gx := ModPow(gr.g, x, gr.n);
    var base := (pubB % gr.n + gr.n - k * gx % gr.n) % gr.n;
    ModPow(base, a + u * x, gr.n)
  }

  /** The server's premaster secret from the client's public value. */
  function ServerPremaster(gr: Group, pubA: nat, v: nat, u: nat, b: nat): nat
    requires gr.n > 0
  {
    var vu := ModPow(v, u, gr.n);
    ModPow(pubA * vu % gr.n, b, gr.n)
  }

  // ---- What the two roles hold, and what each call does to it ----

  datatype ClientState = ClientState(
    group: Group, salt: seq<byte>, a: nat, pubA: nat, legacy: bool,
    computed: bool, key: Digest, m1: Digest)
  {
    predicate Valid() {
      group.Paddable() && pubA < group.n
    }

    /** The public value on the wire. */
    function A(): seq<byte>
      requires Valid()
    {
      BelowModulusFits(group, pubA);
      group.Pad(pubA)
    }

    function Key(): Option<Digest> {
      if computed then Some(key) else None
    }

    predicate VerifyM2(h: HashFunction, m2: seq<byte>) {
      computed && |m2| == HASH_LEN && CalcM2(h, pubA, m1, key) == m2
    }
  }

  datatype ServerState = ServerState(
    group: Group, salt: seq<byte>, v: nat, b: nat, pubB: nat, pubA: Option<nat>, legacy: bool,
    verified: bool, key: Digest, m2: Digest)
  {
    predicate Valid() {
      && group.Paddable() && pubB < group.n
      && (pubA.Some? ==> |MinimalBytes(pubA.value)| <= group.Length())
    }

    function B(): seq<byte>
      requires Valid()
    {
      BelowModulusFits(group, pubB);
      group.Pad(pubB)
    }

    function Key(): Option<Digest> {
      if verified then Some(key) else None
    }
  }

  lemma BelowModulusFits(gr: Group, x: nat)
    requires x <= gr.n
    ensures |MinimalBytes(x)| <= gr.Length()
  {
    MinimalIsMonotone(x, gr.n);
  }

  const ZERO_DIGEST: Digest := Zeros(32)

  function NewClient(gr: Group, salt: seq<byte>, legacy: bool, draw: Option<nat>)
    : (r: Result<ClientState, SrpError>)
    requires gr.Paddable() || !gr.Valid()
    ensures r.Success? ==> r.value.Valid()
  {
    if !gr.Valid() then Failure(InvalidGroup)
    else if ValidateSalt(salt).Some? then Failure(ValidateSalt(salt).value)
    else if draw.None? then Failure(Csprng)
    else Success(ClientState(gr, salt, draw.value, ModPow(gr.g, draw.value, gr.n), legacy,
                             false, ZERO_DIGEST, ZERO_DIGEST))
  }

  /** The client's premaster secret. */
  function ClientSecret(h: HashFunction, c: ClientState, b: nat, user: seq<byte>, password: seq<byte>): nat
    requires c.Valid() && |MinimalBytes(b)| <= c.group.Length()
  {
    var gr := c.group;
    BelowModulusFits(gr, c.pubA);
    var u := gr.UValue(h, c.pubA, b, c.legacy);
    var k := gr.KValue(h, c.legacy);
    ClientPremaster(gr, b, k, c.a, u, CalcX(h, c.salt, user, password))
  }

  function ClientComputeKey(h: HashFunction, c: ClientState, serverB: seq<byte>,
                            user: seq<byte>, password: seq<byte>): (r: Result<ClientState, SrpError>)
    requires c.Valid()
    ensures r.Success? ==> r.value.Valid() && r.value.computed
  {
    var gr := c.group;
    if serverB == [] || |serverB| > gr.Length() then Failure(BadParameter)
    else
      var b := FromBytes(serverB);
      MinimalIsShortest(serverB);
      BelowModulusFits(gr, c.pubA);
      if b % gr.n == 0 then Failure(BadParameter)
      else if gr.UValue(h, c.pubA, b, c.legacy) % gr.n == 0 then Failure(BadParameter)
      else
        var key := SessionKey(h, ClientSecret(h, c, b, user, password));
        Success(c.(key := key, m1 := gr.CalcM1(h, user, c.salt, c.pubA, b, key), computed := true))
  }

  predicate ZeroVerifier(gr: Group, verifier: seq<byte>)
    requires gr.n > 0
  {
    FromBytes(verifier) % gr.n == 0
  }

  function NewServer(h: HashFunction, gr: Group, verifier: seq<byte>, salt: seq<byte>, legacy: bool,
                     draw: Option<nat>): (r: Result<ServerState, SrpError>)
    requires gr.Paddable() || !gr.Valid()
    ensures r.Success? ==> r.value.Valid()
  {
    if !gr.Valid() then Failure(InvalidGroup)
    else if ValidateSalt(salt).Some? then Failure(ValidateSalt(salt).value)
    else if verifier == [] then Failure(InvalidVerifier)
    else if ZeroVerifier(gr, verifier) then Failure(InvalidVerifier)
    else if draw.None? then Failure(Csprng)
    else
        var v := FromBytes(verifier);
        var pubB := PublicB(gr, gr.KValue(h, legacy), v, draw.value);
        if pubB == 0 then Failure(BadParameter)
        else Success(ServerState(gr, salt, v, draw.value, pubB, None, legacy, false,
                                 ZERO_DIGEST, ZERO_DIGEST))
  }

  function ServerHandleA(s: ServerState, clientA: seq<byte>): (r: Result<ServerState, SrpError>)
    requires s.Valid()
    ensures r.Success? ==> r.value.Valid()
  {
    if clientA == [] || |clientA| > s.group.Length() then Failure(BadParameter)
    else if FromBytes(clientA) % s.group.n == 0 then Failure(BadParameter)
    else
      MinimalIsShortest(clientA);
      Success(s.(pubA := Some(FromBytes(clientA))))
  }

  /** The server's premaster secret. */
  function ServerSecret(h: HashFunction, s: ServerState): nat
    requires s.Valid() && s.pubA.Some?
  {
    var gr := s.group;
    BelowModulusFits(gr, s.pubB);
    var u := gr.UValue(h, s.pubA.value, s.pubB, s.legacy);
    ServerPremaster(gr, s.pubA.value, s.v, u, s.b)
  }

  /** The new state and whether the proof was accepted. A wrong proof still replaces the key. */
  function ServerVerifyM1(h: HashFunction, s: ServerState, user: seq<byte>, m1: seq<byte>)
    : (r: (ServerState, bool))
    requires s.Valid()
    ensures r.0.Valid()
    ensures r.1 ==> r.0.verified
  {
    if s.pubA.None? || |m1| != HASH_LEN then (s, false)
    else
      var gr := s.group;
      BelowModulusFits(gr, s.pubB);
      if gr.UValue(h, s.pubA.value, s.pubB, s.legacy) % gr.n == 0 then (s, false)
      else
        var key := SessionKey(h, ServerSecret(h, s));
        var want := gr.CalcM1(h, user, s.salt, s.pubA.value, s.pubB, key);
        if want != m1 then (s.(key := key), false)
        else (s.(key := key, m2 := CalcM2(h, s.pubA.value, want, key), verified := true), true)
  }

  // ---- What is refused ----

  /** Salts of 1 to 1024 bytes. */
  lemma SaltRules(salt: seq<byte>)
    ensures ValidateSalt(salt).None? <==> 1 <= |salt| <= 1024
    ensures ValidateSalt(salt).Some? ==> ValidateSalt(salt) == Some(if salt == [] then InvalidSalt else SaltTooLong)
  {}

  /** A new client has a secret and no key; it is refused for its group, its salt, or a failed draw. */
  lemma ClientRules(gr: Group, salt: seq<byte>, legacy: bool, draw: Option<nat>)
    requires gr.Paddable() || !gr.Valid()
    ensures NewClient(gr, salt, legacy, draw).Success? <==> gr.n > 0 && gr.g > 0 && 1 <= |salt| <= 1024 && draw.Some?
    ensures NewClient(gr, salt, legacy, draw).Success? ==>
              var c := NewClient(gr, salt, legacy, draw).value;
              c.Key() == None && c.a == draw.value && c.legacy == legacy && c.salt == salt && c.group == gr
    ensures NewClient(gr, salt, legacy, draw).Failure? && gr.Valid() && draw.Some? ==>
              NewClient(gr, salt, legacy, draw).error in {InvalidSalt, SaltTooLong}
  {
    hide ModPow;
  }

  /** A new server holds a verifier that is not zero, a public value that is not zero, and no key. */
  lemma ServerRules(h: HashFunction, gr: Group, verifier: seq<byte>, salt: seq<byte>, legacy: bool, draw: Option<nat>)
    requires gr.Paddable()
    ensures ZeroVerifier(gr, verifier) <==> FromBytes(verifier) % gr.n == 0
    ensures var r := NewServer(h, gr, verifier, salt, legacy, draw);
            && (r.Success? <==> && 1 <= |salt| <= 1024 && verifier != [] && !ZeroVerifier(gr, verifier) && draw.Some?
                                && PublicB(gr, gr.KValue(h, legacy), FromBytes(verifier), draw.value) > 0)
            && (r.Success? ==> && r.value.Key() == None && r.value.pubA == None && r.value.v == FromBytes(verifier)
                               && r.value.b == draw.value && r.value.salt == salt && r.value.legacy == legacy)
            && (r.Failure? && 1 <= |salt| <= 1024 ==>
                  r.error == if verifier == [] || ZeroVerifier(gr, verifier) then InvalidVerifier
                             else if draw.None? then Csprng else BadParameter)
  {
    hide PublicB, Group.HashPair, FromBytes;
  }

  /** A public value is taken exactly when it is no multiple of the modulus and no longer than it; what
      is taken is its number, and nothing else changes. */
  lemma PublicValueRules(s: ServerState, clientA: seq<byte>)
    requires s.Valid()
    ensures ServerHandleA(s, clientA)
         == if 1 <= |clientA| <= s.group.Length() && FromBytes(clientA) % s.group.n > 0
            then Success(s.(pubA := Some(FromBytes(clientA)))) else Failure(BadParameter)
  {}

  /** The client aborts exactly on a public value that is a multiple of the modulus, empty or too long,
      and on a scrambling parameter that is. */
  lemma ClientAborts(h: HashFunction, c: ClientState, serverB: seq<byte>, user: seq<byte>, password: seq<byte>)
    requires c.Valid()
    ensures ClientComputeKey(h, c, serverB, user, password).Success?
       <==> && 1 <= |serverB| <= c.group.Length() && FromBytes(serverB) % c.group.n > 0
            && (|MinimalBytes(c.pubA)| <= c.group.Length() && |MinimalBytes(FromBytes(serverB))| <= c.group.Length() ==>
                  c.group.UValue(h, c.pubA, FromBytes(serverB), c.legacy) % c.group.n > 0)
    ensures var r := ClientComputeKey(h, c, serverB, user, password);
            && (r.Failure? ==> r.error == BadParameter)
            && (r.Success? ==> r.value.Key() == Some(r.value.key) && r.value.(computed := c.computed, key := c.key, m1 := c.m1) == c)
  {
    hide Group.UValue, ClientSecret, Group.CalcM1, MinimalBytes, FromBytes;
    MinimalIsShortest(serverB);
    BelowModulusFits(c.group, c.pubA);
  }

  /** A proof is accepted exactly when it is the one derived from what the server holds; only then is
      there a key to be had, and a proof to send. Any proof that gets as far as being compared
      replaces the derived key. */
  lemma ProofRules(h: HashFunction, s: ServerState, user: seq<byte>, m1: seq<byte>)
    requires s.Valid() && s.pubA.Some? && |MinimalBytes(s.pubB)| <= s.group.Length()
    ensures var gr, (t, ok) := s.group, ServerVerifyM1(h, s, user, m1);
            var key := SessionKey(h, ServerSecret(h, s));
            var usable := gr.UValue(h, s.pubA.value, s.pubB, s.legacy) % gr.n > 0;
            && (ok <==> usable && m1 == gr.CalcM1(h, user, s.salt, s.pubA.value, s.pubB, key))
            && (ok ==> t == s.(key := key, verified := true, m2 := CalcM2(h, s.pubA.value, m1, key)) && t.Key() == Some(key))
            && (!ok ==> t == s.(key := if usable && |m1| == 32 then key else s.key) && (!s.verified ==> t.Key() == None))
  {
    hide Group.UValue, ServerSecret, Group.CalcM1, MinimalBytes;
  }

  lemma NothingBeforeA(h: HashFunction, s: ServerState, user: seq<byte>, m1: seq<byte>)
    requires s.Valid() && s.pubA.None?
    ensures ServerVerifyM1(h, s, user, m1) == (s, false)
  {}

  // ---- Agreement ----

  /** Taking the masked verifier back out of `B` leaves `g^b`. */
  lemma UnmaskedBase(kv: nat, gb: nat, n: nat)
    requires n > 0 && gb < n
    ensures ((kv + gb) % n % n + n - kv % n) % n == gb
  {
    var B := (kv + gb) % n;
    ModSmall(B, n);
    var y := n - kv % n;
    ModAddMod(kv + gb, y, n);
    var q := kv / n;
    assert kv == q * n + kv % n;
    assert kv + gb + y == gb + (q + 1) * n;
    ModShift(gb, q + 1, n);
    ModSmall(gb, n);
  }

  lemma ModSmall(x: nat, n: nat)
    requires x < n
    ensures x % n == x
  {}

  lemma MulCommutes(x: nat, y: nat)
    ensures x * y == y * x
  {}

  /** `(g^b)^(a + u*x)` and `(g^a * (g^x)^u)^b` are the same number. */
  lemma ExponentsAgree(g: nat, a: nat, b: nat, u: nat, x: nat)
    ensures Pow(Pow(g, b), a + u * x) == Pow(Pow(g, a) * Pow(Pow(g, x), u), b)
  {
    hide Pow;
    MulCommutes(u, x);
    var e := a + u * x;
    PowMul(g, b, e);
    PowMul(g, x, u);
    PowAdd(g, a, u * x);
    PowMul(g, e, b);
    MulCommutes(b, e);
  }

  /** The server reduces at every step; the result is that of reducing once. */
  lemma ServerReduction(ga: nat, gx: nat, u: nat, b: nat, n: nat)
    requires n > 0
    ensures ModPow(ga % n * ModPow(gx % n, u, n) % n, b, n) == Pow(ga * Pow(gx, u), b) % n
  {
    var vu := ModPow(gx % n, u, n);
    PowOfMod(gx, u, n);
    assert vu == Pow(gx, u) % n;
    ModMulMod(ga, vu, n);
    ModMulMod(Pow(gx, u), ga, n);
    assert ga * vu == vu * ga && Pow(gx, u) * ga == ga * Pow(gx, u);
    assert ga % n * vu % n == ga * Pow(gx, u) % n;
    PowOfMod(ga * Pow(gx, u), b, n);
  }

  /** The algebra of section 2.6 of RFC 5054, for every modulus, generator and exponents: the
      client's and the server's formulas give one premaster secret. */
  lemma PremasterSecretsAgree(gr: Group, a: nat, b: nat, u: nat, x: nat, k: nat)
    requires gr.n > 0
    ensures var v := ModPow(gr.g, x, gr.n);
            && ClientPremaster(gr, PublicB(gr, k, v, b), k, a, u, x)
               == ServerPremaster(gr, ModPow(gr.g, a, gr.n), v, u, b)
               == ModPow(gr.g, b * (a + u * x), gr.n)
  {
    hide Pow;
    var g, n := gr.g, gr.n;
    var v := ModPow(g, x, n);
    UnmaskedBase(k * v, ModPow(g, b, n), n);
    PowOfMod(Pow(g, b), a + u * x, n);
    PowMul(g, b, a + u * x);
    ExponentsAgree(g, a, b, u, x);
    ServerReduction(Pow(g, a), Pow(g, x), u, b, n);
  }

  /** The server as set up for a user registered with `MakeVerifier`. */
  ghost predicate Registered(h: HashFunction, c: ClientState, s: ServerState,
                             user: seq<byte>, password: seq<byte>)
  {
    && c.Valid() && s.Valid()
    && c.group == s.group && c.salt == s.salt && c.legacy == s.legacy
    && c.pubA == ModPow(c.group.g, c.a, c.group.n)
    && s.v == ModPow(s.group.g, CalcX(h, s.salt, user, password), s.group.n)
    && s.pubB == PublicB(s.group, s.group.KValue(h, s.legacy), s.v, s.b)
  }

  /** A client and a server built from one registration start out `Registered`. */
  lemma ConstructedRegistered(h: HashFunction, gr: Group, user: seq<byte>, password: seq<byte>,
                              salt: seq<byte>, legacy: bool, a: nat, b: nat)
    requires gr.Paddable() && MakeVerifier(h, gr, user, password, salt).Some?
    requires NewClient(gr, salt, legacy, Some(a)).Success?
    requires NewServer(h, gr, MakeVerifier(h, gr, user, password, salt).value, salt, legacy, Some(b)).Success?
    ensures Registered(h, NewClient(gr, salt, legacy, Some(a)).value,
                       NewServer(h, gr, MakeVerifier(h, gr, user, password, salt).value, salt, legacy,
                                 Some(b)).value, user, password)
  {
    FromMinimalBytes(ModPow(gr.g, CalcX(h, salt, user, password), gr.n));
  }

  /** Whenever neither side aborts, the exchange of A and B, then of M1 and M2, succeeds: the
      server accepts the client's proof, the client accepts the server's, and both hold one
      session key. For every group, hash, credentials, secrets and both padding modes. */
  lemma HandshakeAgrees(h: HashFunction, c: ClientState, s: ServerState,
                        user: seq<byte>, password: seq<byte>)
    requires Registered(h, c, s, user, password)
    requires ServerHandleA(s, c.A()).Success?
    requires ClientComputeKey(h, c, s.B(), user, password).Success?
    ensures var s1 := ServerHandleA(s, c.A()).value;
            var c1 := ClientComputeKey(h, c, s.B(), user, password).value;
            var (s2, accepted) := ServerVerifyM1(h, s1, user, c1.m1);
            && accepted && s2.verified
            && s2.key == c1.key
            && s2.Key() == c1.Key() == Some(s2.key)
            && c1.VerifyM2(h, s2.m2)
            && s2.key == SessionKey(h, ServerSecret(h, s1))
  {
    hide ModPow, PublicB, ClientPremaster, ServerPremaster, FromBytes, MinimalBytes, CalcX, CalcM2;
    PublicValuesArrive(c, s);
    var gr := c.group;
    BelowModulusFits(gr, c.pubA);
    BelowModulusFits(gr, s.pubB);
    var u := gr.UValue(h, c.pubA, s.pubB, c.legacy);
    var x := CalcX(h, c.salt, user, password);
    PremasterSecretsAgree(gr, c.a, s.b, u, x, gr.KValue(h, c.legacy));
    var s1 := ServerHandleA(s, c.A()).value;
    assert ServerSecret(h, s1) == ClientSecret(h, c, s.pubB, user, password);
  }

  /** Padding preserves the public values. */
  lemma PublicValuesArrive(c: ClientState, s: ServerState)
    requires c.Valid() && s.Valid()
    ensures FromBytes(c.A()) == c.pubA && FromBytes(s.B()) == s.pubB
    ensures |c.A()| == c.group.Length() && |s.B()| == s.group.Length()
  {
    BelowModulusFits(c.group, c.pubA);
    BelowModulusFits(s.group, s.pubB);
    FromPaddedMinimal(c.group.Length() - |MinimalBytes(c.pubA)|, c.pubA);
    FromPaddedMinimal(s.group.Length() - |MinimalBytes(s.pubB)|, s.pubB);
  }

  // ---- The roles as objects ----

  /** The authenticatee. */
  class Client {
    const group: Group
    const salt: seq<byte>
    const a: nat
    const pubA: nat
    const legacy: bool
    var computed: bool
    var key: Digest
    var m1: Digest

    ghost function State(): ClientState
      reads this
    {
      ClientState(group, salt, a, pubA, legacy, computed, key, m1)
    }

    constructor (c: ClientState)
      ensures State() == c
    {
      group, salt, a, pubA, legacy := c.group, c.salt, c.a, c.pubA, c.legacy;
      computed, key, m1 := c.computed, c.key, c.m1;
    }

    static method New(gr: Group, salt: seq<byte>, legacy: bool, draw: Option<nat>)
      returns (c: Client?, error: Option<SrpError>)
      requires gr.Paddable() || !gr.Valid()
      ensures match NewClient(gr, salt, legacy, draw)
              case Success(st) => c != null && fresh(c) && c.State() == st && error == None
              case Failure(e) => c == null && error == Some(e)
    {
      if !gr.Valid() {
        return null, Some(InvalidGroup);
      }
      var bad := ValidateSalt(salt);
      if bad.Some? {
        return null, bad;
      }
      if draw.None? {
        return null, Some(Csprng);
      }
      c := new Client(ClientState(gr, salt, draw.value, ModPow(gr.g, draw.value, gr.n), legacy,
                                  false, ZERO_DIGEST, ZERO_DIGEST));
      error := None;
    }

    method ComputeKey(h: HashFunction, serverB: seq<byte>, user: seq<byte>, password: seq<byte>)
      returns (error: Option<SrpError>)
      requires State().Valid()
      modifies this
      ensures match ClientComputeKey(h, old(State()), serverB, user, password)
              case Success(st) => State() == st && error == None
              case Failure(e) => State() == old(State()) && error == Some(e)
    {
      hide ModPow, FromBytes, MinimalBytes, CalcX;
      if serverB == [] || |serverB| > group.Length() {
        return Some(BadParameter);
      }
      var b := FromBytes(serverB);
      MinimalIsShortest(serverB);
      BelowModulusFits(group, pubA);
      if b % group.n == 0 {
        return Some(BadParameter);
      }
      var u := group.UValue(h, pubA, b, legacy);
      if u % group.n == 0 {
        return Some(BadParameter);
      }
      var k := group.KValue(h, legacy);
      var x := CalcX(h, salt, user, password);
      var s := ClientPremaster(group, b, k, a, u, x);
      key := SessionKey(h, s);
      m1 := group.CalcM1(h, user, salt, pubA, b, key);
      computed := true;
      return None;
    }
  }

  /** The authenticator. */
  class Server {
    const group: Group
    const salt: seq<byte>
    const v: nat
    const b: nat
    var pubB: nat
    var pubA: Option<nat>
    const legacy: bool
    var verified: bool
    var key: Digest
    var m2: Digest

    ghost function State(): ServerState
      reads this
    {
      ServerState(group, salt, v, b, pubB, pubA, legacy, verified, key, m2)
    }

    constructor (gr: Group, salt: seq<byte>, v: nat, b: nat, legacy: bool)
      ensures State() == ServerState(gr, salt, v, b, 0, None, legacy, false, ZERO_DIGEST, ZERO_DIGEST)
    {
      this.group, this.salt, this.v, this.b, this.legacy := gr, salt, v, b, legacy;
      pubB, pubA, verified, key, m2 := 0, None, false, ZERO_DIGEST, ZERO_DIGEST;
    }

    static method New(h: HashFunction, gr: Group, verifier: seq<byte>, salt: seq<byte>, legacy: bool,
                      draw: Option<nat>)
      returns (s: Server?, error: Option<SrpError>)
      requires gr.Paddable() || !gr.Valid()
      ensures match NewServer(h, gr, verifier, salt, legacy, draw)
              case Success(st) => s != null && fresh(s) && s.State() == st && error == None
              case Failure(e) => s == null && error == Some(e)
    {
      if !gr.Valid() {
        return null, Some(InvalidGroup);
      }
      var bad := ValidateSalt(salt);
      if bad.Some? {
        return null, bad;
      }
      if verifier == [] {
        return null, Some(InvalidVerifier);
      }
      var v := FromBytes(verifier);
      if v % gr.n == 0 {
        return null, Some(InvalidVerifier);
      }
      if draw.None? {
        return null, Some(Csprng);
      }
      s := new Server(gr, salt, v, draw.value, legacy);
      error := s.ComputeB(h);
      if error.Some? {
        s := null;
      }
    }

    method ComputeB(h: HashFunction) returns (error: Option<SrpError>)
      requires group.Paddable()
      modifies this
      ensures State() == old(State()).(pubB := PublicB(group, group.KValue(h, legacy), v, b))
      ensures error == if pubB == 0 then Some(BadParameter) else None
    {
      var k := group.KValue(h, legacy);
      var gb := ModPow(group.g, b, group.n);
      var kv := k * v;
      pubB := (kv + gb) % group.n;
      if pubB == 0 {
        return Some(BadParameter);
      }
      return None;
    }

    method HandleA(clientA: seq<byte>) returns (error: Option<SrpError>)
      requires State().Valid()
      modifies this
      ensures match ServerHandleA(old(State()), clientA)
              case Success(st) => State() == st && error == None
              case Failure(e) => State() == old(State()) && error == Some(e)
    {
      if clientA == [] || |clientA| > group.Length() {
        return Some(BadParameter);
      }
      var a := FromBytes(clientA);
      if a % group.n == 0 {
        return Some(BadParameter);
      }
      pubA := Some(a);
      return None;
    }

    method VerifyM1(h: HashFunction, user: seq<byte>, m1: seq<byte>) returns (ok: bool)
      requires State().Valid()
      modifies this
      ensures (State(), ok) == ServerVerifyM1(h, old(State()), user, m1)
    {
      if pubA.None? {
        return false;
      }
      if |m1| != HASH_LEN {
        return false;
      }
      BelowModulusFits(group, pubB);
      var u := group.UValue(h, pubA.value, pubB, legacy);
      if u % group.n == 0 {
        return false;
      }
      key := SessionKey(h, ServerPremaster(group, pubA.value, v, u, b));
      var want := group.CalcM1(h, user, salt, pubA.value, pubB, key);
      if want != m1 {
        return false;
      }
      m2 := CalcM2(h, pubA.value, want, key);
      verified := true;
      return true;
    }
  }
}
