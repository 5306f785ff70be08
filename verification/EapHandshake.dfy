/** A whole EAP-SRP handshake: the two roles of eap.rs joined by two FIFO channels that may repeat
    any frame in flight back to back, or lose it, but neither reorder nor forge.

    The canonical transcript is written out frame by frame. `Aligned` says that the system is `i`
    frames in on the client's side and `j` on the server's and that everything in flight is the
    last frame the receiver processed or the next one it needs; every action keeps it. */
module EapHandshake {
  import opened Bytes
  import opened EapFrame
  import opened Eap
  import Srp

  /** One handshake. Each side's secrets come from a tape, read from the front. */
  datatype Config = Config(
    env: Env, username: seq<byte>, password: seq<byte>, salt: seq<byte>, legacy: bool, id: byte,
    clientTape: nat -> nat, serverTape: nat -> nat)

  function Id(c: Config, k: nat): byte {
    (c.id + k) % 256
  }

  function Ver(c: Config): byte {
    if c.legacy then 2 else EAP_VERSION_3
  }

  ghost predicate Registration(c: Config) {
    && c.env.Valid() && c.env.group.Length() <= 60000
    && 1 <= |c.username| <= 255 && 1 <= |c.password| <= 255
    && var v := Srp.MakeVerifier(c.env.hash, c.env.group, c.username, c.password, c.salt);
       v.Some? && c.env.lookup(c.username) == Some((v.value, c.salt))
  }

  ghost function Verifier(c: Config): seq<byte>
    requires Registration(c)
  {
    Srp.MakeVerifier(c.env.hash, c.env.group, c.username, c.password, c.salt).value
  }

  /** The client is registered and none of the SRP safety aborts fires on the secrets drawn. */
  ghost predicate Runs(c: Config) {
    && Registration(c)
    && var cl := Srp.NewClient(c.env.group, c.salt, c.legacy, Some(c.clientTape(0)));
       var sv := Srp.NewServer(c.env.hash, c.env.group, Verifier(c), c.salt, c.legacy, Some(c.serverTape(0)));
       && cl.Success? && sv.Success?
       && Srp.ServerHandleA(sv.value, cl.value.A()).Success?
       && Srp.ClientComputeKey(c.env.hash, cl.value, sv.value.B(), c.username, c.password).Success?
  }

  // ---- The SRP objects along the way ----

  ghost function NewCl(c: Config): (r: Srp.ClientState)
    requires Runs(c)
    ensures r.Valid()
  {
    Srp.NewClient(c.env.group, c.salt, c.legacy, Some(c.clientTape(0))).value
  }

  ghost function NewSv(c: Config): (r: Srp.ServerState)
    requires Runs(c)
    ensures r.Valid()
  {
    Srp.NewServer(c.env.hash, c.env.group, Verifier(c), c.salt, c.legacy, Some(c.serverTape(0))).value
  }

  ghost function KeyedCl(c: Config): (r: Srp.ClientState)
    requires Runs(c)
    ensures r.Valid() && r.computed
  {
    Srp.ClientComputeKey(c.env.hash, NewCl(c), NewSv(c).B(), c.username, c.password).value
  }

  ghost function HeardSv(c: Config): (r: Srp.ServerState)
    requires Runs(c)
    ensures r.Valid()
  {
    Srp.ServerHandleA(NewSv(c), NewCl(c).A()).value
  }

  ghost function ProvedSv(c: Config): (r: Srp.ServerState)
    requires Runs(c)
    ensures r.Valid()
  {
    Srp.ServerVerifyM1(c.env.hash, HeardSv(c), c.username, KeyedCl(c).m1).0
  }

  /** The agreement theorem of `Srp`, at this handshake. */
  lemma SecretsAgree(c: Config)
    requires Runs(c)
    ensures Srp.ServerVerifyM1(c.env.hash, HeardSv(c), c.username, KeyedCl(c).m1).1
    ensures ProvedSv(c).verified && ProvedSv(c).key == KeyedCl(c).key
    ensures KeyedCl(c).VerifyM2(c.env.hash, ProvedSv(c).m2)
  {
    Srp.ConstructedRegistered(c.env.hash, c.env.group, c.username, c.password, c.salt, c.legacy,
                              c.clientTape(0), c.serverTape(0));
    Srp.HandshakeAgrees(c.env.hash, NewCl(c), NewSv(c), c.username, c.password);
  }

  // ---- The canonical transcript ----

  /** The kinds the client sends, in order. */
  function ClientKind(k: nat): Kind {
    if k == 0 then Start
    else if k == 1 then IdentityResponse
    else if k == 2 then ClientKey
    else if k == 3 then ClientValidator
    else EapSuccess
  }

  /** The kinds the server sends, in order. */
  function ServerKind(k: nat): Kind {
    if k == 0 then IdentityRequest
    else if k == 1 then Challenge
    else if k == 2 then ServerKey
    else ServerValidator
  }

  ghost function ClientFrame(c: Config, k: nat): (f: Frame)
    requires Runs(c) && k <= 4
    ensures f.kind == ClientKind(k)
  {
    if k == 0 then StartFrame()
    else if k == 1 then
      DEFAULT.(version := Ver(c), code := Response, identifier := Id(c, 0), kind := IdentityResponse,
               username := c.username)
    else if k == 2 then
      DEFAULT.(version := Ver(c), code := Response, identifier := Id(c, 1), kind := ClientKey,
               public := NewCl(c).A())
    else if k == 3 then
      DEFAULT.(version := Ver(c), code := Response, identifier := Id(c, 2), kind := ClientValidator,
               proof := KeyedCl(c).m1)
    else
      DEFAULT.(version := Ver(c), code := SuccessCode, identifier := Id(c, 3), kind := EapSuccess)
  }

  ghost function ServerFrame(c: Config, k: nat): (f: Frame)
    requires Runs(c) && k <= 3
    ensures f.kind == ServerKind(k)
  {
    if k == 0 then
      DEFAULT.(version := Ver(c), code := Request, identifier := Id(c, 0), kind := IdentityRequest)
    else if k == 1 then
      DEFAULT.(version := Ver(c), code := Request, identifier := Id(c, 1), kind := Challenge, salt := c.salt)
    else if k == 2 then
      DEFAULT.(version := Ver(c), code := Request, identifier := Id(c, 2), kind := ServerKey,
               public := NewSv(c).B())
    else
      DEFAULT.(version := Ver(c), code := Request, identifier := Id(c, 3), kind := ServerValidator,
               proof := ProvedSv(c).m2)
  }

  ghost function FromClient(c: Config, k: nat): seq<byte>
    requires Runs(c) && k <= 4
  {
    Encode(ClientFrame(c, k))
  }

  ghost function FromServer(c: Config, k: nat): seq<byte>
    requires Runs(c) && k <= 3
  {
    Encode(ServerFrame(c, k))
  }

  lemma ClientFrameArrives(c: Config, k: nat)
    requires Runs(c) && k <= 4
    ensures Parse(FromClient(c, k)) == Success(ClientFrame(c, k)) && FromClient(c, k) != []
  {
    hide Parse, Encode, Runs, NewCl, KeyedCl;
    PublicLengths(c);
    assert WellFormed(ClientFrame(c, k));
    ParseOfEncode(ClientFrame(c, k));
    EncodeIsNotEmpty(ClientFrame(c, k));
  }

  lemma ServerFrameArrives(c: Config, k: nat)
    requires Runs(c) && k <= 3
    ensures Parse(FromServer(c, k)) == Success(ServerFrame(c, k)) && FromServer(c, k) != []
  {
    hide Parse, Encode, Runs, NewSv, ProvedSv;
    PublicLengths(c);
    assert WellFormed(ServerFrame(c, k));
    ParseOfEncode(ServerFrame(c, k));
    EncodeIsNotEmpty(ServerFrame(c, k));
  }

  lemma EncodeIsNotEmpty(f: Frame)
    ensures Encode(f) != []
  {}

  lemma PublicLengths(c: Config)
    requires Runs(c)
    ensures |NewCl(c).A()| <= 60000 && |NewSv(c).B()| <= 60000
    ensures 1 <= |c.username| <= 255 && |c.salt| <= 1024
  {
    Srp.PublicValuesArrive(NewCl(c), NewSv(c));
  }

  // ---- The roles along the way ----

  ghost function ClientAt(c: Config, i: nat): (s: AteState)
    requires Runs(c) && i <= 4
    ensures s.Valid()
  {
    var start := AteStart(AteNew(c.username, c.password).value);
    if i == 0 then start
    else
      var s := start.(idValid := true, id := Id(c, i - 1), lastRx := Some(FromServer(c, i - 1)),
                      lastReply := Some(ClientFrame(c, i)));
      if i == 1 then s
      else if i == 2 then s.(client := Some(NewCl(c)), salt := c.salt)
      else if i == 3 then s.(client := Some(KeyedCl(c)), salt := c.salt)
      else s.(client := Some(KeyedCl(c)), salt := c.salt, state := Authenticated, session := Some(KeyedCl(c).key))
  }

  ghost function ServerAt(c: Config, j: nat): (s: AtorState)
    requires Runs(c) && j <= 5
    ensures s.Valid()
  {
    var fresh0 := AtorNew(c.legacy).(id := c.id);
    if j == 0 then fresh0
    else
      var s := fresh0.(state := InProgress, id := Id(c, j - 1), lastRx := Some(FromClient(c, j - 1)),
                       lastReply := if j <= 4 then Some(ServerFrame(c, j - 1)) else None);
      if j == 1 then s
      else if j == 2 then s.(server := Some(NewSv(c)), username := c.username)
      else if j == 3 then s.(server := Some(HeardSv(c)), username := c.username)
      else
        var t := s.(server := Some(ProvedSv(c)), username := c.username, verified := true,
                    session := Some(ProvedSv(c).key));
        if j == 4 then t else t.(state := Authenticated, everAuthed := true)
  }

  lemma ClientOpens(c: Config)
    requires Runs(c)
    ensures AteNew(c.username, c.password)
            == Success(AteState(c.username, c.password, Unauth, 0, false, None, [], None, true, None, None))
  {}

  lemma NextIdWraps(id: byte, k: nat)
    ensures ((id + k) % 256 + 1) % 256 == (id + (k + 1)) % 256
  {
    var x: nat := id + k;
    assert x == x / 256 * 256 + x % 256;
  }

  lemma EnvIsValid(c: Config)
    requires Runs(c)
    ensures c.env.Valid()
  {}

  lemma Ids(c: Config, k: nat)
    requires Runs(c)
    ensures NextId(Id(c, k)) == Id(c, k + 1) && Id(c, 0) == c.id && c.env.Valid()
  {
    hide Runs;
    EnvIsValid(c);
    NextIdWraps(c.id, k);
  }

  /** The authenticator's gate lets a frame with the current identifier through. */
  lemma ServerDispatch(env: Env, s: AtorState, f: Frame, draw: Option<nat>)
    requires env.Valid() && s.Valid()
    requires s.state.Unauth? || f.identifier == s.id
    ensures f.kind.Start? ==>
              AtorHandle(env, s, f, draw) == (AtorOpen(s).0, AtorOpen(s).1, false)
    ensures f.kind.IdentityResponse? ==> AtorHandle(env, s, f, draw) == AtorIdentity(env, s, f, draw)
    ensures f.kind.ClientKey? ==>
              AtorHandle(env, s, f, draw) == (AtorClientKey(s, f).0, AtorClientKey(s, f).1, false)
    ensures f.kind.ClientValidator? ==>
              AtorHandle(env, s, f, draw)
              == (AtorClientValidator(env, s, f).0, AtorClientValidator(env, s, f).1, false)
    ensures f.kind.EapSuccess? ==> AtorHandle(env, s, f, draw) == (AtorConfirm(s), NOTHING, false)
  {
    hide AtorOpen, AtorIdentity, AtorClientKey, AtorClientValidator, AtorConfirm;
  }

  /** The authenticatee's gates let the next request of an exchange in progress through. */
  lemma ClientDispatch(env: Env, s: AteState, f: Frame, draw: Option<nat>)
    requires env.Valid() && s.Valid() && s.state.InProgress? && !f.kind.EapFailure?
    requires s.idValid && SrpRequest(f.kind) ==> f.identifier == NextId(s.id)
    ensures AteHandle(env, s, f, draw) == AteProcess(env, s, f, draw)
    ensures f.kind.Challenge? ==> AteProcess(env, s, f, draw) == AteChallenge(env, s, f, draw)
  {
    hide AteChallenge, Srp.ClientComputeKey;
  }

  lemma ChallengeOutcome(env: Env, s: AteState, f: Frame, draw: Option<nat>, cl: Srp.ClientState)
    requires env.Valid() && s.Valid() && f.genG == [] && f.salt != [] && Srp.ValidateSalt(f.salt).None?
    requires Srp.NewClient(env.group, f.salt, NegotiatedVersion(f) == 2, draw) == Success(cl)
    ensures AteChallenge(env, s, f, draw)
            == (s.(id := f.identifier, idValid := true, client := Some(cl), salt := f.salt, state := InProgress),
                Send(DEFAULT.(version := NegotiatedVersion(f), code := Response, identifier := f.identifier,
                              kind := ClientKey, public := cl.A())),
                true)
  {
    hide Srp.NewClient, Srp.ValidateSalt;
  }

  lemma ValidatorOutcome(env: Env, s: AteState, f: Frame, draw: Option<nat>)
    requires env.Valid() && s.Valid() && f.kind.ServerValidator? && f.proof != []
    requires s.client.Some? && s.client.value.VerifyM2(env.hash, f.proof)
    ensures AteProcess(env, s, f, draw)
            == (s.(id := f.identifier, idValid := true, session := Some(s.client.value.key), state := Authenticated),
                Send(DEFAULT.(version := NegotiatedVersion(f), code := SuccessCode, identifier := f.identifier,
                              kind := EapSuccess)),
                false)
  {
    hide AteChallenge, Srp.ClientComputeKey;
  }

  // ---- A new frame takes each role one step along ----

  lemma ServerFresh(c: Config, j: nat, draw: Option<nat>)
    requires Runs(c) && j <= 4 && (j == 1 ==> draw == Some(c.serverTape(0)))
    ensures AtorRecv(c.env, ServerAt(c, j), FromClient(c, j), draw)
            == (ServerAt(c, j + 1), Reply(if j < 4 then Some(ServerFrame(c, j)) else None, None), j == 1)
  {
    hide Parse, Encode, FromClient, FromServer, AtorHandle, ServerAt, ClientFrame, ServerFrame, Runs;
    ClientFrameArrives(c, j);
    ServerRemembers(c, j);
    if j > 0 {
      ClientFramesDiffer(c, j);
    }
    ServerHandles(c, j, draw);
  }

  lemma ServerRemembers(c: Config, j: nat)
    requires Runs(c) && j <= 5
    ensures ServerAt(c, j).lastRx == if j == 0 then None else Some(FromClient(c, j - 1))
    ensures ServerAt(c, j).lastReply == if 1 <= j <= 4 then Some(ServerFrame(c, j - 1)) else None
  {
    hide Runs, FromClient;
  }

  lemma ClientFramesDiffer(c: Config, j: nat)
    requires Runs(c) && 0 < j <= 4
    ensures FromClient(c, j) != FromClient(c, j - 1)
  {
    hide Parse, FromClient, Runs, ClientFrame;
    ClientFrameArrives(c, j);
    ClientFrameArrives(c, j - 1);
  }

  lemma ServerHandles(c: Config, j: nat, draw: Option<nat>)
    requires Runs(c) && j <= 4 && (j == 1 ==> draw == Some(c.serverTape(0)))
    ensures var (t, reply, drew) := AtorHandle(c.env, ServerAt(c, j), ClientFrame(c, j), draw);
            && drew == (j == 1)
            && reply == Reply(if j < 4 then Some(ServerFrame(c, j)) else None, None)
            && t.(lastRx := Some(FromClient(c, j)), lastReply := reply.frame) == ServerAt(c, j + 1)
  {
    hide AtorHandle, Runs;
    if j == 0 {
      ServerHandles0(c, draw);
    } else if j == 1 {
      ServerHandles1(c, draw);
    } else if j == 2 {
      ServerHandles2(c, draw);
    } else if j == 3 {
      ServerHandles3(c, draw);
    } else {
      ServerHandles4(c, draw);
    }
  }

  lemma ServerHandles4(c: Config, draw: Option<nat>)
    requires Runs(c)
    ensures var (t, reply, drew) := AtorHandle(c.env, ServerAt(c, 4), ClientFrame(c, 4), draw);
            && !drew && reply == NOTHING
            && t.(lastRx := Some(FromClient(c, 4)), lastReply := reply.frame) == ServerAt(c, 5)
  {
    hide AtorHandle, ProvedSv, Id, NextId, FromClient, FromServer, Runs, StartFrame;
    Ids(c, 3);
    ServerDispatch(c.env, ServerAt(c, 4), ClientFrame(c, 4), draw);
  }

  lemma ServerHandles0(c: Config, draw: Option<nat>)
    requires Runs(c)
    ensures var (t, reply, drew) := AtorHandle(c.env, ServerAt(c, 0), ClientFrame(c, 0), draw);
            && !drew && reply == Send(ServerFrame(c, 0))
            && t.(lastRx := Some(FromClient(c, 0)), lastReply := reply.frame) == ServerAt(c, 1)
  {
    hide AtorHandle, Id, NextId, FromClient, FromServer, Runs, StartFrame;
    Ids(c, 0);
    assert ClientFrame(c, 0).kind.Start? by { StartKind(); }
    ServerDispatch(c.env, ServerAt(c, 0), ClientFrame(c, 0), draw);
  }

  lemma StartKind()
    ensures StartFrame().kind.Start?
  {}

  lemma ServerHandles1(c: Config, draw: Option<nat>)
    requires Runs(c) && draw == Some(c.serverTape(0))
    ensures var (t, reply, drew) := AtorHandle(c.env, ServerAt(c, 1), ClientFrame(c, 1), draw);
            && drew && reply == Send(ServerFrame(c, 1))
            && t.(lastRx := Some(FromClient(c, 1)), lastReply := reply.frame) == ServerAt(c, 2)
  {
    hide AtorHandle, NewSv, Verifier, Srp.NewServer, Srp.ValidateSalt, Srp.ZeroVerifier, Id, NextId, FromClient, FromServer, Runs, StartFrame;
    Ids(c, 0);
    ServerIsBuilt(c);
    ServerDispatch(c.env, ServerAt(c, 1), ClientFrame(c, 1), draw);
  }

  lemma ServerIsBuilt(c: Config)
    requires Runs(c)
    ensures c.env.lookup(c.username) == Some((Verifier(c), c.salt)) && Verifier(c) != []
    ensures Srp.ValidateSalt(c.salt).None? && !Srp.ZeroVerifier(c.env.group, Verifier(c))
    ensures Srp.NewServer(c.env.hash, c.env.group, Verifier(c), c.salt, c.legacy, Some(c.serverTape(0)))
            == Success(NewSv(c))
    ensures Srp.ServerHandleA(NewSv(c), NewCl(c).A()) == Success(HeardSv(c)) && HeardSv(c).B() == NewSv(c).B()
  {}

  lemma ClientIsBuilt(c: Config)
    requires Runs(c)
    ensures c.salt != [] && Srp.ValidateSalt(c.salt).None?
    ensures Srp.NewClient(c.env.group, c.salt, c.legacy, Some(c.clientTape(0))) == Success(NewCl(c))
    ensures Srp.ClientComputeKey(c.env.hash, NewCl(c), NewSv(c).B(), c.username, c.password)
            == Success(KeyedCl(c))
  {}

  lemma ServerHandles2(c: Config, draw: Option<nat>)
    requires Runs(c)
    ensures var (t, reply, drew) := AtorHandle(c.env, ServerAt(c, 2), ClientFrame(c, 2), draw);
            && !drew && reply == Send(ServerFrame(c, 2))
            && t.(lastRx := Some(FromClient(c, 2)), lastReply := reply.frame) == ServerAt(c, 3)
  {
    hide AtorHandle, NewSv, NewCl, HeardSv, Srp.ServerHandleA, Id, NextId, FromClient, FromServer, Runs, StartFrame;
    Ids(c, 1);
    ServerIsBuilt(c);
    ServerDispatch(c.env, ServerAt(c, 2), ClientFrame(c, 2), draw);
  }

  lemma ServerHandles3(c: Config, draw: Option<nat>)
    requires Runs(c)
    ensures var (t, reply, drew) := AtorHandle(c.env, ServerAt(c, 3), ClientFrame(c, 3), draw);
            && !drew && reply == Send(ServerFrame(c, 3))
            && t.(lastRx := Some(FromClient(c, 3)), lastReply := reply.frame) == ServerAt(c, 4)
  {
    hide AtorHandle, HeardSv, KeyedCl, Srp.ServerVerifyM1, Id, NextId, FromClient, FromServer, Runs, StartFrame;
    Ids(c, 2);
    SecretsAgree(c);
    ServerDispatch(c.env, ServerAt(c, 3), ClientFrame(c, 3), draw);
  }

  lemma ClientFresh(c: Config, i: nat, draw: Option<nat>)
    requires Runs(c) && i <= 3 && (i == 1 ==> draw == Some(c.clientTape(0)))
    ensures AteRecv(c.env, ClientAt(c, i), FromServer(c, i), draw)
            == (ClientAt(c, i + 1), Send(ClientFrame(c, i + 1)), i == 1)
  {
    hide Parse, Encode, FromClient, FromServer, AteHandle, ClientAt, ClientFrame, ServerFrame, Runs;
    ServerFrameArrives(c, i);
    ClientRemembers(c, i);
    if i > 0 {
      ServerFramesDiffer(c, i);
    }
    ClientHandles(c, i, draw);
  }

  lemma ClientRemembers(c: Config, i: nat)
    requires Runs(c) && i <= 4
    ensures ClientAt(c, i).lastRx == if i == 0 then None else Some(FromServer(c, i - 1))
    ensures i > 0 ==> ClientAt(c, i).lastReply == Some(ClientFrame(c, i))
  {
    hide Runs, FromServer;
    ClientOpens(c);
  }

  lemma ServerFramesDiffer(c: Config, i: nat)
    requires Runs(c) && 0 < i <= 3
    ensures FromServer(c, i) != FromServer(c, i - 1)
  {
    hide Parse, FromServer, Runs, ServerFrame;
    ServerFrameArrives(c, i);
    ServerFrameArrives(c, i - 1);
  }

  lemma ClientHandles(c: Config, i: nat, draw: Option<nat>)
    requires Runs(c) && i <= 3 && (i == 1 ==> draw == Some(c.clientTape(0)))
    ensures var (t, reply, drew) := AteHandle(c.env, ClientAt(c, i), ServerFrame(c, i), draw);
            && drew == (i == 1) && reply == Send(ClientFrame(c, i + 1))
            && t.(lastRx := Some(FromServer(c, i)), lastReply := reply.frame) == ClientAt(c, i + 1)
  {
    hide AteHandle, ClientAt, ServerFrame, ClientFrame, Runs;
    if i == 0 {
      ClientHandles0(c, draw);
    } else if i == 1 {
      ClientHandles1(c, draw);
    } else if i == 2 {
      ClientHandles2(c, draw);
    } else {
      ClientHandles3(c, draw);
    }
  }

  lemma ClientHandles0(c: Config, draw: Option<nat>)
    requires Runs(c)
    ensures var (t, reply, drew) := AteHandle(c.env, ClientAt(c, 0), ServerFrame(c, 0), draw);
            && !drew && reply == Send(ClientFrame(c, 1))
            && t.(lastRx := Some(FromServer(c, 0)), lastReply := reply.frame) == ClientAt(c, 1)
  {
    hide AteHandle, Id, NextId, FromClient, FromServer, Runs;
    Ids(c, 0);
    ClientOpens(c);
    ClientDispatch(c.env, ClientAt(c, 0), ServerFrame(c, 0), draw);
  }

  /** What the client and the CHALLENGE look like before it is handled. */
  lemma ChallengeFits(c: Config)
    requires Runs(c)
    ensures var s, f := ClientAt(c, 1), ServerFrame(c, 1);
            && s.state.InProgress? && f.kind.Challenge? && (s.idValid ==> f.identifier == NextId(s.id))
            && f.genG == [] && f.salt == c.salt && (NegotiatedVersion(f) == 2 <==> c.legacy)
  {
    hide Id, NextId, FromClient, FromServer, Runs, NewCl, NewSv;
    Ids(c, 0);
    ClientOpens(c);
  }

  lemma ChallengeMoves(c: Config)
    requires Runs(c)
    ensures var s, f := ClientAt(c, 1), ServerFrame(c, 1);
            && s.(id := f.identifier, idValid := true, client := Some(NewCl(c)), salt := f.salt, state := InProgress,
                  lastRx := Some(FromServer(c, 1)), lastReply := Some(ClientFrame(c, 2))) == ClientAt(c, 2)
            && DEFAULT.(version := NegotiatedVersion(f), code := Response, identifier := f.identifier,
                        kind := ClientKey, public := NewCl(c).A()) == ClientFrame(c, 2)
  {
    hide Id, NextId, FromClient, FromServer, Runs, NewCl, NewSv;
    ClientOpens(c);
  }

  lemma ClientHandles1(c: Config, draw: Option<nat>)
    requires Runs(c) && draw == Some(c.clientTape(0))
    ensures var (t, reply, drew) := AteHandle(c.env, ClientAt(c, 1), ServerFrame(c, 1), draw);
            && drew && reply == Send(ClientFrame(c, 2))
            && t.(lastRx := Some(FromServer(c, 1)), lastReply := reply.frame) == ClientAt(c, 2)
  {
    hide AteHandle, AteProcess, AteChallenge, NewCl, Srp.NewClient, Srp.ValidateSalt, FromClient, FromServer, Runs, ClientAt,
      ServerFrame, ClientFrame, NegotiatedVersion, NextId;
    Ids(c, 0);
    ClientIsBuilt(c);
    ChallengeFits(c);
    ChallengeMoves(c);
    ClientDispatch(c.env, ClientAt(c, 1), ServerFrame(c, 1), draw);
    ChallengeOutcome(c.env, ClientAt(c, 1), ServerFrame(c, 1), draw, NewCl(c));
  }

  lemma ClientHandles2(c: Config, draw: Option<nat>)
    requires Runs(c)
    ensures var (t, reply, drew) := AteHandle(c.env, ClientAt(c, 2), ServerFrame(c, 2), draw);
            && !drew && reply == Send(ClientFrame(c, 3))
            && t.(lastRx := Some(FromServer(c, 2)), lastReply := reply.frame) == ClientAt(c, 3)
  {
    hide AteHandle, NewCl, NewSv, KeyedCl, Srp.ClientComputeKey, Id, NextId, FromClient, FromServer, Runs;
    Ids(c, 1);
    ClientOpens(c);
    ClientIsBuilt(c);
    ClientDispatch(c.env, ClientAt(c, 2), ServerFrame(c, 2), draw);
  }

  lemma ClientHandles3(c: Config, draw: Option<nat>)
    requires Runs(c)
    ensures var (t, reply, drew) := AteHandle(c.env, ClientAt(c, 3), ServerFrame(c, 3), draw);
            && !drew && reply == Send(ClientFrame(c, 4))
            && t.(lastRx := Some(FromServer(c, 3)), lastReply := reply.frame) == ClientAt(c, 4)
  {
    hide AteHandle, AteProcess, KeyedCl, ProvedSv, Id, NextId, FromClient, FromServer, Runs;
    Ids(c, 2);
    ClientOpens(c);
    SecretsAgree(c);
    ClientDispatch(c.env, ClientAt(c, 3), ServerFrame(c, 3), draw);
    ValidatorOutcome(c.env, ClientAt(c, 3), ServerFrame(c, 3), draw);
  }

  // ---- A repeated frame is answered from the cache and changes nothing ----

  lemma ServerRepeat(c: Config, j: nat, draw: Option<nat>)
    requires Runs(c) && 1 <= j <= 5
    ensures AtorRecv(c.env, ServerAt(c, j), FromClient(c, j - 1), draw)
            == (ServerAt(c, j), Reply(if j <= 4 then Some(ServerFrame(c, j - 1)) else None, None), false)
  {
    hide Encode, Parse, AtorHandle, FromClient, ServerFrame, ServerAt, Runs;
    ClientFrameArrives(c, j - 1);
    ServerRemembers(c, j);
  }

  lemma ClientRepeat(c: Config, i: nat, draw: Option<nat>)
    requires Runs(c) && 1 <= i <= 4
    ensures AteRecv(c.env, ClientAt(c, i), FromServer(c, i - 1), draw)
            == (ClientAt(c, i), Send(ClientFrame(c, i)), false)
  {
    hide Encode, Parse, AteHandle, FromServer, ClientFrame, ClientAt, Runs;
    ServerFrameArrives(c, i - 1);
    ClientRemembers(c, i);
  }

  // ---- The system ----

  type Channel = seq<seq<byte>>

  datatype Net = Net(client: AteState, server: AtorState, toServer: Channel, toClient: Channel,
                     clientDraws: nat, serverDraws: nat)

  datatype Action =
    | DeliverToServer | DeliverToClient
    | RepeatToServer(k: nat) | RepeatToClient(k: nat)
    | LoseToServer(k: nat) | LoseToClient(k: nat)

  function Emit(ch: Channel, r: Reply): Channel {
    if r.frame.Some? then ch + [Encode(r.frame.value)] else ch
  }

  /** The frame at `k`, if there is one, is in flight twice. */
  function Doubled(ch: Channel, k: nat): Channel {
    if k < |ch| then ch[..k + 1] + ch[k..] else ch
  }

  function Dropped(ch: Channel, k: nat): Channel {
    if k < |ch| then ch[..k] + ch[k + 1..] else ch
  }

  /** The client has opened the exchange and its START is in flight. */
  ghost function Initial(c: Config): Net
    requires Runs(c)
  {
    Net(ClientAt(c, 0), ServerAt(c, 0), [FromClient(c, 0)], [], 0, 0)
  }

  ghost predicate ValidNet(c: Config, n: Net) {
    c.env.Valid() && n.client.Valid() && n.server.Valid()
  }

  ghost function Next(c: Config, n: Net, a: Action): (m: Net)
    requires ValidNet(c, n)
    ensures ValidNet(c, m)
  {
    match a
    case DeliverToServer =>
      if n.toServer == [] then n
      else
        var (s, r, drew) := AtorRecv(c.env, n.server, n.toServer[0], Some(c.serverTape(n.serverDraws)));
        n.(server := s, toServer := n.toServer[1..], toClient := Emit(n.toClient, r),
           serverDraws := n.serverDraws + if drew then 1 else 0)
    case DeliverToClient =>
      if n.toClient == [] then n
      else
        var (s, r, drew) := AteRecv(c.env, n.client, n.toClient[0], Some(c.clientTape(n.clientDraws)));
        n.(client := s, toClient := n.toClient[1..], toServer := Emit(n.toServer, r),
           clientDraws := n.clientDraws + if drew then 1 else 0)
    case RepeatToServer(k) => n.(toServer := Doubled(n.toServer, k))
    case RepeatToClient(k) => n.(toClient := Doubled(n.toClient, k))
    case LoseToServer(k) => n.(toServer := Dropped(n.toServer, k))
    case LoseToClient(k) => n.(toClient := Dropped(n.toClient, k))
  }

  ghost function Run(c: Config, actions: seq<Action>): (n: Net)
    requires Runs(c)
    ensures ValidNet(c, n)
  {
    if actions == [] then Initial(c)
    else Next(c, Run(c, actions[..|actions| - 1]), actions[|actions| - 1])
  }

  // ---- Alignment ----

  /** Copies of `x`, then copies of `y`. */
  ghost predicate Stutters(ch: Channel, x: seq<byte>, y: seq<byte>) {
    && (forall p :: 0 <= p < |ch| ==> ch[p] == x || ch[p] == y)
    && (forall p, q :: 0 <= p < q < |ch| && ch[p] != x ==> ch[q] == y)
  }

  ghost predicate Copies(ch: Channel, x: seq<byte>) {
    forall p :: 0 <= p < |ch| ==> ch[p] == x
  }

  /** What may be in flight towards the server. */
  ghost predicate ServerInbox(c: Config, ch: Channel, i: nat, j: nat)
    requires Runs(c) && i <= 4 && (j == i || j == i + 1)
  {
    if j == i + 1 then Copies(ch, FromClient(c, i))
    else if j == 0 then Copies(ch, FromClient(c, 0))
    else Stutters(ch, FromClient(c, j - 1), FromClient(c, j))
  }

  /** What may be in flight towards the client. */
  ghost predicate ClientInbox(c: Config, ch: Channel, i: nat, j: nat)
    requires Runs(c) && i <= 4 && (j == i || j == i + 1)
  {
    if i == 0 then (if j == 0 then ch == [] else Copies(ch, FromServer(c, 0)))
    else if j == i || i == 4 then Copies(ch, FromServer(c, i - 1))
    else Stutters(ch, FromServer(c, i - 1), FromServer(c, i))
  }

  /** The client has processed `i` frames of the transcript and the server `j`, one never more than
      one frame behind the other, and what is in flight repeats the last frame its receiver
      processed, followed by the next one it needs. Each secret was drawn at most once. */
  ghost predicate Aligned(c: Config, n: Net, i: nat, j: nat)
    requires Runs(c)
  {
    && i <= 4 && (j == i || j == i + 1)
    && n.client == ClientAt(c, i) && n.server == ServerAt(c, j)
    && n.clientDraws == (if i >= 2 then 1 else 0)
    && n.serverDraws == (if j >= 2 then 1 else 0)
    && ServerInbox(c, n.toServer, i, j)
    && ClientInbox(c, n.toClient, i, j)
  }

  lemma StutterTail(ch: Channel, x: seq<byte>, y: seq<byte>)
    requires Stutters(ch, x, y) && ch != []
    ensures Stutters(ch[1..], x, y)
    ensures ch[0] != x ==> Copies(ch[1..], y)
  {}

  lemma StutterAppend(ch: Channel, x: seq<byte>, y: seq<byte>)
    requires Stutters(ch, x, y)
    ensures Stutters(ch + [y], x, y)
  {}

  lemma CopiesAppend(ch: Channel, x: seq<byte>, y: seq<byte>)
    requires Copies(ch, x)
    ensures Stutters(ch + [y], x, y)
    ensures x == y ==> Copies(ch + [y], y)
  {}

  lemma DoubledStutters(ch: Channel, k: nat, x: seq<byte>, y: seq<byte>)
    ensures Stutters(ch, x, y) ==> Stutters(Doubled(ch, k), x, y)
    ensures Copies(ch, x) ==> Copies(Doubled(ch, k), x)
  {
    if k < |ch| {
      var d := Doubled(ch, k);
      assert forall p :: 0 <= p < |d| ==> d[p] == ch[if p <= k then p else p - 1];
    }
  }

  lemma DroppedStutters(ch: Channel, k: nat, x: seq<byte>, y: seq<byte>)
    ensures Stutters(ch, x, y) ==> Stutters(Dropped(ch, k), x, y)
    ensures Copies(ch, x) ==> Copies(Dropped(ch, k), x)
  {
    if k < |ch| {
      var d := Dropped(ch, k);
      assert forall p :: 0 <= p < |d| ==> d[p] == ch[if p < k then p else p + 1];
    }
  }

  /** The frame the server needs next is at the head of its inbox. */
  ghost predicate NewToServer(c: Config, ch: Channel, i: nat, j: nat)
    requires Runs(c) && i <= 4 && (j == i || j == i + 1) && ch != []
  {
    j == i && (j > 0 ==> ch[0] != FromClient(c, j - 1))
  }

  ghost predicate NewToClient(c: Config, ch: Channel, i: nat, j: nat)
    requires Runs(c) && i <= 4 && (j == i || j == i + 1) && ch != []
  {
    i <= 3 && j == i + 1 && (i > 0 ==> ch[0] != FromServer(c, i - 1))
  }

  lemma ServerTakes(c: Config, ch: Channel, i: nat, j: nat)
    requires Runs(c) && i <= 4 && (j == i || j == i + 1) && ch != [] && ServerInbox(c, ch, i, j)
    ensures NewToServer(c, ch, i, j) ==> ch[0] == FromClient(c, j) && ServerInbox(c, ch[1..], i, j + 1)
    ensures !NewToServer(c, ch, i, j) ==>
              j >= 1 && ch[0] == FromClient(c, j - 1) && ServerInbox(c, ch[1..], i, j)
  {
    hide FromClient, Runs;
    if j == i && j > 0 {
      StutterTail(ch, FromClient(c, j - 1), FromClient(c, j));
    }
  }

  lemma ClientTakes(c: Config, ch: Channel, i: nat, j: nat)
    requires Runs(c) && i <= 4 && (j == i || j == i + 1) && ch != [] && ClientInbox(c, ch, i, j)
    ensures NewToClient(c, ch, i, j) ==> ch[0] == FromServer(c, i) && ClientInbox(c, ch[1..], i + 1, j)
    ensures !NewToClient(c, ch, i, j) ==>
              i >= 1 && ch[0] == FromServer(c, i - 1) && ClientInbox(c, ch[1..], i, j)
  {
    hide FromServer, Runs;
    if 0 < i <= 3 && j == i + 1 {
      StutterTail(ch, FromServer(c, i - 1), FromServer(c, i));
    }
  }

  /** The client's inbox after the server has answered. */
  lemma ServerAnswers(c: Config, ch: Channel, i: nat, j: nat)
    requires Runs(c) && i <= 4 && (j == i || j == i + 1) && ClientInbox(c, ch, i, j)
    ensures j == i && j < 4 ==> ClientInbox(c, ch + [FromServer(c, j)], i, j + 1)
    ensures j == i == 4 ==> ClientInbox(c, ch, i, j + 1)
    ensures 1 <= j <= 4 ==> ClientInbox(c, ch + [FromServer(c, j - 1)], i, j)
  {
    hide FromServer, Runs;
    if i == 0 {
      if j == 1 {
        CopiesAppend(ch, FromServer(c, 0), FromServer(c, 0));
      }
    } else if j == i || i == 4 {
      CopiesAppend(ch, FromServer(c, i - 1), FromServer(c, i - 1));
      if i < 4 {
        CopiesAppend(ch, FromServer(c, i - 1), FromServer(c, i));
      }
    } else {
      StutterAppend(ch, FromServer(c, i - 1), FromServer(c, i));
    }
  }

  /** The server's inbox after the client has answered. */
  lemma ClientAnswers(c: Config, ch: Channel, i: nat, j: nat)
    requires Runs(c) && i <= 4 && (j == i || j == i + 1) && ServerInbox(c, ch, i, j)
    ensures j == i + 1 && i < 4 ==> ServerInbox(c, ch + [FromClient(c, i + 1)], i + 1, j)
    ensures i >= 1 ==> ServerInbox(c, ch + [FromClient(c, i)], i, j)
  {
    hide FromClient, Runs;
    if j == i + 1 {
      CopiesAppend(ch, FromClient(c, i), FromClient(c, i));
      if i < 4 {
        CopiesAppend(ch, FromClient(c, i), FromClient(c, i + 1));
      }
    } else if j > 0 {
      StutterAppend(ch, FromClient(c, j - 1), FromClient(c, j));
    }
  }

  lemma ServerDelivery(c: Config, n: Net, i: nat, j: nat)
    requires Runs(c) && Aligned(c, n, i, j) && n.toServer != []
    ensures Aligned(c, Next(c, n, DeliverToServer), i,
                    if NewToServer(c, n.toServer, i, j) then j + 1 else j)
  {
    hide Runs, AtorRecv, ClientAt, ServerAt, Encode, ServerFrame, ServerInbox, ClientInbox, NewToServer;
    var draw := Some(c.serverTape(n.serverDraws));
    ServerTakes(c, n.toServer, i, j);
    ServerAnswers(c, n.toClient, i, j);
    if NewToServer(c, n.toServer, i, j) {
      NewIsLevel(c, n.toServer, i, j);
      ServerFresh(c, j, draw);
    } else {
      ServerRepeat(c, j, draw);
    }
  }

  lemma NewIsLevel(c: Config, ch: Channel, i: nat, j: nat)
    requires Runs(c) && i <= 4 && (j == i || j == i + 1) && ch != []
    ensures NewToServer(c, ch, i, j) ==> j == i
    ensures NewToClient(c, ch, i, j) ==> j == i + 1 && i <= 3
  {
    hide Runs;
  }

  lemma ClientDelivery(c: Config, n: Net, i: nat, j: nat)
    requires Runs(c) && Aligned(c, n, i, j) && n.toClient != []
    ensures Aligned(c, Next(c, n, DeliverToClient),
                    if NewToClient(c, n.toClient, i, j) then i + 1 else i, j)
  {
    hide Runs, AteRecv, ClientAt, ServerAt, Encode, ClientFrame, ServerInbox, ClientInbox, NewToClient;
    var draw := Some(c.clientTape(n.clientDraws));
    ClientTakes(c, n.toClient, i, j);
    ClientAnswers(c, n.toServer, i, j);
    if NewToClient(c, n.toClient, i, j) {
      NewIsLevel(c, n.toClient, i, j);
      ClientFresh(c, i, draw);
    } else {
      ClientRepeat(c, i, draw);
    }
  }

  lemma InboxesShrinkAndGrow(c: Config, s: Channel, t: Channel, i: nat, j: nat, k: nat)
    requires Runs(c) && i <= 4 && (j == i || j == i + 1)
    requires ServerInbox(c, s, i, j) && ClientInbox(c, t, i, j)
    ensures ServerInbox(c, Doubled(s, k), i, j) && ServerInbox(c, Dropped(s, k), i, j)
    ensures ClientInbox(c, Doubled(t, k), i, j) && ClientInbox(c, Dropped(t, k), i, j)
  {
    hide FromClient, FromServer, Runs;
    if j == i + 1 {
      DoubledStutters(s, k, FromClient(c, i), FromClient(c, i));
      DroppedStutters(s, k, FromClient(c, i), FromClient(c, i));
    } else if j == 0 {
      DoubledStutters(s, k, FromClient(c, 0), FromClient(c, 0));
      DroppedStutters(s, k, FromClient(c, 0), FromClient(c, 0));
    } else {
      DoubledStutters(s, k, FromClient(c, j - 1), FromClient(c, j));
      DroppedStutters(s, k, FromClient(c, j - 1), FromClient(c, j));
    }
    if i == 0 {
      DoubledStutters(t, k, FromServer(c, 0), FromServer(c, 0));
      DroppedStutters(t, k, FromServer(c, 0), FromServer(c, 0));
    } else {
      var y := if j == i || i == 4 then FromServer(c, i - 1) else FromServer(c, i);
      DoubledStutters(t, k, FromServer(c, i - 1), y);
      DroppedStutters(t, k, FromServer(c, i - 1), y);
    }
  }

  /** Where the client is along the transcript after an action. */
  ghost function ClientStep(c: Config, n: Net, a: Action, i: nat, j: nat): nat
    requires Runs(c) && Aligned(c, n, i, j)
  {
    if a.DeliverToClient? && n.toClient != [] && NewToClient(c, n.toClient, i, j) then i + 1 else i
  }

  ghost function ServerStep(c: Config, n: Net, a: Action, i: nat, j: nat): nat
    requires Runs(c) && Aligned(c, n, i, j)
  {
    if a.DeliverToServer? && n.toServer != [] && NewToServer(c, n.toServer, i, j) then j + 1 else j
  }

  /** One action moves each side at most one frame along the transcript. */
  lemma ActionKeepsAligned(c: Config, n: Net, a: Action, i: nat, j: nat)
    requires Runs(c) && Aligned(c, n, i, j)
    ensures Aligned(c, Next(c, n, a), ClientStep(c, n, a, i, j), ServerStep(c, n, a, i, j))
  {
    hide Runs, AteRecv, AtorRecv, ClientAt, ServerAt, Encode, ClientFrame, ServerInbox, ClientInbox,
      NewToClient, NewToServer, Doubled, Dropped;
    match a
    case DeliverToServer =>
      if n.toServer != [] {
        ServerDelivery(c, n, i, j);
      }
    case DeliverToClient =>
      if n.toClient != [] {
        ClientDelivery(c, n, i, j);
      }
    case RepeatToServer(k) => InboxesShrinkAndGrow(c, n.toServer, n.toClient, i, j, k);
    case RepeatToClient(k) => InboxesShrinkAndGrow(c, n.toServer, n.toClient, i, j, k);
    case LoseToServer(k) => InboxesShrinkAndGrow(c, n.toServer, n.toClient, i, j, k);
    case LoseToClient(k) => InboxesShrinkAndGrow(c, n.toServer, n.toClient, i, j, k);
  }

  /** In every run, under every interleaving of deliveries, repeats and losses, the system is
      somewhere along the one canonical transcript: each role has seen that transcript with
      repeats, no SRP secret was drawn twice, and no step has failed. */
  lemma {:induction false} RunIsAligned(c: Config, actions: seq<Action>)
    requires Runs(c)
    ensures exists i: nat, j: nat :: Aligned(c, Run(c, actions), i, j)
  {
    hide Runs, Next, ClientAt, ServerAt, Aligned, ClientStep, ServerStep;
    if actions == [] {
      InitialIsAligned(c);
      assert Aligned(c, Run(c, actions), 0, 0);
    } else {
      var before, a := actions[..|actions| - 1], actions[|actions| - 1];
      RunIsAligned(c, before);
      var i: nat, j: nat :| Aligned(c, Run(c, before), i, j);
      ActionKeepsAligned(c, Run(c, before), a, i, j);
      var i2, j2 := ClientStep(c, Run(c, before), a, i, j), ServerStep(c, Run(c, before), a, i, j);
      assert Aligned(c, Run(c, actions), i2, j2);
    }
  }

  lemma InitialIsAligned(c: Config)
    requires Runs(c)
    ensures Aligned(c, Initial(c), 0, 0)
  {
    hide Runs, ClientAt, ServerAt;
  }

  // ---- Without losses the handshake completes ----

  /** Some frame that the run still needs is in flight. */
  ghost predicate Awaited(c: Config, n: Net, i: nat, j: nat)
    requires Runs(c)
  {
    && (j == i && i <= 4 ==> FromClient(c, j) in n.toServer)
    && (j == i + 1 && i <= 3 ==> FromServer(c, i) in n.toClient)
  }

  predicate Loses(a: Action) {
    a.LoseToServer? || a.LoseToClient?
  }

  lemma DoubledKeeps(ch: Channel, k: nat, x: seq<byte>)
    requires x in ch
    ensures x in Doubled(ch, k)
  {
    var p :| 0 <= p < |ch| && ch[p] == x;
    assert Doubled(ch, k)[if p <= k || k >= |ch| then p else p + 1] == x;
  }

  lemma ServerDeliveryAwaits(c: Config, n: Net, i: nat, j: nat)
    requires Runs(c) && Aligned(c, n, i, j) && Awaited(c, n, i, j) && n.toServer != []
    ensures Awaited(c, Next(c, n, DeliverToServer), i, if NewToServer(c, n.toServer, i, j) then j + 1 else j)
  {
    hide Runs, AtorRecv, ClientAt, ServerAt, Encode, ServerFrame, ClientFrame, ServerInbox, ClientInbox,
      NewToServer;
    var draw := Some(c.serverTape(n.serverDraws));
    ServerTakes(c, n.toServer, i, j);
    if NewToServer(c, n.toServer, i, j) {
      NewIsLevel(c, n.toServer, i, j);
      ServerFresh(c, j, draw);
    } else {
      ServerRepeat(c, j, draw);
      if j == i {
        ClientFramesDiffer(c, j);
      }
    }
  }

  lemma ClientDeliveryAwaits(c: Config, n: Net, i: nat, j: nat)
    requires Runs(c) && Aligned(c, n, i, j) && Awaited(c, n, i, j) && n.toClient != []
    ensures Awaited(c, Next(c, n, DeliverToClient), if NewToClient(c, n.toClient, i, j) then i + 1 else i, j)
  {
    hide Runs, AteRecv, ClientAt, ServerAt, Encode, ServerFrame, ClientFrame, ServerInbox, ClientInbox,
      NewToClient;
    var draw := Some(c.clientTape(n.clientDraws));
    ClientTakes(c, n.toClient, i, j);
    if NewToClient(c, n.toClient, i, j) {
      NewIsLevel(c, n.toClient, i, j);
      ClientFresh(c, i, draw);
    } else {
      ClientRepeat(c, i, draw);
      if j == i + 1 && i <= 3 {
        ServerFramesDiffer(c, i);
      }
    }
  }

  lemma ActionKeepsAwaited(c: Config, n: Net, a: Action, i: nat, j: nat)
    requires Runs(c) && Aligned(c, n, i, j) && Awaited(c, n, i, j) && !Loses(a)
    ensures var (i2, j2) := (ClientStep(c, n, a, i, j), ServerStep(c, n, a, i, j));
            Aligned(c, Next(c, n, a), i2, j2) && Awaited(c, Next(c, n, a), i2, j2)
  {
    hide Runs, AteRecv, AtorRecv, ClientAt, ServerAt, Encode, ClientFrame, ServerInbox, ClientInbox,
      NewToClient, NewToServer, Doubled, Dropped, FromClient, FromServer;
    match a
    case DeliverToServer =>
      if n.toServer != [] {
        ServerDelivery(c, n, i, j);
        ServerDeliveryAwaits(c, n, i, j);
      }
    case DeliverToClient =>
      if n.toClient != [] {
        ClientDelivery(c, n, i, j);
        ClientDeliveryAwaits(c, n, i, j);
      }
    case RepeatToServer(k) =>
      InboxesShrinkAndGrow(c, n.toServer, n.toClient, i, j, k);
      if j == i {
        DoubledKeeps(n.toServer, k, FromClient(c, j));
      }
    case RepeatToClient(k) =>
      InboxesShrinkAndGrow(c, n.toServer, n.toClient, i, j, k);
      if j == i + 1 && i <= 3 {
        DoubledKeeps(n.toClient, k, FromServer(c, i));
      }
  }

  /** Without losses there is always a frame in flight that the handshake still needs. */
  lemma {:induction false} LosslessRunAwaits(c: Config, actions: seq<Action>)
    requires Runs(c) && forall a :: a in actions ==> !Loses(a)
    ensures exists i: nat, j: nat :: Aligned(c, Run(c, actions), i, j) && Awaited(c, Run(c, actions), i, j)
  {
    hide Runs, Next, ClientAt, ServerAt, Aligned, ClientStep, ServerStep;
    if actions == [] {
      InitialIsAligned(c);
      InitialAwaits(c);
      assert Aligned(c, Run(c, actions), 0, 0) && Awaited(c, Run(c, actions), 0, 0);
    } else {
      var before, a := actions[..|actions| - 1], actions[|actions| - 1];
      assert a in actions;
      LosslessRunAwaits(c, before);
      var i: nat, j: nat :| Aligned(c, Run(c, before), i, j) && Awaited(c, Run(c, before), i, j);
      ActionKeepsAwaited(c, Run(c, before), a, i, j);
      var i2, j2 := ClientStep(c, Run(c, before), a, i, j), ServerStep(c, Run(c, before), a, i, j);
      assert Aligned(c, Run(c, actions), i2, j2) && Awaited(c, Run(c, actions), i2, j2);
    }
  }

  lemma InitialAwaits(c: Config)
    requires Runs(c) && Aligned(c, Initial(c), 0, 0)
    ensures Awaited(c, Initial(c), 0, 0)
  {
    hide Runs, ClientAt, ServerAt;
  }

  /** Both sides authenticated, holding one session key, after one draw each. */
  ghost predicate Completed(n: Net) {
    && n.client.state.Authenticated? && n.server.state.Authenticated?
    && n.client.session.Some? && n.client.session == n.server.session
    && n.clientDraws == 1 && n.serverDraws == 1
  }

  /** A run that has lost nothing and has nothing left in flight has completed. */
  lemma QuiescentRunIsComplete(c: Config, actions: seq<Action>)
    requires Runs(c) && forall a :: a in actions ==> !Loses(a)
    requires Run(c, actions).toServer == [] && Run(c, actions).toClient == []
    ensures Completed(Run(c, actions))
  {
    hide Runs, Next, Aligned, Awaited, ClientAt, ServerAt;
    LosslessRunAwaits(c, actions);
    var i: nat, j: nat :| Aligned(c, Run(c, actions), i, j) && Awaited(c, Run(c, actions), i, j);
    NothingAwaited(c, Run(c, actions), i, j);
    EndIsComplete(c, Run(c, actions));
  }

  lemma NothingAwaited(c: Config, n: Net, i: nat, j: nat)
    requires Runs(c) && Aligned(c, n, i, j) && Awaited(c, n, i, j) && n.toServer == [] && n.toClient == []
    ensures i == 4 && j == 5
  {
    hide Runs, ClientAt, ServerAt, ServerInbox, ClientInbox, FromClient, FromServer;
  }

  lemma EndIsComplete(c: Config, n: Net)
    requires Runs(c) && Aligned(c, n, 4, 5)
    ensures Completed(n)
  {
    hide Runs, ServerInbox, ClientInbox, ClientAt, ServerAt;
    AtTheEnd(c);
  }

  lemma AtTheEnd(c: Config)
    requires Runs(c)
    ensures ClientAt(c, 4).state.Authenticated? && ServerAt(c, 5).state.Authenticated?
    ensures ClientAt(c, 4).session.Some? && ClientAt(c, 4).session == ServerAt(c, 5).session
  {
    hide Runs, ClientFrame, ServerFrame, FromClient, FromServer, KeyedCl, ProvedSv, HeardSv, NewCl, NewSv, Id;
    SecretsAgree(c);
  }

  // ---- Without losses the handshake cannot go on for ever ----

  /** How many deliveries a frame in flight can still cause, itself included. */
  function KindWeight(k: Kind): nat {
    match k
    case Start => 9
    case IdentityRequest => 8
    case IdentityResponse => 7
    case Challenge => 6
    case ClientKey => 5
    case ServerKey => 4
    case ClientValidator => 3
    case ServerValidator => 2
    case EapSuccess => 1
    case _ => 0
  }

  function FrameWeight(b: seq<byte>): (w: nat)
    ensures w <= 9
  {
    match Parse(b)
    case Success(f) => KindWeight(f.kind)
    case Failure(_) => 0
  }

  function Weight(ch: Channel): nat {
    if ch == [] then 0 else FrameWeight(ch[0]) + Weight(ch[1..])
  }

  lemma {:induction false} WeightOfSum(a: Channel, b: Channel)
    ensures Weight(a + b) == Weight(a) + Weight(b)
  {
    if a == [] {
      assert a + b == b;
    } else {
      WeightOfSum(a[1..], b);
      assert (a + b)[1..] == a[1..] + b;
    }
  }

  lemma WeightOfAppend(a: Channel, x: seq<byte>)
    ensures Weight(a + [x]) == Weight(a) + FrameWeight(x)
  {
    WeightOfSum(a, [x]);
    assert [x][1..] == [];
  }

  lemma DoubledWeight(ch: Channel, k: nat)
    ensures Weight(Doubled(ch, k)) <= Weight(ch) + 9
  {
    if k < |ch| {
      assert ch == ch[..k] + ch[k..];
      assert ch[..k + 1] == ch[..k] + [ch[k]];
      WeightOfSum(ch[..k], ch[k..]);
      WeightOfAppend(ch[..k], ch[k]);
      WeightOfSum(ch[..k + 1], ch[k..]);
    }
  }

  lemma TranscriptKinds(k: nat)
    requires k <= 4
    ensures KindWeight(ClientKind(k)) == 9 - 2 * k
    ensures k <= 3 ==> KindWeight(ServerKind(k)) == 8 - 2 * k
  {}

  lemma TranscriptWeights(c: Config, k: nat)
    requires Runs(c) && k <= 4
    ensures FrameWeight(FromClient(c, k)) == 9 - 2 * k
    ensures k <= 3 ==> FrameWeight(FromServer(c, k)) == 8 - 2 * k
  {
    hide Runs, Parse, Encode, FromClient, FromServer, ClientFrame, ServerFrame;
    ClientFrameArrives(c, k);
    TranscriptKinds(k);
    if k <= 3 {
      ServerFrameArrives(c, k);
    }
  }

  ghost function InFlight(n: Net): nat {
    Weight(n.toServer) + Weight(n.toClient)
  }

  /** The answer to a frame weighs one less than the frame. */
  lemma ServerDeliveryWeight(c: Config, n: Net, i: nat, j: nat)
    requires Runs(c) && Aligned(c, n, i, j) && n.toServer != []
    ensures InFlight(Next(c, n, DeliverToServer)) == InFlight(n) - 1
  {
    hide Runs, AtorRecv, ClientAt, ServerAt, Encode, ServerFrame, ClientFrame, ServerInbox, ClientInbox,
      NewToServer, FrameWeight, FromClient;
    var draw := Some(c.serverTape(n.serverDraws));
    ServerTakes(c, n.toServer, i, j);
    var k := if NewToServer(c, n.toServer, i, j) then j else j - 1;
    if NewToServer(c, n.toServer, i, j) {
      NewIsLevel(c, n.toServer, i, j);
      ServerFresh(c, j, draw);
    } else {
      ServerRepeat(c, j, draw);
    }
    TranscriptWeights(c, k);
    if k <= 3 {
      WeightOfAppend(n.toClient, FromServer(c, k));
    }
  }

  lemma ClientDeliveryWeight(c: Config, n: Net, i: nat, j: nat)
    requires Runs(c) && Aligned(c, n, i, j) && n.toClient != []
    ensures InFlight(Next(c, n, DeliverToClient)) == InFlight(n) - 1
  {
    hide Runs, AteRecv, ClientAt, ServerAt, Encode, ServerFrame, ClientFrame, ServerInbox, ClientInbox,
      NewToClient, FrameWeight, FromServer;
    var draw := Some(c.clientTape(n.clientDraws));
    ClientTakes(c, n.toClient, i, j);
    var k := if NewToClient(c, n.toClient, i, j) then i else i - 1;
    if NewToClient(c, n.toClient, i, j) {
      NewIsLevel(c, n.toClient, i, j);
      ClientFresh(c, i, draw);
    } else {
      ClientRepeat(c, i, draw);
    }
    TranscriptWeights(c, k);
    TranscriptWeights(c, k + 1);
    WeightOfAppend(n.toServer, FromClient(c, k + 1));
  }

  predicate Repeats(a: Action) {
    a.RepeatToServer? || a.RepeatToClient?
  }

  ghost function CountRepeats(actions: seq<Action>): nat {
    if actions == [] then 0
    else CountRepeats(actions[..|actions| - 1]) + if Repeats(actions[|actions| - 1]) then 1 else 0
  }

  /** Deliveries that found a frame to deliver. */
  ghost function CountDeliveries(c: Config, actions: seq<Action>): nat
    requires Runs(c)
  {
    if actions == [] then 0
    else
      var n := Run(c, actions[..|actions| - 1]);
      var a := actions[|actions| - 1];
      CountDeliveries(c, actions[..|actions| - 1])
      + if (a.DeliverToServer? && n.toServer != []) || (a.DeliverToClient? && n.toClient != []) then 1 else 0
  }

  /** However deliveries and repeats interleave, nine deliveries per repeat, and nine more, use up
      everything in flight: the exchange of cached replies dies out by itself. */
  lemma {:induction false} DeliveriesAreBounded(c: Config, actions: seq<Action>)
    requires Runs(c) && forall a :: a in actions ==> !Loses(a)
    ensures CountDeliveries(c, actions) + InFlight(Run(c, actions)) <= 9 * (1 + CountRepeats(actions))
  {
    hide Runs, AteRecv, AtorRecv, Weight;
    if actions == [] {
      InitialWeight(c);
    } else {
      var before, a := actions[..|actions| - 1], actions[|actions| - 1];
      assert a in actions;
      DeliveriesAreBounded(c, before);
      RunIsAligned(c, before);
      var i: nat, j: nat :| Aligned(c, Run(c, before), i, j);
      var n := Run(c, before);
      match a
      case DeliverToServer =>
        if n.toServer != [] {
          ServerDeliveryWeight(c, n, i, j);
        }
      case DeliverToClient =>
        if n.toClient != [] {
          ClientDeliveryWeight(c, n, i, j);
        }
      case RepeatToServer(k) => DoubledWeight(n.toServer, k);
      case RepeatToClient(k) => DoubledWeight(n.toClient, k);
      case _ =>
    }
  }

  lemma InitialWeight(c: Config)
    requires Runs(c)
    ensures InFlight(Initial(c)) == 9
  {
    hide Runs, FrameWeight, FromClient;
    TranscriptWeights(c, 0);
    assert [FromClient(c, 0)][1..] == [];
  }
}
