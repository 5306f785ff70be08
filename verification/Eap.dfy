/** The two EAP-SRP roles (eap.rs): the authenticatee proves a password, the authenticator
    checks it.

    Each role is a state and a transition function, which the class of the same name is proved
    to follow. The SRP group is a parameter; the secret a step may draw is an input of the step,
    and each step reports whether it used it. */
module Eap {
  import opened Bytes
  import opened EapFrame
  import Srp

  datatype State = Unauth | InProgress | Authenticated | Failed

  datatype Reply = Reply(frame: Option<Frame>, error: Option<EapError>)

  const NOTHING := Reply(None, None)

  function Send(f: Frame): Reply {
    Reply(Some(f), None)
  }

  function Fail(e: EapError): Reply {
    Reply(None, Some(e))
  }

  /** What a role is given from outside: the hash, the SRP group and, for the authenticator, the
      user database. */
  datatype Env = Env(hash: Srp.HashFunction, group: Srp.Group,
                     lookup: seq<byte> -> Option<(seq<byte>, seq<byte>)>)
  {
    predicate Valid() {
      group.Paddable()
    }
  }

  /** Something that happens to a role: a datagram arrives, or the host acts. */
  datatype Event = Received(payload: seq<byte>, draw: Option<nat>) | Started | Restarted

  function NegotiatedVersion(f: Frame): byte {
    if f.version == 2 then 2 else EAP_VERSION_3
  }

  function StartFrame(): Frame {
    DEFAULT.(version := EAP_VERSION_3, kind := Start)
  }

  function PassphrasePush(id: byte): Frame {
    DEFAULT.(version := EAP_VERSION_3, code := Response, identifier := id,
             kind := PassphraseResponse, ppUseKey := true)
  }

  function SuccessAck(id: byte): Frame {
    DEFAULT.(version := EAP_VERSION_3, code := SuccessCode, identifier := id, kind := EapSuccess)
  }

  function NextId(id: byte): byte {
    (id + 1) % 256
  }

  // ---- The authenticatee ----

  datatype AteState = AteState(
    username: seq<byte>, password: seq<byte>, state: State, id: byte, idValid: bool,
    client: Option<Srp.ClientState>, salt: seq<byte>, session: Option<Srp.Digest>,
    useKeyPassphrase: bool, lastRx: Option<seq<byte>>, lastReply: Option<Frame>)
  {
    predicate Valid() {
      client.Some? ==> client.value.Valid()
    }
  }

  function AteNew(username: seq<byte>, password: seq<byte>): Result<AteState, EapError> {
    if username == [] || password == [] then Failure(EmptyCredentials)
    else if |username| > 255 || |password| > 255 then Failure(CredentialsTooLong)
    else Success(AteState(username, password, Unauth, 0, false, None, [], None, true, None, None))
  }

  function AteStart(s: AteState): AteState {
    if s.state.Unauth? then s.(state := InProgress) else s
  }

  function AteRestart(s: AteState): AteState {
    s.(state := Unauth, id := 0, idValid := false, client := None, salt := [], session := None,
       lastRx := None, lastReply := None)
  }

  /** The requests that carry the SRP exchange forward. */
  predicate SrpRequest(k: Kind) {
    k.Challenge? || k.ServerKey? || k.ServerValidator?
  }

  function AteHandle(env: Env, s: AteState, f: Frame, draw: Option<nat>): (r: (AteState, Reply, bool))
    requires env.Valid() && s.Valid()
    ensures r.0.Valid()
  {
    if f.kind.EapFailure? then
      if !s.state.InProgress? || f.identifier != s.id then (s, NOTHING, false)
      else (s.(state := Failed), Fail(AuthFailed), false)
    else if s.state.Authenticated? && SrpRequest(f.kind) then (s, NOTHING, false)
    else
      var t := if s.state.Authenticated? && f.kind.IdentityRequest? then AteRestart(s) else s;
      if t.idValid && SrpRequest(f.kind) && f.identifier != t.id && f.identifier != NextId(t.id)
      then (t, NOTHING, false)
      else AteProcess(env, t, f, draw)
  }

  /** The transition table, behind the gates. */
  function AteProcess(env: Env, s: AteState, f: Frame, draw: Option<nat>): (r: (AteState, Reply, bool))
    requires env.Valid() && s.Valid()
    ensures r.0.Valid()
  {
    match f.kind
    case IdentityRequest =>
      (s.(id := f.identifier, idValid := true, state := if s.state.Unauth? then InProgress else s.state),
       Send(DEFAULT.(version := NegotiatedVersion(f), code := Response, identifier := f.identifier,
                     kind := IdentityResponse, username := s.username)),
       false)
    case Challenge => AteChallenge(env, s, f, draw)
    case ServerKey =>
      if s.client.None? then (s.(state := Failed), Fail(Unexpected), false)
      else
        var t := s.(id := f.identifier, idValid := true);
        (match Srp.ClientComputeKey(env.hash, s.client.value, f.public, s.username, s.password)
         case Failure(e) => (t.(state := Failed), Fail(SrpFailure(e)), false)
         case Success(c) =>
           (t.(client := Some(c)),
            Send(DEFAULT.(version := NegotiatedVersion(f), code := Response, identifier := f.identifier,
                          kind := ClientValidator, proof := c.m1)),
            false))
    case ServerValidator =>
      if s.client.None? || f.proof == [] then (s.(state := Failed), Fail(AuthFailed), false)
      else
        var t := s.(id := f.identifier, idValid := true);
        if !s.client.value.VerifyM2(env.hash, f.proof)
        then (t.(state := Failed), Fail(AuthFailed), false)
        else
          (t.(session := s.client.value.Key(), state := Authenticated),
           Send(DEFAULT.(version := NegotiatedVersion(f), code := SuccessCode,
                         identifier := f.identifier, kind := EapSuccess)),
           false)
    case PassphraseRequest =>
      (s, if s.useKeyPassphrase then Send(PassphrasePush(f.identifier)) else NOTHING, false)
    case PassphraseResponse => (s, Send(SuccessAck(f.identifier)), false)
    case EapSuccess => (s, NOTHING, false)
    case _ => (s, Fail(Unexpected), false)
  }

  function AteChallenge(env: Env, s: AteState, f: Frame, draw: Option<nat>): (r: (AteState, Reply, bool))
    requires env.Valid() && s.Valid()
    ensures r.0.Valid()
  {
    if f.genG != [] then (s.(state := Failed), Fail(UnsupportedGroup), false)
    else if f.salt == [] then (s.(state := Failed), Fail(BadLength), false)
    else
      var drew := Srp.ValidateSalt(f.salt).None?;
      match Srp.NewClient(env.group, f.salt, NegotiatedVersion(f) == 2, draw)
      case Failure(e) => (s.(state := Failed), Fail(SrpFailure(e)), drew)
      case Success(c) =>
        (s.(id := f.identifier, idValid := true, client := Some(c), salt := f.salt, state := InProgress),
         Send(DEFAULT.(version := NegotiatedVersion(f), code := Response, identifier := f.identifier,
                       kind := ClientKey, public := c.A())),
         drew)
  }

  /** One datagram: an exact repeat of the last one processed is answered from the cache. */
  function AteRecv(env: Env, s: AteState, payload: seq<byte>, draw: Option<nat>)
    : (r: (AteState, Reply, bool))
    requires env.Valid() && s.Valid()
    ensures r.0.Valid()
  {
    if payload != [] && s.lastRx == Some(payload) then (s, Reply(s.lastReply, None), false)
    else
      match Parse(payload)
      case Failure(e) => (s, Fail(e), false)
      case Success(f) =>
        var (t, reply, drew) := AteHandle(env, s, f, draw);
        (if reply.error.None? then t.(lastRx := Some(payload), lastReply := reply.frame) else t,
         reply, drew)
  }

  function AteStep(env: Env, s: AteState, ev: Event): (t: AteState)
    requires env.Valid() && s.Valid()
    ensures t.Valid()
  {
    match ev
    case Received(payload, draw) => AteRecv(env, s, payload, draw).0
    case Started => AteStart(s)
    case Restarted => AteRestart(s)
  }

  ghost function AteRun(env: Env, s: AteState, evs: seq<Event>): (t: AteState)
    requires env.Valid() && s.Valid()
    ensures t.Valid()
  {
    if evs == [] then s else AteStep(env, AteRun(env, s, evs[..|evs| - 1]), evs[|evs| - 1])
  }

  /** A session key is held exactly in the authenticated state, and it is the key of the SRP
      exchange the role is holding. */
  ghost predicate AteInvariant(s: AteState) {
    && s.Valid()
    && (s.session.Some? <==> s.state.Authenticated?)
    && (s.state.Authenticated? ==> s.client.Some? && s.session == s.client.value.Key())
  }

  /** What becoming authenticated takes. */
  ghost predicate ValidatesServer(env: Env, s: AteState, f: Frame, t: AteState) {
    && f.kind.ServerValidator?
    && s.client.Some? && s.client.value.VerifyM2(env.hash, f.proof)
    && t.session == Some(s.client.value.key)
  }

  lemma AteProcessEffect(env: Env, s: AteState, f: Frame, draw: Option<nat>)
    requires env.Valid() && AteInvariant(s)
    requires s.state.Authenticated? ==> !SrpRequest(f.kind) && !f.kind.IdentityRequest?
    ensures var t := AteProcess(env, s, f, draw).0;
            && AteInvariant(t)
            && (s.state.Authenticated? ==> t == s)
            && (t.state.Authenticated? && !s.state.Authenticated? ==> ValidatesServer(env, s, f, t))
            && (f.kind.IdentityRequest? && s.state.Unauth? ==> t.state.InProgress?)
  {
    hide AteChallenge, Srp.ClientComputeKey;
    if f.kind.Challenge? {
      AteChallengeEffect(env, s, f, draw);
    }
  }

  lemma AteChallengeEffect(env: Env, s: AteState, f: Frame, draw: Option<nat>)
    requires env.Valid() && AteInvariant(s) && !s.state.Authenticated?
    ensures var t := AteChallenge(env, s, f, draw).0;
            AteInvariant(t) && !t.state.Authenticated?
  {
    hide Srp.NewClient;
  }

  lemma AteHandleEffect(env: Env, s: AteState, f: Frame, draw: Option<nat>)
    requires env.Valid() && AteInvariant(s)
    ensures var t := AteHandle(env, s, f, draw).0;
            && AteInvariant(t)
            && (s.state.Authenticated? ==>
                  if f.kind.IdentityRequest? then t.state.InProgress? && t.session == None else t == s)
            && (t.state.Authenticated? && !s.state.Authenticated? ==> ValidatesServer(env, s, f, t))
  {
    hide AteProcess;
    if !f.kind.EapFailure? && !(s.state.Authenticated? && SrpRequest(f.kind)) {
      var t := if s.state.Authenticated? && f.kind.IdentityRequest? then AteRestart(s) else s;
      AteProcessEffect(env, t, f, draw);
    }
  }

  lemma AteStepKeepsInvariant(env: Env, s: AteState, ev: Event)
    requires env.Valid() && AteInvariant(s)
    ensures AteInvariant(AteStep(env, s, ev))
  {
    hide Parse, AteHandle;
    if ev.Received? && Parse(ev.payload).Success? {
      AteHandleEffect(env, s, Parse(ev.payload).value, ev.draw);
    }
  }

  /** In every run, on arbitrary datagrams and host actions. */
  lemma {:induction false} AteRunKeepsInvariant(env: Env, s: AteState, evs: seq<Event>)
    requires env.Valid() && AteInvariant(s)
    ensures AteInvariant(AteRun(env, s, evs))
  {
    if evs != [] {
      AteRunKeepsInvariant(env, s, evs[..|evs| - 1]);
      AteStepKeepsInvariant(env, AteRun(env, s, evs[..|evs| - 1]), evs[|evs| - 1]);
    }
  }

  /** A received datagram takes the authenticatee out of the authenticated state exactly when it
      is a fresh IDENTITY REQUEST, and then a new exchange is in progress. A FAILURE never does. */
  lemma AteLeavesSuccess(env: Env, s: AteState, payload: seq<byte>, draw: Option<nat>)
    requires env.Valid() && AteInvariant(s) && s.state.Authenticated?
    ensures var t := AteRecv(env, s, payload, draw).0;
            && (!t.state.Authenticated?
                <==> && s.lastRx != Some(payload)
                     && Parse(payload).Success? && Parse(payload).value.kind.IdentityRequest?)
            && (!t.state.Authenticated? ==> t.state.InProgress? && t.session == None)
            && (t.state.Authenticated? ==> t.session == s.session)
  {
    hide Parse, AteHandle;
    ParseOfNothing();
    if Parse(payload).Success? {
      AteHandleEffect(env, s, Parse(payload).value, draw);
    }
  }

  /** An SRP request out of sequence: neither the identifier in force nor the next. */
  predicate OutOfSequence(s: AteState, f: Frame) {
    && s.idValid && (f.kind.Challenge? || f.kind.ServerKey? || f.kind.ServerValidator?)
    && f.identifier != s.id && f.identifier != (s.id + 1) % 256
  }

  /** Such a request, stale or forged, changes nothing, is not answered, and uses no draw. */
  lemma OutOfSequenceIsIgnored(env: Env, s: AteState, f: Frame, draw: Option<nat>)
    requires env.Valid() && s.Valid() && OutOfSequence(s, f)
    ensures AteHandle(env, s, f, draw) == (s, NOTHING, false)
  {
    hide AteProcess;
  }

  /** At any point of any run: the datagram that carries it moves nothing but the replay cache. */
  lemma StaleDatagramIsIgnored(env: Env, s: AteState, evs: seq<Event>, i: nat)
    requires env.Valid() && s.Valid() && i < |evs| && evs[i].Received?
    requires Parse(evs[i].payload).Success? && OutOfSequence(AteRun(env, s, evs[..i]), Parse(evs[i].payload).value)
    ensures var before, after := AteRun(env, s, evs[..i]), AteRun(env, s, evs[..i + 1]);
            after == before.(lastRx := after.lastRx, lastReply := after.lastReply)
    ensures var (_, reply, drew) := AteRecv(env, AteRun(env, s, evs[..i]), evs[i].payload, evs[i].draw);
            !drew && reply.error.None? && (reply.frame.Some? ==> AteRun(env, s, evs[..i]).lastRx == Some(evs[i].payload))
  {
    hide Parse, AteHandle;
    assert evs[..i + 1][..i] == evs[..i];
    OutOfSequenceIsIgnored(env, AteRun(env, s, evs[..i]), Parse(evs[i].payload).value, evs[i].draw);
  }

  lemma ParseOfNothing()
    ensures Parse([]) == Failure(ShortBuffer)
  {}

  /** The authenticatee becomes authenticated only on a proof that verifies. */
  lemma AteEntersSuccess(env: Env, s: AteState, payload: seq<byte>, draw: Option<nat>)
    requires env.Valid() && AteInvariant(s) && !s.state.Authenticated?
    requires AteRecv(env, s, payload, draw).0.state.Authenticated?
    ensures && Parse(payload).Success?
            && ValidatesServer(env, s, Parse(payload).value, AteRecv(env, s, payload, draw).0)
  {
    hide Parse, AteHandle;
    if Parse(payload).Success? {
      AteHandleEffect(env, s, Parse(payload).value, draw);
    }
  }

  // ---- The authenticator ----

  datatype AtorState = AtorState(
    state: State, id: byte, server: Option<Srp.ServerState>, username: seq<byte>,
    session: Option<Srp.Digest>, verified: bool, useKeyPassphrase: bool, everAuthed: bool,
    legacy: bool, lastRx: Option<seq<byte>>, lastReply: Option<Frame>)
  {
    predicate Valid() {
      server.Some? ==> server.value.Valid()
    }

    function Version(): byte {
      if legacy then 2 else EAP_VERSION_3
    }
  }

  function AtorNew(legacy: bool): AtorState {
    AtorState(Unauth, 0, None, [], None, false, true, false, legacy, None, None)
  }

  function AtorRestart(s: AtorState): AtorState {
    s.(state := Unauth, server := None, session := None, verified := false, id := NextId(s.id),
       lastRx := None, lastReply := None)
  }

  function AtorStart(s: AtorState): (AtorState, Frame) {
    (if s.state.Unauth? then s.(state := InProgress) else s,
     DEFAULT.(version := s.Version(), code := Request, identifier := s.id, kind := IdentityRequest))
  }

  /** Kinds whose identifier is not checked. */
  predicate AnyIdentifier(k: Kind) {
    k.Start? || k.Logoff? || k.PassphraseRequest? || k.PassphraseResponse?
  }

  function AtorHandle(env: Env, s: AtorState, f: Frame, draw: Option<nat>)
    : (r: (AtorState, Reply, bool))
    requires env.Valid() && s.Valid()
    ensures r.0.Valid()
  {
    if !s.state.Unauth? && !AnyIdentifier(f.kind) && f.identifier != s.id then (s, NOTHING, false)
    else
      match f.kind
      case Start =>
        var (t, reply) := AtorOpen(s);
        (t, reply, false)
      case Logoff => (AtorLogoff(s), NOTHING, false)
      case IdentityResponse => AtorIdentity(env, s, f, draw)
      case ClientKey =>
        var (t, reply) := AtorClientKey(s, f);
        (t, reply, false)
      case ClientValidator =>
        var (t, reply) := AtorClientValidator(env, s, f);
        (t, reply, false)
      case ServerValidator => (AtorConfirm(s), NOTHING, false)
      case EapSuccess => (AtorConfirm(s), NOTHING, false)
      case PassphraseRequest =>
        (s, if s.useKeyPassphrase then Send(PassphrasePush(f.identifier)) else NOTHING, false)
      case PassphraseResponse => (s, Send(SuccessAck(f.identifier)), false)
      case EapFailure =>
        if !s.state.InProgress? then (s, NOTHING, false)
        else (s.(state := Failed), Fail(AuthFailed), false)
      case _ => (s, Fail(Unexpected), false)
  }

  function AtorConfirm(s: AtorState): AtorState {
    if s.verified then s.(state := Authenticated, everAuthed := true, id := NextId(s.id)) else s
  }

  function AtorOpen(s: AtorState): (r: (AtorState, Reply))
    requires s.Valid()
    ensures r.0.Valid()
  {
    if s.state.InProgress? then (s, NOTHING)
    else
      var (t, request) := AtorStart(if s.state.Unauth? then s else AtorRestart(s));
      (t, Send(request))
  }

  function AtorLogoff(s: AtorState): (t: AtorState)
    requires s.Valid()
    ensures t.Valid()
  {
    if s.state.Authenticated? || s.state.Failed? || s.everAuthed then s
    else s.(state := Unauth, server := None, session := None, verified := false)
  }

  function AtorClientKey(s: AtorState, f: Frame): (r: (AtorState, Reply))
    requires s.Valid()
    ensures r.0.Valid()
  {
    if s.server.None? then (s.(state := Failed), Fail(Unexpected))
    else
      match Srp.ServerHandleA(s.server.value, f.public)
      case Failure(e) => (s.(state := Failed), Fail(SrpFailure(e)))
      case Success(srv) =>
        var t := s.(server := Some(srv), id := NextId(s.id));
        (t, Send(DEFAULT.(version := s.Version(), code := Request, identifier := t.id,
                          kind := ServerKey, public := srv.B())))
  }

  function AtorClientValidator(env: Env, s: AtorState, f: Frame): (r: (AtorState, Reply))
    requires s.Valid()
    ensures r.0.Valid()
  {
    if s.server.None? then (s.(state := Failed), Fail(Unexpected))
    else
      var (srv, ok) := Srp.ServerVerifyM1(env.hash, s.server.value, s.username, f.proof);
      var t := s.(server := Some(srv));
      if !ok then
        (t.(state := Failed),
         Reply(Some(DEFAULT.(version := s.Version(), code := FailureCode, identifier := s.id,
                             kind := EapFailure)), Some(AuthFailed)))
      else
        var u := t.(session := srv.Key(), verified := true, id := NextId(s.id));
        (u, Send(DEFAULT.(version := s.Version(), code := Request, identifier := u.id,
                          kind := ServerValidator, proof := srv.m2)))
  }

  function AtorIdentity(env: Env, s: AtorState, f: Frame, draw: Option<nat>)
    : (r: (AtorState, Reply, bool))
    requires env.Valid() && s.Valid()
    ensures r.0.Valid()
  {
    match env.lookup(f.username)
    case None => (s.(state := Failed), Fail(NoVerifier), false)
    case Some(entry) =>
      var (verifier, salt) := entry;
      var drew := Srp.ValidateSalt(salt).None? && verifier != [] && !Srp.ZeroVerifier(env.group, verifier);
      match Srp.NewServer(env.hash, env.group, verifier, salt, s.legacy, draw)
      case Failure(e) => (s.(state := Failed), Fail(SrpFailure(e)), drew)
      case Success(srv) =>
        var t := s.(server := Some(srv), username := f.username, state := InProgress, id := NextId(s.id));
        (t, Send(DEFAULT.(version := s.Version(), code := Request, identifier := t.id,
                          kind := Challenge, salt := salt)), drew)
  }

  function AtorRecv(env: Env, s: AtorState, payload: seq<byte>, draw: Option<nat>)
    : (r: (AtorState, Reply, bool))
    requires env.Valid() && s.Valid()
    ensures r.0.Valid()
  {
    if payload != [] && s.lastRx == Some(payload) then (s, Reply(s.lastReply, None), false)
    else
      match Parse(payload)
      case Failure(e) => (s, Fail(e), false)
      case Success(f) =>
        var (t, reply, drew) := AtorHandle(env, s, f, draw);
        (if reply.error.None? then t.(lastRx := Some(payload), lastReply := reply.frame) else t,
         reply, drew)
  }

  function AtorStep(env: Env, s: AtorState, ev: Event): (t: AtorState)
    requires env.Valid() && s.Valid()
    ensures t.Valid()
  {
    match ev
    case Received(payload, draw) => AtorRecv(env, s, payload, draw).0
    case Started => AtorStart(s).0
    case Restarted => AtorRestart(s)
  }

  ghost function AtorRun(env: Env, s: AtorState, evs: seq<Event>): (t: AtorState)
    requires env.Valid() && s.Valid()
    ensures t.Valid()
  {
    if evs == [] then s else AtorStep(env, AtorRun(env, s, evs[..|evs| - 1]), evs[|evs| - 1])
  }

  ghost predicate AtorInvariant(s: AtorState) {
    && s.Valid()
    && (s.verified ==> s.session.Some?)
    && (s.state.Authenticated? ==> s.verified && s.everAuthed)
  }

  /** The frame that carries a client proof the server accepts, leaving session key `key`. */
  ghost predicate AcceptsProofIn(env: Env, s: AtorState, f: Frame, key: Srp.Digest)
    requires s.Valid()
  {
    && f.kind.ClientValidator? && s.server.Some?
    && var (srv, ok) := Srp.ServerVerifyM1(env.hash, s.server.value, s.username, f.proof);
       ok && srv.key == key
  }

  /** Everything later results need to know about one transition. */
  ghost predicate AtorEffect(env: Env, s: AtorState, f: Frame, t: AtorState, reply: Reply)
    requires s.Valid()
  {
    && AtorInvariant(t)
    && (s.everAuthed ==> t.everAuthed)
    && (t.verified ==>
          t.session.Some?
          && (AcceptsProofIn(env, s, f, t.session.value) || (s.verified && s.session == t.session)))
    && (s.state.Authenticated? ==> (!t.state.Authenticated? <==> LeavesOn(env, s, f)))
    && (f.kind.Logoff? && s.everAuthed ==> t == s)
  }

  /** A client key or proof that the server, as it stands, does not take. */
  ghost predicate Refuses(env: Env, s: AtorState, f: Frame)
    requires s.Valid()
  {
    || (f.kind.ClientKey? && (s.server.None? || Srp.ServerHandleA(s.server.value, f.public).Failure?))
    || (f.kind.ClientValidator?
        && (s.server.None? || !Srp.ServerVerifyM1(env.hash, s.server.value, s.username, f.proof).1))
  }

  ghost predicate LeavesOn(env: Env, s: AtorState, f: Frame)
    requires s.Valid()
  {
    f.kind.Start? || (f.identifier == s.id && (f.kind.IdentityResponse? || Refuses(env, s, f)))
  }

  predicate Exchange(k: Kind) {
    k.IdentityResponse? || k.ClientKey? || k.ClientValidator?
  }

  lemma AtorHandleEffect(env: Env, s: AtorState, f: Frame, draw: Option<nat>)
    requires env.Valid() && AtorInvariant(s)
    ensures var (t, reply, _) := AtorHandle(env, s, f, draw); AtorEffect(env, s, f, t, reply)
  {
    hide AtorHandle, AtorEffect;
    if Exchange(f.kind) {
      AtorExchangeEffect(env, s, f, draw);
    } else {
      AtorControlEffect(env, s, f, draw);
    }
  }

  lemma AtorExchangeEffect(env: Env, s: AtorState, f: Frame, draw: Option<nat>)
    requires env.Valid() && AtorInvariant(s) && Exchange(f.kind)
    ensures var (t, reply, _) := AtorHandle(env, s, f, draw); AtorEffect(env, s, f, t, reply)
  {
    hide AtorHandle, AtorEffect, AtorIdentity, AtorClientKey, AtorClientValidator;
    ExchangeDispatch(env, s, f, draw);
    if !s.state.Unauth? && f.identifier != s.id {
      OutOfTurn(env, s, f);
    } else {
      match f.kind
      case IdentityResponse => IdentityEffect(env, s, f, draw);
      case ClientKey => ClientKeyEffect(env, s, f);
      case ClientValidator => ClientValidatorEffect(env, s, f);
    }
  }

  lemma ExchangeDispatch(env: Env, s: AtorState, f: Frame, draw: Option<nat>)
    requires env.Valid() && s.Valid() && Exchange(f.kind)
    ensures !s.state.Unauth? && f.identifier != s.id ==> AtorHandle(env, s, f, draw) == (s, NOTHING, false)
    ensures s.state.Unauth? || f.identifier == s.id ==>
              AtorHandle(env, s, f, draw)
              == match f.kind
                 case IdentityResponse => AtorIdentity(env, s, f, draw)
                 case ClientKey => var (t, reply) := AtorClientKey(s, f); (t, reply, false)
                 case _ => var (t, reply) := AtorClientValidator(env, s, f); (t, reply, false)
  {
    hide AtorIdentity, AtorClientKey, AtorClientValidator;
  }

  lemma OutOfTurn(env: Env, s: AtorState, f: Frame)
    requires AtorInvariant(s) && Exchange(f.kind) && f.identifier != s.id
    ensures AtorEffect(env, s, f, s, NOTHING)
  {
    hide AcceptsProofIn, Refuses;
  }

  lemma IdentityEffect(env: Env, s: AtorState, f: Frame, draw: Option<nat>)
    requires env.Valid() && AtorInvariant(s) && f.kind.IdentityResponse? && (s.state.Unauth? || f.identifier == s.id)
    ensures var (t, reply, _) := AtorIdentity(env, s, f, draw); AtorEffect(env, s, f, t, reply)
  {
    hide AtorIdentity, AcceptsProofIn, Refuses;
    AtorIdentityEffect(env, s, f, draw);
  }

  lemma ClientKeyEffect(env: Env, s: AtorState, f: Frame)
    requires env.Valid() && AtorInvariant(s) && f.kind.ClientKey? && (s.state.Unauth? || f.identifier == s.id)
    ensures var (t, reply) := AtorClientKey(s, f); AtorEffect(env, s, f, t, reply)
  {
    hide AtorClientKey, AcceptsProofIn, Refuses;
    AtorClientKeyEffect(env, s, f);
  }

  lemma ClientValidatorEffect(env: Env, s: AtorState, f: Frame)
    requires env.Valid() && AtorInvariant(s) && f.kind.ClientValidator? && (s.state.Unauth? || f.identifier == s.id)
    ensures var (t, reply) := AtorClientValidator(env, s, f); AtorEffect(env, s, f, t, reply)
  {
    hide AtorClientValidator, AcceptsProofIn, Refuses;
    AtorClientValidatorEffect(env, s, f);
  }

  lemma AtorControlEffect(env: Env, s: AtorState, f: Frame, draw: Option<nat>)
    requires env.Valid() && AtorInvariant(s) && !Exchange(f.kind)
    ensures var (t, reply, _) := AtorHandle(env, s, f, draw); AtorEffect(env, s, f, t, reply)
  {
    hide AtorIdentity, AtorClientKey, AtorClientValidator, AcceptsProofIn, AtorOpen, AtorLogoff,
      AtorConfirm, PassphrasePush, SuccessAck;
    AtorSessionEffect(s);
  }

  /** The transitions that only open, close or confirm. */
  lemma AtorSessionEffect(s: AtorState)
    requires AtorInvariant(s)
    ensures AtorInvariant(AtorOpen(s).0) && AtorInvariant(AtorLogoff(s)) && AtorInvariant(AtorConfirm(s))
    ensures s.everAuthed ==>
              && AtorOpen(s).0.everAuthed && AtorLogoff(s) == s && AtorConfirm(s).everAuthed
    ensures AtorOpen(s).0.verified ==> s.verified && AtorOpen(s).0.session == s.session
    ensures AtorLogoff(s).verified ==> s.verified && AtorLogoff(s).session == s.session
    ensures AtorConfirm(s).verified ==> s.verified && AtorConfirm(s).session == s.session
    ensures s.state.Authenticated? ==> AtorConfirm(s).state.Authenticated? && !AtorOpen(s).0.state.Authenticated?
  {}

  lemma AtorIdentityEffect(env: Env, s: AtorState, f: Frame, draw: Option<nat>)
    requires env.Valid() && AtorInvariant(s)
    ensures var t := AtorIdentity(env, s, f, draw).0;
            && t.Valid() && !t.state.Authenticated?
            && t.verified == s.verified && t.session == s.session && t.everAuthed == s.everAuthed
  {
    hide Srp.NewServer;
  }

  lemma AtorClientKeyEffect(env: Env, s: AtorState, f: Frame)
    requires env.Valid() && AtorInvariant(s)
    ensures var (t, reply) := AtorClientKey(s, f);
            && t.Valid() && (reply.error.None? ==> t.state == s.state)
            && (reply.error.Some? ==> !t.state.Authenticated?)
            && (f.kind.ClientKey? ==> (reply.error.Some? <==> Refuses(env, s, f)))
            && t.verified == s.verified && t.session == s.session && t.everAuthed == s.everAuthed
  {
    hide Srp.ServerHandleA;
  }

  lemma AtorClientValidatorEffect(env: Env, s: AtorState, f: Frame)
    requires env.Valid() && AtorInvariant(s) && f.kind.ClientValidator?
    ensures var (t, reply) := AtorClientValidator(env, s, f);
            && t.Valid() && t.everAuthed == s.everAuthed
            && (reply.error.Some? <==> Refuses(env, s, f))
            && (reply.error.Some? ==>
                  !t.state.Authenticated? && t.verified == s.verified && t.session == s.session)
            && (reply.error.None? ==>
                  && t.state == s.state && t.verified && t.session.Some?
                  && AcceptsProofIn(env, s, f, t.session.value))
  {
    hide Srp.ServerVerifyM1;
  }

  lemma AtorStepKeepsInvariant(env: Env, s: AtorState, ev: Event)
    requires env.Valid() && AtorInvariant(s)
    ensures AtorInvariant(AtorStep(env, s, ev))
    ensures s.everAuthed ==> AtorStep(env, s, ev).everAuthed
  {
    hide Parse, AtorHandle;
    if ev.Received? && Parse(ev.payload).Success? {
      AtorHandleEffect(env, s, Parse(ev.payload).value, ev.draw);
    }
  }

  /** In every run: the authenticated state always has a verified peer, a session key and the
      latch, and the latch is never cleared. */
  lemma {:induction false} AtorRunKeepsInvariant(env: Env, s: AtorState, evs: seq<Event>)
    requires env.Valid() && AtorInvariant(s)
    ensures AtorInvariant(AtorRun(env, s, evs))
    ensures s.everAuthed ==> AtorRun(env, s, evs).everAuthed
  {
    if evs != [] {
      AtorRunKeepsInvariant(env, s, evs[..|evs| - 1]);
      AtorStepKeepsInvariant(env, AtorRun(env, s, evs[..|evs| - 1]), evs[|evs| - 1]);
    }
  }

  /** A received datagram takes the authenticator out of the authenticated state exactly when it is
      fresh and a START, or carries the current identifier on an IDENTITY RESPONSE or on a client
      key or proof that its server refuses. A FAILURE never does. */
  lemma AtorLeavesSuccess(env: Env, s: AtorState, payload: seq<byte>, draw: Option<nat>)
    requires env.Valid() && AtorInvariant(s) && s.state.Authenticated?
    ensures !AtorRecv(env, s, payload, draw).0.state.Authenticated?
            <==> && s.lastRx != Some(payload)
                 && Parse(payload).Success? && LeavesOn(env, s, Parse(payload).value)
  {
    hide Parse, AtorHandle, LeavesOn;
    ParseOfNothing();
    if Parse(payload).Success? {
      AtorHandleEffect(env, s, Parse(payload).value, draw);
    }
  }

  /** A frame that answers another request than the last one. */
  predicate AnswersAnother(s: AtorState, f: Frame) {
    && !s.state.Unauth? && f.identifier != s.id
    && !(f.kind.Start? || f.kind.Logoff? || f.kind.PassphraseRequest? || f.kind.PassphraseResponse?)
  }

  /** Past the opening, such a frame changes nothing, is not answered, and uses no draw. */
  lemma AnswerToAnotherIsIgnored(env: Env, s: AtorState, f: Frame, draw: Option<nat>)
    requires env.Valid() && s.Valid() && AnswersAnother(s, f)
    ensures AtorHandle(env, s, f, draw) == (s, NOTHING, false)
  {
    hide AtorIdentity, AtorClientKey, AtorClientValidator;
  }

  lemma StaleAnswerIsIgnored(env: Env, s: AtorState, evs: seq<Event>, i: nat)
    requires env.Valid() && s.Valid() && i < |evs| && evs[i].Received?
    requires Parse(evs[i].payload).Success? && AnswersAnother(AtorRun(env, s, evs[..i]), Parse(evs[i].payload).value)
    ensures var before, after := AtorRun(env, s, evs[..i]), AtorRun(env, s, evs[..i + 1]);
            after == before.(lastRx := after.lastRx, lastReply := after.lastReply)
    ensures var (_, reply, drew) := AtorRecv(env, AtorRun(env, s, evs[..i]), evs[i].payload, evs[i].draw);
            !drew && reply.error.None? && (reply.frame.Some? ==> AtorRun(env, s, evs[..i]).lastRx == Some(evs[i].payload))
  {
    hide Parse, AtorHandle;
    assert evs[..i + 1][..i] == evs[..i];
    AnswerToAnotherIsIgnored(env, AtorRun(env, s, evs[..i]), Parse(evs[i].payload).value, evs[i].draw);
  }

  /** Once a peer has ever authenticated, a LOGOFF changes nothing but the replay cache. */
  lemma LogoffIsIgnoredOnceAuthed(env: Env, s: AtorState, payload: seq<byte>, draw: Option<nat>)
    requires env.Valid() && AtorInvariant(s) && s.everAuthed
    requires Parse(payload).Success? && Parse(payload).value.kind.Logoff?
    ensures var t := AtorRecv(env, s, payload, draw).0;
            t == s.(lastRx := t.lastRx, lastReply := t.lastReply)
  {
    hide Parse, AtorHandle;
    AtorHandleEffect(env, s, Parse(payload).value, draw);
  }

  /** The step that accepts a client's proof. */
  ghost predicate AcceptsProof(env: Env, s: AtorState, ev: Event, key: Srp.Digest)
    requires env.Valid() && s.Valid()
  {
    && ev.Received? && Parse(ev.payload).Success?
    && AcceptsProofIn(env, s, Parse(ev.payload).value, key)
  }

  /** Every verified state of a run goes back to a datagram of that run whose proof was accepted,
      and the session key is the key of that exchange. So no run reaches the authenticated state
      without a valid client proof. */
  lemma {:induction false} VerifiedHasProof(env: Env, s: AtorState, evs: seq<Event>)
    requires env.Valid() && AtorInvariant(s) && !s.verified
    requires AtorRun(env, s, evs).verified
    ensures exists i: nat :: i < |evs|
              && AtorRun(env, s, evs).session.Some?
              && AcceptsProof(env, AtorRun(env, s, evs[..i]), evs[i], AtorRun(env, s, evs).session.value)
  {
    hide AtorStep, AcceptsProof;
    var n := |evs| - 1;
    var before := AtorRun(env, s, evs[..n]);
    AtorRunKeepsInvariant(env, s, evs[..n]);
    ProofStep(env, before, evs[n]);
    if AcceptsProof(env, before, evs[n], AtorRun(env, s, evs).session.value) {
    } else {
      VerifiedHasProof(env, s, evs[..n]);
      var i: nat :| i < n && AcceptsProof(env, AtorRun(env, s, evs[..n][..i]), evs[..n][i], before.session.value);
      assert evs[..n][..i] == evs[..i];
      assert AcceptsProof(env, AtorRun(env, s, evs[..i]), evs[i], AtorRun(env, s, evs).session.value);
    }
  }

  /** Each step that ends verified either accepted a proof or was verified with the same key. */
  lemma ProofStep(env: Env, s: AtorState, ev: Event)
    requires env.Valid() && AtorInvariant(s)
    ensures var t := AtorStep(env, s, ev);
            t.verified ==>
              && t.session.Some?
              && (AcceptsProof(env, s, ev, t.session.value) || (s.verified && s.session == t.session))
  {
    hide Parse, AtorHandle, AcceptsProofIn;
    if ev.Received? && Parse(ev.payload).Success? {
      AtorHandleEffect(env, s, Parse(ev.payload).value, ev.draw);
    }
  }

  /** The authenticated state of every run from a fresh authenticator rests on a proof. */
  lemma AuthenticationRequiresProof(env: Env, legacy: bool, evs: seq<Event>)
    requires env.Valid()
    requires AtorRun(env, AtorNew(legacy), evs).state.Authenticated?
    ensures exists i: nat :: i < |evs|
              && AtorRun(env, AtorNew(legacy), evs).session.Some?
              && AcceptsProof(env, AtorRun(env, AtorNew(legacy), evs[..i]), evs[i],
                              AtorRun(env, AtorNew(legacy), evs).session.value)
  {
    AtorRunKeepsInvariant(env, AtorNew(legacy), evs);
    VerifiedHasProof(env, AtorNew(legacy), evs);
  }
}
