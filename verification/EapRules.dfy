/** What each frame may do to a role (eap.rs), field by field: who moves the identifier, who
    replaces the exchange, how every reply is labelled, and what a restart leaves. */
module EapRules {
  import opened Bytes
  import opened EapFrame
  import opened Eap
  import Srp

  // ---- The authenticatee ----

  /** Credentials come in as given, and are refused only when empty or longer than 255 bytes. A new
      role has no exchange, no session and no identifier. */
  lemma NewIsBlank(username: seq<byte>, password: seq<byte>)
    ensures AteNew(username, password).Success? <==> 1 <= |username| <= 255 && 1 <= |password| <= 255
    ensures AteNew(username, password).Success? ==>
              var s := AteNew(username, password).value;
              && s.username == username && s.password == password && s.state.Unauth? && !s.idValid
              && s.client.None? && s.session.None? && s.lastRx.None? && s.useKeyPassphrase && AteInvariant(s)
    ensures AteNew(username, password).Failure? ==>
              (AteNew(username, password).error == EmptyCredentials <==> username == [] || password == [])
  {}

  /** Beginning sends a START and opens an exchange, unless one is open or over. */
  lemma BeginOpens(s: AteState)
    ensures AteStart(s) == s.(state := if s.state.Unauth? then InProgress else s.state)
    ensures StartFrame().kind.Start? && StartFrame().version == 3
  {}

  /** A restart leaves the role as new, but for its credentials and its switch. */
  lemma RestartIsNew(s: AteState)
    requires 1 <= |s.username| <= 255 && 1 <= |s.password| <= 255
    ensures AteRestart(s) == AteNew(s.username, s.password).value.(useKeyPassphrase := s.useKeyPassphrase)
  {}

  /** The version a reply to a frame of this version carries. */
  predicate ReplyVersion(f: Frame, version: byte) {
    version == if f.version == 2 then 2 else 3
  }

  /** Every reply answers the request's own identifier, in its version, and is of the kind its request
      calls for. */
  predicate Answers(f: Frame, reply: Frame) {
    && reply.identifier == f.identifier
    && (f.kind.IdentityRequest? ==> reply.kind.IdentityResponse? && reply.code.Response? && ReplyVersion(f, reply.version))
    && (f.kind.Challenge? ==> reply.kind.ClientKey? && reply.code.Response? && ReplyVersion(f, reply.version))
    && (f.kind.ServerKey? ==> reply.kind.ClientValidator? && reply.code.Response? && ReplyVersion(f, reply.version))
    && (f.kind.ServerValidator? ==> reply.kind.EapSuccess? && reply.code.SuccessCode? && ReplyVersion(f, reply.version))
    && (f.kind.PassphraseRequest? ==>
          reply.kind.PassphraseResponse? && reply.code.Response? && reply.version == 3 && reply.ppUseKey)
    && (f.kind.PassphraseResponse? ==> reply.kind.EapSuccess? && reply.code.SuccessCode? && reply.version == 3)
  }

  /** Requests of the exchange. */
  predicate Carries(k: Kind) {
    k.IdentityRequest? || k.Challenge? || k.ServerKey? || k.ServerValidator?
  }

  /** What an authenticatee's step may move, and when it replies, fails or draws. */
  ghost predicate AteRule(s: AteState, f: Frame, t: AteState, reply: Reply, drew: bool) {
    // What never moves.
    && t.username == s.username && t.password == s.password && t.useKeyPassphrase == s.useKeyPassphrase
    // A reply answers; an error fails the exchange, unless the frame is no request at all.
    && (reply.frame.Some? ==> Answers(f, reply.frame.value) && reply.error.None?)
    && (reply.error.Some? ==> t.state.Failed? || (t == s && reply.error.value.Unexpected?))
    && (t.state.Failed? && !s.state.Failed? ==> reply.error.Some?)
    // The identifier is adopted from a request of the exchange, and from nothing else.
    && (t.id != s.id || t.idValid != s.idValid ==> Carries(f.kind) && t.id == f.identifier && t.idValid)
    && (Carries(f.kind) && reply.frame.Some? ==> t.id == f.identifier && t.idValid)
    // The exchange is replaced by a challenge, advanced by a server key, and dropped by a new identity request.
    && (t.client != s.client ==>
          || (f.kind.Challenge? && reply.frame.Some?)
          || (f.kind.ServerKey? && s.client.Some? && t.client.Some? && reply.frame.Some?)
          || (f.kind.IdentityRequest? && s.state.Authenticated? && t.client.None?))
    && (t.salt != s.salt ==> (f.kind.Challenge? && t.salt == f.salt) || (f.kind.IdentityRequest? && t.salt == []))
    && (drew ==> f.kind.Challenge? && f.genG == [] && Srp.ValidateSalt(f.salt).None?)
    && (f.kind.Challenge? && reply.frame.Some? ==> drew && t.salt == f.salt && t.state.InProgress?)
    // The replay cache is the receiver's, but for the restart.
    && ((t.lastRx, t.lastReply) == (s.lastRx, s.lastReply) || (t.lastRx.None? && t.lastReply.None? && f.kind.IdentityRequest?))
  }

  lemma ChallengeRule(env: Env, s: AteState, f: Frame, draw: Option<nat>)
    requires env.Valid() && s.Valid() && f.kind.Challenge?
    ensures var (t, reply, drew) := AteChallenge(env, s, f, draw); AteRule(s, f, t, reply, drew)
  {
    hide Srp.ValidateSalt;
  }

  lemma ServerKeyRule(env: Env, s: AteState, f: Frame, draw: Option<nat>)
    requires env.Valid() && s.Valid() && f.kind.ServerKey?
    ensures var (t, reply, drew) := AteProcess(env, s, f, draw); AteRule(s, f, t, reply, drew)
  {
    hide Srp.ClientComputeKey, AteChallenge;
  }

  lemma ServerValidatorRule(env: Env, s: AteState, f: Frame, draw: Option<nat>)
    requires env.Valid() && s.Valid() && f.kind.ServerValidator?
    ensures var (t, reply, drew) := AteProcess(env, s, f, draw); AteRule(s, f, t, reply, drew)
  {
    hide Srp.ClientComputeKey, AteChallenge;
  }

  lemma ControlRule(env: Env, s: AteState, f: Frame, draw: Option<nat>)
    requires env.Valid() && s.Valid() && !SrpRequest(f.kind)
    ensures var (t, reply, drew) := AteProcess(env, s, f, draw); AteRule(s, f, t, reply, drew)
  {
    hide Srp.ClientComputeKey, AteChallenge;
  }

  lemma ProcessRule(env: Env, s: AteState, f: Frame, draw: Option<nat>)
    requires env.Valid() && s.Valid()
    ensures var (t, reply, drew) := AteProcess(env, s, f, draw); AteRule(s, f, t, reply, drew)
  {
    hide AteRule, AteChallenge, Srp.ClientComputeKey;
    match f.kind
    case Challenge => ChallengeRule(env, s, f, draw);
    case ServerKey => ServerKeyRule(env, s, f, draw);
    case ServerValidator => ServerValidatorRule(env, s, f, draw);
    case _ => ControlRule(env, s, f, draw);
  }

  /** The rule holds of every frame in every state, valid exchange or not. */
  lemma AteHandleRule(env: Env, s: AteState, f: Frame, draw: Option<nat>)
    requires env.Valid() && s.Valid()
    ensures var (t, reply, drew) := AteHandle(env, s, f, draw); AteRule(s, f, t, reply, drew)
  {
    if f.kind.IdentityRequest? {
      hide *;
      IdentityRule(env, s, f, draw);
    } else if !f.kind.EapFailure? && !(s.state.Authenticated? && SrpRequest(f.kind)) {
      hide AteProcess;
      ProcessRule(env, s, f, draw);
    }
  }

  lemma IdentityRule(env: Env, s: AteState, f: Frame, draw: Option<nat>)
    requires env.Valid() && s.Valid() && f.kind.IdentityRequest?
    ensures var (t, reply, drew) := AteHandle(env, s, f, draw); AteRule(s, f, t, reply, drew)
  {}

  /** The username goes out in answer to an identity request, in any state, and never unasked. */
  lemma IdentityIsAnswered(env: Env, s: AteState, f: Frame, draw: Option<nat>)
    requires env.Valid() && s.Valid() && f.kind.IdentityRequest?
    ensures var (t, reply, _) := AteHandle(env, s, f, draw);
            && reply.frame.Some? && reply.frame.value.username == s.username
            && t.state == (if s.state.Failed? then Failed else InProgress)
  {}

  /** A FAILURE ends the exchange in progress it names, and does nothing else. */
  lemma FailureEndsItsExchange(env: Env, s: AteState, f: Frame, draw: Option<nat>)
    requires env.Valid() && s.Valid() && f.kind.EapFailure?
    ensures var (t, reply, drew) := AteHandle(env, s, f, draw);
            && t == s.(state := t.state) && !drew && reply.frame.None?
            && (t.state != s.state <==> s.state.InProgress? && f.identifier == s.id)
            && (t.state != s.state ==> t.state.Failed? && reply.error == Some(AuthFailed))
            && (t.state == s.state ==> reply.error.None?)
  {}

  /** A server key or proof is out of place before a challenge, and fails the exchange. */
  lemma OutOfOrderFails(env: Env, s: AteState, f: Frame, draw: Option<nat>)
    requires env.Valid() && s.Valid() && !s.state.Authenticated? && !OutOfSequence(s, f) && s.client.None?
    requires f.kind.ServerKey? || f.kind.ServerValidator?
    ensures var (t, reply, _) := AteHandle(env, s, f, draw);
            t == s.(state := Failed) && reply.frame.None?
            && reply.error == Some(if f.kind.ServerKey? then Unexpected else AuthFailed)
  {}

  /** The passphrase switch decides whether a request for the passphrase is answered. */
  lemma PassphraseIsPushed(env: Env, s: AteState, f: Frame, draw: Option<nat>)
    requires env.Valid() && s.Valid() && (f.kind.PassphraseRequest? || f.kind.PassphraseResponse?)
    ensures var (t, reply, _) := AteHandle(env, s, f, draw);
            t == s && reply.error.None? && (reply.frame.Some? <==> f.kind.PassphraseResponse? || s.useKeyPassphrase)
  {}

  // ---- The authenticator ----

  /** A restart leaves the role as new, but for the next identifier and what must survive it. */
  lemma AtorRestartIsNew(s: AtorState)
    ensures AtorRestart(s) == AtorNew(s.legacy).(id := (s.id + 1) % 256, username := s.username,
                                                 useKeyPassphrase := s.useKeyPassphrase, everAuthed := s.everAuthed)
    ensures AtorInvariant(AtorNew(s.legacy)) && AtorNew(s.legacy).state.Unauth? && !AtorNew(s.legacy).everAuthed
    ensures AtorNew(s.legacy).useKeyPassphrase && AtorNew(s.legacy).id == 0 && AtorNew(s.legacy).legacy == s.legacy
  {}

  /** A request the authenticator sends carries the identifier it holds from then on, and its version. */
  predicate Requests(s: AtorState, t: AtorState, reply: Frame, kind: Kind) {
    && reply.kind == kind && reply.code.Request? && reply.identifier == t.id
    && reply.version == if s.legacy then 2 else 3
  }

  /** What each frame is answered with. */
  ghost predicate AtorAnswers(s: AtorState, f: Frame, t: AtorState, reply: Frame) {
    && (f.kind.Start? ==> Requests(s, t, reply, IdentityRequest))
    && (f.kind.IdentityResponse? ==> Requests(s, t, reply, Challenge))
    && (f.kind.ClientKey? ==> Requests(s, t, reply, ServerKey))
    && (f.kind.ClientValidator? ==>
          || Requests(s, t, reply, ServerValidator)
          || (reply.kind.EapFailure? && reply.code.FailureCode? && reply.identifier == s.id
              && reply.version == if s.legacy then 2 else 3))
    && (f.kind.PassphraseRequest? || f.kind.PassphraseResponse? ==> Answers(f, reply))
    && (Exchange(f.kind) || f.kind.Start? || f.kind.PassphraseRequest? || f.kind.PassphraseResponse?)
  }

  /** What an authenticator's step may move, and when it replies, fails or draws. */
  ghost predicate AtorRule(s: AtorState, f: Frame, t: AtorState, reply: Reply, drew: bool) {
    && t.legacy == s.legacy && t.useKeyPassphrase == s.useKeyPassphrase
    && (reply.frame.Some? ==> AtorAnswers(s, f, t, reply.frame.value))
    // An error fails the exchange, unless the frame is none the authenticator knows.
    && (reply.error.Some? ==> t.state.Failed? || (t == s && reply.error.value.Unexpected?))
    && (t.state.Failed? && !s.state.Failed? ==> reply.error.Some?)
    && (reply.error.Some? && reply.frame.Some? <==> f.kind.ClientValidator? && reply.error == Some(AuthFailed))
    // The identifier goes up by one at every step of the exchange that is taken, and otherwise only with a restart.
    && (Exchange(f.kind) && reply.frame.Some? && reply.error.None? ==> t.id == (s.id + 1) % 256)
    && (t.id != s.id ==> t.id == (s.id + 1) % 256 && reply.error.None? && !f.kind.Logoff?)
    // The exchange is begun by an identity, advanced by key and proof, and dropped by START or LOGOFF.
    && (t.server != s.server ==>
          || (f.kind.IdentityResponse? && t.server.Some? && t.username == f.username)
          || ((f.kind.ClientKey? || f.kind.ClientValidator?) && s.server.Some? && t.server.Some?)
          || ((f.kind.Start? || f.kind.Logoff?) && t.server.None?))
    && (t.username != s.username ==> f.kind.IdentityResponse? && t.username == f.username)
    && (drew ==> f.kind.IdentityResponse?)
    // A session begins with an accepted proof, and ends only when the exchange is dropped.
    && (t.session != s.session || t.verified != s.verified ==>
          || (f.kind.ClientValidator? && t.verified && reply.error.None?)
          || ((f.kind.Start? || f.kind.Logoff?) && t.session.None? && !t.verified))
    && (t.everAuthed != s.everAuthed ==> t.everAuthed && s.verified && t.state.Authenticated?)
    && (t.state.Authenticated? && !s.state.Authenticated? ==>
          s.verified && t.everAuthed && (f.kind.ServerValidator? || f.kind.EapSuccess?) && reply == NOTHING)
    && ((t.lastRx, t.lastReply) == (s.lastRx, s.lastReply) || (f.kind.Start? && t.lastRx.None? && t.lastReply.None?))
  }

  lemma IdentityResponseAnswered(env: Env, s: AtorState, f: Frame, draw: Option<nat>)
    requires env.Valid() && s.Valid() && f.kind.IdentityResponse?
    ensures var (t, reply, drew) := AtorIdentity(env, s, f, draw); reply.frame.Some? ==> AtorAnswers(s, f, t, reply.frame.value)
  {
    hide Srp.NewServer, Srp.ValidateSalt, Srp.ZeroVerifier;
  }

  lemma IdentityResponseRule(env: Env, s: AtorState, f: Frame, draw: Option<nat>)
    requires env.Valid() && s.Valid() && f.kind.IdentityResponse?
    ensures var (t, reply, drew) := AtorIdentity(env, s, f, draw); AtorRule(s, f, t, reply, drew)
  {
    hide AtorAnswers, Srp.NewServer, Srp.ValidateSalt, Srp.ZeroVerifier;
    IdentityResponseAnswered(env, s, f, draw);
  }

  lemma ClientKeyAnswered(s: AtorState, f: Frame)
    requires s.Valid() && f.kind.ClientKey?
    ensures var (t, reply) := AtorClientKey(s, f); reply.frame.Some? ==> AtorAnswers(s, f, t, reply.frame.value)
  {
    hide Srp.ServerHandleA;
  }

  lemma ClientKeyRule(s: AtorState, f: Frame)
    requires s.Valid() && f.kind.ClientKey?
    ensures var (t, reply) := AtorClientKey(s, f); AtorRule(s, f, t, reply, false)
  {
    hide AtorAnswers, Srp.ServerHandleA;
    ClientKeyAnswered(s, f);
  }

  lemma ClientValidatorAnswered(env: Env, s: AtorState, f: Frame)
    requires s.Valid() && f.kind.ClientValidator?
    ensures var (t, reply) := AtorClientValidator(env, s, f); reply.frame.Some? ==> AtorAnswers(s, f, t, reply.frame.value)
  {
    hide Srp.ServerVerifyM1;
  }

  lemma ClientValidatorRule(env: Env, s: AtorState, f: Frame)
    requires s.Valid() && f.kind.ClientValidator?
    ensures var (t, reply) := AtorClientValidator(env, s, f); AtorRule(s, f, t, reply, false)
  {
    hide AtorAnswers, Srp.ServerVerifyM1;
    ClientValidatorAnswered(env, s, f);
  }

  lemma StartAnswered(s: AtorState, f: Frame)
    requires s.Valid() && f.kind.Start?
    ensures var (t, reply) := AtorOpen(s); reply.frame.Some? ==> AtorAnswers(s, f, t, reply.frame.value)
  {}

  lemma StartRule(s: AtorState, f: Frame)
    requires s.Valid() && f.kind.Start?
    ensures var (t, reply) := AtorOpen(s); AtorRule(s, f, t, reply, false)
  {
    hide AtorAnswers;
    StartAnswered(s, f);
  }

  lemma LogoffRule(s: AtorState, f: Frame)
    requires s.Valid() && f.kind.Logoff?
    ensures AtorRule(s, f, AtorLogoff(s), NOTHING, false)
  {}

  lemma ConfirmRule(s: AtorState, f: Frame)
    requires f.kind.ServerValidator? || f.kind.EapSuccess?
    ensures AtorRule(s, f, AtorConfirm(s), NOTHING, false)
  {}

  lemma OtherRule(env: Env, s: AtorState, f: Frame, draw: Option<nat>)
    requires env.Valid() && s.Valid()
    requires !Exchange(f.kind) && !(f.kind.Start? || f.kind.Logoff? || f.kind.ServerValidator? || f.kind.EapSuccess?)
    ensures var (t, reply, drew) := AtorHandle(env, s, f, draw); AtorRule(s, f, t, reply, drew)
  {
    hide AtorIdentity, AtorClientKey, AtorClientValidator, AtorOpen, AtorLogoff, AtorConfirm;
  }

  lemma UntouchedRule(s: AtorState, f: Frame)
    ensures AtorRule(s, f, s, NOTHING, false)
  {}

  /** The rule holds of every frame in every state. */
  lemma AtorHandleRule(env: Env, s: AtorState, f: Frame, draw: Option<nat>)
    requires env.Valid() && s.Valid()
    ensures var (t, reply, drew) := AtorHandle(env, s, f, draw); AtorRule(s, f, t, reply, drew)
  {
    hide AtorRule, AtorIdentity, AtorClientKey, AtorClientValidator, AtorOpen, AtorLogoff, AtorConfirm;
    UntouchedRule(s, f);
    match f.kind
    case IdentityResponse => IdentityResponseRule(env, s, f, draw);
    case ClientKey => ClientKeyRule(s, f);
    case ClientValidator => ClientValidatorRule(env, s, f);
    case Start => StartRule(s, f);
    case Logoff => LogoffRule(s, f);
    case ServerValidator => ConfirmRule(s, f);
    case EapSuccess => ConfirmRule(s, f);
    case _ => OtherRule(env, s, f, draw);
  }

  /** A START opens an exchange afresh, in any state but in progress, where it is ignored. */
  lemma StartOpensAfresh(env: Env, s: AtorState, f: Frame, draw: Option<nat>)
    requires env.Valid() && s.Valid() && f.kind.Start?
    ensures var (t, reply, _) := AtorHandle(env, s, f, draw);
            if s.state.InProgress? then t == s && reply == NOTHING
            else
              && reply.frame.Some? && reply.error.None? && t.state.InProgress? && t.everAuthed == s.everAuthed
              && (!s.state.Unauth? ==> t.server.None? && t.session.None? && !t.verified && t.id == (s.id + 1) % 256)
              && (s.state.Unauth? ==> t == s.(state := InProgress))
  {
    hide AtorIdentity, AtorClientKey, AtorClientValidator;
  }

  /** A LOGOFF drops an exchange that has not authenticated, and is ignored from then on. */
  lemma LogoffDropsTheOpening(env: Env, s: AtorState, f: Frame, draw: Option<nat>)
    requires env.Valid() && s.Valid() && f.kind.Logoff?
    ensures var (t, reply, _) := AtorHandle(env, s, f, draw);
            && reply == NOTHING && t.id == s.id
            && if (s.state.Unauth? || s.state.InProgress?) && !s.everAuthed
               then t.state.Unauth? && t.server.None? && t.session.None? && !t.verified && !t.everAuthed
               else t == s
  {
    hide AtorIdentity, AtorClientKey, AtorClientValidator;
  }

  /** A FAILURE ends the exchange in progress it names, and does nothing else. */
  lemma AtorFailureEndsItsExchange(env: Env, s: AtorState, f: Frame, draw: Option<nat>)
    requires env.Valid() && s.Valid() && f.kind.EapFailure?
    ensures var (t, reply, drew) := AtorHandle(env, s, f, draw);
            && t == s.(state := t.state) && !drew && reply.frame.None?
            && (t.state != s.state <==> s.state.InProgress? && f.identifier == s.id)
            && (t.state != s.state ==> t.state.Failed? && reply.error == Some(AuthFailed))
            && (t.state == s.state ==> reply.error.None?)
  {
    hide AtorIdentity, AtorClientKey, AtorClientValidator;
  }

  /** The client's acknowledgement counts exactly when its proof was verified. */
  lemma AcknowledgementConfirms(env: Env, s: AtorState, f: Frame, draw: Option<nat>)
    requires env.Valid() && s.Valid() && (f.kind.ServerValidator? || f.kind.EapSuccess?) && !AnswersAnother(s, f)
    ensures var (t, reply, _) := AtorHandle(env, s, f, draw);
            && reply == NOTHING
            && if s.verified then t == s.(state := Authenticated, everAuthed := true, id := (s.id + 1) % 256) else t == s
  {
    hide AtorIdentity, AtorClientKey, AtorClientValidator;
  }

  /** A user without an entry is refused; any other is challenged with the salt of its entry, by a
      server for its verifier in the authenticator's padding mode, or fails without one. */
  lemma ChallengeIsForTheUser(env: Env, s: AtorState, f: Frame, draw: Option<nat>)
    requires env.Valid() && s.Valid() && f.kind.IdentityResponse? && !AnswersAnother(s, f)
    ensures var (t, reply, drew) := AtorHandle(env, s, f, draw);
            match env.lookup(f.username)
            case None => t == s.(state := Failed) && reply == Reply(None, Some(NoVerifier)) && !drew
            case Some((verifier, salt)) =>
              && (reply.frame.Some? ==>
                    && drew && draw.Some? && reply.frame.value.salt == salt && t.state.InProgress? && t.username == f.username
                    && t.server.Some? && t.server.value.salt == salt && t.server.value.v == FromBytes(verifier)
                    && t.server.value.b == draw.value && t.server.value.legacy == s.legacy && t.server.value.group == env.group)
              && (reply.frame.None? ==> t == s.(state := Failed) && reply.error.Some? && reply.error.value.SrpFailure?)
  {
    hide AtorClientKey, AtorClientValidator, Srp.PublicB;
  }

  /** A client key and a client proof that are taken leave the server as the SRP step leaves it, and
      what is sent is that server's. */
  lemma ExchangeAdvances(env: Env, s: AtorState, f: Frame, draw: Option<nat>)
    requires env.Valid() && s.Valid() && s.server.Some? && !AnswersAnother(s, f)
    ensures f.kind.ClientKey? ==>
              var (t, reply, _) := AtorHandle(env, s, f, draw);
              match Srp.ServerHandleA(s.server.value, f.public)
              case Failure(e) => t == s.(state := Failed) && reply == Reply(None, Some(SrpFailure(e)))
              case Success(srv) =>
                t.server == Some(srv) && t.state == s.state && reply.error.None? && reply.frame.Some?
                && reply.frame.value.public == srv.B()
    ensures f.kind.ClientValidator? ==>
              var (t, reply, _) := AtorHandle(env, s, f, draw);
              var (srv, ok) := Srp.ServerVerifyM1(env.hash, s.server.value, s.username, f.proof);
              && t.server == Some(srv) && reply.frame.Some?
              && (if ok then t.state == s.state && t.verified && t.session == srv.Key() && reply.frame.value.proof == srv.m2
                  else t == s.(server := Some(srv), state := Failed))
  {
    hide AtorIdentity, Srp.ServerHandleA, Srp.ServerVerifyM1;
  }

  /** The same of the authenticatee: its client is as the SRP step leaves it, and its answers are that
      client's. */
  lemma ClientAdvances(env: Env, s: AteState, f: Frame, draw: Option<nat>)
    requires env.Valid() && s.Valid() && !s.state.Authenticated? && !OutOfSequence(s, f)
    ensures f.kind.Challenge? ==>
              var (t, reply, drew) := AteHandle(env, s, f, draw);
              (reply.frame.Some? ==>
                 && f.genG == [] && f.salt != []
                 && var c := Srp.NewClient(env.group, f.salt, f.version == 2, draw);
                    c.Success? && t.client == Some(c.value) && reply.frame.value.public == c.value.A())
              && (f.genG != [] ==> reply.error == Some(UnsupportedGroup) && !drew)
              && (f.genG == [] && f.salt == [] ==> reply.error == Some(BadLength) && !drew)
              && (f.genG == [] && f.salt != [] && Srp.NewClient(env.group, f.salt, f.version == 2, draw).Success? ==>
                    reply.frame.Some?)
    ensures f.kind.ServerKey? && s.client.Some? ==>
              var (t, reply, _) := AteHandle(env, s, f, draw);
              match Srp.ClientComputeKey(env.hash, s.client.value, f.public, s.username, s.password)
              case Failure(e) => t.state.Failed? && t.client == s.client && reply == Reply(None, Some(SrpFailure(e)))
              case Success(c) =>
                t.client == Some(c) && t.state == s.state && reply.frame.Some? && reply.frame.value.proof == c.m1
  {
    hide Srp.ClientComputeKey, Srp.NewClient;
  }

  // ---- Both ----

  /** Only a step without an error is remembered, and then with its reply; bytes that do not parse
      change nothing. */
  lemma CleanStepsAreRemembered(env: Env, s: AteState, r: AtorState, payload: seq<byte>, draw: Option<nat>)
    requires env.Valid() && s.Valid() && r.Valid() && s.lastRx != Some(payload) && r.lastRx != Some(payload)
    ensures var (t, reply, drew) := AteRecv(env, s, payload, draw);
            && (Parse(payload).Failure? ==> t == s && reply.frame.None? && reply.error.Some? && !drew)
            && (reply.error.None? ==> t.lastRx == Some(payload) && t.lastReply == reply.frame)
            && (reply.error.Some? ==> t.lastRx == s.lastRx || t.lastRx.None?)
    ensures var (t, reply, drew) := AtorRecv(env, r, payload, draw);
            && (Parse(payload).Failure? ==> t == r && reply.frame.None? && reply.error.Some? && !drew)
            && (reply.error.None? ==> t.lastRx == Some(payload) && t.lastReply == reply.frame)
            && (reply.error.Some? ==> t.lastRx == r.lastRx || t.lastRx.None?)
  {
    hide Parse, AteHandle, AtorHandle;
    if Parse(payload).Success? {
      AteHandleRule(env, s, Parse(payload).value, draw);
      AtorHandleRule(env, r, Parse(payload).value, draw);
    }
  }
}
