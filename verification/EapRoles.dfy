/** The EAP-SRP roles as the objects eap.rs defines, holding their SRP object. Each method is
    proved to perform the corresponding transition of module `Eap`. */
module EapRoles {
  import opened Bytes
  import opened EapFrame
  import opened Eap
  import Srp

  class Authenticatee {
    const env: Env
    const username: seq<byte>
    const password: seq<byte>
    var state: State
    var id: byte
    var idValid: bool
    var client: Srp.Client?
    var salt: seq<byte>
    var session: Option<Srp.Digest>
    var useKeyPassphrase: bool
    var lastRx: Option<seq<byte>>
    var lastReply: Option<Frame>

    ghost function Owned(): set<object>
      reads this
    {
      if client == null then {} else {client}
    }

    ghost function Snapshot(): AteState
      reads this, client
    {
      AteState(username, password, state, id, idValid,
               if client == null then None else Some(client.State()),
               salt, session, useKeyPassphrase, lastRx, lastReply)
    }

    ghost predicate Valid()
      reads this, client
    {
      env.Valid() && Snapshot().Valid()
    }

    constructor (env: Env, username: seq<byte>, password: seq<byte>)
      requires env.Valid() && AteNew(username, password).Success?
      ensures Valid() && this.env == env && Snapshot() == AteNew(username, password).value
    {
      this.env, this.username, this.password := env, username, password;
      state, id, idValid, client, salt, session := Unauth, 0, false, null, [], None;
      useKeyPassphrase, lastRx, lastReply := true, None, None;
    }

    method Begin() returns (f: Frame)
      requires Valid()
      modifies this
      ensures Valid() && Snapshot() == AteStart(old(Snapshot())) && f == StartFrame()
      ensures Owned() == old(Owned())
    {
      if state == Unauth {
        state := InProgress;
      }
      f := StartFrame();
    }

    method Restart()
      requires Valid()
      modifies this
      ensures Valid() && Snapshot() == AteRestart(old(Snapshot()))
      ensures Owned() == {}
    {
      state := Unauth;
      id := 0;
      idValid := false;
      client := null;
      salt := [];
      session := None;
      lastRx := None;
      lastReply := None;
    }

    method OnChallenge(f: Frame, draw: Option<nat>) returns (reply: Reply, drew: bool)
      requires Valid() && f.kind.Challenge?
      modifies this
      ensures Valid() && (Snapshot(), reply, drew) == AteChallenge(env, old(Snapshot()), f, draw)
      ensures fresh(Owned() - old(Owned()))
    {
      hide Srp.NewClient, Srp.ValidateSalt;
      drew := false;
      if f.genG != [] {
        state := Failed;
        return Fail(UnsupportedGroup), false;
      }
      if f.salt == [] {
        state := Failed;
        return Fail(BadLength), false;
      }
      drew := Srp.ValidateSalt(f.salt).None?;
      var c, e := Srp.Client.New(env.group, f.salt, NegotiatedVersion(f) == 2, draw);
      if c == null {
        state := Failed;
        return Fail(SrpFailure(e.value)), drew;
      }
      id := f.identifier;
      idValid := true;
      client := c;
      salt := f.salt;
      state := InProgress;
      Srp.BelowModulusFits(c.group, c.pubA);
      reply := Send(DEFAULT.(version := NegotiatedVersion(f), code := Response, identifier := f.identifier,
                             kind := ClientKey, public := c.group.Pad(c.pubA)));
    }

    method OnServerKey(f: Frame) returns (reply: Reply)
      requires Valid() && f.kind.ServerKey?
      modifies this, Owned()
      ensures Valid() && (Snapshot(), reply, false) == AteProcess(env, old(Snapshot()), f, None)
      ensures Owned() == old(Owned())
    {
      hide Srp.ClientComputeKey, AteChallenge, PassphrasePush, SuccessAck;
      if client == null {
        state := Failed;
        return Fail(Unexpected);
      }
      id := f.identifier;
      idValid := true;
      var e := client.ComputeKey(env.hash, f.public, username, password);
      if e.Some? {
        state := Failed;
        return Fail(SrpFailure(e.value));
      }
      reply := Send(DEFAULT.(version := NegotiatedVersion(f), code := Response, identifier := f.identifier,
                             kind := ClientValidator, proof := client.m1));
    }

    method OnServerValidator(f: Frame) returns (reply: Reply)
      requires Valid() && f.kind.ServerValidator?
      modifies this
      ensures Valid() && (Snapshot(), reply, false) == AteProcess(env, old(Snapshot()), f, None)
      ensures Owned() == old(Owned())
    {
      hide Srp.ClientComputeKey, AteChallenge, PassphrasePush, SuccessAck;
      if client == null || f.proof == [] {
        state := Failed;
        return Fail(AuthFailed);
      }
      id := f.identifier;
      idValid := true;
      if !(client.computed && |f.proof| == Srp.HASH_LEN
           && Srp.CalcM2(env.hash, client.pubA, client.m1, client.key) == f.proof) {
        state := Failed;
        return Fail(AuthFailed);
      }
      session := Some(client.key);
      state := Authenticated;
      reply := Send(DEFAULT.(version := NegotiatedVersion(f), code := SuccessCode,
                             identifier := f.identifier, kind := EapSuccess));
    }

    method Handle(f: Frame, draw: Option<nat>) returns (reply: Reply, drew: bool)
      requires Valid()
      modifies this, Owned()
      ensures Valid() && (Snapshot(), reply, drew) == AteHandle(env, old(Snapshot()), f, draw)
      ensures fresh(Owned() - old(Owned()))
    {
      hide AteProcess, Srp.ClientComputeKey;
      drew := false;
      if f.kind == EapFailure {
        if state != InProgress || f.identifier != id {
          return NOTHING, false;
        }
        state := Failed;
        return Fail(AuthFailed), false;
      }
      if state == Authenticated {
        if f.kind == IdentityRequest {
          Restart();
        } else if SrpRequest(f.kind) {
          return NOTHING, false;
        }
      }
      if idValid && SrpRequest(f.kind) && f.identifier != id && f.identifier != NextId(id) {
        return NOTHING, false;
      }
      reply, drew := Process(f, draw);
    }

    /** A frame that passed the gates. */
    method Process(f: Frame, draw: Option<nat>) returns (reply: Reply, drew: bool)
      requires Valid()
      modifies this, Owned()
      ensures Valid() && (Snapshot(), reply, drew) == AteProcess(env, old(Snapshot()), f, draw)
      ensures fresh(Owned() - old(Owned()))
    {
      hide AteChallenge, Srp.ClientComputeKey, PassphrasePush, SuccessAck;
      drew := false;
      match f.kind
      case IdentityRequest =>
        id := f.identifier;
        idValid := true;
        if state == Unauth {
          state := InProgress;
        }
        reply := Send(DEFAULT.(version := NegotiatedVersion(f), code := Response, identifier := f.identifier,
                               kind := IdentityResponse, username := username));
      case Challenge =>
        reply, drew := OnChallenge(f, draw);
      case ServerKey =>
        reply := OnServerKey(f);
      case ServerValidator =>
        reply := OnServerValidator(f);
      case PassphraseRequest =>
        reply := if useKeyPassphrase then Send(PassphrasePush(f.identifier)) else NOTHING;
      case PassphraseResponse =>
        reply := Send(SuccessAck(f.identifier));
      case EapSuccess =>
        reply := NOTHING;
      case _ =>
        reply := Fail(Unexpected);
    }

    /** One datagram from the wire. */
    method Recv(payload: seq<byte>, draw: Option<nat>) returns (reply: Reply, drew: bool)
      requires Valid()
      modifies this, Owned()
      ensures Valid() && (Snapshot(), reply, drew) == AteRecv(env, old(Snapshot()), payload, draw)
      ensures fresh(Owned() - old(Owned()))
    {
      hide AteHandle, Parse;
      if payload != [] && lastRx == Some(payload) {
        return Reply(lastReply, None), false;
      }
      var parsed := Parse(payload);
      if parsed.Failure? {
        return Fail(parsed.error), false;
      }
      reply, drew := Handle(parsed.value, draw);
      if reply.error.None? {
        lastRx := Some(payload);
        lastReply := reply.frame;
      }
    }
  }

  class Authenticator {
    const env: Env
    const legacy: bool
    var state: State
    var id: byte
    var server: Srp.Server?
    var username: seq<byte>
    var session: Option<Srp.Digest>
    var verified: bool
    var useKeyPassphrase: bool
    var everAuthed: bool
    var lastRx: Option<seq<byte>>
    var lastReply: Option<Frame>

    ghost function Owned(): set<object>
      reads this
    {
      if server == null then {} else {server}
    }

    ghost function Snapshot(): AtorState
      reads this, server
    {
      AtorState(state, id, if server == null then None else Some(server.State()), username,
                session, verified, useKeyPassphrase, everAuthed, legacy, lastRx, lastReply)
    }

    ghost predicate Valid()
      reads this, server
    {
      env.Valid() && Snapshot().Valid()
    }

    constructor (env: Env, legacy: bool)
      requires env.Valid()
      ensures Valid() && this.env == env && Snapshot() == AtorNew(legacy)
    {
      this.env, this.legacy := env, legacy;
      state, id, server, username, session := Unauth, 0, null, [], None;
      verified, useKeyPassphrase, everAuthed, lastRx, lastReply := false, true, false, None, None;
    }

    method Restart()
      requires Valid()
      modifies this
      ensures Valid() && Snapshot() == AtorRestart(old(Snapshot()))
      ensures Owned() == {}
    {
      state := Unauth;
      server := null;
      session := None;
      verified := false;
      id := NextId(id);
      lastRx := None;
      lastReply := None;
    }

    /** No effect once the handshake has begun. */
    method SeedIdentifier(seed: byte)
      requires Valid()
      modifies this
      ensures Valid()
      ensures Snapshot() == if old(state) == Unauth then old(Snapshot()).(id := seed) else old(Snapshot())
      ensures Owned() == old(Owned())
    {
      if state == Unauth {
        id := seed;
      }
    }

    method Begin() returns (f: Frame)
      requires Valid()
      modifies this
      ensures Valid() && (Snapshot(), f) == AtorStart(old(Snapshot()))
      ensures Owned() == old(Owned())
    {
      if state == Unauth {
        state := InProgress;
      }
      f := DEFAULT.(version := Version(), code := Request, identifier := id, kind := IdentityRequest);
    }

    function Version(): byte {
      if legacy then 2 else EAP_VERSION_3
    }

    method OnStart() returns (reply: Reply)
      requires Valid()
      modifies this
      ensures Valid() && (Snapshot(), reply) == AtorOpen(old(Snapshot()))
      ensures Owned() <= old(Owned())
    {
      if state == InProgress {
        return NOTHING;
      }
      if state != Unauth {
        Restart();
      }
      var f := Begin();
      reply := Send(f);
    }

    method OnLogoff() returns (reply: Reply)
      requires Valid()
      modifies this
      ensures Valid() && Snapshot() == AtorLogoff(old(Snapshot())) && reply == NOTHING
      ensures Owned() <= old(Owned())
    {
      reply := NOTHING;
      if state == Authenticated || state == Failed || everAuthed {
        return;
      }
      state := Unauth;
      server := null;
      session := None;
      verified := false;
    }

    method OnIdentity(f: Frame, draw: Option<nat>) returns (reply: Reply, drew: bool)
      requires Valid() && f.kind.IdentityResponse?
      modifies this
      ensures Valid() && (Snapshot(), reply, drew) == AtorIdentity(env, old(Snapshot()), f, draw)
      ensures fresh(Owned() - old(Owned()))
    {
      hide Srp.NewServer, Srp.ZeroVerifier, Srp.ValidateSalt, NextId;
      drew := false;
      var entry := env.lookup(f.username);
      if entry.None? {
        state := Failed;
        return Fail(NoVerifier), false;
      }
      var (verifier, salt) := entry.value;
      drew := Srp.ValidateSalt(salt).None? && verifier != [] && !Srp.ZeroVerifier(env.group, verifier);
      var s, e := Srp.Server.New(env.hash, env.group, verifier, salt, legacy, draw);
      if s == null {
        state := Failed;
        return Fail(SrpFailure(e.value)), drew;
      }
      server := s;
      username, state, id := f.username, InProgress, NextId(id);
      reply := Send(DEFAULT.(version := Version(), code := Request, identifier := id,
                             kind := Challenge, salt := salt));
    }

    method OnClientKey(f: Frame) returns (reply: Reply)
      requires Valid() && f.kind.ClientKey?
      modifies this, Owned()
      ensures Valid() && (Snapshot(), reply) == AtorClientKey(old(Snapshot()), f)
      ensures Owned() == old(Owned())
    {
      if server == null {
        state := Failed;
        return Fail(Unexpected);
      }
      var e := server.HandleA(f.public);
      if e.Some? {
        state := Failed;
        return Fail(SrpFailure(e.value));
      }
      id := NextId(id);
      Srp.BelowModulusFits(server.group, server.pubB);
      reply := Send(DEFAULT.(version := Version(), code := Request, identifier := id,
                             kind := ServerKey, public := server.group.Pad(server.pubB)));
    }

    method OnClientValidator(f: Frame) returns (reply: Reply)
      requires Valid() && f.kind.ClientValidator?
      modifies this, Owned()
      ensures Valid() && (Snapshot(), reply) == AtorClientValidator(env, old(Snapshot()), f)
      ensures Owned() == old(Owned())
    {
      hide Srp.ServerVerifyM1;
      if server == null {
        state := Failed;
        return Fail(Unexpected);
      }
      var ok := server.VerifyM1(env.hash, username, f.proof);
      if !ok {
        state := Failed;
        return Reply(Some(DEFAULT.(version := Version(), code := FailureCode, identifier := id,
                                   kind := EapFailure)), Some(AuthFailed));
      }
      session := Some(server.key);
      verified := true;
      id := NextId(id);
      reply := Send(DEFAULT.(version := Version(), code := Request, identifier := id,
                             kind := ServerValidator, proof := server.m2));
    }

    method OnConfirm() returns (reply: Reply)
      requires Valid()
      modifies this
      ensures Valid() && Snapshot() == AtorConfirm(old(Snapshot())) && reply == NOTHING
      ensures Owned() == old(Owned())
    {
      if verified {
        state := Authenticated;
        everAuthed := true;
        id := NextId(id);
      }
      reply := NOTHING;
    }

    method Handle(f: Frame, draw: Option<nat>) returns (reply: Reply, drew: bool)
      requires Valid()
      modifies this, Owned()
      ensures Valid() && (Snapshot(), reply, drew) == AtorHandle(env, old(Snapshot()), f, draw)
      ensures fresh(Owned() - old(Owned()))
    {
      hide AtorIdentity, AtorClientKey, AtorClientValidator, AtorOpen, AtorLogoff, AtorConfirm,
        PassphrasePush, SuccessAck;
      drew := false;
      if state != Unauth && !AnyIdentifier(f.kind) && f.identifier != id {
        return NOTHING, false;
      }
      match f.kind
      case Start =>
        reply := OnStart();
      case Logoff =>
        reply := OnLogoff();
      case IdentityResponse =>
        reply, drew := OnIdentity(f, draw);
      case ClientKey =>
        reply := OnClientKey(f);
      case ClientValidator =>
        reply := OnClientValidator(f);
      case ServerValidator =>
        reply := OnConfirm();
      case EapSuccess =>
        reply := OnConfirm();
      case PassphraseRequest =>
        reply := if useKeyPassphrase then Send(PassphrasePush(f.identifier)) else NOTHING;
      case PassphraseResponse =>
        reply := Send(SuccessAck(f.identifier));
      case EapFailure =>
        if state != InProgress {
          return NOTHING, false;
        }
        state := Failed;
        reply := Fail(AuthFailed);
      case _ =>
        reply := Fail(Unexpected);
    }

    /** One datagram from the wire. */
    method Recv(payload: seq<byte>, draw: Option<nat>) returns (reply: Reply, drew: bool)
      requires Valid()
      modifies this, Owned()
      ensures Valid() && (Snapshot(), reply, drew) == AtorRecv(env, old(Snapshot()), payload, draw)
      ensures fresh(Owned() - old(Owned()))
    {
      hide AtorHandle, Parse;
      if payload != [] && lastRx == Some(payload) {
        return Reply(lastReply, None), false;
      }
      var parsed := Parse(payload);
      if parsed.Failure? {
        return Fail(parsed.error), false;
      }
      reply, drew := Handle(parsed.value, draw);
      if reply.error.None? {
        lastRx := Some(payload);
        lastReply := reply.frame;
      }
    }
  }
}
