/** EAP-SRP framing (eap.rs): a frame, its bytes, and the parser. Names are byte strings. */
module EapFrame {
  import opened Bytes
  import Srp

  datatype EapError =
    | ShortBuffer | BadLength | UnsupportedType | Unexpected | NoVerifier
    | SrpFailure(cause: Srp.SrpError) | AuthFailed | EmptyCredentials | CredentialsTooLong
    | UnsupportedGroup

  datatype Code = Request | Response | SuccessCode | FailureCode

  datatype Kind =
    | Unknown | Start | Logoff | IdentityRequest | IdentityResponse | Challenge | ClientKey
    | ServerKey | ClientValidator | ServerValidator | PassphraseRequest | PassphraseResponse
    | EapSuccess | EapFailure

  datatype Frame = Frame(
    version: byte, code: Code, identifier: byte, kind: Kind,
    username: seq<byte>, salt: seq<byte>, genG: seq<byte>, genN: seq<byte>,
    public: seq<byte>, proof: seq<byte>, flags: seq<byte>,
    ppUseKey: bool, passphrase: seq<byte>)

  const NO_FLAGS: seq<byte> := [0, 0, 0, 0]
  const DEFAULT := Frame(0, Request, 0, Unknown, [], [], [], [], [], [], NO_FLAGS, false, [])

  const EAPOL_TYPE_EAP := 0
  const EAPOL_TYPE_START := 1
  const EAPOL_TYPE_LOGOFF := 2
  const EAP_TYPE_IDENTITY := 1
  const EAP_TYPE_SRP := 19
  const SUBTYPE_CHALLENGE := 1
  const SUBTYPE_SERVER_KEY := 2
  const SUBTYPE_SERVER_VAL := 3
  const SUBTYPE_PASSWORD := 0x10
  const EAP_VERSION_3: byte := 3
  const PP_FLAG_USE_KEY: byte := 0x80
  const PP_FLAG_AES256: byte := 0x40

  function CodeByte(c: Code): byte {
    match c
    case Request => 1
    case Response => 2
    case SuccessCode => 3
    case FailureCode => 4
  }

  function CodeOf(b: byte): Option<Code> {
    if b == 1 then Some(Request)
    else if b == 2 then Some(Response)
    else if b == 3 then Some(SuccessCode)
    else if b == 4 then Some(FailureCode)
    else None
  }

  // ---- Encoding ----

  /** The 16-bit big-endian form of a length, truncated as the cast truncates it. */
  function Len16(n: nat): (b: seq<byte>)
    ensures |b| == 2
  {
    Be16(n % 0x1_0000)
  }

  function EncodeBody(f: Frame): seq<byte> {
    match f.kind
    case IdentityRequest => [EAP_TYPE_IDENTITY]
    case IdentityResponse => [EAP_TYPE_IDENTITY] + f.username
    case Challenge =>
      [EAP_TYPE_SRP, SUBTYPE_CHALLENGE] + [0, 0] + Len16(|f.salt|) + f.salt
      + EncodeGroup(f.genG, f.genN)
    case ClientKey => [EAP_TYPE_SRP, SUBTYPE_CHALLENGE] + f.public
    case ServerKey => [EAP_TYPE_SRP, SUBTYPE_SERVER_KEY] + f.public
    case ClientValidator => [EAP_TYPE_SRP, SUBTYPE_SERVER_KEY] + f.flags + f.proof
    case ServerValidator => [EAP_TYPE_SRP, SUBTYPE_SERVER_VAL] + f.flags + f.proof
    case PassphraseRequest => [EAP_TYPE_SRP, SUBTYPE_PASSWORD]
    case PassphraseResponse =>
      [EAP_TYPE_SRP, SUBTYPE_PASSWORD]
      + (if f.ppUseKey then [PP_FLAG_USE_KEY] else [PP_FLAG_AES256] + f.passphrase)
    case EapSuccess => [0, 0]
    case EapFailure => []
    case Unknown => []
    case Start => []
    case Logoff => []
  }

  function Encode(f: Frame): seq<byte> {
    var version := if f.version == 0 then EAP_VERSION_3 else f.version;
    if f.kind.Start? then [version, EAPOL_TYPE_START, 0, 0]
    else if f.kind.Logoff? then [version, EAPOL_TYPE_LOGOFF, 0, 0]
    else
      var body := EncodeBody(f);
      [version, EAPOL_TYPE_EAP] + Len16(4 + |body|)
      + ([CodeByte(f.code), f.identifier] + Len16(4 + |body|) + body)
  }

  // ---- Parsing ----

  function Parse(b: seq<byte>): Result<Frame, EapError> {
    if |b| < 4 then Failure(ShortBuffer)
    else
      var bodyLen := Get16(b, 2);
      if bodyLen + 4 > |b| then Failure(BadLength)
      else if b[1] == EAPOL_TYPE_START then Success(DEFAULT.(version := b[0], kind := Start))
      else if b[1] == EAPOL_TYPE_LOGOFF then Success(DEFAULT.(version := b[0], kind := Logoff))
      else if b[1] == EAPOL_TYPE_EAP then ParseEap(b[0], b[4..4 + bodyLen])
      else Failure(UnsupportedType)
  }

  function ParseEap(version: byte, p: seq<byte>): Result<Frame, EapError> {
    if |p| < 4 then Failure(ShortBuffer)
    else if Get16(p, 2) != |p| then Failure(BadLength)
    else if CodeOf(p[0]).None? then Failure(UnsupportedType)
    else
      var f := DEFAULT.(version := version, code := CodeOf(p[0]).value, identifier := p[1]);
      match f.code
      case SuccessCode => Success(f.(kind := EapSuccess))
      case FailureCode => Success(f.(kind := EapFailure))
      case _ => ParseMethod(f, p[4..])
  }

  function ParseMethod(f: Frame, body: seq<byte>): Result<Frame, EapError> {
    if body == [] then Failure(ShortBuffer)
    else if body[0] == EAP_TYPE_IDENTITY then
      Success(if f.code.Request? then f.(kind := IdentityRequest)
              else f.(kind := IdentityResponse, username := body[1..]))
    else if body[0] == EAP_TYPE_SRP then
      if |body| < 2 then Failure(ShortBuffer) else ParseSrp(f, body[1], body[2..])
    else Failure(UnsupportedType)
  }

  function ParseSrp(f: Frame, subtype: byte, p: seq<byte>): Result<Frame, EapError> {
    if subtype == SUBTYPE_CHALLENGE && f.code.Request? then ParseChallenge(f, p)
    else if subtype == SUBTYPE_CHALLENGE && f.code.Response? then
      Success(f.(kind := ClientKey, public := p))
    else if subtype == SUBTYPE_SERVER_KEY && f.code.Request? then
      Success(f.(kind := ServerKey, public := p))
    else if subtype == SUBTYPE_SERVER_KEY && f.code.Response? then
      ParseValidator(f, ClientValidator, p)
    else if subtype == SUBTYPE_SERVER_VAL then
      if f.code.Response? && |p| < 36 then Success(f.(kind := ServerValidator))
      else ParseValidator(f, ServerValidator, p)
    else if subtype == SUBTYPE_PASSWORD && f.code.Request? then
      Success(f.(kind := PassphraseRequest))
    else if subtype == SUBTYPE_PASSWORD && f.code.Response? then
      Success(
        if p == [] then f.(kind := PassphraseResponse)
        else if p[0] >= PP_FLAG_USE_KEY then f.(kind := PassphraseResponse, ppUseKey := true)
        else f.(kind := PassphraseResponse, passphrase := p[1..]))
    else Failure(UnsupportedType)
  }

  function ParseChallenge(f: Frame, p: seq<byte>): Result<Frame, EapError> {
    if |p| < 2 then Failure(ShortBuffer)
    else if Get16(p, 0) > |p| - 2 then Failure(BadLength)
    else
      var q := p[2 + Get16(p, 0)..];
      if |q| < 2 then Failure(ShortBuffer)
      else if Get16(q, 0) > |q| - 2 then Failure(BadLength)
      else
        var salt := q[2..2 + Get16(q, 0)];
        ParseGroup(f.(kind := Challenge, salt := salt), q[2 + Get16(q, 0)..])
  }

  function ParseValidator(f: Frame, kind: Kind, p: seq<byte>): Result<Frame, EapError> {
    if |p| < 36 then Failure(ShortBuffer)
    else Success(f.(kind := kind, flags := p[..4], proof := p[4..36]))
  }

  /** Subtypes that are none of the exchange's are refused, and so are the exchange's in the wrong direction. */
  lemma SubtypesAreTold(f: Frame, subtype: byte, p: seq<byte>)
    requires f.code.Request? || f.code.Response?
    ensures subtype !in {1, 2, 3, 16} ==> ParseSrp(f, subtype, p) == Failure(UnsupportedType)
    ensures ParseSrp(f, subtype, p).Success? ==>
              ParseSrp(f, subtype, p).value.kind
              == if subtype == 1 then (if f.code.Request? then Challenge else ClientKey)
                 else if subtype == 2 then (if f.code.Request? then ServerKey else ClientValidator)
                 else if subtype == 3 then ServerValidator
                 else (if f.code.Request? then PassphraseRequest else PassphraseResponse)
  {
    hide Get16;
  }

  /** A challenge may carry the server's name in front of its salt; it is skipped, whatever its length. */
  lemma NameIsSkipped(f: Frame, name: seq<byte>, salt: seq<byte>, rest: seq<byte>)
    requires |name| < 0x1_0000 && |salt| < 0x1_0000
    ensures ParseChallenge(f, Len16(|name|) + (name + (Len16(|salt|) + (salt + rest))))
         == ParseGroup(f.(kind := Challenge, salt := salt), rest)
    ensures ParseChallenge(f, Len16(|name|) + (name + [])) == Failure(ShortBuffer)
  {
    hide Be16, Get16, ParseGroup, Len16, ParseChallenge;
    var q := Len16(|salt|) + (salt + rest);
    LengthIsRead(name, q);
    LengthIsRead(name, []);
    LengthIsRead(salt, rest);
    ChallengeSteps(f, Len16(|name|) + (name + q), name, q);
    ChallengeSteps(f, Len16(|name|) + (name + []), name, []);
    SaltSteps(f, q, salt, rest);
  }

  lemma LengthIsRead(x: seq<byte>, rest: seq<byte>)
    requires |x| < 0x1_0000
    ensures var p := Len16(|x|) + (x + rest);
            Get16(p, 0) == |x| && p[2..2 + |x|] == x && p[2 + |x|..] == rest
  {
    hide Be16, Get16;
    var p := Len16(|x|) + (x + rest);
    assert p[0..2] == Be16(|x|);
    Get16OfBe16(p, 0, |x|);
  }

  /** What is left of a challenge behind the name. */
  function BehindName(f: Frame, q: seq<byte>): Result<Frame, EapError> {
    if |q| < 2 then Failure(ShortBuffer)
    else if Get16(q, 0) > |q| - 2 then Failure(BadLength)
    else ParseGroup(f.(kind := Challenge, salt := q[2..2 + Get16(q, 0)]), q[2 + Get16(q, 0)..])
  }

  lemma ChallengeSteps(f: Frame, p: seq<byte>, name: seq<byte>, q: seq<byte>)
    requires |p| == 2 + |name| + |q| && Get16(p, 0) == |name| && p[2 + |name|..] == q
    ensures ParseChallenge(f, p) == BehindName(f, q)
  {
    hide ParseGroup, Get16;
  }

  lemma SaltSteps(f: Frame, q: seq<byte>, salt: seq<byte>, rest: seq<byte>)
    requires |q| == 2 + |salt| + |rest| && Get16(q, 0) == |salt| && q[2..2 + |salt|] == salt && q[2 + |salt|..] == rest
    ensures BehindName(f, q) == ParseGroup(f.(kind := Challenge, salt := salt), rest)
  {
    hide ParseGroup, Get16;
  }

  // ---- The round trip ----

  /** The frame with only its header fields. */
  function Header(f: Frame): Frame {
    DEFAULT.(version := f.version, code := f.code, identifier := f.identifier, kind := f.kind)
  }

  /** Exactly the frames the parser produces from a non-zero version: the code fits the kind,
      fields the kind does not carry are at their defaults, and the lengths fit the wire. */
  ghost predicate WellFormed(f: Frame) {
    && f.version != 0
    && 4 + |EncodeBody(f)| < 0x1_0000
    && match f.kind
       case Start => f == DEFAULT.(version := f.version, kind := Start)
       case Logoff => f == DEFAULT.(version := f.version, kind := Logoff)
       case IdentityRequest => f.code.Request? && f == Header(f)
       case IdentityResponse => f.code.Response? && f == Header(f).(username := f.username)
       case Challenge =>
         && f.code.Request?
         && f == Header(f).(salt := f.salt, genG := f.genG, genN := f.genN)
         && (f.genG == [] ==> f.genN == [])
       case ClientKey => f.code.Response? && f == Header(f).(public := f.public)
       case ServerKey => f.code.Request? && f == Header(f).(public := f.public)
       case ClientValidator =>
         && f.code.Response? && |f.flags| == 4 && |f.proof| == 32
         && f == Header(f).(flags := f.flags, proof := f.proof)
       case ServerValidator =>
         || (f.code.Response? && f == Header(f))
         || (&& (f.code.Request? || f.code.Response?) && |f.flags| == 4 && |f.proof| == 32
             && f == Header(f).(flags := f.flags, proof := f.proof))
       case PassphraseRequest => f.code.Request? && f == Header(f)
       case PassphraseResponse =>
         && f.code.Response?
         && f == Header(f).(ppUseKey := f.ppUseKey, passphrase := f.passphrase)
         && (f.ppUseKey ==> f.passphrase == [])
       case EapSuccess => f.code.SuccessCode? && f == Header(f)
       case EapFailure => f.code.FailureCode? && f == Header(f)
       case Unknown => false
  }

  lemma GetLen16(n: nat, rest: seq<byte>)
    requires n < 0x1_0000
    ensures Get16(Len16(n) + rest, 0) == n
  {
    Get16OfBe16(Len16(n) + rest, 0, n);
  }

  lemma LenZero()
    ensures Len16(0) == [0, 0]
  {}

  lemma ParseOuter(f: Frame)
    requires WellFormed(f) && !f.kind.Start? && !f.kind.Logoff?
    ensures Parse(Encode(f))
            == ParseEap(f.version, [CodeByte(f.code), f.identifier] + Len16(4 + |EncodeBody(f)|) + EncodeBody(f))
  {
    hide EncodeBody, ParseEap, Be16, Get16;
    var n := 4 + |EncodeBody(f)|;
    var p := [CodeByte(f.code), f.identifier] + Len16(n) + EncodeBody(f);
    var b := Encode(f);
    assert b == [f.version, 0] + Len16(n) + p;
    assert b[2..4] == Len16(n);
    Get16OfBe16(b, 2, n);
    assert |p| == n && b[4..] == p;
    assert b[4..4 + n] == b[4..];
  }

  lemma ParseInner(f: Frame)
    requires WellFormed(f) && (f.code.Request? || f.code.Response?)
    ensures ParseEap(f.version, [CodeByte(f.code), f.identifier] + Len16(4 + |EncodeBody(f)|) + EncodeBody(f))
            == ParseMethod(DEFAULT.(version := f.version, code := f.code, identifier := f.identifier), EncodeBody(f))
  {
    hide EncodeBody, ParseMethod, Be16, Get16;
    var n := 4 + |EncodeBody(f)|;
    var p := [CodeByte(f.code), f.identifier] + Len16(n) + EncodeBody(f);
    assert p[2..4] == Len16(n);
    Get16OfBe16(p, 2, n);
    assert p[4..] == EncodeBody(f);
  }

  function EncodeGroup(genG: seq<byte>, genN: seq<byte>): (b: seq<byte>)
    ensures |b| >= 2 && |b| >= |genG|
  {
    if genG == [] then [0, 0] else Len16(|genG|) + genG + genN
  }

  /** The last field of a CHALLENGE: the group, absent for the default one. */
  function ParseGroup(g: Frame, r: seq<byte>): Result<Frame, EapError> {
    if |r| < 2 then Failure(ShortBuffer)
    else
      var genLen := Get16(r, 0);
      if genLen == 0 then Success(g)
      else if genLen > |r| - 2 then Failure(BadLength)
      else Success(g.(genG := r[2..2 + genLen], genN := r[2 + genLen..]))
  }

  lemma ParseOfGroup(g: Frame, genG: seq<byte>, genN: seq<byte>)
    requires |genG| < 0x1_0000 && (genG == [] ==> genN == [])
    requires g.genG == g.genN == []
    ensures ParseGroup(g, EncodeGroup(genG, genN)) == Success(g.(genG := genG, genN := genN))
  {
    hide Be16, Get16;
    var r := EncodeGroup(genG, genN);
    LenZero();
    if genG == [] {
      assert r == Len16(0) + [];
      GetLen16(0, []);
    } else {
      assert r == Len16(|genG|) + (genG + genN);
      GetLen16(|genG|, genG + genN);
      assert r[2..2 + |genG|] == genG && r[2 + |genG|..] == genN;
    }
  }

  lemma ParseOfChallenge(f: Frame, salt: seq<byte>, genG: seq<byte>, genN: seq<byte>)
    requires |salt| < 0x1_0000 && |genG| < 0x1_0000 && (genG == [] ==> genN == [])
    requires f.genG == f.genN == []
    ensures ParseChallenge(f, [0, 0] + Len16(|salt|) + salt + EncodeGroup(genG, genN))
            == Success(f.(kind := Challenge, salt := salt, genG := genG, genN := genN))
  {
    hide Be16, Get16, EncodeGroup, ParseGroup, Len16;
    var tail := EncodeGroup(genG, genN);
    var p := [0, 0] + Len16(|salt|) + salt + tail;
    LenZero();
    assert p == Len16(0) + (Len16(|salt|) + salt + tail);
    GetLen16(0, Len16(|salt|) + salt + tail);
    var q := p[2..];
    assert q == Len16(|salt|) + (salt + tail);
    GetLen16(|salt|, salt + tail);
    assert q[2..2 + |salt|] == salt;
    assert q[2 + |salt|..] == tail;
    ParseOfGroup(f.(kind := Challenge, salt := salt), genG, genN);
  }

  /** Encoding and parsing a well-formed frame gives it back, bytes and all. */
  lemma ParseOfEncode(f: Frame)
    requires WellFormed(f)
    ensures Parse(Encode(f)) == Success(f)
  {
    hide EncodeBody, ParseMethod, ParseEap, Parse, Encode, WellFormed;
    CodeFitsKind(f);
    if f.kind.Start? || f.kind.Logoff? {
      ParseOfBare(f);
    } else {
      ParseOuter(f);
      if f.code.Request? || f.code.Response? {
        ParseInner(f);
        ParseOfBody(f);
      } else {
        ParseOutcome(f);
      }
    }
  }

  lemma CodeFitsKind(f: Frame)
    requires WellFormed(f)
    ensures f.version != 0
    ensures f.kind.Start? || f.kind.Logoff? ==> f == DEFAULT.(version := f.version, kind := f.kind)
    ensures || f.kind.Start? || f.kind.Logoff? || f.kind.EapSuccess? || f.kind.EapFailure?
            || f.code.Request? || f.code.Response?
  {}

  lemma ParseOfBare(f: Frame)
    requires f.version != 0 && (f.kind.Start? || f.kind.Logoff?)
    ensures Parse(Encode(f)) == Success(DEFAULT.(version := f.version, kind := f.kind))
  {
    hide ParseEap, EncodeBody, Get16;
    var b := Encode(f);
    assert b[2..4] == [0, 0];
    LenZero();
    Get16OfBe16(b, 2, 0);
  }

  lemma ParseOutcome(f: Frame)
    requires WellFormed(f) && (f.kind.EapSuccess? || f.kind.EapFailure?)
    ensures ParseEap(f.version, [CodeByte(f.code), f.identifier] + Len16(4 + |EncodeBody(f)|) + EncodeBody(f))
            == Success(f)
  {
    hide EncodeBody, Be16, Get16;
    var n := 4 + |EncodeBody(f)|;
    var p := [CodeByte(f.code), f.identifier] + Len16(n) + EncodeBody(f);
    assert p[2..4] == Len16(n);
    Get16OfBe16(p, 2, n);
  }

  lemma ParseOfBody(f: Frame)
    requires WellFormed(f) && (f.code.Request? || f.code.Response?)
    requires !f.kind.Start? && !f.kind.Logoff?
    ensures ParseMethod(DEFAULT.(version := f.version, code := f.code, identifier := f.identifier), EncodeBody(f))
            == Success(f)
  {
    hide ParseChallenge, Len16, EncodeGroup;
    var body := EncodeBody(f);
    match f.kind
    case Challenge =>
      ParseOfChallenge(Header(f).(kind := Unknown), f.salt, f.genG, f.genN);
      assert body[2..] == [0, 0] + Len16(|f.salt|) + f.salt + EncodeGroup(f.genG, f.genN);
    case IdentityResponse =>
      assert body[1..] == f.username;
    case ClientKey =>
      assert body[2..] == f.public;
    case ServerKey =>
      assert body[2..] == f.public;
    case ClientValidator =>
      var p := body[2..];
      assert p == f.flags + f.proof && p[..4] == f.flags && p[4..36] == f.proof;
    case ServerValidator =>
      var p := body[2..];
      assert p == f.flags + f.proof && p[..4] == f.flags;
      if f.proof != [] {
        assert p[4..36] == f.proof;
      }
    case PassphraseResponse =>
      var p := body[2..];
      if !f.ppUseKey {
        assert p[1..] == f.passphrase;
      }
    case _ =>
  }

  /** Whatever the parser accepts is well formed, unless its version byte is zero; with
      `ParseOfEncode`, re-encoding a parsed frame is stable. */
  lemma ParsedIsWellFormed(b: seq<byte>)
    requires Parse(b).Success? && Parse(b).value.version != 0
    ensures WellFormed(Parse(b).value)
  {
    if b[1] == EAPOL_TYPE_EAP {
      ParsedEap(b[0], b[4..4 + Get16(b, 2)]);
    }
  }

  lemma ParsedEap(version: byte, p: seq<byte>)
    requires version != 0 && |p| < 0x1_0000 && ParseEap(version, p).Success?
    ensures WellFormed(ParseEap(version, p).value)
  {
    hide ParseSrp;
    var f := DEFAULT.(version := version, code := CodeOf(p[0]).value, identifier := p[1]);
    if (f.code.Request? || f.code.Response?) && p[4] == EAP_TYPE_SRP {
      ParsedSrp(f, p[4..][1], p[4..][2..]);
    }
  }

  lemma ParsedSrp(f: Frame, subtype: byte, p: seq<byte>)
    requires f == DEFAULT.(version := f.version, code := f.code, identifier := f.identifier)
    requires f.version != 0 && |p| + 6 < 0x1_0000 && (f.code.Request? || f.code.Response?)
    requires ParseSrp(f, subtype, p).Success?
    ensures WellFormed(ParseSrp(f, subtype, p).value)
  {
    hide ParseChallenge;
    if subtype == SUBTYPE_CHALLENGE && f.code.Request? {
      ParsedChallenge(f, p);
    }
  }

  lemma ParsedChallenge(f: Frame, p: seq<byte>)
    requires f == DEFAULT.(version := f.version, code := Request, identifier := f.identifier)
    requires f.version != 0 && |p| + 6 < 0x1_0000 && ParseChallenge(f, p).Success?
    ensures WellFormed(ParseChallenge(f, p).value)
  {}
}
