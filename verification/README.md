# Verified model of a RIST stack

A Dafny 4.11 model of the deterministic core of this RIST (VSF TR-06) implementation: the codecs, the
handshake, the bonding scheduler and the two profile pipelines, with proofs of what they are for.
Sockets, timers and tasks are outside it. `dafny verify dfyconfig.toml` checks the whole project.

How it is laid out:

| module | models |
|---|---|
| `Lpc` | the LZ4 block codec: match finder with its hash table, bounds-checked decoder |
| `Modular`, `Srp`, `SrpHashes` | the SRP-6a algebra of RFC 5054, the two stateful ends, and what each hash depends on |
| `EapFrame`, `Eap`, `EapRules`, `EapRoles`, `EapHandshake` | EAPOL frames; each role as a transition function, what each frame may move in it, and a class that follows it; both roles over channels that repeat and lose |
| `RtcpNack`, `RtcpBitmask`, `Rtcp` | range and bitmask requests, the RTCP packets, compounds |
| `MainFeedback` | 32-bit retransmission requests over 16-bit RTCP, end to end |
| `Clock`, `Codec`, `AdvTime`, `Rtt` | NTP-64, sequence and time widening, the Advanced source clock, the RTT average |
| `Bonding` | liveness, the weighted send rotation, the NACK path |
| `AdvNack`, `AdvHeader`, `AdvMedia` | the Advanced profile: requests, header, media |
| `Crypto` | key derivation per nonce, rotation, the announced-key cache |
| `Npd`, `Rtp`, `Gre`, `MainMedia` | null-packet deletion, RTP, GRE, the Main media pipeline |
| `Bytes`, `Bits`, `Division` | fixed-width fields, single bits, quotients |
| `Vectors` | the byte vectors the repository's tests record |

Conventions. A byte vector is a `seq<byte>`; a vector that the code appends to is passed in and
returned. An object whose methods update its fields is a class, and each of its methods is proved to
follow a specification function, about which the results are then proved. Integer widths, wrap-around,
saturation and truncating division are written out. Hash, key derivation, cipher keystream and random
draws are parameters, so every result holds for all of them. `x: seq<Option<Nonce>>` stands for the
draws a call makes, `None` for a draw that failed.

Where the code and its own documentation differ, the model follows the code:

- A nonce is documented as never zero (crates/rist-codec/src/crypto.rs:518-520). The draw is tested before
  its marker bit is cleared, so one draw in 2^32 becomes zero: `Crypto.GeneratedNonce` gives the exact
  condition and `Crypto.ZeroNonceIsPossible` the draws. Results about sent packets take a non-zero nonce.
- An EXTSEQ is documented as qualifying the NACK packets that follow it, in the plural
  (crates/rist-codec/src/rtcp.rs:272-273). The decoder clears it after the first
  (crates/rist/src/codec_main.rs:930), so later packets of a large group depend on the sender's position:
  `MainFeedback.FeedbackArrives` and `MainFeedback.PositionDoesNotMatter` say exactly when the list comes back,
  and `MainFeedback.ExtensionIsUsedUp` is a list that does not.
- The match finder keeps nine bytes clear of the end of its input, not the twelve of the published LZ4
  block format (crates/rist-codec/src/lpc.rs:61-65); only the five trailing literals are promised.
- Advanced decompression stops at 10000 bytes while the encoder has no limit
  (crates/rist/src/codec_adv.rs:64): `AdvMedia.AdvMediaArrives` has the refusal in its statement,
  and `AdvMedia.LongRunIsRefused` names payloads that meet it.
- Retransmission marking needs an even SSRC: `Rtp.MarkReadsBack` and `MainMedia.MediaArrives` say that it is
  read back exactly then.

## Model

| member | source | states |
|---|---|---|
| Lpc.RoundTrip | crates/rist-codec/src/lpc.rs:93-302 | For every input and every output bound: decoding the compressed block gives exactly the input when it fits the bound, and reports the output too large when it does not |
| Lpc.PlanOfIsFaithful | crates/rist-codec/src/lpc.rs:249-302 | Replaying the sequences the match finder chooses, overlapping copies included, gives back the input; the last five bytes of any input of ten or more are literals |
| Lpc.FindIsFaithful | crates/rist-codec/src/lpc.rs:262-301 | From any search position whose table remembers only earlier positions, the rest of the search covers exactly the rest of the input |
| Lpc.MatchIsFaithful | crates/rist-codec/src/lpc.rs:267-292 | A candidate out of the hash table that passes the checks yields a sequence that reproduces the input up to the match's end |
| Lpc.MatchEndAgrees | crates/rist-codec/src/lpc.rs:282-285 | A match is extended over exactly the bytes that agree: all of it agrees, and the next byte below the limit does not |
| Lpc.CopyMatchContinues | crates/rist-codec/src/lpc.rs:160-168 | Copying byte by byte from an earlier position, overlapping what is being written, continues the input for as long as it repeats itself |
| Lpc.DecodeOfEncode | crates/rist-codec/src/lpc.rs:115-183 | Decoding the bytes of any valid list of sequences gives what the list stands for, or the size error exactly when that is longer than the bound |
| Lpc.DecodeAcceptsExactlyBlocks | crates/rist-codec/src/lpc.rs:115-183 | For arbitrary bytes: the decoder returns a value exactly when the bytes are a block of the format for that value and the value fits the bound, or when the bytes are empty; so it accepts nothing else and never exceeds the bound |
| Lpc.LastBytesAreLiterals | crates/rist-codec/src/lpc.rs:236-243 | The last five bytes of the block of any input of ten or more bytes are the input's last five bytes |
| Lpc.BlockFitsBound | crates/rist-codec/src/lpc.rs:87-89 | A block is never longer than n + n/255 + 16; it stays at least fourteen bytes below that |
| Lpc.SequenceCost | crates/rist-codec/src/lpc.rs:205-231 | A sequence costs at most the bytes it stands for plus one in 255, which is what the bound adds up |
| Lpc.RunIsOneMatch | crates/rist-codec/src/lpc.rs:249-302 | A run of one byte is found as one literal, one match that overlaps itself, and the last five bytes |
| Lpc.RunShrinks | crates/rist-codec/src/lpc.rs:249-302 | A run of one byte, 26 or more long, always gets shorter |
| Lpc.AppendLength | crates/rist-codec/src/lpc.rs:196-202 | The loop appends the 255-continued form of a length, which reading undoes |
| Lpc.EmitSequence | crates/rist-codec/src/lpc.rs:205-231 | The method appends exactly the wire form of one sequence |
| Lpc.EmitLastLiterals | crates/rist-codec/src/lpc.rs:236-243 | The method appends exactly the closing literals |
| Lpc.Compress | crates/rist-codec/src/lpc.rs:249-302 | The in-place loops over the hash table, the cursor and the anchor append exactly the block whose round trip is proved |
| Lpc.ReadLength | crates/rist-codec/src/lpc.rs:93-107 | The loop returns the value of a 255-continued length and where it ends, or nothing when it is cut short |
| Lpc.Decompress | crates/rist-codec/src/lpc.rs:115-183 | The loops append exactly what the recursive decoder returns; on an error the destination is unchanged and the error is the decoder's |
| Srp.PremasterSecretsAgree | crates/rist-codec/src/srp.rs:386-421 | For every group, secrets, scrambling value and padding mode, with the verifier g^x mod N: the client's (B - k g^x)^(a + u x) and the server's (A v^u)^b are equal modulo N, both g^(b (a + u x)); section 2.6 of RFC 5054 |
| Srp.ConstructedRegistered | crates/rist-codec/src/srp.rs:296-303 | A verifier made from the credentials, put into a server, makes the pair of states the agreement theorem asks for |
| Srp.HandshakeAgrees | crates/rist-codec/src/srp.rs:386-444 | For registered states whose safety checks pass: the server accepts the client's proof, both hold one session key, and the client accepts the server's proof |
| Srp.PublicValuesArrive | crates/rist-codec/src/srp.rs:378-380 | Public values padded to the group's length are read back as the same numbers |
| SrpHashes.XDependsOn | crates/rist-codec/src/srp.rs:269-280 | For every two credentials: the private key x is the same under every hash exactly when the salts are one number and user name, colon and password make one string |
| SrpHashes.CredentialsCount | crates/rist-codec/src/srp.rs:276-280 | So another password, another user name or another salt number is told apart by some hash |
| SrpHashes.XHashes | crates/rist-codec/src/srp.rs:276-280 | The string hashed last is the salt's number without leading zeros, then the digest of the credentials, and no other |
| SrpHashes.SaltsAlike | crates/rist-codec/src/srp.rs:269-271 | Two salts are one exactly when they are one number; of one length, when they are equal |
| SrpHashes.M1DependsOn | crates/rist-codec/src/srp.rs:238-260 | Two client proofs of one group are the same under every hash exactly for one user and one string of salt, public values and key |
| SrpHashes.ProofArgumentsCount | crates/rist-codec/src/srp.rs:238-260 | So each of user, salt, A, B and key counts in the client's proof |
| SrpHashes.ProofGroupCounts | crates/rist-codec/src/srp.rs:238-260 | And so do modulus and generator: two groups give one proof under every hash exactly when they are one group |
| SrpHashes.M1Hashes | crates/rist-codec/src/srp.rs:238-260 | The layout of the client's proof: two digests, then salt, A and B at their shortest, then the key |
| SrpHashes.M2DependsOn | crates/rist-codec/src/srp.rs:288-290 | The server's proof depends on A, the client's proof and the key, each of them and in this order |
| SrpHashes.KeyDependsOn | crates/rist-codec/src/srp.rs:283-285 | The session key is the hash of the premaster secret at its shortest, and of nothing else |
| SrpHashes.UDependsOn | crates/rist-codec/src/srp.rs:206-233 | Padded, every two pairs of public values get different scrambling parameters under some hash |
| SrpHashes.PairHashes | crates/rist-codec/src/srp.rs:206-233 | The hashed string is the two numbers at the length of the modulus, the first first; or, in the old mode, both at their shortest |
| SrpHashes.KHashes | crates/rist-codec/src/srp.rs:216-223 | The multiplier hashes modulus and generator in that way |
| Srp.PublicValueRules | crates/rist-codec/src/srp.rs:543-557 | A is taken exactly when it is neither empty nor too long nor a multiple of the modulus; what is taken is its number, and nothing else changes |
| Srp.ClientAborts | crates/rist-codec/src/srp.rs:386-405 | The client aborts exactly on such a B, and on a scrambling parameter that is a multiple of the modulus |
| Srp.ProofRules | crates/rist-codec/src/srp.rs:562-590 | A proof is accepted exactly when it is the one derived from what the server holds; only then is there a key and a proof to send |
| Srp.ServerRules | crates/rist-codec/src/srp.rs:486-532 | A new server holds a verifier and a public value that are not zero, and no key; each refusal is named |
| Srp.ClientRules | crates/rist-codec/src/srp.rs:354-375 | A new client holds its secret and no key; it is refused only for its group, its salt or a failed draw |
| Srp.SaltRules | crates/rist-codec/src/srp.rs:147-155 | Salts of 1 to 1024 bytes are taken, and no others |
| Srp.NothingBeforeA | crates/rist-codec/src/srp.rs:562-566 | Before A no proof is accepted and nothing changes |
| Srp.Client.ComputeKey | crates/rist-codec/src/srp.rs:386-428 | The method keeps exactly the state of the specification, or reports the same safety abort and changes nothing |
| Srp.Server.ComputeB | crates/rist-codec/src/srp.rs:521-532 | B is k v + g^b mod N, and a zero B is refused |
| Srp.Server.HandleA | crates/rist-codec/src/srp.rs:543-557 | A is accepted, or refused as zero modulo N with the state unchanged |
| Srp.Server.VerifyM1 | crates/rist-codec/src/srp.rs:562-590 | The proof is checked against the server's own derivation; key and M2 are set only as the specification says |
| Modular.FromPaddedMinimal | crates/rist-codec/src/srp.rs:197-203 | A number padded on the left reads back as itself |
| EapFrame.ParseOfEncode | crates/rist-codec/src/eap.rs:245-535 | Every well-formed frame is read back from its bytes, every kind and every field |
| EapFrame.ParsedIsWellFormed | crates/rist-codec/src/eap.rs:353-535 | Whatever is accepted from arbitrary bytes, with a non-zero version, is well-formed, so the round trip applies to it |
| EapFrame.NameIsSkipped | crates/rist-codec/src/eap.rs:483-505 | A server name of any length in front of a challenge's salt is skipped |
| EapFrame.SubtypesAreTold | crates/rist-codec/src/eap.rs:438-480 | The kind of an SRP frame follows from subtype and direction; other subtypes are refused |
| Eap.AteRunKeepsInvariant | crates/rist-codec/src/eap.rs:649-954 | In every run on arbitrary datagrams and host actions, the authenticatee holds a session key exactly when it is authenticated, and it is the key of its own SRP computation |
| Eap.AteLeavesSuccess | crates/rist-codec/src/eap.rs:759-815 | A datagram takes the authenticatee out of the authenticated state exactly when it is a fresh IDENTITY REQUEST; anything else, FAILURE included, leaves the session alone |
| Eap.AteEntersSuccess | crates/rist-codec/src/eap.rs:916-938 | The authenticatee becomes authenticated only on a server proof that verifies under its own key |
| Eap.AtorRunKeepsInvariant | crates/rist-codec/src/eap.rs:962-1318 | In every run: authenticated implies verified, a session key and ever-authenticated; and ever-authenticated is never taken back |
| Eap.AtorLeavesSuccess | crates/rist-codec/src/eap.rs:1124-1228 | A datagram takes the authenticator out of the authenticated state exactly when it is fresh and a START, or has the current identifier and is an IDENTITY RESPONSE, or a client key that the SRP state refuses, or a client proof that does not verify; FAILURE never does |
| Eap.LogoffIsIgnoredOnceAuthed | crates/rist-codec/src/eap.rs:1182-1196 | Once a peer has ever authenticated, LOGOFF changes nothing but the replay cache |
| Eap.OutOfSequenceIsIgnored | crates/rist-codec/src/eap.rs:824-833 | In every state with an identifier: a CHALLENGE, SERVER KEY or SERVER VALIDATOR with neither that identifier nor the next changes nothing, gets no reply and uses no draw |
| Eap.StaleDatagramIsIgnored | crates/rist-codec/src/eap.rs:759-833 | The same of the datagram, at any point of any run: it moves nothing but the replay cache |
| Eap.AnswerToAnotherIsIgnored | crates/rist-codec/src/eap.rs:1150-1163 | In every state past the opening: an answer to another request than the last changes nothing, gets no reply and uses no draw |
| Eap.StaleAnswerIsIgnored | crates/rist-codec/src/eap.rs:1124-1163 | The same of the datagram, at any point of any run |
| EapRules.AteHandleRule | crates/rist-codec/src/eap.rs:786-954 | For every frame in every state of the authenticatee: replies carry the request's identifier and version and the kind it calls for; the identifier is adopted from requests of the exchange only; the SRP client is replaced by a challenge, advanced by a server key and dropped by a new identity request only; errors fail the exchange; draws are made for challenges only; credentials never move |
| EapRules.AtorHandleRule | crates/rist-codec/src/eap.rs:1150-1318 | For every frame in every state of the authenticator: its requests carry the identifier it then holds; the identifier goes up by one at each step taken; the SRP server is begun by an identity, advanced by key and proof and dropped by START or LOGOFF only; a session begins with an accepted proof only; errors fail the exchange |
| EapRules.FailureEndsItsExchange | crates/rist-codec/src/eap.rs:787-799 | A FAILURE ends the exchange in progress whose identifier it carries, and does nothing else |
| EapRules.AtorFailureEndsItsExchange | crates/rist-codec/src/eap.rs:1303-1316 | The same of the authenticator |
| EapRules.ClientAdvances | crates/rist-codec/src/eap.rs:852-915 | Challenge and server key leave the client as the SRP step leaves it, and the answer is that client's; a foreign group or an empty salt is refused without a draw |
| EapRules.ExchangeAdvances | crates/rist-codec/src/eap.rs:1230-1282 | Client key and proof leave the server as the SRP step leaves it, and what is sent is that server's |
| EapRules.ChallengeIsForTheUser | crates/rist-codec/src/eap.rs:1197-1229 | An unknown user is refused; any other is challenged with the salt of its entry by a server for its verifier, in the authenticator's padding mode |
| EapRules.StartOpensAfresh | crates/rist-codec/src/eap.rs:1165-1181 | A START opens an exchange without server, session or proof, except while one is in progress, when it is ignored |
| EapRules.LogoffDropsTheOpening | crates/rist-codec/src/eap.rs:1182-1196 | A LOGOFF drops an exchange that never authenticated, and is ignored in every other case |
| EapRules.AcknowledgementConfirms | crates/rist-codec/src/eap.rs:1283-1293 | The client's acknowledgement authenticates exactly when its proof was verified before |
| EapRules.RestartIsNew | crates/rist-codec/src/eap.rs:738-752 | A restart leaves the authenticatee as newly made, but for its credentials and its switch |
| EapRules.AtorRestartIsNew | crates/rist-codec/src/eap.rs:1043-1053 | A restart leaves the authenticator as newly made, but for the next identifier and what must survive |
| EapRules.NewIsBlank | crates/rist-codec/src/eap.rs:672-695 | Credentials of 1 to 255 bytes are taken as given, and no others; a new role has no exchange, session or identifier |
| EapRules.BeginOpens | crates/rist-codec/src/eap.rs:726-732 | Beginning sends a START and opens an exchange only from the start |
| EapRules.IdentityIsAnswered | crates/rist-codec/src/eap.rs:837-850 | An identity request is answered with the user name in every state, and begins again what was authenticated |
| EapRules.OutOfOrderFails | crates/rist-codec/src/eap.rs:890-920 | A server key or proof before any challenge fails the exchange |
| EapRules.PassphraseIsPushed | crates/rist-codec/src/eap.rs:942-948 | The switch decides whether a request for the passphrase is answered; nothing else changes |
| EapRules.CleanStepsAreRemembered | crates/rist-codec/src/eap.rs:759-783 | Only a step without an error is remembered for repeats, with its reply; bytes that do not parse change nothing |
| Eap.VerifiedHasProof | crates/rist-codec/src/eap.rs:1250-1282 | Every verified state of a run goes back to a datagram of that run whose client proof was accepted with the session key held now |
| Eap.AuthenticationRequiresProof | crates/rist-codec/src/eap.rs:1124-1318 | From a fresh authenticator, every authenticated state rests on an accepted proof in the run |
| EapRoles.Authenticatee.Recv | crates/rist-codec/src/eap.rs:759-783 | The stateful method follows the transition function, replay cache included |
| EapRoles.Authenticatee.Handle | crates/rist-codec/src/eap.rs:786-954 | The gates, the dispatch and every handler update the fields as the transition function says |
| EapRoles.Authenticatee.Process | crates/rist-codec/src/eap.rs:786-954 | The dispatch of a frame that passed the gates updates the fields as the transition function says |
| EapRoles.Authenticatee.Restart | crates/rist-codec/src/eap.rs:738-752 | A restart clears the exchange and keeps the credentials |
| EapRoles.Authenticator.Recv | crates/rist-codec/src/eap.rs:1124-1147 | The stateful method follows the transition function, replay cache included |
| EapRoles.Authenticator.Handle | crates/rist-codec/src/eap.rs:1150-1318 | The gates, the dispatch and every handler update the fields as the transition function says |
| EapRoles.Authenticator.Restart | crates/rist-codec/src/eap.rs:1043-1053 | A restart clears the session and keeps what must survive it |
| EapRoles.Authenticator.SeedIdentifier | crates/rist-codec/src/eap.rs:1065-1069 | The first identifier is set, and only before the handshake has begun |
| EapHandshake.RunIsAligned | crates/rist-codec/src/eap.rs:759-954 | In every interleaving of deliveries, back-to-back repeats and losses over FIFO channels, what each side has processed is a prefix of the one transcript, the sides are at most one frame apart, each secret was drawn at most once, and no step has failed |
| EapHandshake.ActionKeepsAligned | crates/rist-codec/src/eap.rs:1124-1318 | One action moves each side at most one frame along the transcript |
| EapHandshake.QuiescentRunIsComplete | crates/rist-codec/src/eap.rs:759-1318 | A run that lost nothing and has nothing left in flight ends with both sides authenticated, equal session keys, one secret drawn each |
| EapHandshake.LosslessRunAwaits | crates/rist-codec/src/eap.rs:759-783 | Without losses, a frame the handshake still needs is always in flight, so it never stalls |
| EapHandshake.DeliveriesAreBounded | crates/rist-codec/src/eap.rs:767-783 | However repeats and deliveries interleave, at most nine deliveries per repeat and nine more happen: cached replies to repeats die out by themselves |
| EapHandshake.ServerRepeat | crates/rist-codec/src/eap.rs:1131-1147 | A repeat of the last frame is answered with the cached reply, without a draw, and changes nothing |
| EapHandshake.ClientRepeat | crates/rist-codec/src/eap.rs:766-783 | The same for the authenticatee |
| EapHandshake.SecretsAgree | crates/rist-codec/src/srp.rs:562-590 | The SRP agreement at the values of one handshake |
| RtcpNack.RangeRoundTrip | crates/rist-codec/src/rtcp.rs:449-462 | For every list of at most 65536 sequences: expanding all packets of the request gives back the low halves in order, with repeats; every packet holds 1 to 16 records |
| RtcpNack.RangeRecordsAreExact | crates/rist-codec/src/rtcp.rs:874-911 | For every list, across the 16-bit wrap: the records, before packets are cut or expansions capped, ask for exactly the list |
| RtcpNack.RangeRecordsAreMinimal | crates/rist-codec/src/rtcp.rs:866-911 | No list of range records that asks for the same list in order is shorter |
| RtcpNack.ChunkedIsFaithful | crates/rist-codec/src/rtcp.rs:889-897 | Splitting into packets of at most sixteen records loses, adds and reorders nothing |
| RtcpNack.EncodeRangeNack | crates/rist-codec/src/rtcp.rs:874-911 | The packing loop produces exactly those packets |
| RtcpNack.MissingOfRanges | crates/rist-codec/src/rtcp.rs:449-462 | The expansion loop gives exactly the expansion, stopped at 65536 entries |
| RtcpBitmask.BitmaskRoundTrip | crates/rist-codec/src/rtcp.rs:917-959 | For every list in any order with repeats the packets ask for exactly its members; for an ascending list for exactly the list, in order; every packet holds 1 to 16 records; section 6.2.1 of RFC 4585 |
| RtcpBitmask.BitmaskRecordsAreMinimal | crates/rist-codec/src/rtcp.rs:938-959 | No list of bitmask records that asks for the same ascending list in order is shorter |
| RtcpBitmask.AscendingRecordsAreExact | crates/rist-codec/src/rtcp.rs:941-959 | Order and multiplicity are kept for every list whose steps go forward by 1 to 65519, however often it comes round the circle |
| RtcpBitmask.NackPairsFromSeqs | crates/rist-codec/src/rtcp.rs:941-959 | The greedy loop produces exactly those records |
| RtcpBitmask.EncodeBitmaskNack | crates/rist-codec/src/rtcp.rs:917-936 | The loop that fills the last packet or starts a new one produces exactly the packets of sixteen |
| RtcpBitmask.AppendSeqs | crates/rist-codec/src/rtcp.rs:468-481 | One record is expanded in bit order, never past the cap |
| RtcpBitmask.MissingOfPairs | crates/rist-codec/src/rtcp.rs:502-511 | The expansion loop gives exactly the expansion, stopped at 65536 entries |
| Rtcp.ParseOfEncode | crates/rist-codec/src/rtcp.rs:322-625 | Every well-formed packet of the eleven kinds is read back from its encoding, whatever follows it, and takes exactly its marshal size |
| Rtcp.ParsedIsWellFormed | crates/rist-codec/src/rtcp.rs:616-770 | Whatever is accepted from arbitrary bytes is well-formed and its canonical encoding is no longer than what was consumed |
| Rtcp.ParseAllSplits | crates/rist-codec/src/rtcp.rs:777-789 | A byte string is accepted as a list of packets exactly when it can be cut into pieces, with nothing between or behind them, of which each one by itself is parsed as the packet in its place and consumed whole |
| Rtcp.CompoundReencodes | crates/rist-codec/src/rtcp.rs:777-808 | Every accepted compound, encoded again, is read as the same packets, in no more bytes |
| Rtcp.CompoundRoundTrip | crates/rist-codec/src/rtcp.rs:802-860 | For every well-formed list in the right order, parsing the compound gives back the list |
| Rtcp.ParseCompound | crates/rist-codec/src/rtcp.rs:777-789 | The parsing loop returns exactly the packets, or the first framing error |
| Rtcp.CheckCompoundOrder | crates/rist-codec/src/rtcp.rs:810-860 | A list is accepted exactly when a report comes first, the SDES second, then feedback with every EXTSEQ right before a NACK, then echoes; a refusal names the first fault: all before it is in order, and that kind of fault is there |
| Rtcp.BuildCompound | crates/rist-codec/src/rtcp.rs:802-808 | The compound is appended whole exactly when the list is in order, and then parses back; otherwise the first order fault is reported and the destination is unchanged |
| MainFeedback.FeedbackArrives | crates/rist/src/codec_main.rs:393-506 | From feedback to bytes and back: every echo arrives; as many sequences are requested as were missing; and they are the same, in order, exactly when every entry that no EXTSEQ covers lies less than 2^16 behind the sender's position; section 8.4 of VSF TR-06-2 |
| MainFeedback.NackComesBack | crates/rist/src/codec_main.rs:455-484 | The same for one request list, from any decoder state with no EXTSEQ pending, in both packings |
| MainFeedback.PositionDoesNotMatter | crates/rist/src/codec_main.rs:896-932 | The requests of a feedback list come back decoded as they were for every sender position exactly when each of its lists is empty, or asks for some non-zero upper half and every group of one upper half fits one packet of sixteen records |
| MainFeedback.NearRequestsArrive | crates/rist/src/codec_main.rs:996-1009 | Feedback lists whose sequences all lie less than 2^16 behind the sender's position are decoded as they were, in order, groups split over several packets included, in both packings |
| MainFeedback.ShortNearRequestsArrive | crates/rist/src/codec_main.rs:455-484 | In the range form that is every such list of at most 65536 entries, in any order and with repeats |
| MainFeedback.ExtensionIsUsedUp | crates/rist/src/codec_main.rs:919-932 | Seventeen sequences of one non-zero upper half, no two adjacent, with a sender's position at which they are not decoded as they were: the seventeenth record goes into a second packet, and the EXTSEQ is used up by the first |
| MainFeedback.UnqualifiedAreMembers | crates/rist/src/codec_main.rs:896-932 | The entries left to the sender's position are always among those asked for |
| MainFeedback.ShortListsArePackable | crates/rist/src/codec_main.rs:455-484 | Every list of at most 65536 entries meets the condition of the range form |
| MainFeedback.OnePacketCoversAll | crates/rist/src/codec_main.rs:919-932 | The EXTSEQ covers a whole group exactly when it fits one packet, because it is used up by the first NACK |
| MainFeedback.GroupsPartition | crates/rist/src/codec_main.rs:471-483 | Grouping by upper half cuts the list into runs of one upper half each, losing nothing |
| MainFeedback.RequestsAreAddressed | crates/rist/src/codec_main.rs:455-484 | Every request packet names its stream, and a bitmask request a zero sender |
| MainFeedback.CompoundIsOrdered | crates/rist/src/codec_main.rs:393-446 | Whatever the feedback, the compound is accepted exactly when its lead is a report |
| MainFeedback.NameArrives | crates/rist/src/codec_main.rs:941-953 | An encrypted compound teaches the peer's name, cut to 255 bytes |
| MainFeedback.CleartextTeachesNoName | crates/rist/src/codec_main.rs:941-953 | A cleartext compound never changes the learnt name |
| MainFeedback.MainFeedbackCodec.EncodeNackInto | crates/rist/src/codec_main.rs:455-484 | The grouping loops append exactly the packets of the specification |
| MainFeedback.MainFeedbackCodec.BuildFeedback | crates/rist/src/codec_main.rs:393-446 | The compound is built exactly as specified, and fails exactly when the lead is no report |
| MainFeedback.MainFeedbackCodec.DecodeFeedbackMain | crates/rist/src/codec_main.rs:896-956 | The decoding loop returns exactly the specified feedback and learns exactly the specified name |
| Codec.WidenAtMostIsExact | crates/rist/src/codec.rs:364-371 | The at-most rule gives a sequence back exactly when it lies less than 2^16 behind the reference, counted round zero |
| Codec.SteadyRunIsReadTrue | crates/rist/src/codec.rs:189-205 | In every run whose packets differ from their predecessors by less than 2^15 sequences and 2^31 ticks, each is read as its true values up to one offset for the run; so a retransmission is read as its original was |
| Codec.RebuiltTimeIsTrue | crates/rist/src/codec.rs:153-157 | A packet rebuilt near the front gets its true ticks, without moving the references |
| Codec.WidenSeqIsExact | crates/rist/src/codec.rs:209-219 | The nearest rule recovers every true sequence within 2^15 of the reference's, across the 32-bit wrap |
| Codec.WidenSeqKeepsLow | crates/rist/src/codec.rs:209-219 | Whatever the reference, the low sixteen bits are the ones that were sent |
| Codec.WidenTicksIsExact | crates/rist/src/codec.rs:224-234 | The nearest rule recovers every true tick count within 2^31 of the reference, up to a multiple of 2^32 |
| Codec.HalfwayStaysInTurn | crates/rist/src/codec.rs:209-234 | Exactly half a turn from the reference, the reading in the reference's own turn is taken |
| Codec.TickRounding | crates/rist/src/codec.rs:67-74 | Converting to 90 kHz ticks and back rounds down by at most 11 microseconds |
| Codec.WireTimeIsTicks | crates/rist/src/codec.rs:82-85 | For every time: the RTP timestamp of its NTP form is the time in 90 kHz ticks, rounded down, modulo 2^32, across NTP eras |
| Codec.TimeReadsBack | crates/rist/src/codec.rs:67-85 | Ticks of a time, less a constant, are read back as the time less the constant, at most thirteen microseconds early and never late |
| Codec.MicrosAreMonotone | crates/rist/src/codec.rs:72-74 | The conversion from ticks never puts times out of order, negative ones included |
| Codec.MediaDecoder.Widen | crates/rist/src/codec.rs:189-205 | The stateful method moves the references and returns the values of the specification |
| Codec.MediaDecoder.SourceTime | crates/rist/src/codec.rs:153-157 | The time of a rebuilt packet is the specification's; the references stay |
| Clock.NtpRoundTrip | crates/rist-core/src/clock.rs:198-217 | For every 64-bit timestamp, converting to NTP-64 and back is exact modulo 2^32 seconds, both roundings included |
| Clock.NtpIsFaithful | crates/rist-core/src/clock.rs:198-207 | Two timestamps have one NTP-64 value exactly when they differ by whole eras |
| Clock.NearestFraction | crates/rist-core/src/clock.rs:198-217 | Both conversions of the fraction are to the nearest, halves up |
| Clock.SinceThenAdvance | crates/rist-core/src/clock.rs:38-83 | Advancing by a difference gets there exactly when the difference fits a signed duration; differences are antisymmetric and tell the order |
| Clock.RewindUndoesAdvance | crates/rist-core/src/clock.rs:38-61 | Rewinding undoes advancing exactly when the advance did not run into either end of the range |
| AdvTime.AffineRunIsReadTrue | crates/rist/src/codec_adv.rs:376-397 | For ticks affine in the sequence, sequences spanning less than 2^31 and a start within 2^31 ticks: in any arrival order and across any number of timestamp wraps each packet gets its true time up to one constant, floored at zero; a retransmission gets its original's |
| AdvTime.ReadingIsTrue | crates/rist/src/codec_adv.rs:376-397 | The same whenever every arrival is within 2^31 ticks of the line through the first packet and the foremost one |
| AdvTime.RunTracks | crates/rist/src/codec_adv.rs:376-397 | After any arrivals the state is the first packet, the foremost one, and one offset |
| AdvTime.AffineIsOnLine | crates/rist/src/codec_adv.rs:386-391 | On affine ticks the extrapolated reference is exact once the front has moved: the truncating division loses nothing |
| AdvTime.NoOverflow | crates/rist/src/codec_adv.rs:386-391 | While true times stay inside 62 bits no intermediate value of the extrapolation leaves 64 |
| AdvTime.SourceClock.SourceMicros | crates/rist/src/codec_adv.rs:376-397 | The method moves the reference and returns the time of the specification |
| Rtt.StaysWithin | crates/rist-core/src/rtt.rs:58-71 | If the start and all samples lie within bounds, the average stays within them for ever, despite truncating division, and the accumulator stays below eight times the upper bound plus eight |
| Rtt.Converges | crates/rist-core/src/rtt.rs:58-71 | Under a constant sample the average equals it exactly after finitely many observations, a number given, and stays there |
| Rtt.ApproachIsMonotone | crates/rist-core/src/rtt.rs:58-71 | On the way there the average is monotone and never overshoots |
| Rtt.NewReadsFloor | crates/rist-core/src/rtt.rs:47-52 | A fresh estimator reads the effective floor, at least three milliseconds |
| Rtt.LastIsLast | crates/rist-core/src/rtt.rs:58-71 | The last sample kept is the last one observed, negative ones as zero |
| Bonding.RotationIsExact | crates/rist/src/bonding.rs:311-353 | From full credits and an unchanging live set: over every whole number of rounds each live path is elected exactly its weight per round and no live credit is left; inside a round nobody is more than its weight ahead or behind; paths not live are never elected |
| Bonding.RotationConserves | crates/rist/src/bonding.rs:311-353 | After any number of elections each path's elections plus its remaining credit are exactly what the rounds so far granted it |
| Bonding.SteadyLivenessRotates | crates/rist/src/bonding.rs:311-346 | While liveness by the clock is the same at every call, the elections are those of the rotation |
| Bonding.ReachableIsValid | crates/rist/src/bonding.rs:149-370 | In every state events can reach: indices are unique, no credit exceeds its weight, only seen paths are marked dead |
| Bonding.ElectedIsNoTarget | crates/rist/src/bonding.rs:281-346 | A path is elected exactly when there is a weighted one not proven dead; the elected one is such a path, and never a duplicate target as well |
| Bonding.NobodyLeftOut | crates/rist/src/bonding.rs:281-331 | With the grace not negative, every path that is not proven dead carries data, by election or as a duplicate target |
| Bonding.DeathIsReportedOnce | crates/rist/src/bonding.rs:262-275 | A reported death is not reported again by any event until the path is heard or added anew |
| Bonding.SilentAfterDeath | crates/rist/src/bonding.rs:262-275 | The same over whole runs of events |
| Bonding.NoDeathIsLost | crates/rist/src/bonding.rs:262-275 | And every death of a run is in its reports |
| Bonding.SilentIsOverdue | crates/rist/src/bonding.rs:421-423 | A path is dead exactly when it was heard and its last arrival lies more than the timeout back |
| Bonding.EventsTouchTheirPath | crates/rist/src/bonding.rs:190-204 | An arrival, a sample or a weight changes its own field of its own path and nothing else, but that a weight refills every credit |
| Bonding.AddedIsBlank | crates/rist/src/bonding.rs:161-181 | A new path comes last, unheard, alive and with full credit |
| Bonding.RestartIsFull | crates/rist/src/bonding.rs:359-370 | A change of weight leaves every credit full, so the rotation is exact from there |
| Bonding.Group.SelectWeighted | crates/rist/src/bonding.rs:311-331 | The election loop, the refill and the spending give exactly the elected path and credits of the specification |
| Bonding.Group.BestWeighted | crates/rist/src/bonding.rs:335-346 | The loop finds the live weighted path of most credit, the earliest on a tie |
| Bonding.Group.TickAt | crates/rist/src/bonding.rs:262-275 | The loop marks and names exactly the paths that die now |
| Bonding.Group.SetWeightOf | crates/rist/src/bonding.rs:359-370 | The weight changes and the round restarts, for known indices only |
| Bonding.Group.DuplicateTargets | crates/rist/src/bonding.rs:281-287 | Exactly the duplicate paths not silent past timeout and grace, in order |
| Bonding.Group.SelectNackPath | crates/rist/src/bonding.rs:379-441 | With some path live and addressable, the one chosen is such a path, none such has a higher priority, none of its priority a smaller last sample between 3000 (or the configured floor) and the ceiling, and none like it comes earlier; with none live, the addressable path heard from last; with none heard, nowhere |
| Bonding.Group.Observe | crates/rist/src/bonding.rs:190-196 | An arrival marks the path seen and revives it |
| Bonding.Group.ObserveRtt | crates/rist/src/bonding.rs:200-204 | A sample moves the average of exactly the path of that index |
| Bonding.Group.AddPath | crates/rist/src/bonding.rs:161-181 | A path is added with full credit; a known index changes nothing |
| Bonding.Group.RemovePath | crates/rist/src/bonding.rs:152-156 | Exactly the path of that index goes |
| AdvNack.BitmasksAskExactlyOnce | crates/rist-codec/src/adv.rs:911-943 | For every list, in any order and with repeats, across the 2^32 wrap: the bitmask entries ask for each distinct sequence exactly once and for nothing else |
| AdvNack.RangesAskExactlyOnce | crates/rist-codec/src/adv.rs:949-984 | So do the range entries, none of them longer than a decoder reads |
| AdvNack.MasksAreExact | crates/rist-codec/src/adv.rs:919-941 | The entries cover the distinct positions of an ascending list in order, each once |
| AdvNack.SortedKeysAre | crates/rist-codec/src/adv.rs:898-905 | Sorting by signed distance from the first element keeps the members and puts the distances in order |
| AdvNack.EncodeBitmaskNack | crates/rist-codec/src/adv.rs:911-943 | The nested loops end and produce exactly those entries |
| AdvNack.EncodeRangeNack | crates/rist-codec/src/adv.rs:949-984 | The nested loops end and produce exactly those entries |
| Crypto.EveryRunAgrees | crates/rist-codec/src/crypto.rs:458-515 | Across every sequence of announcements, size changes and packets, each packet is decrypted as it would be on its own at the size then in force, or refused because 2^32 packets used its key |
| Crypto.FreshRunAgrees | crates/rist-codec/src/crypto.rs:458-515 | The same from a decryptor as constructed, with no assumption about its state |
| Crypto.AnnouncementsChangeNothing | crates/rist-codec/src/crypto.rs:458-471 | Leaving all announcements out of a sequence of calls leaves every answer the same |
| Crypto.DecryptAgrees | crates/rist-codec/src/crypto.rs:487-515 | One packet in any sound state; over-use is reported exactly when the live nonce has served 2^32 packets |
| Crypto.StepIsSound | crates/rist-codec/src/crypto.rs:458-515 | Every call keeps both key slots equal to what their nonce and size derive |
| Crypto.SentIsRead | crates/rist-codec/src/crypto.rs:379-387 | What a sender encrypts under a non-zero nonce, a receiver with the same secret and size reads, in any state |
| Crypto.RotationIsExact | crates/rist-codec/src/crypto.rs:362-387 | In every run from a freshly keyed sender, calls whose draw fails included: with limit the positive rotation count or 2^32 - 1, packet k goes out under the key derived from nonce number k / limit of those drawn, so every nonce but the last has served exactly its limit of packets and none more |
| Crypto.GeneratedNonce | crates/rist-codec/src/crypto.rs:518-536 | Over all lists of draws: a nonce comes out exactly when a non-zero draw precedes every failure; its odd/even mark is right and its other bits are that draw's; it is zero exactly when that draw was 0x80000000 and the mark is clear |
| Crypto.ZeroNonceIsPossible | crates/rist-codec/src/crypto.rs:518-536 | Eight draws whose nonce is zero, whatever the last seven are |
| Crypto.BoundedAlike | crates/rist-codec/src/crypto.rs:158-164 | Two passphrases key alike exactly when they agree up to the first NUL or the 127th byte |
| Crypto.IvTellsSequencesApart | crates/rist-codec/src/crypto.rs:240-244 | Different sequence numbers give different IVs |
| Crypto.CounterBlocksAreApart | crates/rist-codec/src/crypto.rs:236-262 | Counter blocks of different sequences never coincide, for packets of up to 2^96 blocks |
| Crypto.KeyDependsOn | crates/rist-codec/src/crypto.rs:158-215 | Two derived keys are the same under every derivation exactly for one nonce, one size and passphrases bounded alike |
| Crypto.CipherDependsOn | crates/rist-codec/src/crypto.rs:246-262 | Every byte meets the stream's byte of its own key, sequence and position: changing any of the three is told apart by some stream |
| Crypto.Decryptor.Decrypt | crates/rist-codec/src/crypto.rs:487-515 | The stateful method follows the specification, promotion of the announced key included, and agrees with one-shot decryption |
| Crypto.Decryptor.Precompute | crates/rist-codec/src/crypto.rs:458-471 | The method caches the announced key unless it is zero, live or cached already |
| Crypto.Decryptor.SetKeyBits | crates/rist-codec/src/crypto.rs:476-482 | A changed size drops both keys |
| Crypto.Key.Encrypt | crates/rist-codec/src/crypto.rs:371-387 | Below the limit nonce and key stay and only the count moves; at the limit the drawn nonce, its key and a count of one are taken, or nothing changes and the failed draw is reported; the packet goes out under the key then in force and decrypts one-shot |
| Crypto.Key.New | crates/rist-codec/src/crypto.rs:307-351 | A new sender holds a drawn nonce, the key derived from it and a count of zero; an empty passphrase or a failed draw makes none |
| Crypto.Key.Rekey | crates/rist-codec/src/crypto.rs:362-367 | A fresh nonce derives the key and starts the count again; a failed draw changes nothing |
| Crypto.GenerateNonce | crates/rist-codec/src/crypto.rs:521-536 | The loop takes the first non-zero of eight draws, and fails closed |
| Npd.ExpandOfSuppress | crates/rist-codec/src/npd.rs:218-311 | Expanding a suppressed payload gives back every byte in place, null packets in canonical form; the bytes cut are counted exactly |
| Npd.NormalIsNormal | crates/rist-codec/src/npd.rs:218-322 | The normal form is its own normal form, and is the payload exactly when every null packet is canonical already |
| Npd.NormalSendsTheSame | crates/rist-codec/src/npd.rs:218-263 | A payload and its normal form are suppressed to the same bytes and map |
| Npd.BitmapTells | crates/rist-codec/src/npd.rs:235-246 | Bit 6 - i of the map is set exactly when packet i is null |
| Npd.SuppressAccepts | crates/rist-codec/src/npd.rs:218-245 | Suppression applies exactly to up to seven packets of 188 bytes, or else of 204, with every sync byte in place; each refusal is named |
| Npd.NullPacket | crates/rist-codec/src/npd.rs:316-322 | The packet put back: sync byte, the null PID, 0x10, and 0xFF to the end |
| Npd.ExtRoundTrip | crates/rist-codec/src/npd.rs:145-183 | The header extension is read back |
| Npd.SuppressLoop | crates/rist-codec/src/npd.rs:218-263 | The two passes return exactly the kept bytes, map and count, or the specified error |
| Npd.ExpandLoop | crates/rist-codec/src/npd.rs:275-311 | The loop returns exactly the expansion, or the specified error on a short or over-long payload |
| Rtp.DecodeOfEncode | crates/rist-codec/src/rtp.rs:166-392 | Every well-formed packet, with sources, extension and padding, is read back whole |
| Rtp.DecodedIsWellFormed | crates/rist-codec/src/rtp.rs:166-348 | Whatever is accepted from arbitrary bytes is well-formed; its encoding has the same length and the same bytes, but that padding is sent as zeros: equal exactly when it was zeros |
| Rtp.FaultRules | crates/rist-codec/src/rtp.rs:359-384 | A packet is refused exactly for padding its header does not announce or announces in vain, for a buffer too short, and for a header that does not fit |
| Rtp.ShortHeaders | crates/rist-codec/src/rtp.rs:166-258 | Received headers are refused only for being shorter than what they announce, and the refusal says so |
| Rtp.PaddingRules | crates/rist-codec/src/rtp.rs:319-346 | Padding is cut off by its last byte, and refused when that byte is missing, zero or more than there is |
| Rtp.MarshalTo | crates/rist-codec/src/rtp.rs:359-384 | The in-place writer fills exactly the front of the buffer and touches nothing behind it; a refusal writes nothing and names the specified fault |
| Rtp.MarkReadsBack | crates/rist-codec/src/rtp.rs:407-424 | Stream and mark both come back exactly when the stream's SSRC is even |
| Gre.ParseOfEncode | crates/rist-codec/src/gre.rs:221-314 | Every well-formed header is read back, whatever follows it, and takes exactly its size |
| Gre.ParsedIsWellFormed | crates/rist-codec/src/gre.rs:253-314 | Whatever header is accepted is well-formed, its checksum skipped, so it can be sent again |
| Gre.ParseRules | crates/rist-codec/src/gre.rs:253-314 | A header is read exactly when no reserved bit is set and what its flags announce is there; each refusal is named |
| Gre.ChecksumIsSkipped | crates/rist-codec/src/gre.rs:282-304 | With the checksum bit and four more bytes, a header is read the same |
| Gre.ParseOfReduced | crates/rist-codec/src/gre.rs:340-361 | The port pair is read back |
| Gre.ParseOfVsf | crates/rist-codec/src/gre.rs:377-400 | The VSF wrapper is read back |
| Vectors.GreHeaders | crates/rist-codec/src/gre.rs:750-811 | The recorded GRE headers, ports and wrappers, byte by byte |
| Vectors.PlainRtp | crates/rist-codec/src/rtp.rs:473-498 | The recorded RTP packet |
| Vectors.LoadedRtp | crates/rist-codec/src/rtp.rs:524-552 | The recorded RTP packet with sources, extension and padding |
| Vectors.RangeRequest | crates/rist-codec/src/rtcp.rs:1046-1064 | The recorded range request |
| Vectors.ReportBeginnings | crates/rist-codec/src/rtcp.rs:986-1021 | How the recorded sender and receiver reports begin |
| Vectors.BitmaskBeginning | crates/rist-codec/src/rtcp.rs:1065-1079 | How the recorded bitmask request begins |
| Vectors.EchoBeginnings | crates/rist-codec/src/rtcp.rs:1080-1117 | How the recorded echoes begin |
| Vectors.NullMap | crates/rist-codec/src/npd.rs:352-402 | The recorded null-packet extensions |
| Vectors.AdvClear | crates/rist-codec/src/adv.rs:1175-1190 | The recorded Advanced header |
| Vectors.Openings | crates/rist-codec/src/eap.rs:1429-1451 | The recorded EAP frames without a body |
| Vectors.ChallengeFrame | crates/rist-codec/src/eap.rs:1457-1461 | The recorded challenge |
| Vectors.IdentityFrame | crates/rist-codec/src/eap.rs:1452-1456 | The recorded identity response |
| Vectors.KeyFrames | crates/rist-codec/src/eap.rs:1462-1471 | The bodies of the recorded keys |
| Vectors.ProofFrames | crates/rist-codec/src/eap.rs:1472-1481 | The bodies of the recorded proofs |
| Vectors.PassphraseFrames | crates/rist-codec/src/eap.rs:324-336 | The bodies of the passphrase exchange |
| Vectors.EmptyReport | crates/rist-codec/src/rtcp.rs:1000-1004 | The recorded empty report |
| Vectors.ShortName | crates/rist-codec/src/rtcp.rs:1034-1043 | The recorded name whose terminator is one byte |
| Vectors.Extension | crates/rist-codec/src/rtcp.rs:1118-1128 | The recorded EXTSEQ |
| Vectors.Losses | crates/rist-codec/src/rtcp.rs:1065-1079 | The packed loss fields, and the recorded bitmask record |
| Vectors.AdvFields | crates/rist-codec/src/adv.rs:1191-1211 | The optional fields of the recorded encrypted header |
| Vectors.AdvEncrypted | crates/rist-codec/src/adv.rs:1191-1211 | Its flag bytes |
| Vectors.CounterStart | crates/rist-codec/src/crypto.rs:713-729 | The recorded counter block |
| Vectors.HashValues | crates/rist-codec/src/lpc.rs:191-194 | The match finder's hash at two values |
| Vectors.GreClear | crates/rist-codec/src/gre.rs:253-314 | A header without a key is read with no nonce |
| Vectors.NtpTimes | crates/rist-core/src/clock.rs:198-217 | One second, half of one, and the start of the second era |
| MainMedia.MediaArrives | crates/rist/src/codec_main.rs:316-371 | Media end to end from any state of either side: delivered with the FEC form of its payload and the widened sequence and time; its sequence is the sent one modulo 2^16; stream and retransmission mark are right exactly when the stream's SSRC is even |
| MainMedia.MediaRunArrives | crates/rist/src/codec_main.rs:845-892 | Over a whole run of datagrams through one receiver, decryption state and rotations included, whose packets differ from their predecessors by less than 2^15 sequences and 2^31 ticks, and with room in the receiver's use count: each is delivered with the FEC form of its payload, its true sequence and time up to one offset for the run, and, for an even SSRC, its stream and mark |
| MainMedia.MediaRunKeepsTime | crates/rist/src/codec_main.rs:316-371 | In source times: for packets stamped by their sender, the times the receiver reads back are the sender's up to one constant for the run and thirteen microseconds, and never below zero |
| MainMedia.MediaOnTheWire | crates/rist/src/codec_main.rs:321-371 | The media packet as an RTP decoder sees it: version, payload type, sequence, timestamp, SSRC with its mark, and the extension exactly when null packets were cut |
| MainMedia.OpensOnlyUnderItsKey | crates/rist/src/codec_main.rs:768-839 | For arbitrary bytes: a receiver with a key opens exactly what one-shot decryption under its secret gives, and nothing in clear; one without a key opens nothing that claims a key |
| MainMedia.MixedKeysAreRefused | crates/rist/src/codec_main.rs:820-839 | Cleartext for a receiver with a key, and ciphertext for one without, are refused by name and leave the key as it was |
| MainMedia.FrameOpens | crates/rist/src/codec_main.rs:511-546 | Whatever inner packet is framed, in clear or encrypted, comes out the same with its ports, unless the receiver's key is used up |
| MainMedia.VsfFrameOpens | crates/rist/src/codec_main.rs:791-818 | The same behind the VSF wrapper; other subtypes are handed on as control bodies |
| MainMedia.FrameOnTheWire | crates/rist/src/codec_main.rs:511-546 | The frame as a GRE parser sees it: version 1, a sequence always, nonce and size of the key when there is one |
| MainMedia.FeedbackFrameArrives | crates/rist/src/codec_main.rs:768-818 | A framed compound is told from media, opened, and handed on unchanged |
| MainMedia.TypesAreTold | crates/rist/src/codec_main.rs:800-818 | RTCP packet types 200 to 205 are told from RTP of type 33 or of a dynamic type |
| MainMedia.OnlyCutsAreMarked | crates/rist/src/codec_main.rs:326-335 | The extension is sent exactly when suppression is on, applies and cuts something |
| MainMedia.RestoredIsFecPayload | crates/rist/src/codec_main.rs:845-877 | Suppression and its extension are undone to the FEC form of the payload |
| MainMedia.FecPayloadIsStable | crates/rist/src/codec_main.rs:290-308 | The FEC form keeps the length, is its own FEC form, and is the payload exactly when nothing is cut or every null packet is canonical |
| MainMedia.MainCodec.Frame | crates/rist/src/codec_main.rs:511-546 | The method frames as specified, under a GRE sequence used once and the key in force after any rotation |
| MainMedia.MainCodec.EncodeMedia | crates/rist/src/codec_main.rs:316-319 | The datagram is the framed media packet of the specification |
| MainMedia.MainCodec.Region | crates/rist/src/codec_main.rs:768-839 | The method opens exactly as specified and leaves the receiving key in the specified state |
| MainMedia.MainCodec.DecodeMediaMain | crates/rist/src/codec_main.rs:845-892 | Media is decoded as specified; a refused packet does not move the decoder |
| MainMedia.MainCodec.Decode | crates/rist/src/codec_main.rs:736-759 | Each datagram is routed to media, feedback or control as specified; only media moves the media decoder |
| AdvHeader.ParseOfBuild | crates/rist-codec/src/adv.rs:520-748 | For every in-range header with a self-consistent extension: parsing gives back every field and the payload, and the header takes exactly the announced size |
| AdvHeader.ParsedBuildsAgain | crates/rist-codec/src/adv.rs:629-748 | Whatever is accepted from arbitrary bytes can be built again from what was read, and is then read the same |
| AdvHeader.FlagsReadBack | crates/rist-codec/src/adv.rs:543-566 | The eight flags share a byte without disturbing one another |
| AdvHeader.ModeTable | crates/rist-codec/src/adv.rs:248-267 | Which of hash, nonce and vector each of the eight modes calls for |
| AdvHeader.CompressionField | crates/rist-codec/src/adv.rs:520-620 | The compression field is there in mode 3 only |
| AdvHeader.ForeignExtensionIsSkipped | crates/rist-codec/src/adv.rs:629-700 | Sources and an RTP extension in front of the profile's are skipped, whatever their lengths |
| AdvHeader.Parse | crates/rist-codec/src/adv.rs:629-748 | Bytes are refused for version or payload type, or for being shorter than what they announce, and the refusal says which |
| AdvMedia.AdvMediaArrives | crates/rist/src/codec_adv.rs:190-368 | Media end to end from any state of either side: sequence, payload, retransmission mark and fragment role arrive exactly, unless the payload was compressed from more than 10000 bytes or the key is used up, which are refused |
| AdvMedia.AdvRunArrives | crates/rist/src/codec_adv.rs:190-397 | Over a whole run of datagrams through one receiver, rotations included, in any arrival order, for ticks affine in the sequence, payloads the receiver inflates and room in its use count: each packet is delivered whole with its true time up to one constant, so a retransmission gets its original's time |
| AdvMedia.AdvRunKeepsTime | crates/rist/src/codec_adv.rs:314-397 | In source times, whenever arrivals are near the line the source clock draws: the times read back are exactly the sender's, up to one constant for the run, in any arrival order |
| AdvMedia.AdvMediaOnTheWire | crates/rist/src/codec_adv.rs:190-230 | The datagram as the header parser sees it: type, sequence, timestamp, even SSRC, ports, fragment flags, and under a key the nonce and the sequence as vector |
| AdvMedia.UnsealsOnlyUnderItsKey | crates/rist/src/codec_adv.rs:320-346 | For an arbitrary header: a receiver with a key opens exactly what one-shot decryption gives, and nothing in clear; one without a key nothing encrypted |
| AdvMedia.LongRunIsRefused | crates/rist/src/codec_adv.rs:190-201 | Any run of one byte longer than 10000 is compressed by the sender and then refused by the receiver |
| AdvMedia.SuchAPayload | crates/rist/src/codec_adv.rs:64-64 | 10001 zeros are such a run |
| AdvMedia.CompressedInflates | crates/rist/src/codec_adv.rs:190-201 | Compression where it helps is undone exactly, up to the receiver's bound |
| AdvMedia.FragReadsBack | crates/rist/src/codec_adv.rs:617-636 | Fragment roles and flag pairs correspond one to one |
| AdvMedia.FlowsAreTold | crates/rist/src/codec_adv.rs:452-456 | Media goes out on the even SSRC of the pair, control on the odd one |
| AdvMedia.AdvCodec.EncodeMedia | crates/rist/src/codec_adv.rs:190-230 | The datagram is the one of the specification, under the key in force after any rotation |
| AdvMedia.AdvCodec.DecodeMedia | crates/rist/src/codec_adv.rs:314-368 | The method decrypts, inflates and reads the clock as specified; a refused packet does not move the clock |
| AdvMedia.AdvCodec.FrameControlFrag | crates/rist/src/codec_adv.rs:542-566 | Each fragment takes the next control sequence, on the odd SSRC, and is read back with its role |

## Left out

- Sockets, tasks, channels, timers, DTLS, configuration and logging: no logic of their own that the model needs.
- `rist_core::flow` and `rist_core::fec`: the retransmission and FEC state machines are not part of this model; the pipelines end at the packets handed to them.
- SHA-256, PBKDF2, AES and the random source are parameters; constant-time comparison is equality; the rejection sampling of SRP secrets is a parameter that is already in range or absent.
- Authenticated cipher modes 3 to 5 of the Advanced profile: library calls around a counter.
- Advanced control bodies other than the NACK entries (RTT echo, keepalive, flow attributes, future nonce), their routing and the Unsupported reply: fixed-offset fields.
- Main keepalives, capabilities, buffer negotiation, EAPOL and out-of-band framing: a VSF control body is handed on undecoded, and the other frames only repeat the framing proved for media.
- The Simple-profile entry points `encode_media`, `decode` and `decode_feedback`: the Main pipeline contains the same steps with more around them.
- Setting session keys, ports or null-packet deletion after construction: the classes keep their configuration, and results hold for each configuration.
- `retry_interval` and the adaptive bitrate controller: floating point.
- Per-path traffic counters and statistics snapshots of the bonding group.
- User names are byte strings, so UTF-8 loss is not modelled; the accessors of the peer name and the switch of the passphrase-push flag are not either.
- Bounds on the sizes of machine-word lengths (`usize`).
- Codec.SteadyRunIsReadTrue: tick counts are unbounded integers, so a run whose ticks times 100 leave 64 bits, more than thirty thousand years from its start, is not told from one that does not.
- RtcpNack.RangeRoundTrip: holds for lists of at most 65536 entries, the number at which the decoder stops expanding a packet.
- AdvMedia.AdvMediaArrives: the packet's own SSRC is not carried; the code sends the codec's, and the statement says so.
- AdvNack.SortSeqsWrap: the library sort is a specification function; equal keys are equal values, so stability does not show.
- AdvHeader.ParseOfBuild: the header is built by one expression instead of a row of appends.
