/** What completing a handshake proves about the peer: which signature was checked, and whose session made it. */
module EdhocAuthentication {
  import opened Bytes
  import opened Crypto
  import opened Cbor
  import opened EdhocCbor
  import opened EdhocCredential
  import opened EdhocKeys
  import opened EdhocInitiator
  import opened EdhocResponder
  import opened EdhocAgreement
  import opened OscoreWire
  import opened EdhocWire

  /** What a signature is about: reference, transcript, credential and MAC. */
  datatype Claim = Claim(idCred: bytes, th: Bytes32, cred: bytes, mac: bytes)

  function Structure(e: Claim): Result<bytes, EdhocError> {
    SignatureStructure(e.idCred, e.th, e.cred, e.mac)
  }

  lemma StructureInjective(a: Claim, b: Claim)
    requires Structure(a).Ok? && Structure(a) == Structure(b)
    ensures a == b
  {
    hide SignatureStructure;
    SignatureBindsEverything(a.idCred, a.th, a.cred, a.mac, b.idCred, b.th, b.cred, b.mac);
  }

  /** The signature item at the end of a plaintext. */
  function SignatureAt(plaintext: bytes, offset: nat): bytes
    requires offset <= |plaintext|
  {
    var r := ParseBstr(plaintext[offset..]);
    if r.Ok? then r.value.0 else []
  }

  /** What the initiator expects the responder to have signed: the MAC covers the identifier it is about to adopt. */
  function ExpectedOfResponder(c: Crypto, st: InitiatorState, cR: ConnectionId, peer: PeerCredential)
    : Result<Claim, EdhocError>
  {
    var context2 :- Context2(cR, peer.idCred, st.th2, peer.credential);
    var mac2 :- Kdf(c, st.prk3e2m, LABEL_MAC_2, context2, 32);
    Ok(Claim(peer.idCred, st.th2, peer.credential, mac2))
  }

  function ExpectedOfInitiator(c: Crypto, st: ResponderState, peer: PeerCredential): Result<Claim, EdhocError> {
    var context3 :- Context3(peer.idCred, st.th3, peer.credential);
    var mac3 :- Kdf(c, st.prk3e2m, LABEL_MAC_3, context3, 32);
    Ok(Claim(peer.idCred, st.th3, peer.credential, mac3))
  }

  /** The peer's key accepts `signature` on `claim`. */
  predicate Verified(c: Crypto, pk: Bytes32, claim: Result<Claim, EdhocError>, signature: bytes) {
    && claim.Ok? && Structure(claim.value).Ok?
    && c.verify(pk, Structure(claim.value).value, signature)
  }

  /**
   * An initiator completes only if the peer's key accepts the signature in the second message on this session's
   * transcript, reference and credential, under a MAC that covers the connection identifier the initiator adopts.
   */
  lemma CompletionAuthenticatesResponder(c: Crypto, s: Initiator, pending: Pending2, peer: PeerCredential)
    requires Sizes(c) && FinishMessage2(c, s, pending, peer).1.Ok?
    ensures FinishMessage2(c, s, pending, peer).0.state.cR == pending.cR
    ensures Verified(c, peer.publicKey, ExpectedOfResponder(c, s.state, pending.cR, peer),
                     SignatureAt(pending.plaintext, pending.signatureOffset))
    ensures var context2 := MacContext2(pending.cR, peer.idCred, s.state.th2, peer.credential);
            && |context2| <= 0xFF
            && ExpectedOfResponder(c, s.state, pending.cR, peer)
               == Ok(Claim(peer.idCred, s.state.th2, peer.credential,
                           c.expand(s.state.prk3e2m, InfoBytes(2, context2, 32), 32)))
  {
    hide ParseBstr, CheckPeer, Context2, Kdf, SignatureStructure, MacContext2, InfoBytes;
    ContextsOnTheWire(pending.cR, peer.idCred, s.state.th2, peer.credential);
    var context2 := MacContext2(pending.cR, peer.idCred, s.state.th2, peer.credential);
    KdfOnTheWire(c, s.state.prk3e2m, 2, context2, 32);
  }

  /** The same for a responder and the third transcript hash, which covers the whole second message. */
  lemma CompletionAuthenticatesInitiator(c: Crypto, s: Responder, pending: Pending3, peer: PeerCredential)
    requires FinishMessage3(c, s, pending, peer).1.Ok?
    ensures Verified(c, peer.publicKey, ExpectedOfInitiator(c, s.state, peer),
                     SignatureAt(pending.plaintext, pending.signatureOffset))
    ensures var context3 := MacContext3(peer.idCred, s.state.th3, peer.credential);
            && |context3| <= 0xFF
            && ExpectedOfInitiator(c, s.state, peer)
               == Ok(Claim(peer.idCred, s.state.th3, peer.credential,
                           c.expand(s.state.prk3e2m, InfoBytes(6, context3, 32), 32)))
  {
    hide ParseBstr, CheckPeer, Context3, Kdf, SignatureStructure, MacContext3, InfoBytes;
    ContextsOnTheWire([], peer.idCred, s.state.th3, peer.credential);
    var context3 := MacContext3(peer.idCred, s.state.th3, peer.credential);
    KdfOnTheWire(c, s.state.prk3e2m, 6, context3, 32);
  }

  // From the signature to the session that made it

  /** One signature check: the message and the signature presented for it. */
  datatype Check = Check(message: bytes, signature: bytes)

  /** Of these checks, the ones that pass are on structures of claims in `log`: none was forged. */
  ghost predicate NoneForged(c: Crypto, pk: Bytes32, checks: set<Check>, log: set<Claim>) {
    forall k :: k in checks && c.verify(pk, k.message, k.signature) ==>
      exists e :: e in log && Structure(e) == Ok(k.message)
  }

  lemma VerifiedIsLogged(c: Crypto, pk: Bytes32, checks: set<Check>, log: set<Claim>, claim: Claim, signature: bytes)
    requires Verified(c, pk, Ok(claim), signature) && NoneForged(c, pk, checks, log)
    requires Check(Structure(claim).value, signature) in checks
    ensures claim in log
  {
    hide Structure;
    var m := Structure(claim).value;
    assert Check(m, signature).message == m;
    var e :| e in log && Structure(e) == Ok(m);
    StructureInjective(claim, e);
  }

  /** A responder session: the first message it answered, its ephemeral key, its identifier and the key it derived. */
  datatype ResponderSession = ResponderSession(msg1: bytes, ephPublic: Bytes32, cR: ConnectionId, prk: Bytes32)

  /** What a responder with signature key `pk` signs in a session. */
  function ResponderClaim(c: Crypto, pk: Bytes32, e: ResponderSession): Claim
    requires Sizes(c)
  {
    var th2 := Transcript2(c, e.ephPublic, e.msg1);
    Claim(IdCredOf(c, pk), th2, CredentialOf(pk), OwnMac2(c, pk, e.cR, e.prk, th2))
  }

  /** The hash does not collide on these two inputs. */
  predicate Separates(c: Crypto, x: bytes, y: bytes) {
    c.hash(x) == c.hash(y) ==> x == y
  }

  function Transcript2Input(c: Crypto, gY: Bytes32, msg1: bytes): bytes {
    Bstr(gY) + Bstr(c.hash(msg1))
  }

  lemma Transcript2Matches(c: Crypto, gY: Bytes32, msg1: bytes, gY': Bytes32, msg1': bytes)
    requires Transcript2(c, gY, msg1) == Transcript2(c, gY', msg1')
    requires Separates(c, Transcript2Input(c, gY, msg1), Transcript2Input(c, gY', msg1')) && Separates(c, msg1, msg1')
    ensures gY == gY' && msg1 == msg1'
  {
    hide Bstr;
    BstrInjective(gY, gY', Bstr(c.hash(msg1)), Bstr(c.hash(msg1')));
    assert Bstr(c.hash(msg1)) + [] == Bstr(c.hash(msg1)) && Bstr(c.hash(msg1')) + [] == Bstr(c.hash(msg1'));
    BstrInjective(c.hash(msg1), c.hash(msg1'), [], []);
  }

  lemma ExpectedTranscript(c: Crypto, st: InitiatorState, cR: ConnectionId, peer: PeerCredential)
    requires ExpectedOfResponder(c, st, cR, peer).Ok?
    ensures ExpectedOfResponder(c, st, cR, peer).value.th == st.th2
  {
  }

  /**
   * Matching conversations. If the one signature presented was not forged and neither the hash nor `expand` collides on
   * the transcripts and the infos compared, a completed initiator talked to a session of that responder which received
   * its first message unchanged, whose ephemeral key and connection identifier it received unchanged, and which
   * derived the same key.
   */
  lemma CompletedInitiatorHasPeer(c: Crypto, s: Initiator, pending: Pending2, pk: Bytes32,
                                  checks: set<Check>, sessions: set<ResponderSession>)
    requires Sizes(c) && FinishMessage2(c, s, pending, RawKeyPeer(c, pk)).1.Ok?
    requires s.state.th2 == Transcript2(c, s.state.gY, s.state.msg1)
    requires var claim := ExpectedOfResponder(c, s.state, pending.cR, RawKeyPeer(c, pk));
             claim.Ok? && Structure(claim.value).Ok? ==>
               Check(Structure(claim.value).value, SignatureAt(pending.plaintext, pending.signatureOffset)) in checks
    requires NoneForged(c, pk, checks, set e | e in sessions :: ResponderClaim(c, pk, e))
    requires forall e :: e in sessions ==>
               Separates(c, Transcript2Input(c, s.state.gY, s.state.msg1), Transcript2Input(c, e.ephPublic, e.msg1))
               && Separates(c, s.state.msg1, e.msg1)
               && !Collides(c, s.state.prk3e2m, MacInfo2(c, pk, pending.cR, s.state.th2),
                               e.prk, MacInfo2(c, pk, e.cR, Transcript2(c, e.ephPublic, e.msg1)), 32)
    ensures exists e :: e in sessions && e.msg1 == s.state.msg1 && e.ephPublic == s.state.gY
                        && e.cR == pending.cR && e.prk == s.state.prk3e2m
                        && ExpectedOfResponder(c, s.state, pending.cR, RawKeyPeer(c, pk)) == Ok(ResponderClaim(c, pk, e))
  {
    hide FinishMessage2, ExpectedOfResponder, Structure, NoneForged, Transcript2, Transcript2Input, Separates, MacContext2,
      InfoBytes, OwnMac2, IdCredOf, CredentialOf;
    CompletionAuthenticatesResponder(c, s, pending, RawKeyPeer(c, pk));
    var claim := ExpectedOfResponder(c, s.state, pending.cR, RawKeyPeer(c, pk)).value;
    ExpectedTranscript(c, s.state, pending.cR, RawKeyPeer(c, pk));
    VerifiedIsLogged(c, pk, checks, set e | e in sessions :: ResponderClaim(c, pk, e), claim,
                     SignatureAt(pending.plaintext, pending.signatureOffset));
    var e :| e in sessions && claim == ResponderClaim(c, pk, e);
    Transcript2Matches(c, s.state.gY, s.state.msg1, e.ephPublic, e.msg1);
    OwnMacs(c, pk, e.cR, e.prk, s.state.th2);
    assert MacInfo2(c, pk, pending.cR, s.state.th2) == MacInfo2(c, pk, e.cR, s.state.th2);
    MacInfo2Names(c, pk, pending.cR, s.state.th2, e.cR, s.state.th2);
  }

  /** The state after the first half carries the transcript of what was sent and received. */
  lemma PendingTranscript(c: Crypto, s: Initiator, msg2: bytes)
    requires Sizes(c) && BeginMessage2(c, s, msg2).1.Ok?
    ensures var st := BeginMessage2(c, s, msg2).0.state;
            st.th2 == Transcript2(c, st.gY, st.msg1) && st.msg1 == s.state.msg1
  {
    hide Transcript2, SplitMessage2, Kdf, ParsePlaintext2;
  }

  /** An initiator session: the transcript so far, the second plaintext, the credential it accepted, the derived key. */
  datatype InitiatorSession = InitiatorSession(th2: Bytes32, plaintext2: bytes, cred: bytes, prk: Bytes32)

  function Transcript3Input(th2: Bytes32, plaintext2: bytes, cred: bytes): bytes
    requires |plaintext2| <= 0xFFFF
  {
    Bstr(th2) + Bstr(plaintext2) + cred
  }

  /** What an initiator with signature key `pk` signs in a session. */
  function InitiatorClaim(c: Crypto, pk: Bytes32, e: InitiatorSession): Claim
    requires Sizes(c) && |e.plaintext2| <= 0xFFFF
  {
    var th3 := c.hash(Transcript3Input(e.th2, e.plaintext2, e.cred));
    Claim(IdCredOf(c, pk), th3, CredentialOf(pk), OwnMac3(c, pk, e.prk, th3))
  }

  lemma ExpectedTranscript3(c: Crypto, st: ResponderState, peer: PeerCredential)
    requires ExpectedOfInitiator(c, st, peer).Ok?
    ensures ExpectedOfInitiator(c, st, peer).value.th == st.th3
  {
  }

  /**
   * The same for a completed responder: the initiator session has its transcript and the second plaintext it sent,
   * accepted the credential it sent, and derived the same key.
   */
  lemma CompletedResponderHasPeer(c: Crypto, s: Responder, plaintext2: bytes, pending: Pending3, pk: Bytes32,
                                  checks: set<Check>, sessions: set<InitiatorSession>)
    requires Sizes(c) && FinishMessage3(c, s, pending, RawKeyPeer(c, pk)).1.Ok?
    requires |plaintext2| <= 0xFFFF && forall e :: e in sessions ==> |e.plaintext2| <= 0xFFFF
    requires s.state.th3 == TranscriptHash(c, s.state.th2, plaintext2, CredentialOf(s.pubkey))
    requires var claim := ExpectedOfInitiator(c, s.state, RawKeyPeer(c, pk));
             claim.Ok? && Structure(claim.value).Ok? ==>
               Check(Structure(claim.value).value, SignatureAt(pending.plaintext, pending.signatureOffset)) in checks
    requires NoneForged(c, pk, checks, set e | e in sessions :: InitiatorClaim(c, pk, e))
    requires forall e :: e in sessions ==>
               Separates(c, Transcript3Input(s.state.th2, plaintext2, CredentialOf(s.pubkey)),
                            Transcript3Input(e.th2, e.plaintext2, e.cred))
               && !Collides(c, s.state.prk3e2m, MacInfo3(c, pk, s.state.th3),
                               e.prk, MacInfo3(c, pk, c.hash(Transcript3Input(e.th2, e.plaintext2, e.cred))), 32)
    ensures exists e :: e in sessions && e.th2 == s.state.th2 && e.plaintext2 == plaintext2
                        && e.cred == CredentialOf(s.pubkey) && e.prk == s.state.prk3e2m
                        && ExpectedOfInitiator(c, s.state, RawKeyPeer(c, pk)) == Ok(InitiatorClaim(c, pk, e))
  {
    hide FinishMessage3, ExpectedOfInitiator, Structure, NoneForged, CredentialOf, IdCredOf, Bstr, MacContext3, InfoBytes,
      OwnMac3;
    CompletionAuthenticatesInitiator(c, s, pending, RawKeyPeer(c, pk));
    var claim := ExpectedOfInitiator(c, s.state, RawKeyPeer(c, pk)).value;
    ExpectedTranscript3(c, s.state, RawKeyPeer(c, pk));
    VerifiedIsLogged(c, pk, checks, set e | e in sessions :: InitiatorClaim(c, pk, e), claim,
                     SignatureAt(pending.plaintext, pending.signatureOffset));
    var e :| e in sessions && claim == InitiatorClaim(c, pk, e);
    TranscriptInputInjective(s.state.th2, plaintext2, CredentialOf(s.pubkey), e.th2, e.plaintext2, e.cred);
    OwnMacs(c, pk, [], e.prk, s.state.th3);
  }

  /** A responder that has answered carries the transcript of the second plaintext it sent. */
  lemma AwaitingTranscript(c: Crypto, s: Responder, msg1: bytes)
    requires Sizes(c) && AcceptMessage1(c, s, msg1).1.Ok?
    ensures var after := AcceptMessage1(c, s, msg1).0;
            var pt2 := Plaintext2(c, s.seed, s.pubkey, s.cR, after.state.prk2e, after.state.th2);
            && |pt2| <= 0xFFFF
            && after.state.th3 == TranscriptHash(c, after.state.th2, pt2, CredentialOf(after.pubkey))
  {
    hide Transcript2, TranscriptHash, KeyOffset, LastIdentifier, Plaintext2, Message2;
  }

  // The conditions are met

  function HonestSession(c: Crypto, p: Parties): ResponderSession {
    ResponderSession(Msg1(c, p), c.dhPublic(p.ephR), [p.cR], Prk(c, p))
  }

  /**
   * In the undisturbed run the check passes, it is of the responder's own signature on the claim of its own session,
   * and so nothing is forged.
   */
  lemma HonestRunIsUnforged(c: Crypto, p: Parties)
    requires Sound(c) && CompatibleIdentifiers(p)
    ensures var pk, i := c.verifyingKey(p.seedR), PendingInitiator(c, p);
            var claim := ResponderClaim(c, pk, HonestSession(c, p));
            var signature := SignatureAt(Offered2(c, p).plaintext, Offered2(c, p).signatureOffset);
            && FinishMessage2(c, i, Offered2(c, p), RawKeyPeer(c, pk)).1.Ok?
            && i.state.th2 == Transcript2(c, i.state.gY, i.state.msg1)
            && ExpectedOfResponder(c, i.state, Offered2(c, p).cR, RawKeyPeer(c, pk)) == Ok(claim)
            && Structure(claim).Ok? && signature == c.sign(p.seedR, Structure(claim).value)
            && NoneForged(c, pk, {Check(Structure(claim).value, signature)}, {claim})
  {
    hide Sound, ParseBstr, Verify2, FinishMessage2, Context2, SignatureStructure, IdCredOf, CredentialOf, Identifier,
      Bstr, Transcript2, Prk;
    assert Sizes(c) by { SoundParts(c, p); }
    var pk, th2 := c.verifyingKey(p.seedR), Th2(c, p);
    InitiatorVerifies(c, p);
    InitiatorAnswers(c, p);
    IdentifierSize(p.cR);
    var mac2 := OwnMac2(c, pk, [p.cR], Prk(c, p), th2);
    OwnStructuresFit(c, [p.cR], pk, th2, mac2);
    SmallKdfFits(c, Prk(c, p), LABEL_MAC_2, Context2([p.cR], IdCredOf(c, pk), th2, CredentialOf(pk)).value, 32);
    SignatureAtEnd(Identifier([p.cR]) + IdCredOf(c, pk), OwnSignature(c, p.seedR, pk, th2, mac2));
  }

  /** The third message of the undisturbed run likewise. */
  lemma HonestAnswerIsUnforged(c: Crypto, p: Parties)
    requires Sound(c)
    ensures var pk, r := c.verifyingKey(p.seedI), AwaitingResponder(c, p);
            var session := InitiatorSession(Th2(c, p), Pt2(c, p), CredentialOf(c.verifyingKey(p.seedR)), Prk(c, p));
            var claim := InitiatorClaim(c, pk, session);
            var signature := SignatureAt(Offered3(c, p).plaintext, Offered3(c, p).signatureOffset);
            && FinishMessage3(c, r.(state := r.state.(lifecycle := PendingMessage3)), Offered3(c, p), RawKeyPeer(c, pk)).1.Ok?
            && r.state.th3 == TranscriptHash(c, r.state.th2, Pt2(c, p), CredentialOf(r.pubkey))
            && ExpectedOfInitiator(c, r.state, RawKeyPeer(c, pk)) == Ok(claim)
            && Structure(claim).Ok? && signature == c.sign(p.seedI, Structure(claim).value)
            && NoneForged(c, pk, {Check(Structure(claim).value, signature)}, {claim})
  {
    hide Sound, ParseBstr, FinishMessage3, OpenMessage3, Context3, SignatureStructure, IdCredOf, CredentialOf, Bstr,
      Th2, Prk, Pt2;
    assert Sizes(c) by { SoundParts(c, p); }
    var pk, th3 := c.verifyingKey(p.seedI), Th3(c, p);
    ResponderOpens(c, p);
    ResponderCompletes(c, p);
    var mac3 := OwnMac3(c, pk, Prk(c, p), th3);
    OwnStructuresFit(c, [], pk, th3, mac3);
    SmallKdfFits(c, Prk(c, p), LABEL_MAC_3, Context3(IdCredOf(c, pk), th3, CredentialOf(pk)).value, 32);
    SignatureAtEnd(IdCredOf(c, pk), OwnSignature(c, p.seedI, pk, th3, mac3));
  }
}
