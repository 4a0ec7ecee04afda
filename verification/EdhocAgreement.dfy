/** An undisturbed handshake: when both sides end with matching OSCORE contexts, and when they do not. */
module EdhocAgreement {
  import opened Bytes
  import opened Crypto
  import opened Cbor
  import opened EdhocCbor
  import opened EdhocCredential
  import opened EdhocKeys
  import opened EdhocInitiator
  import opened EdhocResponder
  import opened MessageTheorems
  import Message
  import SeqNumber
  import Window
  import CoapBody

  /** Everything the two parties choose. */
  datatype Parties = Parties(
    seedI: Bytes32, cI: ConnectionId, ephI: Bytes32,
    seedR: Bytes32, cR: byte, ephR: Bytes32)

  /** The three messages delivered as sent, each side knowing the other's key; nothing if a call fails. */
  function HonestRun(c: Crypto, p: Parties): Option<(Initiator, Responder)>
    requires Sizes(c)
  {
    var (i1, m1) := FirstMessage(NewInitiator(c, p.seedI, p.cI, p.ephI));
    var (r1, m2) := AcceptMessage1(c, NewResponder(c, p.seedR, p.cR, p.ephR), m1.value);
    if m2.Err? then None
    else
      var (i2, m3) := ProcessMessage2(c, i1, m2.value, RawKeyPeer(c, c.verifyingKey(p.seedR)));
      if m3.Err? then None
      else
        var (r2, done) := ProcessMessage3(c, r1, m3.value, RawKeyPeer(c, c.verifyingKey(p.seedI)));
        if done.Err? then None else Some((i2, r2))
  }

  /** Both sides finished with equal keys and transcripts, and their exported contexts mirror each other. */
  ghost predicate Agree(c: Crypto, i: Initiator, r: Responder)
    requires Sizes(c)
  {
    && i.state.lifecycle == Complete && r.state.lifecycle == Complete
    && i.state.th2 == r.state.th2 && i.state.th3 == r.state.th3 && i.state.th4 == r.state.th4
    && i.state.prk2e == r.state.prk2e && i.state.prk3e2m == r.state.prk3e2m && i.state.prk4e3m == r.state.prk4e3m
    && ExportInitiator(c, i).Ok? && ExportResponder(c, r).Ok?
    && Mirrored(c, ExportInitiator(c, i).value, ExportResponder(c, r).value)
  }

  // The values of a run

  function Msg1(c: Crypto, p: Parties): bytes {
    Message1(c.dhPublic(p.ephI), p.cI)
  }

  function Shared(c: Crypto, p: Parties): Bytes32 {
    c.dh(p.ephR, c.dhPublic(p.ephI))
  }

  function Th2(c: Crypto, p: Parties): Bytes32 {
    Transcript2(c, c.dhPublic(p.ephR), Msg1(c, p))
  }

  function Prk(c: Crypto, p: Parties): Bytes32 {
    c.extract(Th2(c, p), Shared(c, p))
  }

  function Pt2(c: Crypto, p: Parties): (r: bytes)
    requires Sizes(c)
    ensures |r| == |Identifier([p.cR])| + 13 + c.sigLen
  {
    Plaintext2(c, p.seedR, c.verifyingKey(p.seedR), [p.cR], Prk(c, p), Th2(c, p))
  }

  function Th3(c: Crypto, p: Parties): Bytes32
    requires Sizes(c)
  {
    TranscriptHash(c, Th2(c, p), Pt2(c, p), CredentialOf(c.verifyingKey(p.seedR)))
  }

  function Pt3(c: Crypto, p: Parties): (r: bytes)
    requires Sizes(c)
    ensures |r| == 13 + c.sigLen
  {
    Plaintext3(c, p.seedI, c.verifyingKey(p.seedI), Prk(c, p), Th3(c, p))
  }

  function Th4(c: Crypto, p: Parties): Bytes32
    requires Sizes(c)
  {
    TranscriptHash(c, Th3(c, p), Pt3(c, p), CredentialOf(c.verifyingKey(p.seedI)))
  }

  function Msg2(c: Crypto, p: Parties): bytes
    requires Sizes(c)
  {
    Message2(c, c.dhPublic(p.ephR), Prk(c, p), Th2(c, p), Pt2(c, p))
  }

  function Msg3(c: Crypto, p: Parties): bytes
    requires Sizes(c)
  {
    var ct := Encrypt3(c, Prk(c, p), Th3(c, p), Pt3(c, p));
    Bstr(ct)
  }

  // Message 1

  /** The responder's own identifier parser reads exactly the one-byte identifiers sent as such. */
  lemma LastIdentifierReads(id: ConnectionId)
    ensures LastIdentifier(Identifier(id)).Ok? <==> |id| == 1 && !CompactNegative(id)
    ensures LastIdentifier(Identifier(id)).Ok? ==> id == [LastIdentifier(Identifier(id)).value]
  {
  }

  lemma Message1Splits(gX: Bytes32, cI: ConnectionId)
    ensures var m := Message1(gX, cI);
            KeyOffset(m) == Ok(2) && m[4..36] == gX && m[36..] == Identifier(cI)
  {
    hide Identifier;
    var m := Message1(gX, cI);
    assert m == [0, SUITE_0, 0x58, 32] + gX + Identifier(cI);
    assert m[1..][0] == SUITE_0;
    assert SuitesI(m[1..]) == Some((SUITE_0, 1));
  }

  /** The responder after an acceptable first message. */
  function AwaitingResponder(c: Crypto, p: Parties): Responder
    requires Sizes(c)
  {
    NewResponder(c, p.seedR, p.cR, p.ephR).(
      ephSecret := None,
      state := FRESH_STATE.(msg1 := Msg1(c, p), gX := c.dhPublic(p.ephI), cI := p.cI,
                           prk2e := Prk(c, p), prk3e2m := Prk(c, p), th2 := Th2(c, p), th3 := Th3(c, p),
                           lifecycle := AwaitingMessage3))
  }

  lemma ResponderAnswers(c: Crypto, p: Parties)
    requires Sizes(c)
    ensures var r := AcceptMessage1(c, NewResponder(c, p.seedR, p.cR, p.ephR), Msg1(c, p));
            && (r.1.Ok? <==> |p.cI| == 1 && !CompactNegative(p.cI) && p.cI != [p.cR] && Shared(c, p) != Zeros(32))
            && (r.1.Ok? ==> r == (AwaitingResponder(c, p), Ok(Msg2(c, p))))
  {
    hide KeyOffset, Message1, Identifier, LastIdentifier, Message2, Plaintext2, Transcript2, TranscriptHash;
    var gX := c.dhPublic(p.ephI);
    Message1Splits(gX, p.cI);
    LastIdentifierReads(p.cI);
  }

  // Message 2

  /** The identifier the initiator reads: a byte 0x20 to 0x37 comes back as another byte. */
  function SeenIdentifier(cR: byte): ConnectionId {
    if CompactNegative([cR]) then [0xFF - (cR - 0x20)] else [cR]
  }

  function OwnReference(c: Crypto, pk: Bytes32): IdCred {
    IdCred(IdCredOf(c, pk), Kid(c.hash(pk)[..8]))
  }

  /** A plaintext that ends in a reference and a signature reads back. */
  lemma SignatureAtEnd(front: bytes, signature: bytes)
    requires |signature| <= 64
    ensures ParseBstr((front + Bstr(signature))[|front|..]) == Ok((signature, |Bstr(signature)|))
  {
    ConcatSplit(front, Bstr(signature));
    ParseInvertsBstr(signature, []);
    assert Bstr(signature) + [] == Bstr(signature);
  }

  lemma IdentifierSize(cR: byte)
    ensures 1 <= |Identifier([cR])| <= 2
    ensures CompactNegative([cR]) ==> |Identifier([cR])| == 1
  {
  }

  lemma Plaintext2Parses(c: Crypto, p: Parties)
    requires Sizes(c)
    ensures ParsePlaintext2(c, Pt2(c, p), p.cI)
            == if SeenIdentifier(p.cR) == p.cI then Err(InvalidMessage)
               else Ok((SeenIdentifier(p.cR), OwnReference(c, c.verifyingKey(p.seedR)), |Identifier([p.cR])| + 11))
  {
    hide ParseIdentifier, Identifier, ParseIdCred, ParseBstr, IdCredOf, Bstr;
    var pk := c.verifyingKey(p.seedR);
    var id, idCred := Identifier([p.cR]), IdCredOf(c, pk);
    var signature := OwnSignature(c, p.seedR, pk, Th2(c, p), OwnMac2(c, pk, [p.cR], Prk(c, p), Th2(c, p)));
    var pt := Pt2(c, p);
    assert pt == id + (idCred + Bstr(signature));
    assert pt == (id + idCred) + Bstr(signature);
    IdentifierRoundTrip([p.cR], idCred + Bstr(signature));
    ConcatSplit(id, idCred + Bstr(signature));
    OwnIdCredParses(c, pk, Bstr(signature));
    SignatureAtEnd(id + idCred, signature);
    BstrLength(signature);
    assert |id| >= 1 && (CompactNegative([p.cR]) ==> |id| == 1) by { IdentifierSize(p.cR); }
  }

  lemma Message2Splits(c: Crypto, p: Parties)
    requires Sizes(c)
    ensures var masked := XorBytes(Pt2(c, p), Keystream2(c, Prk(c, p), Th2(c, p), |Pt2(c, p)|));
            && SplitMessage2(c, Msg2(c, p)) == Ok((c.dhPublic(p.ephR), masked))
            && Msg2(c, p)[0] != 2
  {
    hide ParseBstr, Pt2, Keystream2, Th2, Prk, Identifier;
    IdentifierSize(p.cR);
    var key := c.dhPublic(p.ephR);
    var masked := XorBytes(Pt2(c, p), Keystream2(c, Prk(c, p), Th2(c, p), |Pt2(c, p)|));
    var data := key + masked;
    ParseInvertsBstr(data, []);
    assert Bstr(data) + [] == Bstr(data);
    ConcatSplit(key, masked);
  }

  /** The initiator after the first message. */
  function WaitingInitiator(c: Crypto, p: Parties): Initiator {
    NewInitiator(c, p.seedI, p.cI, p.ephI).(
      state := DEFAULT_STATE.(msg1 := Msg1(c, p), lifecycle := Message1Created))
  }

  function PendingInitiator(c: Crypto, p: Parties): Initiator {
    WaitingInitiator(c, p).(
      ephSecret := None,
      state := DEFAULT_STATE.(msg1 := Msg1(c, p), gY := c.dhPublic(p.ephR), th2 := Th2(c, p),
                             prk2e := Prk(c, p), prk3e2m := Prk(c, p), lifecycle := PendingMessage2))
  }

  function Offered2(c: Crypto, p: Parties): Pending2
    requires Sizes(c)
  {
    IdentifierSize(p.cR);
    PendingData2(OwnReference(c, c.verifyingKey(p.seedR)), Pt2(c, p), SeenIdentifier(p.cR),
                 |Identifier([p.cR])| + 11, Th2(c, p))
  }

  lemma SoundParts(c: Crypto, p: Parties)
    requires Sound(c)
    ensures Sizes(c)
    ensures c.dh(p.ephI, c.dhPublic(p.ephR)) == Shared(c, p)
    ensures c.validPoint(c.verifyingKey(p.seedI)) && c.validPoint(c.verifyingKey(p.seedR))
  {
  }

  lemma InitiatorOpens(c: Crypto, p: Parties)
    requires Sound(c) && Shared(c, p) != Zeros(32)
    ensures var r := BeginMessage2(c, WaitingInitiator(c, p), Msg2(c, p));
            && (r.1.Ok? <==> SeenIdentifier(p.cR) != p.cI)
            && (r.1.Ok? ==> r == (PendingInitiator(c, p), Ok(Offered2(c, p))))
  {
    hide Sound, Transcript2, SplitMessage2, ParsePlaintext2, Pt2, Identifier, Msg1, Msg2, IdCredOf;
    assert Sizes(c) && c.dh(p.ephI, c.dhPublic(p.ephR)) == Shared(c, p) by { SoundParts(c, p); }
    Message2Splits(c, p);
    Plaintext2Parses(c, p);
    IdentifierSize(p.cR);
    XorBytesCancels(Pt2(c, p), Keystream2(c, Prk(c, p), Th2(c, p), |Pt2(c, p)|));
    SmallKdfFits(c, Prk(c, p), LABEL_KEYSTREAM_2, Th2(c, p), |Pt2(c, p)|);
  }

  lemma RawKeyAccepted(c: Crypto, pk: Bytes32)
    requires c.validPoint(pk)
    ensures CheckPeer(c, RawKeyPeer(c, pk)).Ok?
  {
    CredentialBindsKey(c, pk, pk, IdCredOf(c, pk), []);
    assert CredentialOf(pk) + [] == CredentialOf(pk);
  }

  lemma SignatureVerifies(c: Crypto, seed: Bytes32, m: bytes)
    requires Sound(c)
    ensures c.verify(c.verifyingKey(seed), m, c.sign(seed, m))
  {
  }

  lemma InitiatorVerifies(c: Crypto, p: Parties)
    requires Sound(c) && SeenIdentifier(p.cR) == [p.cR]
    ensures Verify2(c, PendingInitiator(c, p).state, Offered2(c, p), RawKeyPeer(c, c.verifyingKey(p.seedR))).Ok?
  {
    hide Sound, ParseBstr, CheckPeer, Context2, SignatureStructure, IdCredOf, CredentialOf, Identifier, Bstr,
      Transcript2, Th2, Prk;
    assert Sizes(c) && c.validPoint(c.verifyingKey(p.seedR)) by { SoundParts(c, p); }
    var pk, th2 := c.verifyingKey(p.seedR), Th2(c, p);
    var mac2 := OwnMac2(c, pk, [p.cR], Prk(c, p), th2);
    var signature := OwnSignature(c, p.seedR, pk, th2, mac2);
    RawKeyAccepted(c, pk);
    IdentifierSize(p.cR);
    SignatureAtEnd(Identifier([p.cR]) + IdCredOf(c, pk), signature);
    OwnStructuresFit(c, [p.cR], pk, th2, mac2);
    SmallKdfFits(c, Prk(c, p), LABEL_MAC_2, Context2([p.cR], IdCredOf(c, pk), th2, CredentialOf(pk)).value, 32);
    SignatureVerifies(c, p.seedR, SignatureStructure(IdCredOf(c, pk), th2, CredentialOf(pk), mac2).value);
  }

  function CompleteInitiator(c: Crypto, p: Parties): Initiator
    requires Sizes(c)
  {
    var i := PendingInitiator(c, p);
    i.(state := i.state.(cR := SeenIdentifier(p.cR), th3 := Th3(c, p), th4 := Th4(c, p), prk4e3m := Prk(c, p),
                         completed := true, lifecycle := Complete))
  }

  /** If the responder's signature is accepted, the initiator answers, under the identifier it read. */
  lemma InitiatorAnswers(c: Crypto, p: Parties)
    requires Sizes(c)
    ensures var r := FinishMessage2(c, PendingInitiator(c, p), Offered2(c, p), RawKeyPeer(c, c.verifyingKey(p.seedR)));
            && (r.1.Ok? <==>
                Verify2(c, PendingInitiator(c, p).state, Offered2(c, p), RawKeyPeer(c, c.verifyingKey(p.seedR))).Ok?)
            && (r.1.Ok? ==> r == (CompleteInitiator(c, p), Ok(Msg3(c, p))))
  {
    hide Verify2, NextTranscript, TranscriptHash, Plaintext3, Encrypt3, IdCredOf, CredentialOf, Identifier, Bstr,
      Transcript2, Plaintext2;
    IdentifierSize(p.cR);
    OwnTranscriptFits(c, Th2(c, p), Pt2(c, p), c.verifyingKey(p.seedR));
  }

  // Message 3

  function Offered3(c: Crypto, p: Parties): Pending3
    requires Sizes(c)
  {
    PendingData3(OwnReference(c, c.verifyingKey(p.seedI)), Pt3(c, p), 11, Th3(c, p))
  }

  lemma OpensWhatWasSealed(c: Crypto, k: bytes, n: bytes, a: bytes, pt: bytes)
    requires Sound(c)
    ensures c.open(k, n, a, c.seal(k, n, a, pt)) == Some(pt)
  {
  }

  lemma ResponderOpens(c: Crypto, p: Parties)
    requires Sound(c)
    ensures OpenMessage3(c, AwaitingResponder(c, p).state, Msg3(c, p)) == Ok(Offered3(c, p))
  {
    hide Sound, ParseBstr, ParseIdCred, Key3, Iv3, Aad3, IdCredOf, Bstr, Th2, Th3, Prk, Pt2, OwnMac3;
    assert Sizes(c) by { SoundParts(c, p); }
    var pk, th3 := c.verifyingKey(p.seedI), Th3(c, p);
    var pt3 := Pt3(c, p);
    var ct := Encrypt3(c, Prk(c, p), th3, pt3);
    ParseInvertsBstr(ct, []);
    assert Bstr(ct) + [] == Bstr(ct);
    OpensWhatWasSealed(c, Key3(c, Prk(c, p), th3), Iv3(c, Prk(c, p), th3), Aad3(th3), pt3);
    var signature := OwnSignature(c, p.seedI, pk, th3, OwnMac3(c, pk, Prk(c, p), th3));
    OwnIdCredParses(c, pk, Bstr(signature));
    SignatureAtEnd(IdCredOf(c, pk), signature);
    BstrLength(signature);
  }

  lemma ResponderVerifies(c: Crypto, p: Parties)
    requires Sound(c)
    ensures Verify3(c, AwaitingResponder(c, p).state, Offered3(c, p), RawKeyPeer(c, c.verifyingKey(p.seedI))).Ok?
  {
    hide Sound, ParseBstr, CheckPeer, Context3, SignatureStructure, IdCredOf, CredentialOf, Bstr, Th2, Th3, Prk, Pt2;
    assert Sizes(c) && c.validPoint(c.verifyingKey(p.seedI)) by { SoundParts(c, p); }
    var pk, th3 := c.verifyingKey(p.seedI), Th3(c, p);
    var mac3 := OwnMac3(c, pk, Prk(c, p), th3);
    var signature := OwnSignature(c, p.seedI, pk, th3, mac3);
    RawKeyAccepted(c, pk);
    SignatureAtEnd(IdCredOf(c, pk), signature);
    OwnStructuresFit(c, [], pk, th3, mac3);
    SmallKdfFits(c, Prk(c, p), LABEL_MAC_3, Context3(IdCredOf(c, pk), th3, CredentialOf(pk)).value, 32);
    SignatureVerifies(c, p.seedI, SignatureStructure(IdCredOf(c, pk), th3, CredentialOf(pk), mac3).value);
  }

  function CompleteResponder(c: Crypto, p: Parties): Responder
    requires Sizes(c)
  {
    var r := AwaitingResponder(c, p);
    r.(state := r.state.(th4 := Th4(c, p), prk4e3m := Prk(c, p), completed := true, lifecycle := Complete))
  }

  lemma Verify3IgnoresLifecycle(c: Crypto, st: ResponderState, pending: Pending3, peer: PeerCredential)
    ensures Verify3(c, st.(lifecycle := PendingMessage3), pending, peer) == Verify3(c, st, pending, peer)
  {
    hide CheckPeer, ParseBstr, Context3, Kdf, SignatureStructure;
  }

  lemma ResponderCompletes(c: Crypto, p: Parties)
    requires Sound(c)
    ensures ProcessMessage3(c, AwaitingResponder(c, p), Msg3(c, p), RawKeyPeer(c, c.verifyingKey(p.seedI)))
            == (CompleteResponder(c, p), Ok(()))
  {
    hide Sound, OpenMessage3, Verify3, NextTranscript, TranscriptHash, IdCredOf, CredentialOf, Th2, Th3, Prk, Pt2,
      Plaintext3, Msg3;
    assert Sizes(c) by { SoundParts(c, p); }
    ResponderOpens(c, p);
    ResponderVerifies(c, p);
    OwnTranscriptFits(c, Th3(c, p), Pt3(c, p), c.verifyingKey(p.seedI));
    assert Verify3(c, AwaitingResponder(c, p).state.(lifecycle := PendingMessage3), Offered3(c, p),
                   RawKeyPeer(c, c.verifyingKey(p.seedI)))
        == Verify3(c, AwaitingResponder(c, p).state, Offered3(c, p), RawKeyPeer(c, c.verifyingKey(p.seedI))) by {
      Verify3IgnoresLifecycle(c, AwaitingResponder(c, p).state, Offered3(c, p),
                              RawKeyPeer(c, c.verifyingKey(p.seedI)));
    }
  }

  // The whole run

  /** What the identifiers must be like: one byte each, different, and outside 0x20 to 0x37. */
  predicate CompatibleIdentifiers(p: Parties) {
    |p.cI| == 1 && p.cI != [p.cR] && !CompactNegative(p.cI) && !CompactNegative([p.cR])
  }

  lemma FirstMessageSent(c: Crypto, p: Parties)
    ensures FirstMessage(NewInitiator(c, p.seedI, p.cI, p.ephI)) == (WaitingInitiator(c, p), Ok(Msg1(c, p)))
  {
  }

  /** With compatible identifiers every call succeeds and both final states are known completely. */
  lemma RunCompletes(c: Crypto, p: Parties)
    requires Sound(c) && CompatibleIdentifiers(p) && Shared(c, p) != Zeros(32)
    ensures HonestRun(c, p) == Some((CompleteInitiator(c, p), CompleteResponder(c, p)))
  {
    hide Sound, AcceptMessage1, BeginMessage2, FinishMessage2, ProcessMessage3, Verify2, Msg1, Msg2, Msg3;
    assert Sizes(c) by { SoundParts(c, p); }
    FirstMessageSent(c, p);
    ResponderAnswers(c, p);
    InitiatorOpens(c, p);
    InitiatorVerifies(c, p);
    InitiatorAnswers(c, p);
    ResponderCompletes(c, p);
  }

  lemma ExportIdentifiers(c: Crypto, prk: Bytes32, th: Bytes32, senderId: bytes, recipientId: bytes)
    requires Sizes(c)
    ensures Export(c, prk, th, senderId, recipientId).Ok? ==>
              Export(c, prk, th, senderId, recipientId).value.senderId == senderId
              && Export(c, prk, th, senderId, recipientId).value.recipientId == recipientId
  {
  }

  lemma MirroredIdentifiers(c: Crypto, a: Message.Material, b: Message.Material)
    requires Mirrored(c, a, b)
    ensures a.senderId == b.recipientId && a.recipientId == b.senderId
  {
  }

  /** A responder identifier 0x20 to 0x37 is misread, so even a run that goes through does not agree. */
  lemma MisreadIdentifierPreventsAgreement(c: Crypto, p: Parties)
    requires Sound(c) && CompactNegative([p.cR]) && HonestRun(c, p).Some?
    ensures !Agree(c, HonestRun(c, p).value.0, HonestRun(c, p).value.1)
  {
    hide Sound, AcceptMessage1, BeginMessage2, FinishMessage2, ProcessMessage3, Verify2, Msg1, Msg2, Msg3, Export;
    assert Sizes(c) by { SoundParts(c, p); }
    FirstMessageSent(c, p);
    ResponderAnswers(c, p);
    InitiatorOpens(c, p);
    InitiatorAnswers(c, p);
    ResponderCompletes(c, p);
    var (i, r) := HonestRun(c, p).value;
    assert i.state.cR != r.cR;
    if Agree(c, i, r) {
      ExportIdentifiers(c, i.state.prk4e3m, i.state.th4, i.state.cR, i.cI);
      ExportIdentifiers(c, r.state.prk4e3m, r.state.th4, r.state.cI, r.cR);
      MirroredIdentifiers(c, ExportInitiator(c, i).value, ExportResponder(c, r).value);
    }
  }

  lemma CompleteStatesAgree(c: Crypto, p: Parties)
    requires Sound(c) && CompatibleIdentifiers(p)
    ensures Agree(c, CompleteInitiator(c, p), CompleteResponder(c, p)) <==> Prk(c, p) != Zeros(32)
  {
    hide Sound, Th2, Th3, Th4, Prk, Msg1, Exporter, MasterSecret, MasterSalt, Message.DerivedKey, Message.DerivedIv;
    assert Sizes(c) by { SoundParts(c, p); }
  }

  lemma CompletedRunHadAnswer(c: Crypto, p: Parties)
    requires Sizes(c) && HonestRun(c, p).Some?
    ensures |p.cI| == 1 && !CompactNegative(p.cI) && p.cI != [p.cR] && Shared(c, p) != Zeros(32)
  {
    hide AcceptMessage1, ProcessMessage2, ProcessMessage3, Msg1, Msg2, Shared;
    FirstMessageSent(c, p);
    ResponderAnswers(c, p);
  }

  /**
   * An undisturbed handshake between any two fresh parties ends in agreement exactly when the identifiers are
   * compatible and neither the shared secret nor the key extracted from it is all zeros.
   */
  lemma HandshakeAgreement(c: Crypto, p: Parties)
    requires Sound(c)
    ensures (HonestRun(c, p).Some? && Agree(c, HonestRun(c, p).value.0, HonestRun(c, p).value.1))
            <==> CompatibleIdentifiers(p) && Shared(c, p) != Zeros(32) && Prk(c, p) != Zeros(32)
  {
    hide Sound, HonestRun, Agree, Prk, Shared;
    assert Sizes(c) by { SoundParts(c, p); }
    if HonestRun(c, p).Some? {
      CompletedRunHadAnswer(c, p);
      if CompactNegative([p.cR]) {
        MisreadIdentifierPreventsAgreement(c, p);
      }
    }
    if CompatibleIdentifiers(p) && Shared(c, p) != Zeros(32) {
      RunCompletes(c, p);
      CompleteStatesAgree(c, p);
    }
  }

  /**
   * From handshake to message: what the initiator protects under its exported context, the responder recovers
   * under its own, for every sequence number that is not a replay.
   */
  lemma HandshakeThenRequest(c: Crypto, p: Parties, w: Window.Window, n: SeqNumber.SeqNum, m: Message.Plain)
    requires Sound(c) && CompatibleIdentifiers(p) && Shared(c, p) != Zeros(32) && Prk(c, p) != Zeros(32)
    requires CoapBody.OptionsOnly(m.options) && |m.options| <= Message.OUT_CAP && |m.payload| <= Message.OUT_CAP
    requires |Message.Plaintext(m)| <= Message.PT_CAP && !Window.Reused(w, n)
    ensures HonestRun(c, p).Some?
    ensures var (i, r) := HonestRun(c, p).value;
            && ExportInitiator(c, i).Ok? && ExportResponder(c, r).Ok?
            && var a, b := ExportInitiator(c, i).value, ExportResponder(c, r).value;
            && Message.WellFormed(a) && Message.WellFormed(b)
            && Message.SealRequest(c, a, n, m).Ok?
            && var (ct, option) := Message.SealRequest(c, a, n, m).value;
            Message.OpenRequest(c, b, w, option, ct) == Ok((n, m))
  {
    hide Sound, HonestRun, Mirrored, ExportInitiator, ExportResponder, CompatibleIdentifiers, Prk, Shared,
      Message.OpenRequest, Message.SealRequest, CoapBody.OptionsOnly, Window.Reused;
    assert Sizes(c) by { SoundParts(c, p); }
    HandshakeAgreement(c, p);
    var (i, r) := HonestRun(c, p).value;
    var a, b := ExportInitiator(c, i).value, ExportResponder(c, r).value;
    MirroredKeys(c, a, b);
    RequestRoundTripOptionsOnly(c, a, b, w, n, m);
  }
}
