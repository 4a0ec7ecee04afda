/** The EDHOC initiator: its state, what each call does to it as a function, and the calls themselves. */
module EdhocInitiator {
  import opened Bytes
  import opened Crypto
  import opened Cbor
  import opened EdhocCbor
  import opened EdhocCredential
  import opened EdhocKeys
  import Message
  import Context
  import opened Nonce

  const SUITE_0: byte := 0

  const MSG1_CAP: nat := 64

  const PLAINTEXT_CAP: nat := 128

  datatype Lifecycle =
    | Created
    | Message1Created
    | AwaitingMessage3
    | PendingMessage2
    | PendingMessage3
    | Complete
    | Failed
    | Zeroized

  /** Protocol state; `Zeroed` is what wiping leaves: identifiers stay, everything derived goes. */
  datatype InitiatorState = InitiatorState(
    msg1: bytes, gY: Bytes32, cR: ConnectionId,
    prk2e: Bytes32, prk3e2m: Bytes32, prk4e3m: Bytes32, th2: Bytes32, th3: Bytes32, th4: Bytes32,
    completed: bool, lifecycle: Lifecycle)
  {
    function Zeroed(lifecycle: Lifecycle): InitiatorState {
      InitiatorState(Zeros(|msg1|), Zeros(32), cR, Zeros(32), Zeros(32), Zeros(32), Zeros(32), Zeros(32), Zeros(32),
                     false, lifecycle)
    }
  }

  const DEFAULT_STATE: InitiatorState :=
    InitiatorState([], Zeros(32), [], Zeros(32), Zeros(32), Zeros(32), Zeros(32), Zeros(32), Zeros(32), false, Created)

  datatype Initiator = Initiator(
    seed: Bytes32, pubkey: Bytes32, cI: ConnectionId, ephSecret: Option<Bytes32>, ephPublic: Bytes32,
    state: InitiatorState)

  /** The second message decrypted and parsed, before the peer's credential is known. */
  datatype PendingData2 = PendingData2(
    idCred: IdCred, plaintext: bytes, cR: ConnectionId, signatureOffset: nat, transcriptBinding: Bytes32)

  /** Only the parser makes these. */
  type Pending2 = p: PendingData2 | p.signatureOffset <= |p.plaintext| <= PLAINTEXT_CAP
    witness PendingData2(IdCred([], Kid([])), [], [], 0, Zeros(32))

  function NewInitiator(c: Crypto, seed: Bytes32, cI: ConnectionId, ephSecret: Bytes32): Initiator {
    Initiator(seed, c.verifyingKey(seed), cI, Some(ephSecret), c.dhPublic(ephSecret), DEFAULT_STATE)
  }

  /** Every secret and every derived value is overwritten; the identifiers and public keys stay. */
  function Wiped(s: Initiator, lifecycle: Lifecycle): Initiator {
    s.(seed := Zeros(32), ephSecret := None, state := s.state.Zeroed(lifecycle))
  }

  // Message 1

  function Message1(ephPublic: Bytes32, cI: ConnectionId): (r: bytes)
    ensures |r| <= MSG1_CAP
  {
    [0, SUITE_0] + Bstr(ephPublic) + Identifier(cI)
  }

  function FirstMessage(s: Initiator): (Initiator, Result<bytes, EdhocError>) {
    if s.state.lifecycle != Created then (s, Err(InvalidState))
    else
      var msg1 := Message1(s.ephPublic, s.cI);
      (s.(state := s.state.(msg1 := msg1, lifecycle := Message1Created)), Ok(msg1))
  }

  // Message 2, first half

  /** G_Y and the ciphertext, if the message is one byte string long enough for both. */
  function SplitMessage2(c: Crypto, msg2: bytes): (r: Result<(Bytes32, bytes), EdhocError>)
    ensures r.Err? ==> r.error == InvalidMessage
  {
    var (data, consumed) :- ParseBstr(msg2);
    if consumed != |msg2| || |data| < KEY_LEN_32 + 1 + c.sigLen then Err(InvalidMessage)
    else Ok((data[..KEY_LEN_32], data[KEY_LEN_32..]))
  }

  /** The error message a responder answers with when it does not know the suite. */
  function SuiteError(msg2: bytes): EdhocError
    requires msg2 != []
  {
    if SuitesR(msg2[1..]) == Some(|msg2| - 1) then UnsupportedSuite else InvalidMessage
  }

  /** Identifier, credential reference and signature: everything in the second plaintext. */
  function ParsePlaintext2(c: Crypto, pt: bytes, cI: ConnectionId): (r: Result<(ConnectionId, IdCred, nat), EdhocError>)
    ensures r.Ok? ==> r.value.2 <= |pt|
  {
    var (cR, cRLen) :- ParseIdentifier(pt);
    if cR == cI then Err(InvalidMessage)
    else
      var (idCred, idLen) :- ParseIdCred(pt[cRLen..]);
      var offset := cRLen + idLen;
      var (signature, sigLen) :- ParseBstr(pt[offset..]);
      if |signature| != c.sigLen || offset + sigLen != |pt| then Err(InvalidMessage)
      else Ok((cR, idCred, offset))
  }

  /** The state once the shared secret is used: transcript, PRKs and the pending message. */
  function OpenMessage2(c: Crypto, st: InitiatorState, cI: ConnectionId, gXY: Bytes32, ciphertext: bytes)
    : Result<(InitiatorState, Pending2), EdhocError>
    requires Sizes(c)
  {
    if gXY == Zeros(32) then Err(InvalidMessage)
    else
      var th2 := Transcript2(c, st.gY, st.msg1);
      var prk := c.extract(th2, gXY);
      var keystream :- Kdf(c, prk, LABEL_KEYSTREAM_2, th2, |ciphertext|);
      var pt := XorBytes(ciphertext, keystream);
      var (cR, idCred, offset) :- ParsePlaintext2(c, pt, cI);
      Ok((st.(th2 := th2, prk2e := prk, prk3e2m := prk, lifecycle := PendingMessage2),
          PendingData2(idCred, pt, cR, offset, th2)))
  }

  function BeginMessage2(c: Crypto, s: Initiator, msg2: bytes): (Initiator, Result<Pending2, EdhocError>)
    requires Sizes(c)
  {
    if s.state.lifecycle != Message1Created || s.ephSecret.None? then (s, Err(InvalidState))
    else if msg2 != [] && msg2[0] == 2 then (Wiped(s, Failed), Err(SuiteError(msg2)))
    else
      var split := SplitMessage2(c, msg2);
      if split.Err? then (s, Err(split.error))
      else
        var gXY := c.dh(s.ephSecret.value, split.value.0);
        var r := OpenMessage2(c, s.state.(gY := split.value.0), s.cI, gXY, split.value.1);
        if r.Err? then (Wiped(s, Failed), Err(r.error))
        else (s.(ephSecret := None, state := r.value.0), Ok(r.value.1))
  }

  // Message 2, second half, and message 3

  /** The responder's signature over transcript, credential and MAC. */
  function Verify2(c: Crypto, st: InitiatorState, pending: Pending2, peer: PeerCredential): Result<(), EdhocError> {
    var _ :- CheckPeer(c, peer);
    var (signature, _) :- ParseBstr(pending.plaintext[pending.signatureOffset..]);
    var context2 :- Context2(pending.cR, pending.idCred.encoded, st.th2, peer.credential);
    var mac2 :- Kdf(c, st.prk3e2m, LABEL_MAC_2, context2, 32);
    var m2 :- SignatureStructure(pending.idCred.encoded, st.th2, peer.credential, mac2);
    if |signature| != c.sigLen then Err(InvalidMessage)
    else if !c.verify(peer.publicKey, m2, signature) then Err(SignatureVerification)
    else Ok(())
  }

  /** A party's own credentials leave room in every buffer. */
  lemma OwnStructuresFit(c: Crypto, cR: ConnectionId, pk: Bytes32, th: Bytes32, mac: bytes)
    requires |mac| == 32
    ensures Context2(cR, IdCredOf(c, pk), th, CredentialOf(pk)).Ok?
    ensures |Context2(cR, IdCredOf(c, pk), th, CredentialOf(pk)).value| <= 93
    ensures Context3(IdCredOf(c, pk), th, CredentialOf(pk)).Ok?
    ensures |Context3(IdCredOf(c, pk), th, CredentialOf(pk)).value| == 85
    ensures SignatureStructure(IdCredOf(c, pk), th, CredentialOf(pk), mac).Ok?
  {
    hide Bstr, IdCredOf, CredentialOf, Identifier;
    BstrLength(th);
    BstrLength(mac);
    BstrLength(IdCredOf(c, pk));
    BstrLength(Bstr(th) + CredentialOf(pk));
  }

  /** What a party signs about itself under a MAC. */
  function OwnSignature(c: Crypto, seed: Bytes32, pubkey: Bytes32, th: Bytes32, mac: bytes): (r: bytes)
    requires Sizes(c) && |mac| == 32
    ensures |r| == c.sigLen
  {
    OwnStructuresFit(c, [], pubkey, th, mac);
    c.sign(seed, SignatureStructure(IdCredOf(c, pubkey), th, CredentialOf(pubkey), mac).value)
  }

  function OwnMac3(c: Crypto, pubkey: Bytes32, prk: Bytes32, th3: Bytes32): (r: bytes)
    requires Sizes(c)
    ensures |r| == 32
  {
    OwnStructuresFit(c, [], pubkey, th3, Zeros(32));
    var context3 := Context3(IdCredOf(c, pubkey), th3, CredentialOf(pubkey)).value;
    SmallKdfFits(c, prk, LABEL_MAC_3, context3, 32);
    Kdf(c, prk, LABEL_MAC_3, context3, 32).value
  }

  lemma OwnTranscriptFits(c: Crypto, th: Bytes32, plaintext: bytes, pk: Bytes32)
    requires |plaintext| <= PLAINTEXT_CAP
    ensures NextTranscript(c, th, plaintext, CredentialOf(pk)) == Ok(TranscriptHash(c, th, plaintext, CredentialOf(pk)))
  {
    BstrLength(th);
    BstrLength(plaintext);
  }

  /** Third plaintext: our reference and our signature. */
  function Plaintext3(c: Crypto, seed: Bytes32, pubkey: Bytes32, prk: Bytes32, th3: Bytes32): (r: bytes)
    requires Sizes(c)
    ensures |r| == 13 + c.sigLen
  {
    var signature := OwnSignature(c, seed, pubkey, th3, OwnMac3(c, pubkey, prk, th3));
    BstrLength(signature);
    IdCredOf(c, pubkey) + Bstr(signature)
  }

  function Key3(c: Crypto, prk: Bytes32, th3: Bytes32): bytes {
    SmallKdfFits(c, prk, LABEL_K_3, th3, Message.KEY_LEN);
    Kdf(c, prk, LABEL_K_3, th3, Message.KEY_LEN).value
  }

  function Iv3(c: Crypto, prk: Bytes32, th3: Bytes32): bytes {
    SmallKdfFits(c, prk, LABEL_IV_3, th3, NONCE_LEN);
    Kdf(c, prk, LABEL_IV_3, th3, NONCE_LEN).value
  }

  /** Ciphertext and tag; the buffer has room for the tag. */
  function Encrypt3(c: Crypto, prk: Bytes32, th3: Bytes32, plaintext: bytes): (r: bytes)
    requires Sizes(c)
    ensures |r| == |plaintext| + TAG_LEN
  {
    c.seal(Key3(c, prk, th3), Iv3(c, prk, th3), Aad3(th3), plaintext)
  }

  /** The state and message after the peer is verified. */
  function AnswerMessage2(c: Crypto, st: InitiatorState, seed: Bytes32, pubkey: Bytes32, pending: Pending2,
                          peer: PeerCredential): Result<(InitiatorState, bytes), EdhocError>
    requires Sizes(c)
  {
    var prk := st.prk3e2m;
    var th3 :- NextTranscript(c, st.th2, pending.plaintext, peer.credential);
    var pt3 := Plaintext3(c, seed, pubkey, prk, th3);
    var th4 := TranscriptHash(c, th3, pt3, CredentialOf(pubkey));
    Ok((st.(cR := pending.cR, th3 := th3, th4 := th4, prk4e3m := prk, completed := true, lifecycle := Complete),
        Bstr(Encrypt3(c, prk, th3, pt3))))
  }

  function FinishMessage2(c: Crypto, s: Initiator, pending: Pending2, peer: PeerCredential)
    : (Initiator, Result<bytes, EdhocError>)
    requires Sizes(c)
  {
    if s.state.lifecycle != PendingMessage2 || pending.transcriptBinding != s.state.th2 then (s, Err(InvalidState))
    else if peer.idCred != pending.idCred.encoded then (s, Err(SignatureVerification))
    else
      var v := Verify2(c, s.state, pending, peer);
      if v.Err? then (Wiped(s, Failed), Err(v.error))
      else
        var r := AnswerMessage2(c, s.state, s.seed, s.pubkey, pending, peer);
        if r.Err? then (Wiped(s.(state := s.state.(cR := pending.cR)), Failed), Err(r.error))
        else (s.(state := r.value.0), Ok(r.value.1))
  }

  function ProcessMessage2(c: Crypto, s: Initiator, msg2: bytes, peer: PeerCredential)
    : (Initiator, Result<bytes, EdhocError>)
    requires Sizes(c)
  {
    var (pending, r) := BeginMessage2(c, s, msg2);
    if r.Err? then (pending, Err(r.error)) else FinishMessage2(c, pending, r.value, peer)
  }

  function ExportInitiator(c: Crypto, s: Initiator): Result<Message.Material, Message.OscoreError>
    requires Sizes(c)
  {
    if !s.state.completed || s.state.prk4e3m == Zeros(32) then Err(Message.NoContext)
    else Export(c, s.state.prk4e3m, s.state.th4, s.state.cR, s.cI)
  }

  // The object

  class EdhocInitiator {
    const crypto: Crypto
    var seed: Bytes32
    const pubkey: Bytes32
    const cI: ConnectionId
    var ephSecret: Option<Bytes32>
    const ephPublic: Bytes32
    var state: InitiatorState

    function Value(): Initiator
      reads this
    {
      Initiator(seed, pubkey, cI, ephSecret, ephPublic, state)
    }

    constructor (crypto: Crypto, seed: Bytes32, cI: ConnectionId, ephSecret: Bytes32)
      ensures this.crypto == crypto && Value() == NewInitiator(crypto, seed, cI, ephSecret)
    {
      this.crypto := crypto;
      this.seed, pubkey := seed, crypto.verifyingKey(seed);
      this.cI := cI;
      this.ephSecret, ephPublic := Some(ephSecret), crypto.dhPublic(ephSecret);
      state := DEFAULT_STATE;
    }

    method Poison()
      modifies this
      ensures Value() == Wiped(old(Value()), Failed)
    {
      seed := Zeros(32);
      ephSecret := None;
      state := state.Zeroed(Failed);
    }

    method CreateMessage1() returns (r: Result<bytes, EdhocError>)
      modifies this`state
      ensures (Value(), r) == FirstMessage(old(Value()))
    {
      hide Bstr, Identifier;
      if state.lifecycle != Created {
        return Err(InvalidState);
      }
      BstrLength(ephPublic);
      var head: bytes := [0, SUITE_0];
      var keyed := EncodeBstr(head, MSG1_CAP, ephPublic);
      var m := EncodeIdentifier(keyed.value, MSG1_CAP, cI);
      state := state.(msg1 := m.value);
      state := state.(lifecycle := Message1Created);
      return Ok(m.value);
    }

    /** The closure after Diffie-Hellman: may leave the state half written when it fails. */
    method DecryptMessage2(gXY: Bytes32, ciphertext: bytes) returns (r: Result<Pending2, EdhocError>)
      requires Sizes(crypto)
      modifies this`state
      ensures var spec := OpenMessage2(crypto, old(state), cI, gXY, ciphertext);
              if spec.Err? then r == Err(spec.error) && state.cR == old(state.cR) && |state.msg1| == |old(state.msg1)|
              else r == Ok(spec.value.1) && state == spec.value.0
    {
      hide Transcript2, Kdf, ParseIdentifier, ParseIdCred, ParseBstr;
      if gXY == Zeros(32) {
        return Err(InvalidMessage);
      }
      var th := ComputeTranscript2(crypto, state.gY, state.msg1);
      var th2 := th.value;
      state := state.(th2 := th2);
      var prk := crypto.extract(th2, gXY);
      state := state.(prk2e := prk);
      var keystream :- EdhocKdf(crypto, prk, LABEL_KEYSTREAM_2, th2, |ciphertext|);
      var pt := ApplyKeystream(ciphertext, keystream);
      state := state.(prk3e2m := prk);
      var id :- ParseIdentifier(pt);
      if id.0 == cI {
        return Err(InvalidMessage);
      }
      var cred :- ParseIdCredential(pt[id.1..]);
      var offset := id.1 + cred.1;
      var signature :- ParseBstr(pt[offset..]);
      if |signature.0| != crypto.sigLen || offset + signature.1 != |pt| {
        return Err(InvalidMessage);
      }
      state := state.(lifecycle := PendingMessage2);
      return Ok(PendingData2(cred.0, pt, id.0, offset, th2));
    }

    method BeginProcessMessage2(msg2: bytes) returns (r: Result<Pending2, EdhocError>)
      requires Sizes(crypto)
      modifies this
      ensures (Value(), r) == BeginMessage2(crypto, old(Value()), msg2)
    {
      hide OpenMessage2, ParseBstr, SuitesR;
      if state.lifecycle != Message1Created || ephSecret.None? {
        return Err(InvalidState);
      }
      if |msg2| > 0 && msg2[0] == 2 {
        var consumed := SuitesR(msg2[1..]);
        var error := if consumed.Some? && consumed.value + 1 == |msg2| then UnsupportedSuite else InvalidMessage;
        Poison();
        return Err(error);
      }
      var parsed :- ParseBstr(msg2);
      var data := parsed.0;
      if parsed.1 != |msg2| || |data| < KEY_LEN_32 + 1 + crypto.sigLen {
        return Err(InvalidMessage);
      }
      var peerPublic: Bytes32 := data[..KEY_LEN_32];
      var ciphertext := data[KEY_LEN_32..];
      var gXY := crypto.dh(ephSecret.value, peerPublic);
      ephSecret := None;
      state := state.(gY := peerPublic);
      r := DecryptMessage2(gXY, ciphertext);
      if r.Err? {
        Poison();
      }
    }

    /** Everything up to the verification of the signature; changes nothing. */
    method VerifyPeer(pending: Pending2, peer: PeerCredential) returns (r: Result<(), EdhocError>)
      requires Sizes(crypto)
      ensures r == Verify2(crypto, state, pending, peer)
    {
      hide ParseBstr, CheckPeer, Context2, Kdf, SignatureStructure;
      var _ :- ValidatePeerCredential(crypto, peer);
      var signature :- ParseBstr(pending.plaintext[pending.signatureOffset..]);
      var context2 :- BuildContext2(pending.cR, pending.idCred.encoded, state.th2, peer.credential);
      var mac2 :- EdhocKdf(crypto, state.prk3e2m, LABEL_MAC_2, context2, 32);
      var m2 :- BuildSignatureStructure(pending.idCred.encoded, state.th2, peer.credential, mac2);
      if |signature.0| != crypto.sigLen {
        return Err(InvalidMessage);
      }
      if !crypto.verify(peer.publicKey, m2, signature.0) {
        return Err(SignatureVerification);
      }
      return Ok(());
    }

    /** The third plaintext, push by push. */
    method BuildPlaintext3() returns (r: bytes)
      requires Sizes(crypto)
      ensures r == Plaintext3(crypto, seed, pubkey, state.prk4e3m, state.th3)
    {
      hide Context3, Kdf, SignatureStructure, IdCredOf, CredentialOf, Bstr;
      var credential := EncodeCredential([], 80, pubkey);
      var cred := credential.value;
      var reference := EncodeIdCred([], 40, crypto, pubkey);
      var idCred := reference.value;
      assert cred == CredentialOf(pubkey) && idCred == IdCredOf(crypto, pubkey);
      OwnStructuresFit(crypto, [], pubkey, state.th3, Zeros(32));
      var context3 := BuildContext3(idCred, state.th3, cred);
      SmallKdfFits(crypto, state.prk4e3m, LABEL_MAC_3, context3.value, 32);
      var mac3 := EdhocKdf(crypto, state.prk4e3m, LABEL_MAC_3, context3.value, 32);
      OwnStructuresFit(crypto, [], pubkey, state.th3, mac3.value);
      var m3 := BuildSignatureStructure(idCred, state.th3, cred, mac3.value);
      var signature := crypto.sign(seed, m3.value);
      BstrLength(signature);
      var pt3 := Extend([], PLAINTEXT_CAP, idCred);
      assert pt3.value == idCred;
      var buf := EncodeBstr(pt3.value, PLAINTEXT_CAP, signature);
      r := buf.value;
    }

    /** Keys, associated data, encryption in place, tag appended. */
    method EncryptPlaintext3(pt3: bytes) returns (r: bytes)
      requires Sizes(crypto) && |pt3| + TAG_LEN <= PLAINTEXT_CAP
      ensures r == Encrypt3(crypto, state.prk3e2m, state.th3, pt3)
    {
      hide Kdf, Aad3;
      SmallKdfFits(crypto, state.prk3e2m, LABEL_K_3, state.th3, Message.KEY_LEN);
      SmallKdfFits(crypto, state.prk3e2m, LABEL_IV_3, state.th3, NONCE_LEN);
      var key := EdhocKdf(crypto, state.prk3e2m, LABEL_K_3, state.th3, Message.KEY_LEN);
      var iv := EdhocKdf(crypto, state.prk3e2m, LABEL_IV_3, state.th3, NONCE_LEN);
      var aad := BuildAad3(state.th3);
      var sealed := crypto.seal(key.value, iv.value, aad, pt3);
      var ct3 := Extend(sealed[..|pt3|], PLAINTEXT_CAP, sealed[|pt3|..]);
      assert ct3.value == sealed;
      r := ct3.value;
    }

    /** The closure after verification: may leave the state half written when it fails. */
    method ComposeMessage3(pending: Pending2, peer: PeerCredential) returns (r: Result<bytes, EdhocError>)
      requires Sizes(crypto)
      modifies this`state
      ensures var spec := AnswerMessage2(crypto, old(state), seed, pubkey, pending, peer);
              if spec.Err? then r == Err(spec.error) && state.cR == pending.cR && |state.msg1| == |old(state.msg1)|
              else r == Ok(spec.value.1) && state == spec.value.0
    {
      hide NextTranscript, TranscriptHash, Encrypt3, Plaintext3, CredentialOf, Bstr;
      state := state.(cR := pending.cR);
      var th3 :- ComputeNextTranscript(crypto, state.th2, pending.plaintext, peer.credential);
      state := state.(th3 := th3);
      state := state.(prk4e3m := state.prk3e2m);
      var pt3 := BuildPlaintext3();
      var ct3 := EncryptPlaintext3(pt3);
      var credential := EncodeCredential([], 80, pubkey);
      assert credential.value == CredentialOf(pubkey);
      OwnTranscriptFits(crypto, th3, pt3, pubkey);
      var th4 := ComputeNextTranscript(crypto, th3, pt3, credential.value);
      state := state.(th4 := th4.value);
      state := state.(completed := true);
      state := state.(lifecycle := Complete);
      BstrLength(ct3);
      r := EncodeBstr([], PLAINTEXT_CAP, ct3);
      assert [] + Bstr(ct3) == Bstr(ct3);
    }

    method FinishProcessMessage2(pending: Pending2, peer: PeerCredential) returns (r: Result<bytes, EdhocError>)
      requires Sizes(crypto)
      modifies this
      ensures (Value(), r) == FinishMessage2(crypto, old(Value()), pending, peer)
    {
      hide Verify2, AnswerMessage2;
      if state.lifecycle != PendingMessage2 || pending.transcriptBinding != state.th2 {
        return Err(InvalidState);
      }
      if peer.idCred != pending.idCred.encoded {
        return Err(SignatureVerification);
      }
      var v := VerifyPeer(pending, peer);
      if v.Err? {
        Poison();
        return Err(v.error);
      }
      r := ComposeMessage3(pending, peer);
      if r.Err? {
        Poison();
      }
    }

    method ProcessMessage2WithCredential(msg2: bytes, peer: PeerCredential) returns (r: Result<bytes, EdhocError>)
      requires Sizes(crypto)
      modifies this
      ensures (Value(), r) == ProcessMessage2(crypto, old(Value()), msg2, peer)
    {
      hide BeginMessage2, FinishMessage2;
      var pending :- BeginProcessMessage2(msg2);
      r := FinishProcessMessage2(pending, peer);
    }

    /** With the peer's key alone: its raw-key credential is built first. */
    method ProcessMessage2WithKey(msg2: bytes, peerKey: Bytes32) returns (r: Result<bytes, EdhocError>)
      requires Sizes(crypto)
      modifies this
      ensures (Value(), r) == ProcessMessage2(crypto, old(Value()), msg2, RawKeyPeer(crypto, peerKey))
    {
      hide ProcessMessage2;
      var idCred := EncodeIdCred([], 40, crypto, peerKey);
      var credential := EncodeCredential([], 80, peerKey);
      assert idCred.value == IdCredOf(crypto, peerKey) && credential.value == CredentialOf(peerKey);
      r := ProcessMessage2WithCredential(msg2, PeerCredential(peerKey, idCred.value, credential.value));
    }

    method ExportOscore() returns (r: Result<Context.Context, Message.OscoreError>)
      requires Sizes(crypto)
      ensures var material := ExportInitiator(crypto, Value());
              && (material.Err? ==> r == Err(material.error))
              && (material.Ok? ==> r.Ok? && fresh(r.value) && ExportedAs(r.value, crypto, material.value))
    {
      if !state.completed || state.prk4e3m == Zeros(32) {
        return Err(Message.NoContext);
      }
      r := ExportContext(crypto, state.prk4e3m, state.th4, state.cR, cI);
    }

    /** Explicit wiping by the application. */
    method Zeroize()
      modifies this
      ensures Value() == Wiped(old(Value()), Lifecycle.Zeroized)
    {
      seed := Zeros(32);
      ephSecret := None;
      state := state.Zeroed(Lifecycle.Zeroized);
    }
  }
}
