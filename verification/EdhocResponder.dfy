/** The EDHOC responder: its state, what each call does to it as a function, and the calls themselves. */
module EdhocResponder {
  import opened Bytes
  import opened Crypto
  import opened Cbor
  import opened EdhocCbor
  import opened EdhocCredential
  import opened EdhocKeys
  import opened EdhocInitiator
  import Message
  import Context
  import opened Nonce

  /** Shortest first message: method, suite, key and a one-byte identifier. */
  const MSG1_MIN: nat := 37

  const MSG2_CAP: nat := 160

  datatype ResponderState = ResponderState(
    msg1: bytes, gX: Bytes32, cI: ConnectionId,
    prk2e: Bytes32, prk3e2m: Bytes32, prk4e3m: Bytes32, th2: Bytes32, th3: Bytes32, th4: Bytes32,
    completed: bool, lifecycle: Lifecycle)
  {
    function Zeroed(lifecycle: Lifecycle): ResponderState {
      ResponderState(Zeros(|msg1|), Zeros(32), cI, Zeros(32), Zeros(32), Zeros(32), Zeros(32), Zeros(32), Zeros(32),
                     false, lifecycle)
    }
  }

  const FRESH_STATE: ResponderState :=
    ResponderState([], Zeros(32), [], Zeros(32), Zeros(32), Zeros(32), Zeros(32), Zeros(32), Zeros(32), false, Created)

  datatype Responder = Responder(
    seed: Bytes32, pubkey: Bytes32, cR: ConnectionId, ephSecret: Option<Bytes32>, ephPublic: Bytes32,
    state: ResponderState)

  datatype PendingData3 = PendingData3(
    idCred: IdCred, plaintext: bytes, signatureOffset: nat, transcriptBinding: Bytes32)

  /** Only the parser makes these. */
  type Pending3 = p: PendingData3 | p.signatureOffset <= |p.plaintext| <= PLAINTEXT_CAP
    witness PendingData3(IdCred([], Kid([])), [], 0, Zeros(32))

  function NewResponder(c: Crypto, seed: Bytes32, cR: byte, ephSecret: Bytes32): Responder {
    Responder(seed, c.verifyingKey(seed), [cR], Some(ephSecret), c.dhPublic(ephSecret), FRESH_STATE)
  }

  function WipedResponder(s: Responder, lifecycle: Lifecycle): Responder {
    s.(seed := Zeros(32), ephSecret := None, state := s.state.Zeroed(lifecycle))
  }

  // Message 1

  /** Where the initiator's key starts, if method and suite are the supported ones. */
  function KeyOffset(msg1: bytes): (r: Result<nat, EdhocError>)
    ensures r.Ok? ==> 2 <= r.value && r.value + 34 < |msg1|
  {
    if |msg1| > MSG1_CAP then Err(BufferTooSmall)
    else if |msg1| < MSG1_MIN || msg1[0] != 0 then Err(InvalidMessage)
    else
      var suites := SuitesI(msg1[1..]);
      if suites.None? then Err(InvalidMessage)
      else if suites.value.0 != SUITE_0 then Err(UnsupportedSuite)
      else
        var start := 1 + suites.value.1;
        if |msg1| < start + 2 + 32 + 1 || msg1[start] != 0x58 || msg1[start + 1] != 32 then Err(InvalidMessage)
        else Ok(start)
  }

  /** The connection identifier must be one byte, and the last item. */
  function LastIdentifier(rest: bytes): Result<byte, EdhocError>
    requires rest != []
  {
    if rest[0] <= 23 && |rest| == 1 then Ok(rest[0])
    else if rest[0] == 0x41 && |rest| == 2 then Ok(rest[1])
    else Err(InvalidMessage)
  }

  function OwnMac2(c: Crypto, pubkey: Bytes32, cR: ConnectionId, prk: Bytes32, th2: Bytes32): (r: bytes)
    requires Sizes(c)
    ensures |r| == 32
  {
    OwnStructuresFit(c, cR, pubkey, th2, Zeros(32));
    var context2 := Context2(cR, IdCredOf(c, pubkey), th2, CredentialOf(pubkey)).value;
    SmallKdfFits(c, prk, LABEL_MAC_2, context2, 32);
    Kdf(c, prk, LABEL_MAC_2, context2, 32).value
  }

  /** Second plaintext: identifier, our reference, our signature. */
  function Plaintext2(c: Crypto, seed: Bytes32, pubkey: Bytes32, cR: ConnectionId, prk: Bytes32, th2: Bytes32)
    : (r: bytes)
    requires Sizes(c)
    ensures |r| == |Identifier(cR)| + 13 + c.sigLen
  {
    var signature := OwnSignature(c, seed, pubkey, th2, OwnMac2(c, pubkey, cR, prk, th2));
    BstrLength(signature);
    Identifier(cR) + IdCredOf(c, pubkey) + Bstr(signature)
  }

  function Keystream2(c: Crypto, prk: Bytes32, th2: Bytes32, n: nat): (r: bytes)
    requires Sizes(c) && n <= PLAINTEXT_CAP
    ensures |r| == n
  {
    SmallKdfFits(c, prk, LABEL_KEYSTREAM_2, th2, n);
    Kdf(c, prk, LABEL_KEYSTREAM_2, th2, n).value
  }

  /** The second message: our key and the masked plaintext in one byte string. */
  function Message2(c: Crypto, ephPublic: Bytes32, prk: Bytes32, th2: Bytes32, pt2: bytes): bytes
    requires Sizes(c) && |pt2| <= PLAINTEXT_CAP
  {
    Bstr(ephPublic + XorBytes(pt2, Keystream2(c, prk, th2, |pt2|)))
  }

  /** The state and message once the shared secret is used. */
  function AnswerMessage1(c: Crypto, s: Responder, gXY: Bytes32, msg1: bytes): Result<(ResponderState, bytes), EdhocError>
    requires Sizes(c)
  {
    if gXY == Zeros(32) then Err(InvalidMessage)
    else
      var th2 := Transcript2(c, s.ephPublic, msg1);
      var prk := c.extract(th2, gXY);
      var pt2 := Plaintext2(c, s.seed, s.pubkey, s.cR, prk, th2);
      var th3 := TranscriptHash(c, th2, pt2, CredentialOf(s.pubkey));
      Ok((s.state.(th2 := th2, th3 := th3, prk2e := prk, prk3e2m := prk, lifecycle := AwaitingMessage3),
          Message2(c, s.ephPublic, prk, th2, pt2)))
  }

  function AcceptMessage1(c: Crypto, s: Responder, msg1: bytes): (Responder, Result<bytes, EdhocError>)
    requires Sizes(c)
  {
    if s.state.lifecycle != Created || s.ephSecret.None? then (s, Err(InvalidState))
    else
      var start := KeyOffset(msg1);
      if start.Err? then (s, Err(start.error))
      else
        var gX := msg1[start.value + 2..start.value + 34];
        var keyed := s.(state := s.state.(gX := gX));
        var cI := LastIdentifier(msg1[start.value + 34..]);
        if cI.Err? then (keyed, Err(cI.error))
        else if s.cR == [cI.value] then (WipedResponder(s, Failed), Err(InvalidMessage))
        else
          var used := keyed.(ephSecret := None, state := keyed.state.(msg1 := msg1, cI := [cI.value]));
          var r := AnswerMessage1(c, used, c.dh(s.ephSecret.value, gX), msg1);
          if r.Err? then (WipedResponder(used, Failed), Err(r.error))
          else (used.(state := r.value.0), Ok(r.value.1))
  }

  // Message 3

  /** Decrypt and parse: the reference and the place of the signature. */
  function OpenMessage3(c: Crypto, st: ResponderState, msg3: bytes): Result<Pending3, EdhocError>
    requires Sizes(c)
  {
    var (ct, consumed) :- ParseBstr(msg3);
    if consumed != |msg3| then Err(InvalidMessage)
    else if |ct| < TAG_LEN then Err(InvalidMessage)
    else if |ct| - TAG_LEN > PLAINTEXT_CAP then Err(BufferTooSmall)
    else
      var decrypted := c.open(Key3(c, st.prk3e2m, st.th3), Iv3(c, st.prk3e2m, st.th3), Aad3(st.th3), ct);
      if decrypted.None? then Err(DecryptFailed)
      else
        var pt := decrypted.value;
        var (idCred, idLen) :- ParseIdCred(pt);
        var (signature, sigLen) :- ParseBstr(pt[idLen..]);
        if |signature| != c.sigLen || idLen + sigLen != |pt| then Err(InvalidMessage)
        else Ok(PendingData3(idCred, pt, idLen, st.th3))
  }

  function BeginMessage3(c: Crypto, s: Responder, msg3: bytes): (Responder, Result<Pending3, EdhocError>)
    requires Sizes(c)
  {
    if s.state.lifecycle != AwaitingMessage3 then (s, Err(InvalidState))
    else
      var r := OpenMessage3(c, s.state, msg3);
      if r.Err? then (WipedResponder(s, Failed), Err(r.error))
      else (s.(state := s.state.(lifecycle := PendingMessage3)), Ok(r.value))
  }

  /** The initiator's signature over transcript, credential and MAC. */
  function Verify3(c: Crypto, st: ResponderState, pending: Pending3, peer: PeerCredential): Result<(), EdhocError> {
    var _ :- CheckPeer(c, peer);
    var (signature, _) :- ParseBstr(pending.plaintext[pending.signatureOffset..]);
    if |signature| != c.sigLen then Err(InvalidMessage)
    else
      var context3 :- Context3(pending.idCred.encoded, st.th3, peer.credential);
      var mac3 :- Kdf(c, st.prk3e2m, LABEL_MAC_3, context3, 32);
      var m3 :- SignatureStructure(pending.idCred.encoded, st.th3, peer.credential, mac3);
      if !c.verify(peer.publicKey, m3, signature) then Err(SignatureVerification) else Ok(())
  }

  function CompleteMessage3(c: Crypto, st: ResponderState, pending: Pending3, peer: PeerCredential)
    : Result<ResponderState, EdhocError>
  {
    var _ :- Verify3(c, st, pending, peer);
    var th4 :- NextTranscript(c, st.th3, pending.plaintext, peer.credential);
    Ok(st.(th4 := th4, prk4e3m := st.prk3e2m, completed := true, lifecycle := Complete))
  }

  function FinishMessage3(c: Crypto, s: Responder, pending: Pending3, peer: PeerCredential)
    : (Responder, Result<(), EdhocError>)
  {
    if s.state.lifecycle != PendingMessage3 || pending.transcriptBinding != s.state.th3 then
      (WipedResponder(s, Failed), Err(InvalidState))
    else if peer.idCred != pending.idCred.encoded then (WipedResponder(s, Failed), Err(SignatureVerification))
    else
      var r := CompleteMessage3(c, s.state, pending, peer);
      if r.Err? then (WipedResponder(s, Failed), Err(r.error)) else (s.(state := r.value), Ok(()))
  }

  function ProcessMessage3(c: Crypto, s: Responder, msg3: bytes, peer: PeerCredential): (Responder, Result<(), EdhocError>)
    requires Sizes(c)
  {
    var (pending, r) := BeginMessage3(c, s, msg3);
    if r.Err? then (pending, Err(r.error)) else FinishMessage3(c, pending, r.value, peer)
  }

  function ExportResponder(c: Crypto, s: Responder): Result<Message.Material, Message.OscoreError>
    requires Sizes(c)
  {
    if !s.state.completed || s.state.prk4e3m == Zeros(32) then Err(Message.NoContext)
    else Export(c, s.state.prk4e3m, s.state.th4, s.state.cI, s.cR)
  }

  // The object

  class EdhocResponder {
    const crypto: Crypto
    var seed: Bytes32
    const pubkey: Bytes32
    const cR: ConnectionId
    var ephSecret: Option<Bytes32>
    const ephPublic: Bytes32
    var state: ResponderState

    function Value(): Responder
      reads this
    {
      Responder(seed, pubkey, cR, ephSecret, ephPublic, state)
    }

    constructor (crypto: Crypto, seed: Bytes32, cR: byte, ephSecret: Bytes32)
      ensures this.crypto == crypto && Value() == NewResponder(crypto, seed, cR, ephSecret)
    {
      this.crypto := crypto;
      this.seed, pubkey := seed, crypto.verifyingKey(seed);
      this.cR := [cR];
      this.ephSecret, ephPublic := Some(ephSecret), crypto.dhPublic(ephSecret);
      state := FRESH_STATE;
    }

    method Poison()
      modifies this
      ensures Value() == WipedResponder(old(Value()), Failed)
    {
      seed := Zeros(32);
      ephSecret := None;
      state := state.Zeroed(Failed);
    }

    /** The second plaintext, push by push. */
    method BuildPlaintext2() returns (r: bytes)
      requires Sizes(crypto)
      ensures r == Plaintext2(crypto, seed, pubkey, cR, state.prk3e2m, state.th2)
    {
      hide Context2, Kdf, SignatureStructure, IdCredOf, CredentialOf, Bstr, Identifier;
      var reference := EncodeIdCred([], 40, crypto, pubkey);
      var idCred := reference.value;
      var credential := EncodeCredential([], 80, pubkey);
      var cred := credential.value;
      assert cred == CredentialOf(pubkey) && idCred == IdCredOf(crypto, pubkey);
      OwnStructuresFit(crypto, cR, pubkey, state.th2, Zeros(32));
      var context2 := BuildContext2(cR, idCred, state.th2, cred);
      SmallKdfFits(crypto, state.prk3e2m, LABEL_MAC_2, context2.value, 32);
      var mac2 := EdhocKdf(crypto, state.prk3e2m, LABEL_MAC_2, context2.value, 32);
      OwnStructuresFit(crypto, cR, pubkey, state.th2, mac2.value);
      var m2 := BuildSignatureStructure(idCred, state.th2, cred, mac2.value);
      var signature := crypto.sign(seed, m2.value);
      BstrLength(signature);
      var id := EncodeIdentifier([], PLAINTEXT_CAP, cR);
      assert id.value == Identifier(cR);
      var pt2 := Extend(id.value, PLAINTEXT_CAP, idCred);
      var buf := EncodeBstr(pt2.value, PLAINTEXT_CAP, signature);
      r := buf.value;
    }

    /** Keystream, masking, and our key in front. */
    method MaskPlaintext2(pt2: bytes) returns (r: bytes)
      requires Sizes(crypto) && |pt2| <= 112
      ensures r == Message2(crypto, ephPublic, state.prk2e, state.th2, pt2)
    {
      hide Kdf, Bstr;
      SmallKdfFits(crypto, state.prk2e, LABEL_KEYSTREAM_2, state.th2, |pt2|);
      var keystream := EdhocKdf(crypto, state.prk2e, LABEL_KEYSTREAM_2, state.th2, |pt2|);
      var ct2 := ApplyKeystream(pt2, keystream.value);
      var data := Extend(ephPublic, 144, ct2);
      BstrLength(data.value);
      var msg2 := EncodeBstr([], MSG2_CAP, data.value);
      r := msg2.value;
    }

    /** The closure after Diffie-Hellman: may leave the state half written when it fails. */
    method ComposeMessage2(gXY: Bytes32, msg1: bytes) returns (r: Result<bytes, EdhocError>)
      requires Sizes(crypto)
      modifies this`state
      ensures var spec := AnswerMessage1(crypto, old(Value()), gXY, msg1);
              if spec.Err? then r == Err(spec.error) && state == old(state)
              else r == Ok(spec.value.1) && state == spec.value.0
    {
      hide Transcript2, NextTranscript, TranscriptHash, Message2, Plaintext2, CredentialOf, Bstr;
      if gXY == Zeros(32) {
        return Err(InvalidMessage);
      }
      var th := ComputeTranscript2(crypto, ephPublic, msg1);
      var th2 := th.value;
      state := state.(th2 := th2);
      var prk := crypto.extract(th2, gXY);
      state := state.(prk2e := prk);
      state := state.(prk3e2m := prk);
      var pt2 := BuildPlaintext2();
      var msg2 := MaskPlaintext2(pt2);
      var credential := EncodeCredential([], 80, pubkey);
      assert credential.value == CredentialOf(pubkey);
      OwnTranscriptFits(crypto, th2, pt2, pubkey);
      var th3 := ComputeNextTranscript(crypto, th2, pt2, credential.value);
      state := state.(th3 := th3.value);
      state := state.(lifecycle := AwaitingMessage3);
      return Ok(msg2);
    }

    /** Copy, method, suites and the header of the key. */
    static method LocateKey(msg1: bytes) returns (r: Result<nat, EdhocError>)
      ensures r == KeyOffset(msg1)
    {
      hide SuitesI;
      var _ :- Extend([], MSG1_CAP, msg1);
      if |msg1| < MSG1_MIN {
        return Err(InvalidMessage);
      }
      if msg1[0] != 0 {
        return Err(InvalidMessage);
      }
      var suites := ParseSuitesI(msg1[1..]);
      if suites.None? {
        return Err(InvalidMessage);
      }
      if suites.value.0 != SUITE_0 {
        return Err(UnsupportedSuite);
      }
      var start := 1 + suites.value.1;
      if |msg1| < start + 2 + 32 + 1 {
        return Err(InvalidMessage);
      }
      if msg1[start] != 0x58 || msg1[start + 1] != 32 {
        return Err(InvalidMessage);
      }
      return Ok(start);
    }

    /** A small unsigned integer or a one-byte string, with nothing behind it. */
    static method LocateIdentifier(rest: bytes) returns (r: Result<byte, EdhocError>)
      requires rest != []
      ensures r == LastIdentifier(rest)
    {
      var id: byte, idLen := 0, 1;
      if rest[0] <= 23 {
        id := rest[0];
      } else if rest[0] == 0x41 && |rest| > 1 {
        id, idLen := rest[1], 2;
      } else {
        return Err(InvalidMessage);
      }
      if |rest| > idLen {
        return Err(InvalidMessage);
      }
      return Ok(id);
    }

    method ProcessMessage1(msg1: bytes) returns (r: Result<bytes, EdhocError>)
      requires Sizes(crypto)
      modifies this
      ensures (Value(), r) == AcceptMessage1(crypto, old(Value()), msg1)
    {
      hide AnswerMessage1, KeyOffset, LastIdentifier;
      if state.lifecycle != Created || ephSecret.None? {
        return Err(InvalidState);
      }
      var start :- LocateKey(msg1);
      var gX: Bytes32 := msg1[start + 2..start + 2 + 32];
      state := state.(gX := gX);
      var rest := msg1[start + 2 + 32..];
      var id :- LocateIdentifier(rest);
      if cR == [id] {
        Poison();
        return Err(InvalidMessage);
      }
      var gXY := crypto.dh(ephSecret.value, gX);
      ephSecret := None;
      state := state.(msg1 := msg1);
      state := state.(cI := [id]);
      r := ComposeMessage2(gXY, msg1);
      if r.Err? {
        Poison();
      }
    }

    /** The closure of the first half of message 3; changes nothing. */
    method DecryptMessage3(msg3: bytes) returns (r: Result<Pending3, EdhocError>)
      requires Sizes(crypto)
      ensures r == OpenMessage3(crypto, state, msg3)
    {
      hide Kdf, Aad3, ParseIdCred, ParseBstr;
      var parsed :- ParseBstr(msg3);
      var ct := parsed.0;
      if parsed.1 != |msg3| {
        return Err(InvalidMessage);
      }
      SmallKdfFits(crypto, state.prk3e2m, LABEL_K_3, state.th3, Message.KEY_LEN);
      SmallKdfFits(crypto, state.prk3e2m, LABEL_IV_3, state.th3, NONCE_LEN);
      var key := EdhocKdf(crypto, state.prk3e2m, LABEL_K_3, state.th3, Message.KEY_LEN);
      var iv := EdhocKdf(crypto, state.prk3e2m, LABEL_IV_3, state.th3, NONCE_LEN);
      var aad := BuildAad3(state.th3);
      if |ct| < TAG_LEN {
        return Err(InvalidMessage);
      }
      var _ :- Extend([], PLAINTEXT_CAP, ct[..|ct| - TAG_LEN]);
      var decrypted := crypto.open(key.value, iv.value, aad, ct);
      if decrypted.None? {
        return Err(DecryptFailed);
      }
      var pt := decrypted.value;
      var cred :- ParseIdCredential(pt);
      var signature :- ParseBstr(pt[cred.1..]);
      if |signature.0| != crypto.sigLen || cred.1 + signature.1 != |pt| {
        return Err(InvalidMessage);
      }
      return Ok(PendingData3(cred.0, pt, cred.1, state.th3));
    }

    method BeginProcessMessage3(msg3: bytes) returns (r: Result<Pending3, EdhocError>)
      requires Sizes(crypto)
      modifies this
      ensures (Value(), r) == BeginMessage3(crypto, old(Value()), msg3)
    {
      hide OpenMessage3;
      if state.lifecycle != AwaitingMessage3 {
        return Err(InvalidState);
      }
      r := DecryptMessage3(msg3);
      if r.Err? {
        Poison();
      } else {
        state := state.(lifecycle := PendingMessage3);
      }
    }

    /** The closure of the second half of message 3. */
    method VerifyAndComplete(pending: Pending3, peer: PeerCredential) returns (r: Result<(), EdhocError>)
      requires Sizes(crypto)
      modifies this`state
      ensures var spec := CompleteMessage3(crypto, old(state), pending, peer);
              if spec.Err? then r == Err(spec.error) && state.cI == old(state.cI) && state.msg1 == old(state.msg1)
              else r == Ok(()) && state == spec.value
    {
      hide ParseBstr, CheckPeer, Context3, Kdf, SignatureStructure, NextTranscript;
      var _ :- ValidatePeerCredential(crypto, peer);
      var signature :- ParseBstr(pending.plaintext[pending.signatureOffset..]);
      if |signature.0| != crypto.sigLen {
        return Err(InvalidMessage);
      }
      state := state.(prk4e3m := state.prk3e2m);
      var context3 :- BuildContext3(pending.idCred.encoded, state.th3, peer.credential);
      var mac3 :- EdhocKdf(crypto, state.prk4e3m, LABEL_MAC_3, context3, 32);
      var m3 :- BuildSignatureStructure(pending.idCred.encoded, state.th3, peer.credential, mac3);
      if !crypto.verify(peer.publicKey, m3, signature.0) {
        return Err(SignatureVerification);
      }
      var th4 :- ComputeNextTranscript(crypto, state.th3, pending.plaintext, peer.credential);
      state := state.(th4 := th4);
      state := state.(completed := true);
      state := state.(lifecycle := Complete);
      return Ok(());
    }

    method FinishProcessMessage3(pending: Pending3, peer: PeerCredential) returns (r: Result<(), EdhocError>)
      requires Sizes(crypto)
      modifies this
      ensures (Value(), r) == FinishMessage3(crypto, old(Value()), pending, peer)
    {
      hide CompleteMessage3;
      if state.lifecycle != PendingMessage3 || pending.transcriptBinding != state.th3 {
        Poison();
        return Err(InvalidState);
      }
      if peer.idCred != pending.idCred.encoded {
        Poison();
        return Err(SignatureVerification);
      }
      r := VerifyAndComplete(pending, peer);
      if r.Err? {
        Poison();
      }
    }

    method ProcessMessage3WithCredential(msg3: bytes, peer: PeerCredential) returns (r: Result<(), EdhocError>)
      requires Sizes(crypto)
      modifies this
      ensures (Value(), r) == ProcessMessage3(crypto, old(Value()), msg3, peer)
    {
      hide BeginMessage3, FinishMessage3;
      var pending :- BeginProcessMessage3(msg3);
      r := FinishProcessMessage3(pending, peer);
    }

    /** With the peer's key alone: its raw-key credential is built first. */
    method ProcessMessage3WithKey(msg3: bytes, peerKey: Bytes32) returns (r: Result<(), EdhocError>)
      requires Sizes(crypto)
      modifies this
      ensures (Value(), r) == ProcessMessage3(crypto, old(Value()), msg3, RawKeyPeer(crypto, peerKey))
    {
      hide ProcessMessage3;
      var idCred := EncodeIdCred([], 40, crypto, peerKey);
      var credential := EncodeCredential([], 80, peerKey);
      assert idCred.value == IdCredOf(crypto, peerKey) && credential.value == CredentialOf(peerKey);
      r := ProcessMessage3WithCredential(msg3, PeerCredential(peerKey, idCred.value, credential.value));
    }

    method ExportOscore() returns (r: Result<Context.Context, Message.OscoreError>)
      requires Sizes(crypto)
      ensures var material := ExportResponder(crypto, Value());
              && (material.Err? ==> r == Err(material.error))
              && (material.Ok? ==> r.Ok? && fresh(r.value) && ExportedAs(r.value, crypto, material.value))
    {
      if !state.completed || state.prk4e3m == Zeros(32) {
        return Err(Message.NoContext);
      }
      r := ExportContext(crypto, state.prk4e3m, state.th4, state.cI, cR);
    }

    /** Explicit wiping by the application. */
    method Zeroize()
      modifies this
      ensures Value() == WipedResponder(old(Value()), Lifecycle.Zeroized)
    {
      seed := Zeros(32);
      ephSecret := None;
      state := state.Zeroed(Lifecycle.Zeroized);
    }
  }
}
