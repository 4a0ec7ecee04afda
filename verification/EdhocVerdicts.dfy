/**
 * What each call on the two automata accepts, said of the bytes and the fields, and what each refusal leaves behind.
 */
module EdhocVerdicts {
  import opened Bytes
  import opened Crypto
  import opened Cbor
  import opened EdhocCbor
  import opened EdhocCredential
  import opened EdhocKeys
  import opened EdhocInitiator
  import opened EdhocResponder
  import opened EdhocGrammar
  import opened EdhocAuthentication
  import Message

  // Peers

  /** A credential that is a map of three pairs must be the COSE_Key of exactly the peer's key, whatever follows it. */
  lemma PeerVerdict(c: Crypto, peer: PeerCredential)
    ensures var r, cred := CheckPeer(c, peer), peer.credential;
            && (!c.validPoint(peer.publicKey) ==> r == Err(SignatureVerification))
            && (c.validPoint(peer.publicKey) && (cred == [] || cred[0] != 0xA3) ==> r == Ok(()))
            && (c.validPoint(peer.publicKey) && cred != [] && cred[0] == 0xA3 ==>
                  && (r.Ok? <==> |cred| >= 6 && cred[..6] == [0xA3, 0x01, 0x01, 0x20, 0x06, 0x21]
                                 && ParseBstr(cred[6..]).Ok? && ParseBstr(cred[6..]).value.0 == peer.publicKey)
                  && (r == Err(SignatureVerification)
                      <==> |cred| >= 6 && cred[..6] == [0xA3, 0x01, 0x01, 0x20, 0x06, 0x21]
                           && ParseBstr(cred[6..]).Ok? && ParseBstr(cred[6..]).value.0 != peer.publicKey))
  {
    hide ParseBstr;
    var cred := peer.credential;
    assert COSE_KEY_HEAD <= cred <==> |cred| >= 6 && cred[..6] == COSE_KEY_HEAD;
  }

  // Plaintexts

  /** Exactly one signature, of the length of the scheme. */
  predicate IsSignature(c: Crypto, item: bytes) {
    ParseBstr(item).Ok? && ParseBstr(item).value.1 == |item| && |ParseBstr(item).value.0| == c.sigLen
  }

  predicate IsReference(item: bytes, idCred: IdCred) {
    ParseIdCred(item) == Ok((idCred, |item|))
  }

  predicate IsIdentifier(item: bytes, id: ConnectionId) {
    ParseIdentifier(item) == Ok((id, |item|))
  }

  /** The parts of a second plaintext that reads as this. */
  predicate Plaintext2Form(c: Crypto, pt: bytes, cR: ConnectionId, idCred: IdCred, offset: nat, a: bytes, b: bytes, s: bytes) {
    pt == a + b + s && offset == |a| + |b| && IsIdentifier(a, cR) && IsReference(b, idCred) && IsSignature(c, s)
  }

  lemma Plaintext2Read(c: Crypto, pt: bytes, cI: ConnectionId)
    requires ParsePlaintext2(c, pt, cI).Ok?
    ensures var (cR, idCred, offset) := ParsePlaintext2(c, pt, cI).value;
            cR != cI && exists a, b, s :: Plaintext2Form(c, pt, cR, idCred, offset, a, b, s)
  {
    hide ParseIdentifier, ParseIdCred, ParseBstr;
    var (cR, idCred, offset) := ParsePlaintext2(c, pt, cI).value;
    var n := ParseIdentifier(pt).value.1;
    var a, b, s := pt[..n], pt[n..offset], pt[offset..];
    assert pt == a + b + s;
    assert a[..n] == pt[..n] && pt[n..][..|b|] == b == b[..|b|];
    IdentifierIsPrefixStable(pt, a);
    IdCredIsPrefixStable(pt[n..], b);
    assert Plaintext2Form(c, pt, cR, idCred, offset, a, b, s);
  }

  lemma Plaintext2Reads(c: Crypto, pt: bytes, cI: ConnectionId, cR: ConnectionId, idCred: IdCred, offset: nat,
                        a: bytes, b: bytes, s: bytes)
    requires cR != cI && Plaintext2Form(c, pt, cR, idCred, offset, a, b, s)
    ensures ParsePlaintext2(c, pt, cI) == Ok((cR, idCred, offset))
  {
    hide ParseIdentifier, ParseIdCred, ParseBstr;
    assert pt[..|a|] == a && a[..|a|] == a;
    assert pt[|a|..] == b + s && (b + s)[..|b|] == b && b[..|b|] == b;
    assert pt[offset..] == s;
    IdentifierIsPrefixStable(a, pt);
    IdCredIsPrefixStable(b, b + s);
  }

  /**
   * The second plaintext is an identifier other than the initiator's own, a reference and a signature, with nothing
   * behind it.
   */
  lemma Plaintext2Verdict(c: Crypto, pt: bytes, cI: ConnectionId, cR: ConnectionId, idCred: IdCred, offset: nat)
    ensures ParsePlaintext2(c, pt, cI) == Ok((cR, idCred, offset))
            <==> cR != cI && exists a, b, s :: Plaintext2Form(c, pt, cR, idCred, offset, a, b, s)
  {
    hide ParsePlaintext2, Plaintext2Form;
    if ParsePlaintext2(c, pt, cI) == Ok((cR, idCred, offset)) {
      Plaintext2Read(c, pt, cI);
    }
    if cR != cI && exists a, b, s :: Plaintext2Form(c, pt, cR, idCred, offset, a, b, s) {
      var a, b, s :| Plaintext2Form(c, pt, cR, idCred, offset, a, b, s);
      Plaintext2Reads(c, pt, cI, cR, idCred, offset, a, b, s);
    }
  }

  /** The second message is one byte string with a key, at least one byte more, and room for a signature. */
  lemma Message2Verdict(c: Crypto, msg2: bytes, gY: Bytes32, ciphertext: bytes)
    ensures SplitMessage2(c, msg2) == Ok((gY, ciphertext))
            <==> ParseBstr(msg2) == Ok((gY + ciphertext, |msg2|)) && |ciphertext| >= 1 + c.sigLen
  {
    hide ParseBstr;
    if ParseBstr(msg2).Ok? {
      var data := ParseBstr(msg2).value.0;
      if |data| >= 32 {
        assert data == data[..32] + data[32..];
      }
      if data == gY + ciphertext {
        assert data[..32] == gY && data[32..] == ciphertext;
      }
    }
  }

  /** The first message is created once, in the first state only. */
  lemma CreateVerdict(s: Initiator)
    ensures var (after, r) := FirstMessage(s);
            && (s.state.lifecycle != Created ==> after == s && r == Err(InvalidState))
            && (s.state.lifecycle == Created ==>
                  && r == Ok(Message1(s.ephPublic, s.cI))
                  && after == s.(state := s.state.(msg1 := r.value, lifecycle := Message1Created)))
  {
  }

  /** Export is refused before completion and without a key, and otherwise only if no context can be made. */
  lemma ExportVerdict(c: Crypto, i: Initiator, r: Responder)
    requires Sizes(c)
    ensures !i.state.completed || i.state.prk4e3m == Zeros(32) ==> ExportInitiator(c, i) == Err(Message.NoContext)
    ensures i.state.completed && i.state.prk4e3m != Zeros(32) ==>
              (ExportInitiator(c, i).Err? <==> i.state.cR == i.cI) && ExportInitiator(c, i) != Err(Message.NoContext)
    ensures !r.state.completed || r.state.prk4e3m == Zeros(32) ==> ExportResponder(c, r) == Err(Message.NoContext)
    ensures r.state.completed && r.state.prk4e3m != Zeros(32) ==>
              (ExportResponder(c, r).Err? <==> r.state.cI == r.cR) && ExportResponder(c, r) != Err(Message.NoContext)
  {
    hide Exporter;
  }

  /** A second plaintext that fails names the part that does. */
  lemma Plaintext2Refusals(c: Crypto, pt: bytes, cI: ConnectionId)
    ensures var r, id := ParsePlaintext2(c, pt, cI), ParseIdentifier(pt);
            && (id.Err? ==> r == Err(id.error))
            && (id.Ok? && id.value.0 == cI ==> r == Err(InvalidMessage))
            && (id.Ok? && id.value.0 != cI ==>
                  var cred := ParseIdCred(pt[id.value.1..]);
                  && (cred.Err? ==> r == Err(cred.error))
                  && (cred.Ok? && r.Err? ==> r == Err(InvalidMessage)))
  {
    hide ParseIdentifier, ParseIdCred, ParseBstr;
  }

  /** The signature is checked last, and only its refusal by the key is reported as such, besides a peer that fails its check. */
  lemma VerifyRefusals(c: Crypto, i: InitiatorState, pending: Pending2, r: ResponderState, pending': Pending3, peer: PeerCredential)
    ensures CheckPeer(c, peer).Err? ==> Verify2(c, i, pending, peer) == Verify3(c, r, pending', peer) == Err(CheckPeer(c, peer).error)
    ensures CheckPeer(c, peer).Ok? ==>
              var v, claim := Verify2(c, i, pending, peer), ExpectedOfResponder(c, i, pending.cR, peer.(idCred := pending.idCred.encoded));
              var signature := ParseBstr(pending.plaintext[pending.signatureOffset..]);
              && (signature.Err? ==> v == Err(InvalidMessage))
              && (signature.Ok? && (claim.Err? || Structure(claim.value).Err?) ==> v == Err(BufferTooSmall))
              && (signature.Ok? && claim.Ok? && Structure(claim.value).Ok? ==>
                    v == if |signature.value.0| != c.sigLen then Err(InvalidMessage)
                         else if !c.verify(peer.publicKey, Structure(claim.value).value, signature.value.0)
                         then Err(SignatureVerification) else Ok(()))
    ensures CheckPeer(c, peer).Ok? ==>
              var v, claim := Verify3(c, r, pending', peer), ExpectedOfInitiator(c, r, peer.(idCred := pending'.idCred.encoded));
              var signature := ParseBstr(pending'.plaintext[pending'.signatureOffset..]);
              && (signature.Err? || |signature.value.0| != c.sigLen ==> v == Err(InvalidMessage))
              && (signature.Ok? && |signature.value.0| == c.sigLen && (claim.Err? || Structure(claim.value).Err?) ==>
                    v == Err(BufferTooSmall))
              && (signature.Ok? && |signature.value.0| == c.sigLen && claim.Ok? && Structure(claim.value).Ok? ==>
                    v == if !c.verify(peer.publicKey, Structure(claim.value).value, signature.value.0)
                         then Err(SignatureVerification) else Ok(()))
  {
    hide ParseBstr, CheckPeer, Kdf, Identifier, Bstr;
  }

  // The initiator

  /** Calls in the wrong state, and messages that are no attempt at a second message, leave an initiator as it is. */
  lemma Begin2Verdict(c: Crypto, s: Initiator, msg2: bytes)
    requires Sizes(c)
    ensures var (after, r) := BeginMessage2(c, s, msg2);
            var ready := s.state.lifecycle == Message1Created && s.ephSecret.Some?;
            && (!ready ==> after == s && r == Err(InvalidState))
            && (ready && msg2 != [] && msg2[0] == 2 ==> after == Wiped(s, Failed) && r == Err(SuiteError(msg2)))
            && (ready && (msg2 == [] || msg2[0] != 2) && SplitMessage2(c, msg2).Err? ==>
                  after == s && r == Err(InvalidMessage))
            && (ready && (msg2 == [] || msg2[0] != 2) && SplitMessage2(c, msg2).Ok? && r.Err? ==>
                  after == Wiped(s, Failed))
  {
    hide OpenMessage2, SplitMessage2;
  }

  /** The answer that suites are unsupported is taken as such if a list of suites fills the message, and as malformed otherwise. */
  lemma SuiteErrors(msg2: bytes)
    requires msg2 != [] && msg2[0] == 2
    ensures SuiteError(msg2) in {UnsupportedSuite, InvalidMessage}
    ensures SuiteError(msg2) == UnsupportedSuite
            <==> |msg2| >= 2 && var n := |msg2| - 1;
                    (msg2[1] <= 23 && n == 1) || (msg2[1] == 0x18 && n == 2)
                    || (0x80 <= msg2[1] <= 0x97 && n == 1 + (msg2[1] - 0x80))
                    || (msg2[1] == 0x98 && n >= 2 && n == 2 + msg2[2] as int)
  {
    var d := msg2[1..];
    if |msg2| >= 2 {
      assert d[0] == msg2[1];
    }
    if |msg2| >= 3 {
      assert d[1] == msg2[2];
    }
  }

  /** With a shared secret, a ciphertext of at most 128 bytes and a plaintext in form, the second message is pending. */
  lemma Open2Verdict(c: Crypto, st: InitiatorState, cI: ConnectionId, gXY: Bytes32, ciphertext: bytes)
    requires Sizes(c)
    ensures var r := OpenMessage2(c, st, cI, gXY, ciphertext);
            var th2 := Transcript2(c, st.gY, st.msg1);
            var prk := c.extract(th2, gXY);
            && (r.Ok? <==> && gXY != Zeros(32) && |ciphertext| <= 128
                           && ParsePlaintext2(c, XorBytes(ciphertext, Keystream2(c, prk, th2, |ciphertext|)), cI).Ok?)
            && (gXY == Zeros(32) ==> r == Err(InvalidMessage))
            && (gXY != Zeros(32) && |ciphertext| > 128 ==> r == Err(BufferTooSmall))
            && (r.Ok? ==>
                  var (cR, idCred, offset) := ParsePlaintext2(c, XorBytes(ciphertext, Keystream2(c, prk, th2, |ciphertext|)), cI).value;
                  r.value == (st.(th2 := th2, prk2e := prk, prk3e2m := prk, lifecycle := PendingMessage2),
                              PendingData2(idCred, XorBytes(ciphertext, Keystream2(c, prk, th2, |ciphertext|)), cR, offset, th2)))
  {
    hide ParsePlaintext2, Transcript2, KdfInfo;
    var th2 := Transcript2(c, st.gY, st.msg1);
    if |ciphertext| <= 128 {
      SmallKdfFits(c, c.extract(th2, gXY), LABEL_KEYSTREAM_2, th2, |ciphertext|);
    }
  }

  lemma VerifiedCredentialIsShort(c: Crypto, st: InitiatorState, pending: Pending2, peer: PeerCredential)
    requires Verify2(c, st, pending, peer).Ok?
    ensures NextTranscript(c, st.th2, pending.plaintext, peer.credential).Ok?
  {
    hide ParseBstr, CheckPeer, Context2, Kdf, SignatureInput;
    BstrLength(st.th2);
    BstrLength(pending.plaintext);
  }

  /**
   * The second half: a wrong state, a message of another session or another reference leaves the initiator as it is, and
   * it can be tried again; anything else that fails wipes it.
   */
  lemma Finish2Verdict(c: Crypto, s: Initiator, pending: Pending2, peer: PeerCredential)
    requires Sizes(c)
    ensures var (after, r) := FinishMessage2(c, s, pending, peer);
            var ready := s.state.lifecycle == PendingMessage2 && pending.transcriptBinding == s.state.th2;
            var named := peer.idCred == pending.idCred.encoded;
            && (!ready ==> after == s && r == Err(InvalidState))
            && (ready && !named ==> after == s && r == Err(SignatureVerification))
            && (ready && named && r.Err? ==> after == Wiped(s.(state := s.state.(cR := after.state.cR)), Failed))
            && (r.Ok? <==>
                && ready && named && CheckPeer(c, peer).Ok?
                && |SignatureAt(pending.plaintext, pending.signatureOffset)| == c.sigLen
                && ParseBstr(pending.plaintext[pending.signatureOffset..]).Ok?
                && Verified(c, peer.publicKey, ExpectedOfResponder(c, s.state, pending.cR, peer),
                            SignatureAt(pending.plaintext, pending.signatureOffset)))
  {
    hide ParseBstr, CheckPeer, Context2, Kdf, Plaintext3, Encrypt3, TranscriptHash;
    if Verify2(c, s.state, pending, peer).Ok? {
      VerifiedCredentialIsShort(c, s.state, pending, peer);
    }
  }

  // The responder

  /** The parts of a first message that reads as this. */
  predicate Message1Form(msg1: bytes, gX: Bytes32, id: byte, suites: bytes, tail: bytes) {
    && msg1 == [0] + suites + ([0x58, 0x20] + gX + tail)
    && SuitesI(suites) == Some((0, |suites|))
    && (if id <= 23 then tail == [id] || tail == [0x41, id] else tail == [0x41, id])
  }

  lemma SuitesArePrefixStable(d: bytes, e: bytes)
    requires SuitesI(d).Some? && SameFront(d, e, SuitesI(d).value.1)
    ensures SuitesI(e) == SuitesI(d)
  {
    hide SuitesI, FirstValue, SuiteArray, SuiteHead, SuiteValue;
    var (suite, n) := SuitesI(d).value;
    assert d[0] == d[..n][0] == e[..n][0] == e[0];
    assert d[..n] == e[..n];
    if d[0] / 32 == 4 {
      SuiteListsRead(d, suite, n);
      SuiteListsRead(e, suite, n);
    } else {
      SingleSuitesRead(d, suite, n);
      SingleSuitesRead(e, suite, n);
    }
  }

  lemma Message1Read(msg1: bytes, gX: Bytes32, id: byte)
    requires KeyOffset(msg1).Ok?
    requires var start := KeyOffset(msg1).value;
             msg1[start + 2..start + 34] == gX && LastIdentifier(msg1[start + 34..]) == Ok(id)
    ensures 37 <= |msg1| <= 64 && exists suites, tail :: Message1Form(msg1, gX, id, suites, tail)
  {
    hide SuitesI;
    var start := KeyOffset(msg1).value;
    var suites, tail := msg1[1..start], msg1[start + 34..];
    assert msg1[1..][..|suites|] == suites == suites[..|suites|];
    SuitesArePrefixStable(msg1[1..], suites);
    assert msg1[start..start + 2] == [0x58, 0x20];
    assert msg1 == [msg1[0]] + suites + (msg1[start..start + 2] + msg1[start + 2..start + 34] + tail);
    assert Message1Form(msg1, gX, id, suites, tail);
  }

  lemma Message1Reads(msg1: bytes, gX: Bytes32, id: byte, suites: bytes, tail: bytes)
    requires 37 <= |msg1| <= 64 && Message1Form(msg1, gX, id, suites, tail)
    ensures KeyOffset(msg1) == Ok(1 + |suites|)
    ensures msg1[1 + |suites| + 2..1 + |suites| + 34] == gX
    ensures LastIdentifier(msg1[1 + |suites| + 34..]) == Ok(id)
  {
    hide SuitesI;
    var start := 1 + |suites|;
    var rest := [0x58, 0x20] + gX + tail;
    assert msg1[1..] == suites + rest;
    assert (suites + rest)[..|suites|] == suites == suites[..|suites|];
    SuitesArePrefixStable(suites, suites + rest);
    assert msg1[start..] == rest;
    assert msg1[start] == rest[0] && msg1[start + 1] == rest[1];
    assert msg1[start + 2..start + 34] == rest[2..34] && msg1[start + 34..] == rest[34..];
  }

  /** A first message gets as far as the shared secret exactly in this form, between 37 and 64 bytes long. */
  lemma Message1Verdict(msg1: bytes, gX: Bytes32, id: byte)
    ensures (KeyOffset(msg1).Ok? && var start := KeyOffset(msg1).value;
               msg1[start + 2..start + 34] == gX && LastIdentifier(msg1[start + 34..]) == Ok(id))
            <==> 37 <= |msg1| <= 64 && exists suites, tail :: Message1Form(msg1, gX, id, suites, tail)
  {
    if KeyOffset(msg1).Ok? && var start := KeyOffset(msg1).value;
         msg1[start + 2..start + 34] == gX && LastIdentifier(msg1[start + 34..]) == Ok(id) {
      Message1Read(msg1, gX, id);
    }
    if 37 <= |msg1| <= 64 && exists suites, tail :: Message1Form(msg1, gX, id, suites, tail) {
      var suites, tail :| Message1Form(msg1, gX, id, suites, tail);
      Message1Reads(msg1, gX, id, suites, tail);
    }
  }

  /** Which refusals a first message gets before its key is read. */
  lemma Message1Refusals(msg1: bytes)
    ensures KeyOffset(msg1) == Err(BufferTooSmall) <==> |msg1| > 64
    ensures KeyOffset(msg1) == Err(UnsupportedSuite)
            <==> 37 <= |msg1| <= 64 && msg1[0] == 0 && SuitesI(msg1[1..]).Some? && SuitesI(msg1[1..]).value.0 != 0
    ensures KeyOffset(msg1).Err? ==> KeyOffset(msg1).error in {BufferTooSmall, UnsupportedSuite, InvalidMessage}
  {
    hide SuitesI;
  }

  lemma Accept1Verdict(c: Crypto, s: Responder, msg1: bytes)
    requires Sizes(c)
    ensures var (after, r) := AcceptMessage1(c, s, msg1);
            var ready := s.state.lifecycle == Created && s.ephSecret.Some?;
            && (!ready ==> after == s && r == Err(InvalidState))
            && (ready && KeyOffset(msg1).Err? ==> after == s && r == Err(KeyOffset(msg1).error))
            && (ready && KeyOffset(msg1).Ok? ==>
                  var start := KeyOffset(msg1).value;
                  var gX, id := msg1[start + 2..start + 34], LastIdentifier(msg1[start + 34..]);
                  if id.Err? then after == s.(state := s.state.(gX := gX)) && r == Err(InvalidMessage)
                  else
                    && (r.Ok? <==> s.cR != [id.value] && c.dh(s.ephSecret.value, gX) != Zeros(32))
                    && (r.Ok? ==>
                          && after.ephSecret == None && after.state.msg1 == msg1 && after.state.gX == gX
                          && after.state.cI == [id.value] && after.state.lifecycle == AwaitingMessage3
                          && after.state.th2 == Transcript2(c, s.ephPublic, msg1)
                          && after.state.prk2e == after.state.prk3e2m
                             == c.extract(after.state.th2, c.dh(s.ephSecret.value, gX)))
                    && (r.Err? ==>
                          && r == Err(InvalidMessage)
                          && after.state.lifecycle == Failed && after.seed == Zeros(32) && after.ephSecret == None))
  {
    hide KeyOffset, Plaintext2, Message2, TranscriptHash, Transcript2;
  }

  /** The parts of a third plaintext that reads as this. */
  predicate Plaintext3Form(c: Crypto, pt: bytes, idCred: IdCred, offset: nat, b: bytes, s: bytes) {
    pt == b + s && offset == |b| && IsReference(b, idCred) && IsSignature(c, s)
  }

  /**
   * The third message is one byte string of at most 136 bytes that opens, under the third key, to a reference and a
   * signature with nothing behind them; anything else wipes the responder.
   */
  lemma Open3Verdict(c: Crypto, st: ResponderState, msg3: bytes, pending: Pending3)
    requires Sizes(c)
    ensures OpenMessage3(c, st, msg3) == Ok(pending)
            ==> && ParseBstr(msg3).Ok? && ParseBstr(msg3).value.1 == |msg3| && 8 <= |ParseBstr(msg3).value.0| <= 136
                && c.open(Key3(c, st.prk3e2m, st.th3), Iv3(c, st.prk3e2m, st.th3), Aad3(st.th3), ParseBstr(msg3).value.0)
                   == Some(pending.plaintext)
                && pending.transcriptBinding == st.th3
                && exists b, s :: Plaintext3Form(c, pending.plaintext, pending.idCred, pending.signatureOffset, b, s)
    ensures forall ct, pt, b, s ::
              ParseBstr(msg3) == Ok((ct, |msg3|)) && 8 <= |ct| <= 136 && |pt| <= 128
              && c.open(Key3(c, st.prk3e2m, st.th3), Iv3(c, st.prk3e2m, st.th3), Aad3(st.th3), ct) == Some(pt)
              && Plaintext3Form(c, pt, pending.idCred, pending.signatureOffset, b, s) && pending.plaintext == pt
              && pending.transcriptBinding == st.th3
              ==> OpenMessage3(c, st, msg3) == Ok(pending)
  {
    hide Key3, Iv3, Aad3, ParseIdCred, ParseBstr;
    if OpenMessage3(c, st, msg3) == Ok(pending) {
      var pt := pending.plaintext;
      var b, s := pt[..pending.signatureOffset], pt[pending.signatureOffset..];
      assert pt == b + s && b[..|b|] == b;
      IdCredIsPrefixStable(pt, b);
      assert Plaintext3Form(c, pt, pending.idCred, pending.signatureOffset, b, s);
    }
    forall ct, pt, b, s |
      ParseBstr(msg3) == Ok((ct, |msg3|)) && 8 <= |ct| <= 136 && |pt| <= 128
      && c.open(Key3(c, st.prk3e2m, st.th3), Iv3(c, st.prk3e2m, st.th3), Aad3(st.th3), ct) == Some(pt)
      && Plaintext3Form(c, pt, pending.idCred, pending.signatureOffset, b, s) && pending.plaintext == pt
      && pending.transcriptBinding == st.th3
      ensures OpenMessage3(c, st, msg3) == Ok(pending)
    {
      assert pt[..|b|] == b && b[..|b|] == b && pt[|b|..] == s;
      IdCredIsPrefixStable(b, pt);
    }
  }

  /** Which refusal means what. */
  lemma Open3Refusals(c: Crypto, st: ResponderState, msg3: bytes)
    requires Sizes(c)
    ensures var r, item := OpenMessage3(c, st, msg3), ParseBstr(msg3);
            && (item.Err? || item.value.1 != |msg3| || |item.value.0| < 8 ==> r == Err(InvalidMessage))
            && (item.Ok? && item.value.1 == |msg3| && |item.value.0| > 136 ==> r == Err(BufferTooSmall))
            && (item.Ok? && item.value.1 == |msg3| && 8 <= |item.value.0| <= 136 ==>
                  var opened' := c.open(Key3(c, st.prk3e2m, st.th3), Iv3(c, st.prk3e2m, st.th3), Aad3(st.th3), item.value.0);
                  && (r == Err(DecryptFailed) <==> opened'.None?)
                  && (opened'.Some? && ParseIdCred(opened'.value).Err? ==> r == Err(ParseIdCred(opened'.value).error))
                  && (opened'.Some? && ParseIdCred(opened'.value).Ok? && r.Err? ==> r == Err(InvalidMessage)))
  {
    hide Key3, Iv3, Aad3, ParseBstr, Pairs, IdCredMap;
  }

  lemma Begin3Verdict(c: Crypto, s: Responder, msg3: bytes)
    requires Sizes(c)
    ensures var (after, r) := BeginMessage3(c, s, msg3);
            && (s.state.lifecycle != AwaitingMessage3 ==> after == s && r == Err(InvalidState))
            && (s.state.lifecycle == AwaitingMessage3 && r.Err? ==> after == WipedResponder(s, Failed))
            && (r.Ok? <==> s.state.lifecycle == AwaitingMessage3 && OpenMessage3(c, s.state, msg3).Ok?)
            && (r.Ok? ==> after == s.(state := s.state.(lifecycle := PendingMessage3))
                          && r.value == OpenMessage3(c, s.state, msg3).value)
  {
    hide OpenMessage3;
  }

  lemma Verified3CredentialIsShort(c: Crypto, st: ResponderState, pending: Pending3, peer: PeerCredential)
    requires Verify3(c, st, pending, peer).Ok?
    ensures NextTranscript(c, st.th3, pending.plaintext, peer.credential).Ok?
  {
    hide ParseBstr, CheckPeer, Context3, Kdf, SignatureInput;
    BstrLength(st.th3);
    BstrLength(pending.plaintext);
  }

  /** The second half completes exactly for a verified signature, and wipes the responder otherwise, whatever the reason. */
  lemma Finish3Verdict(c: Crypto, s: Responder, pending: Pending3, peer: PeerCredential)
    ensures var (after, r) := FinishMessage3(c, s, pending, peer);
            var ready := s.state.lifecycle == PendingMessage3 && pending.transcriptBinding == s.state.th3;
            && (r.Err? ==> after == WipedResponder(s, Failed))
            && (!ready ==> r == Err(InvalidState))
            && (ready && peer.idCred != pending.idCred.encoded ==> r == Err(SignatureVerification))
            && (r.Ok? <==>
                && ready && peer.idCred == pending.idCred.encoded && CheckPeer(c, peer).Ok?
                && ParseBstr(pending.plaintext[pending.signatureOffset..]).Ok?
                && |SignatureAt(pending.plaintext, pending.signatureOffset)| == c.sigLen
                && Verified(c, peer.publicKey, ExpectedOfInitiator(c, s.state, peer),
                            SignatureAt(pending.plaintext, pending.signatureOffset)))
  {
    hide ParseBstr, CheckPeer, Context3, Kdf;
    if Verify3(c, s.state, pending, peer).Ok? {
      Verified3CredentialIsShort(c, s.state, pending, peer);
    }
  }

  // What wiping leaves

  /** Every secret, every derived value and the kept message are zero; public keys and identifiers stay. */
  lemma WipingLeaves(i: Initiator, r: Responder, lifecycle: Lifecycle)
    ensures var w := Wiped(i, lifecycle);
            && w.seed == Zeros(32) && w.ephSecret == None && w.state.gY == Zeros(32) && w.state.msg1 == Zeros(|i.state.msg1|)
            && w.state.prk2e == w.state.prk3e2m == w.state.prk4e3m == Zeros(32)
            && w.state.th2 == w.state.th3 == w.state.th4 == Zeros(32) && !w.state.completed
            && w.state.lifecycle == lifecycle
            && w.pubkey == i.pubkey && w.cI == i.cI && w.ephPublic == i.ephPublic && w.state.cR == i.state.cR
    ensures var w := WipedResponder(r, lifecycle);
            && w.seed == Zeros(32) && w.ephSecret == None && w.state.gX == Zeros(32) && w.state.msg1 == Zeros(|r.state.msg1|)
            && w.state.prk2e == w.state.prk3e2m == w.state.prk4e3m == Zeros(32)
            && w.state.th2 == w.state.th3 == w.state.th4 == Zeros(32) && !w.state.completed
            && w.state.lifecycle == lifecycle
            && w.pubkey == r.pubkey && w.cR == r.cR && w.ephPublic == r.ephPublic && w.state.cI == r.state.cI
  {
  }
}
