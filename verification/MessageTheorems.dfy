/** What protection is for: the peer recovers the message, and a response answers one request only. */
module MessageTheorems {
  import opened Bytes
  import opened SeqNumber
  import opened Window
  import opened Nonce
  import opened Crypto
  import opened OscoreCbor
  import opened CoapBody
  import opened Message
  import OscoreOption

  /** Two contexts made from the same secrets with the identifiers exchanged. */
  ghost predicate Mirrored(c: Crypto, a: Material, b: Material) {
    && NewMaterial(c, a.masterSecret, a.masterSalt, a.idContext, a.senderId, a.recipientId) == Ok(a)
    && NewMaterial(c, a.masterSecret, a.masterSalt, a.idContext, a.recipientId, a.senderId) == Ok(b)
  }

  lemma MirroredKeys(c: Crypto, a: Material, b: Material)
    requires Sound(c) && Mirrored(c, a, b)
    ensures WellFormed(a) && WellFormed(b) && Mirrored(c, b, a)
    ensures a.senderKey == b.recipientKey && a.recipientKey == b.senderKey && a.commonIv == b.commonIv
  {
  }

  /** The two sides exist together: construction accepts an input exactly when it accepts its mirror image. */
  lemma ConstructionIsSymmetric(c: Crypto, secret: bytes, salt: bytes, idContext: Option<bytes>, s: bytes, r: bytes)
    ensures NewMaterial(c, secret, salt, idContext, s, r).Ok? <==> NewMaterial(c, secret, salt, idContext, r, s).Ok?
    ensures NewMaterial(c, secret, salt, idContext, s, r).Ok? ==>
              Mirrored(c, NewMaterial(c, secret, salt, idContext, s, r).value,
                          NewMaterial(c, secret, salt, idContext, r, s).value)
  {
  }

  /** What the receiver can give back: bounded parts, and options its walker takes for options. */
  ghost predicate Recoverable(p: Plain) {
    |Plaintext(p)| <= 256 && |p.options| <= 128 && |p.payload| <= 128 && Walkable(p.options)
  }

  /** Options the strict parser takes as options only are always recoverable, within the bounds. */
  lemma OptionsOnlyRecoverable(p: Plain)
    requires OptionsOnly(p.options) && |p.options| <= OUT_CAP && |p.payload| <= OUT_CAP && |Plaintext(p)| <= PT_CAP
    ensures Recoverable(p)
  {
    BodySplitsAtSeam(p.options, p.payload, false);
    WalkStopsAtSeam(p.options, p.payload);
  }

  lemma ReadPlainInvertsPlaintext(p: Plain)
    ensures ReadPlain(Plaintext(p)) == Ok(p)
            <==> |p.options| <= 128 && |p.payload| <= 128 && Walkable(p.options)
  {
    hide Walk, Walkable;
    WalkStopsAtSeam(p.options, p.payload);
    var body := Body(p.options, p.payload);
    assert Plaintext(p)[1..] == body;
    assert body[..|p.options|] == p.options;
    if p.payload != [] {
      assert body[|p.options| + 1..] == p.payload;
    }
  }

  /** Opening what was sealed under the same key, nonce and AAD gives the message back exactly when recoverable. */
  lemma OpenInvertsSeal(c: Crypto, key: bytes, nonce: bytes, aad: bytes, p: Plain)
    requires Sound(c)
    ensures var ct := c.seal(key, nonce, aad, Plaintext(p));
            && |ct| >= TAG_LEN + 1
            && (Open(c, key, nonce, aad, ct).Ok? <==> |Plaintext(p)| <= PT_CAP)
            && (Open(c, key, nonce, aad, ct).Ok? ==> Open(c, key, nonce, aad, ct).value == Plaintext(p))
  {
  }

  /**
   * Requests: what one side seals under any sequence number, the other opens to the original code, options and
   * payload and to that number, exactly when the number is not a replay and the message is recoverable.
   */
  lemma RequestRoundTrip(c: Crypto, a: Material, b: Material, w: Window, n: SeqNum, p: Plain)
    requires Sound(c) && Mirrored(c, a, b) && WellFormed(a) && WellFormed(b)
    requires |Plaintext(p)| + TAG_LEN <= CT_CAP
    ensures SealRequest(c, a, n, p).Ok?
    ensures var (ct, option) := SealRequest(c, a, n, p).value;
            && (OpenRequest(c, b, w, option, ct) == Ok((n, p)) <==> !Reused(w, n) && Recoverable(p))
            && (Reused(w, n) ==> OpenRequest(c, b, w, option, ct) == Err(Replay))
  {
    hide ReadPlain, OscoreOption.Encode, Body, OscoreOption.Decode;
    MirroredKeys(c, a, b);
    OptionsValid(a, n);
    SeqNumber.DecodeInvertsEncode(n);
    OscoreOption.DecodeInvertsEncode(RequestOption(a, n));
    OpenInvertsSeal(c, a.senderKey, NonceOf(a.senderId, PivBytes(n), a.commonIv), Aad(a.senderId, PivBytes(n)), p);
    ReadPlainInvertsPlaintext(p);
  }

  /** The same with the conditions the callers of the library meet: options only, and the public bounds. */
  lemma RequestRoundTripOptionsOnly(c: Crypto, a: Material, b: Material, w: Window, n: SeqNum, p: Plain)
    requires Sound(c) && Mirrored(c, a, b) && WellFormed(a) && WellFormed(b)
    requires OptionsOnly(p.options) && |p.options| <= OUT_CAP && |p.payload| <= OUT_CAP && |Plaintext(p)| <= PT_CAP
    requires !Reused(w, n)
    ensures SealRequest(c, a, n, p).Ok?
    ensures OpenRequest(c, b, w, SealRequest(c, a, n, p).value.1, SealRequest(c, a, n, p).value.0) == Ok((n, p))
  {
    OptionsOnlyRecoverable(p);
    RequestRoundTrip(c, a, b, w, n, p);
  }

  /** When the response to request `q` may be accepted: its code is one of the classes 2 to 5 and no window objects. */
  predicate ResponseAcceptable(answered: Window, used: Window, q: SeqNum, own: Option<SeqNum>, p: Plain, observe: bool) {
    && 0x40 <= p.code <= 0xBF
    && (observe || !Reused(answered, q))
    && (if own.Some? then !Reused(used, own.value) else !observe)
  }

  /** Responses with the responder's own Partial IV, ordinary or Observe. */
  lemma ResponseWithPivRoundTrip(c: Crypto, client: Material, server: Material, answered: Window, used: Window,
                                 q: SeqNum, n: SeqNum, p: Plain, observe: bool)
    requires Sound(c) && Mirrored(c, client, server) && WellFormed(client) && WellFormed(server)
    requires |Plaintext(p)| + TAG_LEN <= CT_CAP
    ensures SealResponseWithPiv(c, server, n, client.senderId, PivBytes(q), p).Ok?
    ensures var (ct, option) := SealResponseWithPiv(c, server, n, client.senderId, PivBytes(q), p).value;
            OpenResponse(c, client, answered, used, option, ct, PivBytes(q), observe) == Ok(Opened(q, Some(n), p))
            <==> ResponseAcceptable(answered, used, q, Some(n), p, observe) && Recoverable(p)
  {
    hide ReadPlain, OscoreOption.Encode, Body, OscoreOption.Decode;
    MirroredKeys(c, client, server);
    OptionsValid(server, n);
    SeqNumber.DecodeInvertsEncode(n);
    SeqNumber.DecodeInvertsEncode(q);
    OscoreOption.DecodeInvertsEncode(PivOption(PivBytes(n)));
    OpenInvertsSeal(c, server.senderKey, NonceOf(server.senderId, PivBytes(n), server.commonIv),
                    Aad(client.senderId, PivBytes(q)), p);
    ReadPlainInvertsPlaintext(p);
  }

  lemma EmptyEncodesEmpty()
    ensures OscoreOption.Encode(OscoreOption.EMPTY_OPTION) == []
  {
  }

  /** Responses that reuse the request's nonce: both sides compute it from the client's identifier and request. */
  lemma ResponseNoPivRoundTrip(c: Crypto, client: Material, server: Material, answered: Window, used: Window,
                               q: SeqNum, p: Plain, observe: bool)
    requires Sound(c) && Mirrored(c, client, server) && WellFormed(client) && WellFormed(server)
    requires |Plaintext(p)| + TAG_LEN <= CT_CAP
    ensures SealResponseNoPiv(c, server, client.senderId, PivBytes(q), p).Ok?
    ensures var (ct, option) := SealResponseNoPiv(c, server, client.senderId, PivBytes(q), p).value;
            OpenResponse(c, client, answered, used, option, ct, PivBytes(q), observe) == Ok(Opened(q, None, p))
            <==> ResponseAcceptable(answered, used, q, None, p, observe) && Recoverable(p)
  {
    hide ReadPlain, OscoreOption.Encode, Body, OscoreOption.Decode;
    MirroredKeys(c, client, server);
    SeqNumber.DecodeInvertsEncode(q);
    OscoreOption.DecodeInvertsEncode(OscoreOption.EMPTY_OPTION);
    assert OscoreOption.Encode(OscoreOption.EMPTY_OPTION) == [] by {
      EmptyEncodesEmpty();
    }
    OpenInvertsSeal(c, server.senderKey, NonceOf(client.senderId, PivBytes(q), server.commonIv),
                    Aad(client.senderId, PivBytes(q)), p);
    ReadPlainInvertsPlaintext(p);
  }

  // Binding

  /** The nonce and the associated data under which a receiver tries to open something. */
  datatype Attempt = Attempt(nonce: bytes, aad: bytes)

  /** How a response is opened: the option decides whose number the nonce is made of. */
  ghost function ResponseAttempt(m: Material, option: bytes, requestPiv: bytes): Option<Attempt>
    requires WellFormed(m)
  {
    var o := OscoreOption.Decode(option);
    if o.None? || |o.value.piv| > PIV_MAX_LEN || SeqNumber.Decode(requestPiv).None? then None
    else
      var nonce := if o.value.piv != [] then NonceOf(m.recipientId, o.value.piv, m.commonIv)
                   else NonceOf(m.senderId, requestPiv, m.commonIv);
      Some(Attempt(nonce, Aad(m.senderId, requestPiv)))
  }

  lemma OpenedWasAttempted(c: Crypto, m: Material, answered: Window, used: Window, option: bytes, ct: bytes,
                           requestPiv: bytes, observe: bool)
    requires WellFormed(m) && OpenResponse(c, m, answered, used, option, ct, requestPiv, observe).Ok?
    ensures ResponseAttempt(m, option, requestPiv).Some?
    ensures var attempt := ResponseAttempt(m, option, requestPiv).value;
            var opened' := c.open(m.recipientKey, attempt.nonce, attempt.aad, ct);
            var r := OpenResponse(c, m, answered, used, option, ct, requestPiv, observe).value;
            && opened'.Some? && ReadPlain(opened'.value) == Ok(r.plain)
            && SeqNumber.Decode(requestPiv) == Some(r.requestSeq)
            && var piv := OscoreOption.Decode(option).value.piv;
            && r.responseSeq == SeqNumber.Decode(piv)
            && (piv == [] || SeqNumber.Decode(piv).Some?)
  {
    hide ReadPlain, NonceOf, Aad;
  }

  /**
   * One ciphertext accepted as the response to two different requests was opened by the AEAD under the associated
   * data of both, which differ.
   */
  lemma ResponseAnswersOneRequest(c: Crypto, m: Material, w1: Window, w2: Window, w3: Window, w4: Window,
                                  option1: bytes, option2: bytes, ct: bytes, piv1: bytes, piv2: bytes,
                                  observe1: bool, observe2: bool)
    requires WellFormed(m) && piv1 != piv2
    requires OpenResponse(c, m, w1, w2, option1, ct, piv1, observe1).Ok?
    requires OpenResponse(c, m, w3, w4, option2, ct, piv2, observe2).Ok?
    ensures ResponseAttempt(m, option1, piv1).Some? && ResponseAttempt(m, option2, piv2).Some?
    ensures var a1, a2 := ResponseAttempt(m, option1, piv1).value, ResponseAttempt(m, option2, piv2).value;
            && a1.aad == Aad(m.senderId, piv1) && a2.aad == Aad(m.senderId, piv2) && a1.aad != a2.aad
            && c.open(m.recipientKey, a1.nonce, a1.aad, ct).Some?
            && c.open(m.recipientKey, a2.nonce, a2.aad, ct).Some?
  {
    hide ReadPlain, OpenResponse, OscoreOption.Decode, NonceOf, Aad;
    OpenedWasAttempted(c, m, w1, w2, option1, ct, piv1, observe1);
    OpenedWasAttempted(c, m, w3, w4, option2, ct, piv2, observe2);
    if Aad(m.senderId, piv1) == Aad(m.senderId, piv2) {
      AadInjective(m.senderId, piv1, m.senderId, piv2);
    }
  }

  /** What a sender puts into the AEAD. */
  datatype Sealed = Sealed(key: bytes, nonce: bytes, aad: bytes, plaintext: bytes)

  /** This attempt opens what was sealed only under the nonce and associated data it was sealed under. */
  predicate Authentic(c: Crypto, s: Sealed, attempt: Attempt) {
    c.open(s.key, attempt.nonce, attempt.aad, c.seal(s.key, s.nonce, s.aad, s.plaintext)).Some?
    ==> attempt == Attempt(s.nonce, s.aad)
  }

  /** A tag that tells one nonce and one piece of associated data from all others. */
  function MarkingTag(s: Sealed, nonce: bytes, aad: bytes): (t: bytes)
    ensures |t| == TAG_LEN && (t[0] == 0 <==> nonce == s.nonce && aad == s.aad)
  {
    [if nonce == s.nonce && aad == s.aad then 0 else 1] + Zeros(TAG_LEN - 1)
  }

  function MarkingCrypto(s: Sealed): Crypto {
    Crypto(
      (x: bytes) => Zeros(32),
      (salt: bytes, ikm: bytes) => Zeros(32),
      (prk: bytes, info: bytes, n: nat) => Zeros(n),
      (x: Bytes32) => Zeros(32),
      (x: Bytes32, p: Bytes32) => Zeros(32),
      (x: Bytes32) => Zeros(32),
      (x: Bytes32, m: bytes) => Zeros(64),
      (p: Bytes32, m: bytes, sig: bytes) => true,
      (p: Bytes32) => true,
      (k: bytes, n: bytes, a: bytes, p: bytes) => p + MarkingTag(s, n, a),
      (k: bytes, n: bytes, a: bytes, ct: bytes) =>
        if |ct| >= TAG_LEN && ct[|ct| - TAG_LEN..] == MarkingTag(s, n, a) then Some(ct[..|ct| - TAG_LEN]) else None,
      64)
  }

  lemma MarkingCryptoOpens(s: Sealed, k: bytes, n: bytes, a: bytes, n': bytes, a': bytes, p: bytes)
    ensures var c := MarkingCrypto(s);
            c.open(k, n', a', c.seal(k, n, a, p))
            == if MarkingTag(s, n, a) == MarkingTag(s, n', a') then Some(p) else None
  {
    hide MarkingTag;
    ConcatSplit(p, MarkingTag(s, n, a));
  }

  /** Nothing in the laws of the primitives contradicts this, for any message and all attempts on it at once. */
  lemma AuthenticIsSatisfiable(s: Sealed)
    ensures exists c :: Sound(c) && forall attempt :: Authentic(c, s, attempt)
  {
    var c := MarkingCrypto(s);
    forall k, n, a, p ensures c.open(k, n, a, c.seal(k, n, a, p)) == Some(p) {
      MarkingCryptoOpens(s, k, n, a, n, a, p);
    }
    assert Sound(c);
    hide MarkingCrypto, MarkingTag, Sound;
    forall attempt ensures Authentic(c, s, attempt) {
      MarkingCryptoOpens(s, s.key, s.nonce, s.aad, attempt.nonce, attempt.aad, s.plaintext);
    }
  }

  /** What the responder seals for request `q`, under its own number or under the request's nonce. */
  function SealedResponse(client: Material, server: Material, q: SeqNum, own: Option<SeqNum>, p: Plain): Sealed
    requires WellFormed(client) && WellFormed(server)
  {
    OptionsValid(server, q);
    OptionsValid(server, if own.Some? then own.value else 0);
    var nonce := if own.Some? then NonceOf(server.senderId, PivBytes(own.value), server.commonIv)
                 else NonceOf(client.senderId, PivBytes(q), server.commonIv);
    Sealed(server.senderKey, nonce, Aad(client.senderId, PivBytes(q)), Plaintext(p))
  }

  ghost function SealResponse(c: Crypto, client: Material, server: Material, q: SeqNum, own: Option<SeqNum>, p: Plain)
    : Result<(bytes, bytes), OscoreError>
    requires WellFormed(server)
  {
    if own.Some? then SealResponseWithPiv(c, server, own.value, client.senderId, PivBytes(q), p)
    else SealResponseNoPiv(c, server, client.senderId, PivBytes(q), p)
  }

  lemma SealResponseSeals(c: Crypto, client: Material, server: Material, q: SeqNum, own: Option<SeqNum>, p: Plain)
    requires Sound(c) && Mirrored(c, client, server) && WellFormed(client) && WellFormed(server)
    requires |Plaintext(p)| + TAG_LEN <= CT_CAP
    ensures SealResponse(c, client, server, q, own, p).Ok?
    ensures var s := SealedResponse(client, server, q, own, p);
            SealResponse(c, client, server, q, own, p).value.0 == c.seal(s.key, s.nonce, s.aad, s.plaintext)
  {
    hide OscoreOption.Encode, Plaintext, Aad, NonceOf, Sound;
    MirroredKeys(c, client, server);
    SeqNumber.DecodeInvertsEncode(q);
  }

  /** Two nonces of one Common IV agree only for the same identifier and number, whatever the bytes they came as. */
  lemma SameNonceSamePiv(id1: bytes, id2: bytes, piv1: bytes, piv2: bytes, iv: CommonIv)
    requires |id1| <= NONCE_ID_LEN && |id2| <= NONCE_ID_LEN
    requires SeqNumber.Decode(piv1).Some? && SeqNumber.Decode(piv2).Some?
    ensures |piv1| <= PIV_MAX_LEN && |piv2| <= PIV_MAX_LEN
    ensures NonceOf(id1, piv1, iv) == NonceOf(id2, piv2, iv) ==> id1 == id2 && piv1 == piv2
  {
    EncodeInvertsDecode(piv1);
    EncodeInvertsDecode(piv2);
    NonceInjective(id1, id2, SeqNumber.Decode(piv1).value, SeqNumber.Decode(piv2).value, iv);
  }

  lemma OpensSealed(c: Crypto, s: Sealed)
    requires Sound(c)
    ensures c.open(s.key, s.nonce, s.aad, c.seal(s.key, s.nonce, s.aad, s.plaintext)) == Some(s.plaintext)
  {
  }

  /** An attempt with the nonce of a response names the number of that response in its option, or none. */
  lemma AttemptNamesNumber(c: Crypto, client: Material, server: Material, q: SeqNum, own: Option<SeqNum>, p: Plain,
                           option: bytes, requestPiv: bytes)
    requires Mirrored(c, client, server) && WellFormed(client) && WellFormed(server)
    requires ResponseAttempt(client, option, requestPiv).Some?
    requires ResponseAttempt(client, option, requestPiv).value.nonce == SealedResponse(client, server, q, own, p).nonce
    requires var piv := OscoreOption.Decode(option).value.piv; piv == [] || SeqNumber.Decode(piv).Some?
    ensures SeqNumber.Decode(OscoreOption.Decode(option).value.piv) == own
  {
    hide OscoreOption.Decode, NonceOf, Aad, Plaintext;
    var piv := OscoreOption.Decode(option).value.piv;
    var id1, piv1 := if piv != [] then client.recipientId else client.senderId, if piv != [] then piv else requestPiv;
    var id2, piv2 := if own.Some? then server.senderId else client.senderId, PivBytes(if own.Some? then own.value else q);
    SeqNumber.DecodeInvertsEncode(q);
    SeqNumber.DecodeInvertsEncode(if own.Some? then own.value else 0);
    SameNonceSamePiv(id1, id2, piv1, piv2, client.commonIv);
  }

  /**
   * A response is accepted only as what it was sent as: with whatever option and for whatever request its
   * ciphertext is presented, it is accepted for the request it answers only, under the number it was sent under,
   * with the message that was sent. So against every other request it is refused, in both modes.
   */
  lemma ResponseAcceptedOnlyAsSent(c: Crypto, client: Material, server: Material, answered: Window, used: Window,
                                   q: SeqNum, own: Option<SeqNum>, p: Plain,
                                   option: bytes, requestPiv: bytes, observe: bool)
    requires Sound(c) && Mirrored(c, client, server) && WellFormed(client) && WellFormed(server)
    requires |Plaintext(p)| + TAG_LEN <= CT_CAP
    requires var attempt := ResponseAttempt(client, option, requestPiv);
             attempt.Some? ==> Authentic(c, SealedResponse(client, server, q, own, p), attempt.value)
    ensures SealResponse(c, client, server, q, own, p).Ok?
    ensures var ct := SealResponse(c, client, server, q, own, p).value.0;
            var r := OpenResponse(c, client, answered, used, option, ct, requestPiv, observe);
            && (requestPiv != PivBytes(q) ==> r.Err?)
            && (r.Ok? ==> ReadPlain(Plaintext(p)).Ok? && r.value == Opened(q, own, ReadPlain(Plaintext(p)).value))
  {
    hide OpenResponse, SealResponse, ReadPlain, Plaintext, OscoreOption.Decode, NonceOf, Aad, Sound;
    SealResponseSeals(c, client, server, q, own, p);
    var ct := SealResponse(c, client, server, q, own, p).value.0;
    var r := OpenResponse(c, client, answered, used, option, ct, requestPiv, observe);
    if r.Ok? {
      MirroredKeys(c, client, server);
      OpenedWasAttempted(c, client, answered, used, option, ct, requestPiv, observe);
      SeqNumber.DecodeInvertsEncode(q);
      if Aad(client.senderId, requestPiv) == Aad(client.senderId, PivBytes(q)) {
        AadInjective(client.senderId, requestPiv, client.senderId, PivBytes(q));
      }
      AttemptNamesNumber(c, client, server, q, own, p, option, requestPiv);
      OpensSealed(c, SealedResponse(client, server, q, own, p));
    }
  }

  /** What a client seals as request `n`. */
  function SealedRequest(a: Material, n: SeqNum, p: Plain): Sealed
    requires WellFormed(a)
  {
    OptionsValid(a, n);
    Sealed(a.senderKey, NonceOf(a.senderId, PivBytes(n), a.commonIv), Aad(a.senderId, PivBytes(n)), Plaintext(p))
  }

  ghost function RequestAttempt(m: Material, option: bytes): Option<Attempt>
    requires WellFormed(m)
  {
    var o := OscoreOption.Decode(option);
    if o.None? || SeqNumber.Decode(o.value.piv).None? then None
    else Some(Attempt(NonceOf(m.recipientId, o.value.piv, m.commonIv), Aad(m.recipientId, o.value.piv)))
  }

  /** A request is accepted only as what it was sent as: under its own number and with its own message. */
  lemma RequestAcceptedOnlyAsSent(c: Crypto, a: Material, b: Material, w: Window, n: SeqNum, p: Plain, option: bytes)
    requires Sound(c) && Mirrored(c, a, b) && WellFormed(a) && WellFormed(b)
    requires |Plaintext(p)| + TAG_LEN <= CT_CAP
    requires var attempt := RequestAttempt(b, option); attempt.Some? ==> Authentic(c, SealedRequest(a, n, p), attempt.value)
    ensures SealRequest(c, a, n, p).Ok?
    ensures var r := OpenRequest(c, b, w, option, SealRequest(c, a, n, p).value.0);
            r.Ok? ==> ReadPlain(Plaintext(p)).Ok? && r.value == (n, ReadPlain(Plaintext(p)).value)
  {
    hide ReadPlain, Plaintext, OscoreOption.Decode, OscoreOption.Encode, NonceOf, Aad, Sound;
    MirroredKeys(c, a, b);
    OpensSealed(c, SealedRequest(a, n, p));
    var o := OscoreOption.Decode(option);
    if o.Some? && SeqNumber.Decode(o.value.piv).Some? {
      SeqNumber.DecodeInvertsEncode(n);
      SameNonceSamePiv(b.recipientId, a.senderId, o.value.piv, PivBytes(n), a.commonIv);
    }
  }
}
