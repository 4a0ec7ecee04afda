/** Exactly what is accepted and exactly what each refusal means, said of the fields of the option. */
module MessageVerdicts {
  import opened Bytes
  import opened SeqNumber
  import opened Window
  import opened Nonce
  import opened Crypto
  import opened OscoreCbor
  import opened CoapBody
  import opened Message
  import OscoreOption

  /** The classes 2.xx to 5.xx. */
  lemma ResponseCodes(code: byte)
    ensures ResponseCode(code) <==> 0x40 <= code <= 0xBF
  {
  }

  lemma PlainErrors(plaintext: bytes)
    ensures ReadPlain(plaintext).Err? ==>
              ReadPlain(plaintext).error == InvalidParam || ReadPlain(plaintext).error.BufferTooSmall?
  {
  }

  lemma {:induction false} MarkerAfterOptions(before: bytes, opts: seq<CoapOption>, number: nat)
    requires forall o :: o in opts ==> CoapBody.Valid(o)
    requires number + WrappedNumber(opts) <= MAX_OPTION_NUMBER
    ensures var data := before + EncodeOptions(opts) + [0xFF];
            Walk(data, |before|, number, false) == MarkerAt(|data| - 1)
    decreases |opts|
  {
    hide ReadNibble, EncodeOption;
    var data := before + EncodeOptions(opts) + [0xFF];
    if opts != [] {
      var first, rest := EncodeOption(opts[0]), EncodeOptions(opts[1..]);
      assert data == before + first + (rest + [0xFF]);
      HeaderInvertsOption(opts[0], before, rest + [0xFF]);
      HeaderNibbles(data, |before|);
      assert data == (before + first) + rest + [0xFF];
      MarkerAfterOptions(before + first, opts[1..], number + opts[0].delta % 0x1_0000);
    }
  }

  /** Options with a marker and nothing behind it do not split. */
  lemma MarkerAlone(options: bytes)
    requires Walkable(options)
    ensures SplitAt(Walk(options + [0xFF], 0, 0, false), options + [0xFF]).None?
  {
    var opts: seq<CoapOption> :|
      (forall o :: o in opts ==> CoapBody.Valid(o)) && WrappedNumber(opts) <= MAX_OPTION_NUMBER && EncodeOptions(opts) == options;
    MarkerAfterOptions([], opts, 0);
    assert [] + options + [0xFF] == options + [0xFF];
  }

  /** What opens is refused for malformed options, for a marker without a payload, or for parts above 128 bytes. */
  lemma PlainRefusals(code: byte, options: bytes, payload: bytes)
    requires Walkable(options)
    ensures var r := ReadPlain([code] + Body(options, payload));
            && (|options| > 128 ==> r == Err(BufferTooSmall(|options|, 128)))
            && (|options| <= 128 && |payload| > 128 ==> r == Err(BufferTooSmall(|payload|, 128)))
            && ReadPlain([]) == Err(InvalidParam)
            && ReadPlain([code] + options + [0xFF]) == Err(InvalidParam)
  {
    hide Walk, Walkable;
    WalkStopsAtSeam(options, payload);
    var body := Body(options, payload);
    assert ([code] + body)[1..] == body;
    if payload != [] {
      assert body[|options| + 1..] == payload;
    }
    MarkerAlone(options);
    assert ([code] + options + [0xFF])[1..] == options + [0xFF];
  }

  // Requests

  /** The fields a request must have, and room for a code besides the tag. */
  ghost predicate Complete(option: bytes, ct: bytes) {
    var o := OscoreOption.Decode(option);
    |ct| >= 9 && o.Some? && o.value.piv != [] && o.value.kid.Some?
  }

  /** The KID is the peer's, and an ID Context, if there is one, is ours. */
  predicate ForThisContext(m: Material, kid: Option<bytes>, kidContext: Option<bytes>) {
    kid == Some(m.recipientId) && (kidContext.None? || kidContext == m.idContext)
  }

  /**
   * A request is accepted, as number `n` and message `p`, exactly when it is complete, names this context and
   * a number that is not a replay, and its ciphertext opens, under the nonce and the associated data of that number, to
   * that message.
   */
  lemma RequestAcceptedExactly(c: Crypto, m: Material, w: Window, option: bytes, ct: bytes, n: SeqNum, p: Plain)
    requires WellFormed(m)
    ensures OpenRequest(c, m, w, option, ct) == Ok((n, p))
            <==> Complete(option, ct)
                 && var o := OscoreOption.Decode(option).value;
                    && o.kid == Some(m.recipientId) && (o.kidContext.None? || o.kidContext == m.idContext)
                    && SeqNumber.Decode(o.piv) == Some(n) && !Reused(w, n)
                    && |ct| <= 264 && |o.piv| <= 5
                    && var opened' := c.open(m.recipientKey, NonceOf(m.recipientId, o.piv, m.commonIv), Aad(m.recipientId, o.piv), ct);
                       opened'.Some? && ReadPlain(opened'.value) == Ok(p)
  {
    hide ReadPlain, NonceOf, Aad, OscoreOption.Decode, Reused;
  }

  /** Which refusal a request gets before anything is decrypted, and that it gets it then only. */
  lemma RequestRefusals(c: Crypto, m: Material, w: Window, option: bytes, ct: bytes)
    requires WellFormed(m)
    ensures var r := OpenRequest(c, m, w, option, ct);
            var o := OscoreOption.Decode(option);
            && (!Complete(option, ct) ==> r == Err(InvalidParam))
            && (Complete(option, ct) ==>
                  (r == Err(NoContext)
                   <==> o.value.kid != Some(m.recipientId)
                        || (o.value.kidContext.Some? && o.value.kidContext != m.idContext)))
            && (r == Err(Replay)
                <==> Complete(option, ct) && ForThisContext(m, o.value.kid, o.value.kidContext)
                     && SeqNumber.Decode(o.value.piv).Some? && Reused(w, SeqNumber.Decode(o.value.piv).value))
  {
    hide ReadPlain, NonceOf, Aad, OscoreOption.Decode, Reused;
    forall plaintext: bytes
      ensures ReadPlain(plaintext).Err? ==>
                ReadPlain(plaintext).error == InvalidParam || ReadPlain(plaintext).error.BufferTooSmall?
    {
      PlainErrors(plaintext);
    }
  }

  /** What decrypts but is refused is refused for its size or its shape. */
  lemma RequestOpened(c: Crypto, m: Material, w: Window, option: bytes, ct: bytes)
    requires WellFormed(m) && Complete(option, ct)
    requires var o := OscoreOption.Decode(option).value;
             && ForThisContext(m, o.kid, o.kidContext) && SeqNumber.Decode(o.piv).Some?
             && !Reused(w, SeqNumber.Decode(o.piv).value)
    ensures var r := OpenRequest(c, m, w, option, ct);
            var piv := OscoreOption.Decode(option).value.piv;
            && |piv| <= 5
            && (|ct| > 264 ==> r == Err(BufferTooSmall(|ct| - 8, 256)))
            && (|ct| <= 264 ==>
                  (r == Err(DecryptFailed)
                   <==> c.open(m.recipientKey, NonceOf(m.recipientId, piv, m.commonIv), Aad(m.recipientId, piv), ct).None?))
  {
    hide ReadPlain, NonceOf, Aad, OscoreOption.Decode, Reused;
    forall plaintext: bytes
      ensures ReadPlain(plaintext).Err? ==>
                ReadPlain(plaintext).error == InvalidParam || ReadPlain(plaintext).error.BufferTooSmall?
    {
      PlainErrors(plaintext);
    }
  }

  // Responses

  /** A KID and an ID Context are checked if they are there. */
  predicate NotForeign(m: Material, kid: Option<bytes>, kidContext: Option<bytes>) {
    (kid.None? || kid == Some(m.recipientId)) && (kidContext.None? || kidContext == m.idContext)
  }

  /**
   * A response is accepted, for request `q` under the responder's own number `own` if it has one, exactly under these
   * conditions: a notification needs a number of its own, an ordinary response an unanswered request, a number must be
   * unused, and the ciphertext opens under the right nonce to a message with a response code.
   */
  lemma ResponseAcceptedExactly(c: Crypto, m: Material, answered: Window, used: Window, option: bytes, ct: bytes,
                                requestPiv: bytes, observe: bool, q: SeqNum, own: Option<SeqNum>, p: Plain)
    requires WellFormed(m)
    ensures OpenResponse(c, m, answered, used, option, ct, requestPiv, observe) == Ok(Opened(q, own, p))
            <==> |ct| >= 9 && OscoreOption.Decode(option).Some?
                 && var o := OscoreOption.Decode(option).value;
                    && (o.kid.None? || o.kid == Some(m.recipientId)) && (o.kidContext.None? || o.kidContext == m.idContext)
                    && SeqNumber.Decode(requestPiv) == Some(q) && |requestPiv| <= 5 && |o.piv| <= 5
                    && (observe ==> o.piv != []) && (!observe ==> !Reused(answered, q))
                    && (o.piv == [] ==> own == None)
                    && (o.piv != [] ==> own.Some? && SeqNumber.Decode(o.piv) == own && !Reused(used, own.value))
                    && |ct| <= 264
                    && var nonce := if o.piv == [] then NonceOf(m.senderId, requestPiv, m.commonIv)
                                    else NonceOf(m.recipientId, o.piv, m.commonIv);
                       var opened' := c.open(m.recipientKey, nonce, Aad(m.senderId, requestPiv), ct);
                       && opened'.Some? && opened'.value != [] && 0x40 <= opened'.value[0] <= 0xBF
                       && ReadPlain(opened'.value) == Ok(p)
  {
    hide ReadPlain, NonceOf, Aad, OscoreOption.Decode, Reused;
  }

  lemma ResponseRefusals(c: Crypto, m: Material, answered: Window, used: Window, option: bytes, ct: bytes,
                         requestPiv: bytes, observe: bool)
    requires WellFormed(m)
    ensures var r := OpenResponse(c, m, answered, used, option, ct, requestPiv, observe);
            var o := OscoreOption.Decode(option);
            && (|ct| < 9 || o.None? ==> r == Err(InvalidParam))
            && (|ct| >= 9 && o.Some? ==>
                  (r == Err(NoContext)
                   <==> (o.value.kid.Some? && o.value.kid != Some(m.recipientId))
                        || (o.value.kidContext.Some? && o.value.kidContext != m.idContext)))
            && (r == Err(Replay)
                <==> |ct| >= 9 && o.Some? && NotForeign(m, o.value.kid, o.value.kidContext)
                     && SeqNumber.Decode(requestPiv).Some?
                     && ((!observe && Reused(answered, SeqNumber.Decode(requestPiv).value))
                         || (SeqNumber.Decode(o.value.piv).Some? && Reused(used, SeqNumber.Decode(o.value.piv).value))))
  {
    hide ReadPlain, NonceOf, Aad, OscoreOption.Decode, Reused;
    forall plaintext: bytes
      ensures ReadPlain(plaintext).Err? ==>
                ReadPlain(plaintext).error == InvalidParam || ReadPlain(plaintext).error.BufferTooSmall?
    {
      PlainErrors(plaintext);
    }
  }

  // Sealing

  /** A message is refused for its size exactly when code, options, marker, payload and tag exceed 280 bytes. */
  lemma SealRefusals(c: Crypto, m: Material, n: SeqNum, p: Plain)
    requires WellFormed(m)
    ensures var size := 1 + |p.options| + (if p.payload == [] then 0 else 1 + |p.payload|) + 8;
            && (SealRequest(c, m, n, p).Ok? <==> size <= 280)
            && (size > 280 ==> SealRequest(c, m, n, p) == Err(BufferTooSmall(size, 280)))
  {
    OptionsValid(m, n);
  }

  /** A response answers the peer's request only: its KID must be the recipient's and its Partial IV a valid one. */
  lemma AnswerRefusals(c: Crypto, m: Material, n: SeqNum, kid: bytes, requestPiv: bytes, p: Plain)
    requires WellFormed(m)
    ensures var size := 1 + |p.options| + (if p.payload == [] then 0 else 1 + |p.payload|) + 8;
            var mine := kid == m.recipientId && SeqNumber.Decode(requestPiv).Some?;
            && (SealResponseWithPiv(c, m, n, kid, requestPiv, p).Ok? <==> mine && size <= 280)
            && (SealResponseNoPiv(c, m, kid, requestPiv, p).Ok? <==> mine && size <= 280)
            && (!mine ==> SealResponseWithPiv(c, m, n, kid, requestPiv, p) == Err(InvalidParam))
            && (!mine ==> SealResponseNoPiv(c, m, kid, requestPiv, p) == Err(InvalidParam))
  {
    OptionsValid(m, n);
  }
}
