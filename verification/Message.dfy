/** What protecting and unprotecting a message computes, as functions of key material, windows and bytes. */
module Message {
  import opened Bytes
  import opened SeqNumber
  import opened Window
  import opened Nonce
  import opened Crypto
  import opened OscoreCbor
  import opened CoapBody
  import OscoreOption

  const KEY_LEN: nat := 16

  const SALT_MAX_LEN: nat := 8

  /** Capacity of the ciphertext buffer, of the receiver's plaintext buffer, and of its two outputs. */
  const CT_CAP: nat := 280

  const PT_CAP: nat := 256

  const OUT_CAP: nat := 128

  datatype OscoreError =
    | InvalidParam
    | NoContext
    | Replay
    | DecryptFailed
    | BufferTooSmall(needed: nat, available: nat)
    | SeqExhausted

  /** The immutable part of a context: what it is made from and what is derived. */
  datatype Material = Material(
    masterSecret: bytes, masterSalt: bytes, idContext: Option<bytes>,
    senderId: bytes, recipientId: bytes,
    senderKey: bytes, recipientKey: bytes, commonIv: bytes)

  ghost predicate WellFormed(m: Material) {
    && |m.senderId| <= NONCE_ID_LEN && |m.recipientId| <= NONCE_ID_LEN && m.senderId != m.recipientId
    && (m.idContext.Some? ==> |m.idContext.value| <= OscoreOption.ID_CONTEXT_CAPACITY)
    && |m.commonIv| == NONCE_LEN
  }

  /** A CoAP message before protection: code, encoded Class E options, payload. */
  datatype Plain = Plain(code: byte, options: bytes, payload: bytes)

  // Key derivation

  predicate AcceptableInputs(salt: bytes, idContext: Option<bytes>, senderId: bytes, recipientId: bytes) {
    && |senderId| <= NONCE_ID_LEN && |recipientId| <= NONCE_ID_LEN && senderId != recipientId
    && |salt| <= SALT_MAX_LEN
    && (idContext.Some? ==> |idContext.value| <= OscoreOption.ID_CONTEXT_CAPACITY)
  }

  function DerivedKey(c: Crypto, secret: bytes, salt: bytes, id: bytes, idContext: Option<bytes>): bytes
    requires |id| <= NONCE_ID_LEN
    requires idContext.Some? ==> |idContext.value| <= OscoreOption.ID_CONTEXT_CAPACITY
  {
    c.expand(c.extract(salt, secret), Info(id, idContext, TYPE_KEY, KEY_LEN), KEY_LEN)
  }

  function DerivedIv(c: Crypto, secret: bytes, salt: bytes, idContext: Option<bytes>): bytes
    requires idContext.Some? ==> |idContext.value| <= OscoreOption.ID_CONTEXT_CAPACITY
  {
    c.expand(c.extract(salt, secret), Info([], idContext, TYPE_IV, NONCE_LEN), NONCE_LEN)
  }

  /** The material `Context::new` derives; the inputs it rejects are all invalid parameters. */
  function NewMaterial(c: Crypto, secret: bytes, salt: bytes, idContext: Option<bytes>,
                       senderId: bytes, recipientId: bytes): Result<Material, OscoreError>
  {
    if !AcceptableInputs(salt, idContext, senderId, recipientId) then Err(InvalidParam)
    else Ok(Material(secret, salt, idContext, senderId, recipientId,
                     DerivedKey(c, secret, salt, senderId, idContext),
                     DerivedKey(c, secret, salt, recipientId, idContext),
                     DerivedIv(c, secret, salt, idContext)))
  }

  // Protection

  /** code || options || 0xFF || payload, the marker only with a payload. */
  function Plaintext(p: Plain): (r: bytes)
    ensures |r| >= 1
  {
    [p.code] + Body(p.options, p.payload)
  }

  function RequestOption(m: Material, n: SeqNum): OscoreOption.OscoreOption {
    OscoreOption.OscoreOption(PivBytes(n), m.idContext, Some(m.senderId))
  }

  function PivOption(piv: bytes): OscoreOption.OscoreOption {
    OscoreOption.OscoreOption(piv, None, None)
  }

  lemma OptionsValid(m: Material, n: SeqNum)
    requires WellFormed(m)
    ensures OscoreOption.Valid(RequestOption(m, n)) && OscoreOption.Valid(PivOption(PivBytes(n)))
    ensures |OscoreOption.Encode(RequestOption(m, n))| <= OscoreOption.OSCORE_OPTION_MAX_LEN
    ensures |PivBytes(n)| <= PIV_MAX_LEN
  {
    SeqNumber.DecodeInvertsEncode(n);
  }

  /** Encryption under a nonce made of `id` and `piv`, bound to the request `kid`, `requestPiv`. */
  function Seal(c: Crypto, m: Material, id: bytes, piv: bytes, kid: bytes, requestPiv: bytes, p: Plain)
    : Result<bytes, OscoreError>
    requires |m.commonIv| == NONCE_LEN && |id| <= NONCE_ID_LEN && |piv| <= PIV_MAX_LEN
    requires |kid| <= NONCE_ID_LEN && |requestPiv| <= PIV_MAX_LEN
  {
    var required := |Plaintext(p)| + TAG_LEN;
    if required > CT_CAP then Err(BufferTooSmall(required, CT_CAP))
    else Ok(c.seal(m.senderKey, NonceOf(id, piv, m.commonIv), Aad(kid, requestPiv), Plaintext(p)))
  }

  /** A request under the reserved number `n`: ciphertext and option value. */
  ghost function SealRequest(c: Crypto, m: Material, n: SeqNum, p: Plain): Result<(bytes, bytes), OscoreError>
    requires WellFormed(m)
  {
    OptionsValid(m, n);
    var ct := Seal(c, m, m.senderId, PivBytes(n), m.senderId, PivBytes(n), p);
    if ct.Err? then Err(ct.error) else Ok((ct.value, OscoreOption.Encode(RequestOption(m, n))))
  }

  /** The checks on the request a response answers. */
  predicate Answerable(m: Material, kid: bytes, requestPiv: bytes) {
    |kid| <= NONCE_ID_LEN && SeqNumber.Decode(requestPiv).Some? && kid == m.recipientId
  }

  /** A response under the responder's own number `n`. */
  ghost function SealResponseWithPiv(c: Crypto, m: Material, n: SeqNum, kid: bytes, requestPiv: bytes, p: Plain)
    : Result<(bytes, bytes), OscoreError>
    requires WellFormed(m)
  {
    OptionsValid(m, n);
    if !Answerable(m, kid, requestPiv) then Err(InvalidParam) else
    var ct := Seal(c, m, m.senderId, PivBytes(n), kid, requestPiv, p);
    if ct.Err? then Err(ct.error) else Ok((ct.value, OscoreOption.Encode(PivOption(PivBytes(n)))))
  }

  /** A response that reuses the request's nonce; its option value is empty. */
  ghost function SealResponseNoPiv(c: Crypto, m: Material, kid: bytes, requestPiv: bytes, p: Plain)
    : Result<(bytes, bytes), OscoreError>
    requires WellFormed(m)
  {
    if !Answerable(m, kid, requestPiv) then Err(InvalidParam) else
    var ct := Seal(c, m, kid, requestPiv, kid, requestPiv, p);
    if ct.Err? then Err(ct.error) else Ok((ct.value, []))
  }

  // Unprotection

  /** Decryption into the receiver's bounded buffer. */
  function Open(c: Crypto, key: bytes, nonce: bytes, aad: bytes, ct: bytes): Result<bytes, OscoreError>
    requires |ct| >= TAG_LEN
  {
    if |ct| - TAG_LEN > PT_CAP then Err(BufferTooSmall(|ct| - TAG_LEN, PT_CAP))
    else match c.open(key, nonce, aad, ct)
      case None => Err(DecryptFailed)
      case Some(p) => Ok(p)
  }

  /** The decrypted bytes after the code, split by the second walker into two bounded outputs. */
  function SplitBody(rest: bytes): Result<(bytes, bytes), OscoreError> {
    match SplitAt(Walk(rest, 0, 0, false), rest)
    case None => Err(InvalidParam)
    case Some(n) =>
      var payload := if n < |rest| then rest[n + 1..] else [];
      if n > OUT_CAP then Err(BufferTooSmall(n, OUT_CAP))
      else if |payload| > OUT_CAP then Err(BufferTooSmall(|payload|, OUT_CAP))
      else Ok((rest[..n], payload))
  }

  function ReadPlain(plaintext: bytes): Result<Plain, OscoreError> {
    if plaintext == [] then Err(InvalidParam)
    else match SplitBody(plaintext[1..])
      case Err(e) => Err(e)
      case Ok((options, payload)) => Ok(Plain(plaintext[0], options, payload))
  }

  /** Whether the option names this context: a present ID Context and a present KID must match. */
  predicate ContextMatches(m: Material, o: OscoreOption.OscoreOption) {
    o.kidContext.Some? ==> o.kidContext == m.idContext
  }

  predicate KidMatches(m: Material, o: OscoreOption.OscoreOption) {
    o.kid.Some? ==> o.kid.value == m.recipientId
  }

  /** A request: the number to mark and the message, or the first check that failed. */
  ghost function OpenRequest(c: Crypto, m: Material, w: Window, option: bytes, ct: bytes)
    : Result<(SeqNum, Plain), OscoreError>
    requires WellFormed(m)
  {
    var o := OscoreOption.Decode(option);
    if |ct| < TAG_LEN + 1 || o.None? || o.value.piv == [] || o.value.kid.None? then Err(InvalidParam)
    else if !KidMatches(m, o.value) || !ContextMatches(m, o.value) then Err(NoContext)
    else
      var piv := o.value.piv;
      var n := SeqNumber.Decode(piv);
      if n.None? then Err(InvalidParam)
      else if Reused(w, n.value) then Err(Replay)
      else match Open(c, m.recipientKey, NonceOf(m.recipientId, piv, m.commonIv), Aad(m.recipientId, piv), ct)
        case Err(e) => Err(e)
        case Ok(plaintext) => match ReadPlain(plaintext)
          case Err(e) => Err(e)
          case Ok(p) => Ok((n.value, p))
  }

  /** The response codes 2.xx to 5.xx. */
  predicate ResponseCode(code: byte) {
    2 <= code / 32 <= 5
  }

  /** An authenticated response before it is accepted. */
  datatype Opened = Opened(requestSeq: SeqNum, responseSeq: Option<SeqNum>, plain: Plain)

  /** A response to the request `requestPiv`, checked against the windows of answered requests and of used Partial IVs. */
  ghost function OpenResponse(c: Crypto, m: Material, answered: Window, used: Window,
                              option: bytes, ct: bytes, requestPiv: bytes, observe: bool): Result<Opened, OscoreError>
    requires WellFormed(m)
  {
    var o := OscoreOption.Decode(option);
    var request := SeqNumber.Decode(requestPiv);
    if |ct| < TAG_LEN + 1 || o.None? then Err(InvalidParam)
    else if !ContextMatches(m, o.value) || !KidMatches(m, o.value) then Err(NoContext)
    else if request.None? then Err(InvalidParam)
    else if !observe && Reused(answered, request.value) then Err(Replay)
    else if observe && o.value.piv == [] then Err(InvalidParam)
    else
      var own := SeqNumber.Decode(o.value.piv);
      if o.value.piv != [] && (own.None? || Reused(used, own.value))
      then Err(if own.None? then InvalidParam else Replay)
      else
        var nonce := if o.value.piv != [] then NonceOf(m.recipientId, o.value.piv, m.commonIv)
                     else NonceOf(m.senderId, requestPiv, m.commonIv);
        match Open(c, m.recipientKey, nonce, Aad(m.senderId, requestPiv), ct)
        case Err(e) => Err(e)
        case Ok(plaintext) =>
          if plaintext == [] || !ResponseCode(plaintext[0]) then Err(InvalidParam)
          else match ReadPlain(plaintext)
            case Err(e) => Err(e)
            case Ok(p) => Ok(Opened(request.value, own, p))
  }
}
