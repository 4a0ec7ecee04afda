/** EDHOC key derivation, transcript hashes and the structures that are authenticated (RFC 9528). */
module EdhocKeys {
  import opened Bytes
  import opened Crypto
  import opened Cbor
  import opened EdhocCbor
  import Message
  import Durable
  import Context
  import OscoreCbor

  const LABEL_KEYSTREAM_2: nat := 0

  const LABEL_MAC_2: nat := 2

  const LABEL_K_3: nat := 3

  const LABEL_IV_3: nat := 4

  const LABEL_MAC_3: nat := 6

  const LABEL_PRK_OUT: nat := 7

  const LABEL_PRK_EXPORTER: nat := 10

  const LABEL_OSCORE_SECRET: nat := 0

  const LABEL_OSCORE_SALT: nat := 1

  const KDF_CAP: nat := 128

  // EDHOC-KDF

  /** A CBOR unsigned integer of at most two bytes. */
  function Uint(n: nat): (r: bytes)
    requires n <= 0xFFFF
    ensures 1 <= |r| <= 3
  {
    if n <= 23 then [n] else if n <= 0xFF then [0x18, n] else [0x19, n / 256, n % 256]
  }

  /** The info sequence (label, context, length), if each part and the whole is small enough. */
  function KdfInfo(key: nat, context: bytes, length: nat): (r: Option<bytes>)
    ensures r.Some? ==> |r.value| <= KDF_CAP
  {
    if key > 0xFF || |context| > 0xFF || length > 0xFFFF then None
    else
      var info := Uint(key) + Bstr(context) + Uint(length);
      if |info| > KDF_CAP then None else Some(info)
  }

  function Kdf(c: Crypto, prk: Bytes32, key: nat, context: bytes, length: nat): (r: Result<bytes, EdhocError>)
    ensures r.Ok? <==> KdfInfo(key, context, length).Some? && length <= KDF_CAP
    ensures r.Ok? ==> r.value == c.expand(prk, KdfInfo(key, context, length).value, length)
    ensures r.Err? ==> r.error == BufferTooSmall
  {
    var info := KdfInfo(key, context, length);
    if info.None? || length > KDF_CAP then Err(BufferTooSmall)
    else Ok(c.expand(prk, info.value, length))
  }

  method PushUint(start: bytes, n: nat) returns (r: Result<bytes, EdhocError>)
    requires n <= 0xFFFF
    ensures r == Extend(start, KDF_CAP, Uint(n))
  {
    var buf := start;
    if n <= 23 {
      buf :- Extend(buf, KDF_CAP, [n]);
    } else if n <= 0xFF {
      buf :- Extend(buf, KDF_CAP, [0x18]);
      buf :- Extend(buf, KDF_CAP, [n]);
    } else {
      buf :- Extend(buf, KDF_CAP, [0x19]);
      buf :- Extend(buf, KDF_CAP, [n / 256]);
      buf :- Extend(buf, KDF_CAP, [n % 256]);
    }
    assert buf == start + Uint(n);
    return Ok(buf);
  }

  /** Push label, context and length, then expand. */
  method EdhocKdf(c: Crypto, prk: Bytes32, key: nat, context: bytes, length: nat) returns (r: Result<bytes, EdhocError>)
    ensures r == Kdf(c, prk, key, context, length)
  {
    hide Uint, Bstr;
    if key > 0xFF {
      return Err(BufferTooSmall);
    }
    var head := PushUint([], key);
    var info := head.value;
    if |context| > 0xFF {
      return Err(BufferTooSmall);
    }
    info :- EncodeBstr(info, KDF_CAP, context);
    if length > 0xFFFF {
      return Err(BufferTooSmall);
    }
    info :- PushUint(info, length);
    assert info == Uint(key) + Bstr(context) + Uint(length);
    if length > KDF_CAP {
      return Err(BufferTooSmall);
    }
    return Ok(c.expand(prk, info, length));
  }

  lemma UintPrefixFree(a: nat, b: nat, s: bytes, t: bytes)
    requires a <= 0xFFFF && b <= 0xFFFF && Uint(a) + s == Uint(b) + t
    ensures a == b && s == t
  {
    var x := Uint(a) + s;
    assert x[0] == Uint(a)[0] == Uint(b)[0];
    assert |Uint(a)| == |Uint(b)|;
    ConcatCancelsLeft(Uint(a), s, Uint(b), t);
    if |Uint(a)| == 3 {
      assert Uint(a)[1] == Uint(b)[1] && Uint(a)[2] == Uint(b)[2];
    } else if |Uint(a)| == 2 {
      assert Uint(a)[1] == Uint(b)[1];
    }
  }

  /** No two uses of the KDF share an info string: label, context and length are all bound. */
  lemma KdfInfoInjective(key: nat, context: bytes, length: nat, key': nat, context': bytes, length': nat)
    requires KdfInfo(key, context, length).Some?
    requires KdfInfo(key, context, length) == KdfInfo(key', context', length')
    ensures key == key' && context == context' && length == length'
  {
    hide Uint, Bstr;
    var a, b := Bstr(context) + Uint(length), Bstr(context') + Uint(length');
    assert Uint(key) + Bstr(context) + Uint(length) == Uint(key) + a;
    assert Uint(key') + Bstr(context') + Uint(length') == Uint(key') + b;
    UintPrefixFree(key, key', a, b);
    BstrInjective(context, context', Uint(length), Uint(length'));
    assert Uint(length) + [] == Uint(length) && Uint(length') + [] == Uint(length');
    UintPrefixFree(length, length', [], []);
  }

  /** What the derivations of the protocol ask for always fits. */
  lemma SmallKdfFits(c: Crypto, prk: Bytes32, key: nat, context: bytes, length: nat)
    requires key <= 23 && |context| <= 123 && length <= KDF_CAP
    ensures Kdf(c, prk, key, context, length).Ok?
  {
    BstrLength(context);
  }

  // Transcript hashes

  /** TH_2 over the responder's ephemeral key and the hash of the first message. */
  function Transcript2(c: Crypto, gY: Bytes32, msg1: bytes): Bytes32 {
    c.hash(Bstr(gY) + Bstr(c.hash(msg1)))
  }

  method ComputeTranscript2(c: Crypto, gY: Bytes32, msg1: bytes) returns (r: Result<Bytes32, EdhocError>)
    ensures r == Ok(Transcript2(c, gY, msg1))
  {
    var h := c.hash(msg1);
    BstrLength(gY);
    BstrLength(h);
    var head := EncodeBstr([], 256, gY);
    var buf := EncodeBstr(head.value, 256, h);
    assert buf.value == Bstr(gY) + Bstr(h);
    return Ok(c.hash(buf.value));
  }

  /** TH_3 from TH_2, and TH_4 from TH_3, over a plaintext and a credential. */
  function TranscriptHash(c: Crypto, th: Bytes32, plaintext: bytes, cred: bytes): Bytes32
    requires |plaintext| <= 0xFFFF
  {
    c.hash(Bstr(th) + Bstr(plaintext) + cred)
  }

  function NextTranscript(c: Crypto, th: Bytes32, plaintext: bytes, cred: bytes): Result<Bytes32, EdhocError> {
    if |plaintext| > 0xFFFF || |Bstr(th) + Bstr(plaintext) + cred| > 1024 then Err(BufferTooSmall)
    else Ok(TranscriptHash(c, th, plaintext, cred))
  }

  method ComputeNextTranscript(c: Crypto, th: Bytes32, plaintext: bytes, cred: bytes)
    returns (r: Result<Bytes32, EdhocError>)
    ensures r == NextTranscript(c, th, plaintext, cred)
  {
    hide Bstr;
    BstrLength(th);
    var head := EncodeBstr([], 1024, th);
    assert head.value == Bstr(th);
    var buf :- EncodeBstr(head.value, 1024, plaintext);
    buf :- Extend(buf, 1024, cred);
    return Ok(c.hash(buf));
  }

  /** The hash input of a transcript step fixes the earlier hash, the plaintext and the credential. */
  lemma TranscriptInputInjective(th: Bytes32, plaintext: bytes, cred: bytes,
                                 th': Bytes32, plaintext': bytes, cred': bytes)
    requires |plaintext| <= 0xFFFF && |plaintext'| <= 0xFFFF
    requires Bstr(th) + Bstr(plaintext) + cred == Bstr(th') + Bstr(plaintext') + cred'
    ensures th == th' && plaintext == plaintext' && cred == cred'
  {
    hide Bstr;
    assert Bstr(th) + (Bstr(plaintext) + cred) == Bstr(th) + Bstr(plaintext) + cred;
    assert Bstr(th') + (Bstr(plaintext') + cred') == Bstr(th') + Bstr(plaintext') + cred';
    BstrInjective(th, th', Bstr(plaintext) + cred, Bstr(plaintext') + cred');
    BstrInjective(plaintext, plaintext', cred, cred');
  }

  // Contexts of the MACs, and what is signed

  function Context3(idCred: bytes, th: Bytes32, cred: bytes): Result<bytes, EdhocError> {
    Fit(128, idCred + Bstr(th) + cred)
  }

  function Context2(cR: ConnectionId, idCred: bytes, th: Bytes32, cred: bytes): Result<bytes, EdhocError> {
    Fit(128, Identifier(cR) + idCred + Bstr(th) + cred)
  }

  method BuildContext3(idCred: bytes, th: Bytes32, cred: bytes) returns (r: Result<bytes, EdhocError>)
    ensures r == Context3(idCred, th, cred)
  {
    hide Bstr;
    var ctx: bytes := [];
    ctx :- Extend(ctx, 128, idCred);
    ctx :- EncodeBstr(ctx, 128, th);
    ctx :- Extend(ctx, 128, cred);
    assert ctx == idCred + Bstr(th) + cred;
    return Ok(ctx);
  }

  method BuildContext2(cR: ConnectionId, idCred: bytes, th: Bytes32, cred: bytes) returns (r: Result<bytes, EdhocError>)
    ensures r == Context2(cR, idCred, th, cred)
  {
    hide Bstr, Identifier;
    var id := EncodeIdentifier([], 128, cR);
    var ctx := id.value;
    assert ctx == Identifier(cR);
    ctx :- Extend(ctx, 128, idCred);
    ctx :- EncodeBstr(ctx, 128, th);
    ctx :- Extend(ctx, 128, cred);
    return Ok(ctx);
  }

  /** An array of four announced by 0x84, then the text "Signature1". */
  const SIGNATURE1: bytes := [0x84, 0x6A, 0x53, 0x69, 0x67, 0x6E, 0x61, 0x74, 0x75, 0x72, 0x65, 0x31]

  function SignatureInput(idCred: bytes, external: bytes, mac: bytes): bytes
    requires |idCred| <= 0xFFFF && |external| <= 0xFFFF && |mac| <= 0xFFFF
  {
    SIGNATURE1 + Bstr(idCred) + Bstr(external) + Bstr(mac)
  }

  function SignatureStructure(idCred: bytes, th: Bytes32, cred: bytes, mac: bytes): Result<bytes, EdhocError> {
    var external := Bstr(th) + cred;
    if |idCred| > 0xFFFF || |external| > 128 || |mac| > 0xFFFF then Err(BufferTooSmall)
    else Fit(160, SignatureInput(idCred, external, mac))
  }

  method BuildSignatureStructure(idCred: bytes, th: Bytes32, cred: bytes, mac: bytes)
    returns (r: Result<bytes, EdhocError>)
    ensures r == SignatureStructure(idCred, th, cred, mac)
  {
    hide Bstr;
    var m: bytes := SIGNATURE1;
    m :- EncodeBstr(m, 160, idCred);
    BstrLength(th);
    var head := EncodeBstr([], 128, th);
    assert head.value == Bstr(th);
    var external :- Extend(head.value, 128, cred);
    m :- EncodeBstr(m, 160, external);
    m :- EncodeBstr(m, 160, mac);
    return Ok(m);
  }

  /** A signed structure fixes the reference, the transcript hash, the credential and the MAC. */
  lemma SignatureBindsEverything(idCred: bytes, th: Bytes32, cred: bytes, mac: bytes,
                                 idCred': bytes, th': Bytes32, cred': bytes, mac': bytes)
    requires SignatureStructure(idCred, th, cred, mac).Ok?
    requires SignatureStructure(idCred, th, cred, mac) == SignatureStructure(idCred', th', cred', mac')
    ensures idCred == idCred' && th == th' && cred == cred' && mac == mac'
  {
    hide Bstr;
    var e, e' := Bstr(th) + cred, Bstr(th') + cred';
    assert SignatureInput(idCred, e, mac) == SIGNATURE1 + (Bstr(idCred) + (Bstr(e) + (Bstr(mac) + [])));
    assert SignatureInput(idCred', e', mac') == SIGNATURE1 + (Bstr(idCred') + (Bstr(e') + (Bstr(mac') + [])));
    ConcatCancelsLeft(SIGNATURE1, Bstr(idCred) + (Bstr(e) + (Bstr(mac) + [])),
                      SIGNATURE1, Bstr(idCred') + (Bstr(e') + (Bstr(mac') + [])));
    BstrInjective(idCred, idCred', Bstr(e) + (Bstr(mac) + []), Bstr(e') + (Bstr(mac') + []));
    BstrInjective(e, e', Bstr(mac) + [], Bstr(mac') + []);
    BstrInjective(mac, mac', [], []);
    BstrInjective(th, th', cred, cred');
  }

  /** Associated data of the third message. */
  function Aad3(th3: Bytes32): bytes {
    [0x83, 0x68] + OscoreCbor.ENCRYPT0 + [0x40, 0x58, 32] + th3
  }

  method BuildAad3(th3: Bytes32) returns (r: bytes)
    ensures r == Aad3(th3)
  {
    r := [0x83];
    r := r + [0x68];
    r := r + OscoreCbor.ENCRYPT0;
    r := r + [0x40];
    r := r + [0x58];
    r := r + [32];
    r := r + th3;
  }

  /** Exclusive or with a keystream, byte by byte into a buffer of capacity 128. */
  method ApplyKeystream(data: bytes, keystream: bytes) returns (r: bytes)
    requires |data| == |keystream| <= 128
    ensures r == XorBytes(data, keystream)
  {
    r := [];
    for i := 0 to |data|
      invariant |r| == i && forall k :: 0 <= k < i ==> r[k] == Xor(data[k], keystream[k])
    {
      r := r + [Xor(data[i], keystream[i])];
    }
  }

  // Export

  /** One 32-byte step of the export chain. */
  function Derive32(c: Crypto, prk: Bytes32, key: nat, context: bytes): (r: Bytes32)
    requires Sizes(c) && key <= 23 && |context| <= 32
  {
    SmallKdfFits(c, prk, key, context, 32);
    Kdf(c, prk, key, context, 32).value
  }

  function Exporter(c: Crypto, prk: Bytes32, th: Bytes32): Bytes32
    requires Sizes(c)
  {
    Derive32(c, Derive32(c, prk, LABEL_PRK_OUT, th), LABEL_PRK_EXPORTER, [])
  }

  function MasterSecret(c: Crypto, exporter: Bytes32): (r: bytes)
    requires Sizes(c)
    ensures |r| == Message.KEY_LEN
  {
    SmallKdfFits(c, exporter, LABEL_OSCORE_SECRET, [], Message.KEY_LEN);
    Kdf(c, exporter, LABEL_OSCORE_SECRET, [], Message.KEY_LEN).value
  }

  function MasterSalt(c: Crypto, exporter: Bytes32): (r: bytes)
    requires Sizes(c)
    ensures |r| == 8
  {
    SmallKdfFits(c, exporter, LABEL_OSCORE_SALT, [], 8);
    Kdf(c, exporter, LABEL_OSCORE_SALT, [], 8).value
  }

  /** The OSCORE material both sides derive from the last PRK and transcript hash. */
  function Export(c: Crypto, prk: Bytes32, th: Bytes32, senderId: bytes, recipientId: bytes)
    : Result<Message.Material, Message.OscoreError>
    requires Sizes(c)
  {
    var exporter := Exporter(c, prk, th);
    Message.NewMaterial(c, MasterSecret(c, exporter), MasterSalt(c, exporter), None, senderId, recipientId)
  }

  /** An inactive context of this material that may still register and then answer without a Partial IV. */
  ghost predicate ExportedAs(context: Context.Context, c: Crypto, material: Message.Material)
    reads context
  {
    && context.Valid() && context.crypto == c && context.material == material
    && context.SenderView() == Durable.EXPORTED_SENDER && context.AllWindows() == Context.FRESH_WINDOWS
  }

  /** The chain of derivations, none of which can fail, and the inactive context made of the results. */
  method ExportContext(c: Crypto, prk: Bytes32, th: Bytes32, senderId: bytes, recipientId: bytes)
    returns (r: Result<Context.Context, Message.OscoreError>)
    requires Sizes(c)
    ensures var material := Export(c, prk, th, senderId, recipientId);
            && (material.Err? ==> r == Err(material.error))
            && (material.Ok? ==> r.Ok? && fresh(r.value) && ExportedAs(r.value, c, material.value))
  {
    SmallKdfFits(c, prk, LABEL_PRK_OUT, th, 32);
    var out := EdhocKdf(c, prk, LABEL_PRK_OUT, th, 32);
    var prkOut: Bytes32 := out.value;
    SmallKdfFits(c, prkOut, LABEL_PRK_EXPORTER, [], 32);
    var ex := EdhocKdf(c, prkOut, LABEL_PRK_EXPORTER, [], 32);
    var exporter: Bytes32 := ex.value;
    SmallKdfFits(c, exporter, LABEL_OSCORE_SECRET, [], Message.KEY_LEN);
    var secret := EdhocKdf(c, exporter, LABEL_OSCORE_SECRET, [], Message.KEY_LEN);
    SmallKdfFits(c, exporter, LABEL_OSCORE_SALT, [], 8);
    var salt := EdhocKdf(c, exporter, LABEL_OSCORE_SALT, [], 8);
    r := Context.Context.NewFresh(c, secret.value, salt.value, None, senderId, recipientId);
  }
}
