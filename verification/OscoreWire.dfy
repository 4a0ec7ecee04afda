/**
 * What OSCORE puts on the wire and into the primitives, measured against the structures of RFC 8613 written as CBOR
 * items, and against the fields of the option and of the nonce one by one.
 */
module OscoreWire {
  import opened Bytes
  import opened SeqNumber
  import opened Nonce
  import opened Crypto
  import opened CborItem
  import opened CoapBody
  import opened Message
  import Cbor
  import OscoreCbor
  import OscoreOption
  import Context

  // Byte strings and texts

  lemma BstrOnTheWire(x: bytes)
    requires |x| <= 0xFFFF
    ensures Cbor.Bstr(x) == Write(ByteString(x))
  {
  }

  lemma StrOnTheWire(x: bytes)
    requires |x| <= 0xFF
    ensures OscoreCbor.Str(OscoreCbor.BYTE_STRING, x) == Write(ByteString(x))
  {
  }

  /** The texts that occur are the ones they are meant to be. */
  lemma Texts()
    ensures OscoreCbor.ENCRYPT0 == Ascii("Encrypt0")
    ensures OscoreCbor.TYPE_KEY == Ascii("Key") && OscoreCbor.TYPE_IV == Ascii("IV")
  {
  }

  lemma TextOnTheWire(s: string)
    requires |s| <= 23
    ensures OscoreCbor.Str(OscoreCbor.TEXT_STRING, Ascii(s)) == Write(Text(s)) == [0x60 + |s|] + Ascii(s)
  {
  }

  lemma UintOnTheWire(n: nat)
    requires n <= 23
    ensures Write(Uint(n)) == [n]
  {
  }

  // Associated data, section 5.4 of RFC 8613

  /** [oscore_version, [alg_aead], request_kid, request_piv, options] with AES-CCM-16-64-128 and no Class I options */
  function AadArrayItem(kid: bytes, piv: bytes): (r: Item)
    requires |kid| <= 23 && |piv| <= 23
    ensures ValidItem(r)
  {
    Array([Uint(1), Array([Uint(10)]), ByteString(kid), ByteString(piv), ByteString([])])
  }

  /** ["Encrypt0", h'', external_aad] */
  function EncryptItem(externalAad: bytes): (r: Item)
    requires |externalAad| <= 0xFFFF
    ensures ValidItem(r)
  {
    Array([Text("Encrypt0"), ByteString([]), ByteString(externalAad)])
  }

  lemma AlgorithmsOnTheWire()
    ensures Write(Array([Uint(10)])) == [0x81, 10]
  {
    UintOnTheWire(10);
    assert [Uint(10)] == [Uint(10)] + [];
    WriteAllCons(Uint(10), []);
  }

  lemma AadArrayOnTheWire(kid: bytes, piv: bytes)
    requires |kid| <= 23 && |piv| <= 23
    ensures OscoreCbor.AadArray(kid, piv) == Write(AadArrayItem(kid, piv))
  {
    hide Cbor.Bstr, WriteAll;
    BstrOnTheWire(kid);
    BstrOnTheWire(piv);
    BstrOnTheWire([]);
    UintOnTheWire(1);
    AlgorithmsOnTheWire();
    assert Write(ByteString([])) == [0x40];
    WriteFive(Uint(1), Array([Uint(10)]), ByteString(kid), ByteString(piv), ByteString([]));
  }

  lemma EncryptOnTheWire(externalAad: bytes)
    requires |externalAad| <= 0xFFFF
    ensures [0x83, 0x68] + OscoreCbor.ENCRYPT0 + [0x40] + Cbor.Bstr(externalAad) == Write(EncryptItem(externalAad))
  {
    hide Cbor.Bstr, WriteAll;
    Texts();
    TextOnTheWire("Encrypt0");
    BstrOnTheWire(externalAad);
    assert Write(ByteString([])) == [0x40];
    WriteThree(Text("Encrypt0"), ByteString([]), ByteString(externalAad));
  }

  lemma AadOnTheWire(kid: bytes, piv: bytes)
    requires |kid| <= 23 && |piv| <= 23
    ensures |Write(AadArrayItem(kid, piv))| <= 0xFFFF
    ensures OscoreCbor.Aad(kid, piv) == Write(EncryptItem(Write(AadArrayItem(kid, piv))))
  {
    Cbor.BstrLength(kid);
    Cbor.BstrLength(piv);
    hide Cbor.Bstr, WriteAll, Write;
    AadArrayOnTheWire(kid, piv);
    EncryptOnTheWire(OscoreCbor.AadArray(kid, piv));
  }

  // Keys, section 3.2.1 of RFC 8613

  function ContextAsItem(idContext: Option<bytes>): (r: Item)
    requires idContext.Some? ==> |idContext.value| <= 0xFF
    ensures ValidItem(r)
  {
    if idContext.Some? then ByteString(idContext.value) else NULL
  }

  /** [id, id_context / nil, alg_aead, type, L] */
  function InfoItem(id: bytes, idContext: Option<bytes>, kind: string, length: nat): (r: Item)
    requires |id| <= 0xFF && (idContext.Some? ==> |idContext.value| <= 0xFF) && |kind| <= 23 && length <= 23
    ensures ValidItem(r)
  {
    Array([ByteString(id), ContextAsItem(idContext), Uint(10), Text(kind), Uint(length)])
  }

  lemma ContextOnTheWire(idContext: Option<bytes>)
    requires idContext.Some? ==> |idContext.value| <= 0xFF
    ensures OscoreCbor.ContextItem(idContext) == Write(ContextAsItem(idContext))
  {
    if idContext.Some? {
      StrOnTheWire(idContext.value);
    }
  }

  lemma InfoOnTheWire(id: bytes, idContext: Option<bytes>, kind: string, length: nat)
    requires |id| <= 0xFF && (idContext.Some? ==> |idContext.value| <= 0xFF) && |kind| <= 23 && length <= 23
    ensures OscoreCbor.Info(id, idContext, Ascii(kind), length) == Write(InfoItem(id, idContext, kind, length))
  {
    hide OscoreCbor.Str, OscoreCbor.ContextItem, ContextAsItem, Write, WriteAll, Array, ByteString, Text, Uint, Ascii;
    StrOnTheWire(id);
    ContextOnTheWire(idContext);
    UintOnTheWire(10);
    UintOnTheWire(length);
    TextOnTheWire(kind);
    WriteArray5(ByteString(id), ContextAsItem(idContext), Uint(10), Text(kind), Uint(length));
    Regroup5([0x85], Write(ByteString(id)), Write(ContextAsItem(idContext)), [10], Write(Text(kind)), [length]);
  }

  function KeyInfo(id: bytes, idContext: Option<bytes>): bytes
    requires |id| <= NONCE_ID_LEN && (idContext.Some? ==> |idContext.value| <= 8)
  {
    Write(InfoItem(id, idContext, "Key", 16))
  }

  function IvInfo(idContext: Option<bytes>): bytes
    requires idContext.Some? ==> |idContext.value| <= 8
  {
    Write(InfoItem([], idContext, "IV", 13))
  }

  /** What a context may be made of. */
  predicate Acceptable(salt: bytes, idContext: Option<bytes>, senderId: bytes, recipientId: bytes) {
    && |senderId| <= 7 && |recipientId| <= 7 && senderId != recipientId && |salt| <= 8
    && (idContext.Some? ==> |idContext.value| <= 8)
  }

  /**
   * A context is made exactly of acceptable inputs, keeps them, and holds the keys of its two identifiers and the
   * Common IV, each expanded under its own info; anything else is an invalid parameter.
   */
  lemma MaterialOnTheWire(c: Crypto, secret: bytes, salt: bytes, idContext: Option<bytes>, senderId: bytes, recipientId: bytes)
    ensures var r := NewMaterial(c, secret, salt, idContext, senderId, recipientId);
            && (r.Ok? <==> Acceptable(salt, idContext, senderId, recipientId))
            && (r.Err? ==> r.error == InvalidParam)
            && (r.Ok? ==>
                  var prk := c.extract(salt, secret);
                  r.value == Material(secret, salt, idContext, senderId, recipientId,
                                      c.expand(prk, KeyInfo(senderId, idContext), 16),
                                      c.expand(prk, KeyInfo(recipientId, idContext), 16),
                                      c.expand(prk, IvInfo(idContext), 13)))
  {
    hide OscoreCbor.Info, Write;
    if Acceptable(salt, idContext, senderId, recipientId) {
      Texts();
      InfoOnTheWire(senderId, idContext, "Key", 16);
      InfoOnTheWire(recipientId, idContext, "Key", 16);
      InfoOnTheWire([], idContext, "IV", 13);
    }
  }

  /** `expand` gives the same for two different pairs of key and info. */
  predicate Collides(c: Crypto, prk: bytes, info: bytes, prk': bytes, info': bytes, n: nat) {
    (prk, info) != (prk', info') && c.expand(prk, info, n) == c.expand(prk', info', n)
  }

  lemma InfosDiffer(id: bytes, ctx: Option<bytes>, id': bytes, ctx': Option<bytes>)
    requires |id| <= NONCE_ID_LEN && (ctx.Some? ==> |ctx.value| <= 8)
    requires |id'| <= NONCE_ID_LEN && (ctx'.Some? ==> |ctx'.value| <= 8)
    ensures KeyInfo(id, ctx) == KeyInfo(id', ctx') <==> id == id' && ctx == ctx'
    ensures IvInfo(ctx) == IvInfo(ctx') <==> ctx == ctx'
    ensures KeyInfo(id, ctx) != IvInfo(ctx')
  {
    hide OscoreCbor.Info, Write;
    InfoOnTheWire(id, ctx, "Key", 16);
    InfoOnTheWire(id', ctx', "Key", 16);
    InfoOnTheWire([], ctx, "IV", 13);
    InfoOnTheWire([], ctx', "IV", 13);
    if KeyInfo(id, ctx) == KeyInfo(id', ctx') {
      OscoreCbor.InfoInjective(id, ctx, Ascii("Key"), 16, id', ctx', Ascii("Key"), 16);
    }
    if IvInfo(ctx) == IvInfo(ctx') {
      OscoreCbor.InfoInjective([], ctx, Ascii("IV"), 13, [], ctx', Ascii("IV"), 13);
    }
    if KeyInfo(id, ctx) == IvInfo(ctx') {
      OscoreCbor.InfoInjective(id, ctx, Ascii("Key"), 16, [], ctx', Ascii("IV"), 13);
    }
  }

  /**
   * Under one secret and salt, a key names its identifier and ID Context and the Common IV names the ID Context,
   * unless `expand` collides on the two infos; and no key is expanded under the info of an IV.
   */
  lemma KeysNameTheirInputs(c: Crypto, secret: bytes, salt: bytes, idContext: Option<bytes>, s: bytes, r: bytes,
                            idContext': Option<bytes>, s': bytes, r': bytes)
    requires NewMaterial(c, secret, salt, idContext, s, r).Ok? && NewMaterial(c, secret, salt, idContext', s', r').Ok?
    ensures Acceptable(salt, idContext, s, r) && Acceptable(salt, idContext', s', r')
    ensures var a, b := NewMaterial(c, secret, salt, idContext, s, r).value, NewMaterial(c, secret, salt, idContext', s', r').value;
            var prk := c.extract(salt, secret);
            && (a.senderKey == b.senderKey ==>
                  (s == s' && idContext == idContext')
                  || Collides(c, prk, KeyInfo(s, idContext), prk, KeyInfo(s', idContext'), 16))
            && (a.senderKey == b.recipientKey ==>
                  (s == r' && idContext == idContext')
                  || Collides(c, prk, KeyInfo(s, idContext), prk, KeyInfo(r', idContext'), 16))
            && (a.commonIv == b.commonIv ==>
                  idContext == idContext' || Collides(c, prk, IvInfo(idContext), prk, IvInfo(idContext'), 13))
            && KeyInfo(s, idContext) != IvInfo(idContext') && KeyInfo(r, idContext) != IvInfo(idContext')
  {
    hide NewMaterial, KeyInfo, IvInfo;
    MaterialOnTheWire(c, secret, salt, idContext, s, r);
    MaterialOnTheWire(c, secret, salt, idContext', s', r');
    InfosDiffer(s, idContext, s', idContext');
    InfosDiffer(s, idContext, r', idContext');
    InfosDiffer(r, idContext, r', idContext');
  }

  // The option, section 6.1 of RFC 8613

  /** Bit 4 announces an ID Context, bit 3 a KID, the low three bits the length of the Partial IV; then the fields. */
  lemma OptionOnTheWire(o: OscoreOption.OscoreOption)
    requires OscoreOption.Valid(o)
    ensures var data := OscoreOption.Encode(o);
            var k, h := if o.kid.Some? then 1 else 0, if o.kidContext.Some? then 1 else 0;
            if o.piv == [] && o.kid.None? && o.kidContext.None? then data == []
            else
              var n := 1 + |o.piv|;
              var m := n + if o.kidContext.Some? then 1 + |o.kidContext.value| else 0;
              && |data| == m + (if o.kid.Some? then |o.kid.value| else 0)
              && data[0] == 16 * h + 8 * k + |o.piv| && data[1..n] == o.piv
              && (o.kidContext.Some? ==> data[n] == |o.kidContext.value| && data[n + 1..m] == o.kidContext.value)
              && (o.kid.Some? ==> data[m..] == o.kid.value)
  {
    if o != OscoreOption.EMPTY_OPTION {
      hide OscoreOption.Encode;
      OscoreOption.EncodeParts(o);
      var data := OscoreOption.Encode(o);
      var ctx, kid := OscoreOption.ContextField(o.kidContext), OscoreOption.KidField(o.kid);
      var n := 1 + |o.piv|;
      assert data[1..] == o.piv + (ctx + kid);
      assert data[1..n] == o.piv;
      assert data[n..] == ctx + kid;
      assert data[n..][..|ctx|] == ctx && data[n..][|ctx|..] == kid;
      if o.kidContext.Some? {
        assert data[n] == ctx[0] && ctx[1..] == o.kidContext.value;
        assert data[n + 1..n + |ctx|] == data[n..][..|ctx|][1..];
      }
      assert data[n + |ctx|..] == data[n..][|ctx|..];
    }
  }

  /** A request carries its number, its sender and, when there is one, its ID Context. */
  lemma RequestOptionCarries(c: Crypto, m: Material, n: SeqNum, p: Plain)
    requires WellFormed(m) && SealRequest(c, m, n, p).Ok?
    ensures var o := OscoreOption.Decode(SealRequest(c, m, n, p).value.1);
            && o.Some? && SeqNumber.Decode(o.value.piv) == Some(n)
            && o.value.kid == Some(m.senderId) && o.value.kidContext == m.idContext
    ensures |SealRequest(c, m, n, p).value.1|
            == 1 + |PivBytes(n)| + (if m.idContext.Some? then 1 + |m.idContext.value| else 0) + |m.senderId|
  {
    hide OscoreOption.Decode, OscoreOption.Encode, PivBytes;
    OptionsValid(m, n);
    SeqNumber.DecodeInvertsEncode(n);
    OscoreOption.DecodeInvertsEncode(RequestOption(m, n));
    OptionOnTheWire(RequestOption(m, n));
  }

  /** A response with its own number carries that number and nothing else; one without has an empty option. */
  lemma ResponseOptionCarries(c: Crypto, m: Material, n: SeqNum, kid: bytes, requestPiv: bytes, p: Plain)
    requires WellFormed(m)
    ensures SealResponseWithPiv(c, m, n, kid, requestPiv, p).Ok? ==>
              var o := OscoreOption.Decode(SealResponseWithPiv(c, m, n, kid, requestPiv, p).value.1);
              o.Some? && SeqNumber.Decode(o.value.piv) == Some(n) && o.value.kid.None? && o.value.kidContext.None?
    ensures SealResponseNoPiv(c, m, kid, requestPiv, p).Ok? ==> SealResponseNoPiv(c, m, kid, requestPiv, p).value.1 == []
  {
    hide OscoreOption.Decode, OscoreOption.Encode, PivBytes;
    OptionsValid(m, n);
    SeqNumber.DecodeInvertsEncode(n);
    OscoreOption.DecodeInvertsEncode(PivOption(PivBytes(n)));
  }

  lemma NothingDecodesTo(data: bytes)
    requires data == [0x00] || data == [0x20]
    ensures OscoreOption.Decode(data).None?
  {
    if OscoreOption.Decode(data).Some? {
      var o := OscoreOption.Decode(data).value;
      OptionOnTheWire(o);
    }
  }

  /** Two option values read field by field. */
  lemma OptionExamples()
    ensures OscoreOption.Decode([0x09, 0x01, 0xAA]) == Some(OscoreOption.OscoreOption([0x01], None, Some([0xAA])))
    ensures OscoreOption.Decode([0x19, 0x00, 0x02, 0x37, 0xCB, 0x00])
            == Some(OscoreOption.OscoreOption([0x00], Some([0x37, 0xCB]), Some([0x00])))
    ensures OscoreOption.Decode([0x00]).None? && OscoreOption.Decode([0x20]).None?
  {
    var a := OscoreOption.OscoreOption([0x01], None, Some([0xAA]));
    var b := OscoreOption.OscoreOption([0x00], Some([0x37, 0xCB]), Some([0x00]));
    assert OscoreOption.Encode(a) == [0x09, 0x01, 0xAA];
    assert OscoreOption.Encode(b) == [0x19, 0x00, 0x02, 0x37, 0xCB, 0x00];
    OscoreOption.DecodeInvertsEncode(a);
    OscoreOption.DecodeInvertsEncode(b);
    NothingDecodesTo([0x00]);
    NothingDecodesTo([0x20]);
  }

  /** Which options can be carried at all. */
  lemma OptionLimits(o: OscoreOption.OscoreOption)
    ensures OscoreOption.Valid(o)
            <==> (o.piv == [] || SeqNumber.Decode(o.piv).Some?)
                 && (o.kidContext.Some? ==> |o.kidContext.value| <= 8) && (o.kid.Some? ==> |o.kid.value| <= 7)
  {
    if o.piv != [] && IsPiv(o.piv) {
      BigEndianBound(o.piv);
      Pow256Monotone(|o.piv|, 5);
      assert Pow256(5) == MAX + 1;
    }
  }

  // The context identifier

  lemma ContextLabel()
    ensures Context.CONTEXT_LABEL == Ascii("LICHEN OSCORE sender context") + [0]
  {
  }

  /** A label, then secret, salt, ID Context with a byte for its presence, and sender identifier, each with its length. */
  lemma ContextIdOnTheWire(m: Material)
    requires Context.ShortFields(m)
    ensures Context.ContextIdInput(m)
            == Ascii("LICHEN OSCORE sender context") + [0]
               + ([|m.masterSecret|] + m.masterSecret) + ([|m.masterSalt|] + m.masterSalt)
               + (if m.idContext.Some? then [1] + ([|m.idContext.value|] + m.idContext.value) else [0])
               + ([|m.senderId|] + m.senderId)
  {
    hide Ascii;
    ContextLabel();
  }

  // Plaintext and nonce

  /** Code, options, and with a payload the marker 0xFF and the payload; nothing else. */
  lemma PlaintextOnTheWire(p: Plain)
    ensures var data, n := Plaintext(p), 1 + |p.options|;
            && data[0] == p.code && data[1..n] == p.options
            && (p.payload == [] ==> |data| == n)
            && (p.payload != [] ==> data[n] == 0xFF && data[n + 1..] == p.payload)
  {
    var data, n := Plaintext(p), 1 + |p.options|;
    assert data[1..] == Body(p.options, p.payload);
    assert data[1..n] == Body(p.options, p.payload)[..|p.options|];
    if p.payload != [] {
      assert data[n..] == [0xFF] + p.payload;
      assert data[n + 1..] == data[n..][1..];
    }
  }

  /** Byte `k` of the nonce before the Common IV: the length, then the identifier and the Partial IV, right-aligned. */
  function NonceByte(id: bytes, piv: bytes, k: nat): byte
    requires |id| <= 7 && |piv| <= 5 && k < 13
  {
    if k == 0 then |id|
    else if 8 - |id| <= k < 8 then id[k - (8 - |id|)]
    else if 13 - |piv| <= k then piv[k - (13 - |piv|)]
    else 0
  }

  lemma NonceOnTheWire(id: bytes, piv: bytes, iv: CommonIv)
    requires |id| <= 7 && |piv| <= 5
    ensures |NonceOf(id, piv, iv)| == 13
    ensures forall k :: 0 <= k < 13 ==> NonceOf(id, piv, iv)[k] == Xor(NonceByte(id, piv, k), iv[k])
  {
    hide Xor;
    LayoutInBounds(id, piv);
    forall k | 0 <= k < 13 ensures Layout(id, piv)[k] == NonceByte(id, piv, k) {
    }
  }
}
