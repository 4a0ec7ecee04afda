/**
 * What EDHOC puts on the wire and into the primitives, measured against the structures of RFC 9528 written as CBOR items:
 * labels and contexts of every derivation, what the MACs and the signatures cover, and what the exported keys depend on.
 */
module EdhocWire {
  import opened Bytes
  import opened Crypto
  import opened Cbor
  import opened EdhocCbor
  import opened EdhocCredential
  import opened EdhocKeys
  import opened EdhocInitiator
  import opened EdhocResponder
  import opened OscoreWire
  import Item = CborItem

  // Items

  lemma UintIsItem(n: nat)
    requires n <= 0xFFFF
    ensures EdhocKeys.Uint(n) == Item.Write(Item.Uint(n))
  {
  }

  /** One byte that is an integer by itself, or a byte string. */
  lemma IdentifierIsItem(id: ConnectionId)
    ensures Identifier(id)
            == if |id| == 1 && id[0] <= 0x17 then Item.Write(Item.Uint(id[0]))
               else if |id| == 1 && 0x20 <= id[0] <= 0x37 then Item.Write(Item.Int(0x1F - id[0] as int))
               else Item.Write(Item.ByteString(id))
  {
    if Identifier(id) == Bstr(id) {
      BstrOnTheWire(id);
    } else {
      assert id == [id[0]];
    }
  }

  // Messages and credentials

  /** METHOD, SUITES_I, G_X, C_I */
  lemma Message1OnTheWire(ephPublic: Bytes32, cI: ConnectionId)
    ensures Message1(ephPublic, cI)
            == Item.Write(Item.Uint(0)) + Item.Write(Item.Uint(0)) + Item.Write(Item.ByteString(ephPublic)) + Identifier(cI)
  {
    hide Identifier, Bstr;
    UintOnTheWire(0);
    BstrOnTheWire(ephPublic);
  }

  lemma WriteNothing()
    ensures Item.WriteAll([]) == []
  {
  }

  /** {4 : the first eight bytes of the hash of the key} */
  lemma IdCredOnTheWire(c: Crypto, pk: Bytes32)
    ensures IdCredOf(c, pk) == Item.Write(Item.Map([Item.Uint(4), Item.ByteString(c.hash(pk)[..8])]))
  {
    var kid := c.hash(pk)[..8];
    hide Bstr, Item.WriteAll;
    BstrOnTheWire(kid);
    UintOnTheWire(4);
    assert [Item.Uint(4), Item.ByteString(kid)] == [Item.Uint(4)] + ([Item.ByteString(kid)] + []);
    Item.WriteAllCons(Item.ByteString(kid), []);
    Item.WriteAllCons(Item.Uint(4), [Item.ByteString(kid)] + []);
    assert Item.WriteAll([]) == [] by { WriteNothing(); }
  }

  /** A COSE_Key of key type OKP and curve Ed25519: {1 : 1, -1 : 6, -2 : the key} */
  lemma CredentialOnTheWire(pk: Bytes32)
    ensures CredentialOf(pk)
            == Item.Write(Item.Map([Item.Uint(1), Item.Uint(1), Item.Int(-1), Item.Uint(6), Item.Int(-2), Item.ByteString(pk)]))
  {
    var k := Item.ByteString(pk);
    UintOnTheWire(1);
    UintOnTheWire(6);
    assert Item.Write(Item.Int(-1)) == [0x20] && Item.Write(Item.Int(-2)) == [0x21];
    BstrOnTheWire(pk);
    hide Bstr, Item.WriteAll;
    Item.WriteFive(Item.Uint(1), Item.Int(-1), Item.Uint(6), Item.Int(-2), k);
    var five := [Item.Uint(1), Item.Int(-1), Item.Uint(6), Item.Int(-2), k];
    assert [Item.Uint(1), Item.Uint(1), Item.Int(-1), Item.Uint(6), Item.Int(-2), k] == [Item.Uint(1)] + five;
    Item.WriteAllCons(Item.Uint(1), five);
  }

  /** ["Signature1", ID_CRED, external_aad, MAC] */
  function SignatureItem(idCred: bytes, external: bytes, mac: bytes): (r: Item.Item)
    requires |idCred| <= 0xFFFF && |external| <= 0xFFFF && |mac| <= 0xFFFF
    ensures Item.ValidItem(r)
  {
    Item.Array([Item.Text("Signature1"), Item.ByteString(idCred), Item.ByteString(external), Item.ByteString(mac)])
  }

  lemma SignatureInputOnTheWire(idCred: bytes, external: bytes, mac: bytes)
    requires |idCred| <= 0xFFFF && |external| <= 0xFFFF && |mac| <= 0xFFFF
    ensures SignatureInput(idCred, external, mac) == Item.Write(SignatureItem(idCred, external, mac))
  {
    hide Bstr, Item.WriteAll;
    BstrOnTheWire(idCred);
    BstrOnTheWire(external);
    BstrOnTheWire(mac);
    TextOnTheWire("Signature1");
    assert SIGNATURE1 == [0x84] + ([0x6A] + Item.Ascii("Signature1"));
    hide Item.Write, Item.ByteString, Item.Text, Item.Array;
    Item.WriteArray4(Item.Text("Signature1"), Item.ByteString(idCred), Item.ByteString(external), Item.ByteString(mac));
    var t, x, y, z := [0x6A] + Item.Ascii("Signature1"), Bstr(idCred), Bstr(external), Bstr(mac);
    assert [0x84] + t + x + y + z == [0x84] + (t + x + y + z);
  }

  /** The external_aad is the transcript hash and the credential; it has 128 bytes of room and the structure 160. */
  lemma SignatureOnTheWire(idCred: bytes, th: Bytes32, cred: bytes, mac: bytes)
    ensures SignatureStructure(idCred, th, cred, mac)
            == var external := Item.Write(Item.ByteString(th)) + cred;
               if |idCred| > 0xFFFF || |external| > 128 || |mac| > 0xFFFF || |Item.Write(SignatureItem(idCred, external, mac))| > 160
               then Err(BufferTooSmall) else Ok(Item.Write(SignatureItem(idCred, external, mac)))
  {
    hide Bstr, Item.WriteAll;
    BstrOnTheWire(th);
    var external := Bstr(th) + cred;
    if |idCred| <= 0xFFFF && |external| <= 128 && |mac| <= 0xFFFF {
      SignatureInputOnTheWire(idCred, external, mac);
    }
  }

  /** ["Encrypt0", h'', TH_3] */
  lemma Aad3OnTheWire(th3: Bytes32)
    ensures Aad3(th3) == Item.Write(EncryptItem(th3))
  {
    EncryptOnTheWire(th3);
  }

  /** TH_2 covers G_Y and the hash of the first message, TH_3 and TH_4 the hash before, a plaintext and a credential. */
  lemma TranscriptsOnTheWire(c: Crypto, gY: Bytes32, msg1: bytes, th: Bytes32, plaintext: bytes, cred: bytes)
    requires |plaintext| <= 0xFFFF
    ensures Transcript2(c, gY, msg1)
            == c.hash(Item.Write(Item.ByteString(gY)) + Item.Write(Item.ByteString(c.hash(msg1))))
    ensures NextTranscript(c, th, plaintext, cred)
            == var input := Item.Write(Item.ByteString(th)) + Item.Write(Item.ByteString(plaintext)) + cred;
               if |input| > 1024 then Err(BufferTooSmall) else Ok(c.hash(input))
  {
    hide Bstr, Item.Write;
    BstrOnTheWire(gY);
    BstrOnTheWire(c.hash(msg1));
    BstrOnTheWire(th);
    BstrOnTheWire(plaintext);
  }

  /** The second and third message are byte strings: the key and the masked plaintext, and the sealed plaintext. */
  lemma MessagesOnTheWire(c: Crypto, ephPublic: Bytes32, prk: Bytes32, th2: Bytes32, th3: Bytes32, pt: bytes)
    requires Sizes(c) && |pt| <= 112
    ensures Message2(c, ephPublic, prk, th2, pt)
            == Item.Write(Item.ByteString(ephPublic + XorBytes(pt, Keystream2(c, prk, th2, |pt|))))
    ensures Encrypt3(c, prk, th3, pt)
            == c.seal(Key3(c, prk, th3), Iv3(c, prk, th3), Item.Write(EncryptItem(th3)), pt)
  {
    hide Bstr, Item.Write, Key3, Iv3, Keystream2, Aad3, EncryptItem;
    BstrOnTheWire(ephPublic + XorBytes(pt, Keystream2(c, prk, th2, |pt|)));
    Aad3OnTheWire(th3);
  }

  /** The plaintexts: identifier, own reference and own signature; own reference and own signature. */
  lemma PlaintextsOnTheWire(c: Crypto, seed: Bytes32, pubkey: Bytes32, cR: ConnectionId, prk: Bytes32, th: Bytes32)
    requires Sizes(c)
    ensures |Item.Write(Item.ByteString(th)) + CredentialOf(pubkey)| <= 128
    ensures var external := Item.Write(Item.ByteString(th)) + CredentialOf(pubkey);
            var m2 := Item.Write(SignatureItem(IdCredOf(c, pubkey), external, OwnMac2(c, pubkey, cR, prk, th)));
            Plaintext2(c, seed, pubkey, cR, prk, th)
            == Identifier(cR) + IdCredOf(c, pubkey) + Item.Write(Item.ByteString(c.sign(seed, m2)))
    ensures var external := Item.Write(Item.ByteString(th)) + CredentialOf(pubkey);
            var m3 := Item.Write(SignatureItem(IdCredOf(c, pubkey), external, OwnMac3(c, pubkey, prk, th)));
            Plaintext3(c, seed, pubkey, prk, th)
            == IdCredOf(c, pubkey) + Item.Write(Item.ByteString(c.sign(seed, m3)))
  {
    hide Bstr, Item.Write, OwnMac2, OwnMac3, IdCredOf, CredentialOf, Identifier, SignatureStructure, SignatureItem;
    BstrLength(th);
    BstrOnTheWire(th);
    var mac2, mac3 := OwnMac2(c, pubkey, cR, prk, th), OwnMac3(c, pubkey, prk, th);
    OwnStructuresFit(c, cR, pubkey, th, mac2);
    OwnStructuresFit(c, cR, pubkey, th, mac3);
    SignatureOnTheWire(IdCredOf(c, pubkey), th, CredentialOf(pubkey), mac2);
    SignatureOnTheWire(IdCredOf(c, pubkey), th, CredentialOf(pubkey), mac3);
    BstrOnTheWire(OwnSignature(c, seed, pubkey, th, mac2));
    BstrOnTheWire(OwnSignature(c, seed, pubkey, th, mac3));
  }

  // Derivations, section 4.1.2 of RFC 9528

  /** info = (label, context, length) */
  function InfoBytes(key: nat, context: bytes, length: nat): bytes
    requires key <= 0xFFFF && |context| <= 0xFFFF && length <= 0xFFFF
  {
    Item.Write(Item.Uint(key)) + Item.Write(Item.ByteString(context)) + Item.Write(Item.Uint(length))
  }

  /** Whatever is derived is expanded under that info, if label and context fit a byte and the info 128. */
  lemma KdfOnTheWire(c: Crypto, prk: Bytes32, key: nat, context: bytes, length: nat)
    requires key <= 0xFFFF && |context| <= 0xFFFF && length <= 0xFFFF
    ensures Kdf(c, prk, key, context, length)
            == if key > 0xFF || |context| > 0xFF || |InfoBytes(key, context, length)| > 128 || length > 128
               then Err(BufferTooSmall)
               else Ok(c.expand(prk, InfoBytes(key, context, length), length))
  {
    hide EdhocKeys.Uint, Bstr, Item.Write;
    UintIsItem(key);
    UintIsItem(length);
    BstrOnTheWire(context);
  }

  lemma InfoBytesInjective(key: nat, context: bytes, length: nat, key': nat, context': bytes, length': nat)
    requires key <= 0xFFFF && |context| <= 0xFFFF && length <= 0xFFFF
    requires key' <= 0xFFFF && |context'| <= 0xFFFF && length' <= 0xFFFF
    requires InfoBytes(key, context, length) == InfoBytes(key', context', length')
    ensures key == key' && context == context' && length == length'
  {
    hide EdhocKeys.Uint, Bstr, Item.Write;
    UintIsItem(key);
    UintIsItem(key');
    UintIsItem(length);
    UintIsItem(length');
    BstrOnTheWire(context);
    BstrOnTheWire(context');
    var a, b := Bstr(context) + EdhocKeys.Uint(length), Bstr(context') + EdhocKeys.Uint(length');
    assert InfoBytes(key, context, length) == EdhocKeys.Uint(key) + a;
    assert InfoBytes(key', context', length') == EdhocKeys.Uint(key') + b;
    UintPrefixFree(key, key', a, b);
    BstrInjective(context, context', EdhocKeys.Uint(length), EdhocKeys.Uint(length'));
    assert EdhocKeys.Uint(length) + [] == EdhocKeys.Uint(length) && EdhocKeys.Uint(length') + [] == EdhocKeys.Uint(length');
    UintPrefixFree(length, length', [], []);
  }

  /** The keys of the second and third message: labels 0, 3 and 4 under TH_2 and TH_3. */
  lemma MessageKeys(c: Crypto, prk: Bytes32, th2: Bytes32, th3: Bytes32, n: nat)
    requires Sizes(c) && n <= PLAINTEXT_CAP
    ensures Keystream2(c, prk, th2, n) == c.expand(prk, InfoBytes(0, th2, n), n)
    ensures Key3(c, prk, th3) == c.expand(prk, InfoBytes(3, th3, 16), 16)
    ensures Iv3(c, prk, th3) == c.expand(prk, InfoBytes(4, th3, 13), 13)
  {
    hide InfoBytes, KdfInfo;
    KdfOnTheWire(c, prk, 0, th2, n);
    SmallKdfFits(c, prk, 0, th2, n);
    KdfOnTheWire(c, prk, 3, th3, 16);
    SmallKdfFits(c, prk, 3, th3, 16);
    KdfOnTheWire(c, prk, 4, th3, 13);
    SmallKdfFits(c, prk, 4, th3, 13);
  }

  // What the MACs cover, section 5 of RFC 9528

  /** C_R, ID_CRED_R, TH_2, CRED_R */
  function MacContext2(cR: ConnectionId, idCred: bytes, th2: Bytes32, cred: bytes): bytes {
    Identifier(cR) + idCred + Item.Write(Item.ByteString(th2)) + cred
  }

  /** ID_CRED_I, TH_3, CRED_I */
  function MacContext3(idCred: bytes, th3: Bytes32, cred: bytes): bytes {
    idCred + Item.Write(Item.ByteString(th3)) + cred
  }

  lemma ContextsOnTheWire(cR: ConnectionId, idCred: bytes, th: Bytes32, cred: bytes)
    ensures Context2(cR, idCred, th, cred)
            == if |MacContext2(cR, idCred, th, cred)| <= 128 then Ok(MacContext2(cR, idCred, th, cred)) else Err(BufferTooSmall)
    ensures Context3(idCred, th, cred)
            == if |MacContext3(idCred, th, cred)| <= 128 then Ok(MacContext3(idCred, th, cred)) else Err(BufferTooSmall)
  {
    hide Bstr, Identifier, Item.Write;
    BstrOnTheWire(th);
  }

  /** The MACs a party computes about itself: labels 2 and 6. */
  lemma OwnMacs(c: Crypto, pubkey: Bytes32, cR: ConnectionId, prk: Bytes32, th: Bytes32)
    requires Sizes(c)
    ensures var context2 := MacContext2(cR, IdCredOf(c, pubkey), th, CredentialOf(pubkey));
            |context2| <= 0xFF && OwnMac2(c, pubkey, cR, prk, th) == c.expand(prk, InfoBytes(2, context2, 32), 32)
    ensures var context3 := MacContext3(IdCredOf(c, pubkey), th, CredentialOf(pubkey));
            |context3| <= 0xFF && OwnMac3(c, pubkey, prk, th) == c.expand(prk, InfoBytes(6, context3, 32), 32)
  {
    hide InfoBytes, KdfInfo, MacContext2, MacContext3, Context2, Context3, IdCredOf, CredentialOf;
    OwnStructuresFit(c, cR, pubkey, th, Zeros(32));
    ContextsOnTheWire(cR, IdCredOf(c, pubkey), th, CredentialOf(pubkey));
    var context2 := MacContext2(cR, IdCredOf(c, pubkey), th, CredentialOf(pubkey));
    var context3 := MacContext3(IdCredOf(c, pubkey), th, CredentialOf(pubkey));
    KdfOnTheWire(c, prk, 2, context2, 32);
    SmallKdfFits(c, prk, 2, context2, 32);
    KdfOnTheWire(c, prk, 6, context3, 32);
    SmallKdfFits(c, prk, 6, context3, 32);
  }

  /** The info of MAC_2 of a party with a raw key, and that of MAC_3. */
  function MacInfo2(c: Crypto, pk: Bytes32, cR: ConnectionId, th2: Bytes32): bytes
    requires Sizes(c)
  {
    OwnMacs(c, pk, cR, Zeros(32), th2);
    InfoBytes(2, MacContext2(cR, IdCredOf(c, pk), th2, CredentialOf(pk)), 32)
  }

  function MacInfo3(c: Crypto, pk: Bytes32, th3: Bytes32): bytes
    requires Sizes(c)
  {
    OwnMacs(c, pk, [], Zeros(32), th3);
    InfoBytes(6, MacContext3(IdCredOf(c, pk), th3, CredentialOf(pk)), 32)
  }

  lemma IdentifierPrefixFree(a: ConnectionId, b: ConnectionId, s: bytes, t: bytes)
    requires Identifier(a) + s == Identifier(b) + t
    ensures a == b && s == t
  {
    var x, y := Identifier(a) + s, Identifier(b) + t;
    assert x[0] == Identifier(a)[0] && y[0] == Identifier(b)[0];
    if Identifier(a) == Bstr(a) {
      assert Identifier(b) == Bstr(b);
      BstrInjective(a, b, s, t);
    } else {
      assert a == [x[0]] && b == [y[0]];
      ConcatCancelsLeft(a, s, b, t);
    }
  }

  /** The bytes are one reference as the parser reads it, and nothing else. */
  predicate IsReference(idCred: bytes) {
    ParseIdCred(idCred).Ok? && ParseIdCred(idCred).value.1 == |idCred|
  }

  lemma ReferencesPrefixFree(a: bytes, b: bytes, s: bytes, t: bytes)
    requires IsReference(a) && IsReference(b) && a + s == b + t
    ensures a == b && s == t
  {
    hide ParseIdCred;
    assert (a + s)[..|a|] == a && a[..|a|] == a;
    assert (b + t)[..|b|] == b && b[..|b|] == b;
    IdCredIsPrefixStable(a, a + s);
    IdCredIsPrefixStable(b, b + t);
    ConcatCancelsLeft(a, s, b, t);
  }

  lemma MacContext3Splits(idCred: bytes, th: Bytes32, cred: bytes, idCred': bytes, th': Bytes32, cred': bytes)
    requires IsReference(idCred) && IsReference(idCred')
    requires MacContext3(idCred, th, cred) == MacContext3(idCred', th', cred')
    ensures idCred == idCred' && th == th' && cred == cred'
  {
    hide Bstr, IsReference, Item.Write;
    BstrOnTheWire(th);
    BstrOnTheWire(th');
    assert MacContext3(idCred, th, cred) == idCred + (Bstr(th) + cred);
    assert MacContext3(idCred', th', cred') == idCred' + (Bstr(th') + cred');
    ReferencesPrefixFree(idCred, idCred', Bstr(th) + cred, Bstr(th') + cred');
    BstrInjective(th, th', cred, cred');
  }

  /**
   * The context of MAC_2 names the connection identifier, whatever else is in it; and if the references are ones the
   * parser reads, it names the reference, the transcript hash and the credential too.
   */
  lemma MacContext2Names(cR: ConnectionId, idCred: bytes, th: Bytes32, cred: bytes,
                         cR': ConnectionId, idCred': bytes, th': Bytes32, cred': bytes)
    requires Context2(cR, idCred, th, cred).Ok? && Context2(cR, idCred, th, cred) == Context2(cR', idCred', th', cred')
    ensures cR == cR'
    ensures IsReference(idCred) && IsReference(idCred') ==> idCred == idCred' && th == th' && cred == cred'
  {
    hide Bstr, Identifier, IsReference, Item.Write, Context2;
    ContextsOnTheWire(cR, idCred, th, cred);
    ContextsOnTheWire(cR', idCred', th', cred');
    var x, x' := MacContext3(idCred, th, cred), MacContext3(idCred', th', cred');
    assert MacContext2(cR, idCred, th, cred) == Identifier(cR) + x;
    assert MacContext2(cR', idCred', th', cred') == Identifier(cR') + x';
    IdentifierPrefixFree(cR, cR', x, x');
    if IsReference(idCred) && IsReference(idCred') {
      MacContext3Splits(idCred, th, cred, idCred', th', cred');
    }
  }

  /** A party's own reference, and every reference the parser hands on, is one it reads. */
  lemma ReferencesAreRead(c: Crypto, pk: Bytes32, data: bytes)
    ensures IsReference(IdCredOf(c, pk))
    ensures ParseIdCred(data).Ok? ==> IsReference(ParseIdCred(data).value.0.encoded)
  {
    OwnIdCredParses(c, pk, []);
    assert IdCredOf(c, pk) + [] == IdCredOf(c, pk);
    if ParseIdCred(data).Ok? {
      NormalisationIsIdempotent(data);
    }
  }

  /** An info of MAC_2 names the connection identifier and the transcript hash. */
  lemma MacInfo2Names(c: Crypto, pk: Bytes32, cR: ConnectionId, th: Bytes32, cR': ConnectionId, th': Bytes32)
    requires Sizes(c) && MacInfo2(c, pk, cR, th) == MacInfo2(c, pk, cR', th')
    ensures cR == cR' && th == th'
  {
    hide InfoBytes, MacContext2, IsReference, IdCredOf, CredentialOf;
    OwnMacs(c, pk, cR, Zeros(32), th);
    OwnMacs(c, pk, cR', Zeros(32), th');
    InfoBytesInjective(2, MacContext2(cR, IdCredOf(c, pk), th, CredentialOf(pk)), 32,
                       2, MacContext2(cR', IdCredOf(c, pk), th', CredentialOf(pk)), 32);
    OwnStructuresFit(c, cR, pk, th, Zeros(32));
    ContextsOnTheWire(cR, IdCredOf(c, pk), th, CredentialOf(pk));
    ContextsOnTheWire(cR', IdCredOf(c, pk), th', CredentialOf(pk));
    OwnStructuresFit(c, cR', pk, th', Zeros(32));
    ReferencesAreRead(c, pk, []);
    MacContext2Names(cR, IdCredOf(c, pk), th, CredentialOf(pk), cR', IdCredOf(c, pk), th', CredentialOf(pk));
  }

  lemma MacContext3Names(idCred: bytes, th: Bytes32, cred: bytes, idCred': bytes, th': Bytes32, cred': bytes)
    requires IsReference(idCred) && IsReference(idCred')
    requires Context3(idCred, th, cred).Ok? && Context3(idCred, th, cred) == Context3(idCred', th', cred')
    ensures idCred == idCred' && th == th' && cred == cred'
  {
    hide IsReference, MacContext3, Context3;
    ContextsOnTheWire([], idCred, th, cred);
    ContextsOnTheWire([], idCred', th', cred');
    MacContext3Splits(idCred, th, cred, idCred', th', cred');
  }

  // The export, sections 4.2.1 and 7.2.1 of RFC 9528

  /** Label 7 under TH_4, label 10 under nothing, then labels 0 and 1 under nothing for the secret and the salt. */
  function PrkOutInfo(th4: Bytes32): bytes {
    [0x07, 0x58, 0x20] + th4 + [0x18, 0x20]
  }

  const EXPORTER_INFO: bytes := [0x0A, 0x40, 0x18, 0x20]

  const SECRET_INFO: bytes := [0x00, 0x40, 0x10]

  const SALT_INFO: bytes := [0x01, 0x40, 0x08]

  lemma ExportInfos(th4: Bytes32)
    ensures PrkOutInfo(th4) == InfoBytes(7, th4, 32) && EXPORTER_INFO == InfoBytes(10, [], 32)
    ensures SECRET_INFO == InfoBytes(0, [], 16) && SALT_INFO == InfoBytes(1, [], 8)
  {
    BstrOnTheWire(th4);
    BstrOnTheWire([]);
    UintOnTheWire(7);
    UintOnTheWire(10);
    UintOnTheWire(0);
    UintOnTheWire(1);
    UintOnTheWire(16);
    UintOnTheWire(8);
    assert Item.Write(Item.Uint(32)) == [0x18, 0x20];
  }

  /** The exported secret and salt, with the four infos as bytes, and the identifiers as given. */
  lemma ExportChain(c: Crypto, prk: Bytes32, th4: Bytes32, senderId: bytes, recipientId: bytes)
    requires Sizes(c) && Export(c, prk, th4, senderId, recipientId).Ok?
    ensures var m := Export(c, prk, th4, senderId, recipientId).value;
            var exporter := c.expand(c.expand(prk, PrkOutInfo(th4), 32), EXPORTER_INFO, 32);
            && m.masterSecret == c.expand(exporter, SECRET_INFO, 16)
            && m.masterSalt == c.expand(exporter, SALT_INFO, 8)
            && m.senderId == senderId && m.recipientId == recipientId && m.idContext == None
  {
    hide InfoBytes, KdfInfo, PrkOutInfo;
    ExportInfos(th4);
    KdfOnTheWire(c, prk, 7, th4, 32);
    SmallKdfFits(c, prk, 7, th4, 32);
    var out := Derive32(c, prk, LABEL_PRK_OUT, th4);
    KdfOnTheWire(c, out, 10, [], 32);
    SmallKdfFits(c, out, 10, [], 32);
    var exporter := Exporter(c, prk, th4);
    KdfOnTheWire(c, exporter, 0, [], 16);
    SmallKdfFits(c, exporter, 0, [], 16);
    KdfOnTheWire(c, exporter, 1, [], 8);
    SmallKdfFits(c, exporter, 1, [], 8);
  }

  /**
   * Two handshakes that end with one key but different transcripts export different secrets, unless `expand` collides at
   * one of the three steps, on the named keys and infos; likewise for the salts.
   */
  lemma ExportNamesTranscript(c: Crypto, prk: Bytes32, th: Bytes32, s: bytes, r: bytes, th': Bytes32, s': bytes, r': bytes)
    requires Sizes(c) && th != th' && Export(c, prk, th, s, r).Ok? && Export(c, prk, th', s', r').Ok?
    ensures var a, b := Export(c, prk, th, s, r).value, Export(c, prk, th', s', r').value;
            var out, out' := c.expand(prk, PrkOutInfo(th), 32), c.expand(prk, PrkOutInfo(th'), 32);
            var ex, ex' := c.expand(out, EXPORTER_INFO, 32), c.expand(out', EXPORTER_INFO, 32);
            && PrkOutInfo(th) != PrkOutInfo(th')
            && (a.masterSecret == b.masterSecret ==>
                  || Collides(c, prk, PrkOutInfo(th), prk, PrkOutInfo(th'), 32)
                  || Collides(c, out, EXPORTER_INFO, out', EXPORTER_INFO, 32)
                  || Collides(c, ex, SECRET_INFO, ex', SECRET_INFO, 16))
            && (a.masterSalt == b.masterSalt ==>
                  || Collides(c, prk, PrkOutInfo(th), prk, PrkOutInfo(th'), 32)
                  || Collides(c, out, EXPORTER_INFO, out', EXPORTER_INFO, 32)
                  || Collides(c, ex, SALT_INFO, ex', SALT_INFO, 8))
  {
    hide Export;
    ExportChain(c, prk, th, s, r);
    ExportChain(c, prk, th', s', r');
    assert PrkOutInfo(th)[3..35] == th && PrkOutInfo(th')[3..35] == th';
  }

  /** The initiator sends under C_R and receives under C_I; the responder the other way round. */
  lemma ExportedIdentifiers(c: Crypto, i: Initiator, r: Responder)
    requires Sizes(c)
    ensures ExportInitiator(c, i).Ok? ==>
              && ExportInitiator(c, i).value.senderId == i.state.cR && ExportInitiator(c, i).value.recipientId == i.cI
              && ExportInitiator(c, i) == Export(c, i.state.prk4e3m, i.state.th4, i.state.cR, i.cI)
    ensures ExportResponder(c, r).Ok? ==>
              && ExportResponder(c, r).value.senderId == r.state.cI && ExportResponder(c, r).value.recipientId == r.cR
              && ExportResponder(c, r) == Export(c, r.state.prk4e3m, r.state.th4, r.state.cI, r.cR)
  {
    if ExportInitiator(c, i).Ok? {
      ExportChain(c, i.state.prk4e3m, i.state.th4, i.state.cR, i.cI);
    }
    if ExportResponder(c, r).Ok? {
      ExportChain(c, r.state.prk4e3m, r.state.th4, r.state.cI, r.cR);
    }
  }
}
