/** Definite-length CBOR byte strings, and the two structures OSCORE builds from them. */
module Cbor {
  import opened Bytes

  function BstrHead(n: nat): bytes
    requires n <= 0xFFFF
  {
    if n <= 23 then [0x40 + n] else if n <= 0xFF then [0x58, n] else [0x59, n / 256, n % 256]
  }

  /** A CBOR byte string of at most 65535 bytes. */
  function Bstr(data: bytes): (r: bytes)
    requires |data| <= 0xFFFF
    ensures |r| > |data|
  {
    BstrHead(|data|) + data
  }

  lemma BstrLength(data: bytes)
    requires |data| <= 0xFFFF
    ensures |Bstr(data)| == |data| + if |data| <= 23 then 1 else if |data| <= 0xFF then 2 else 3
  {
  }

  lemma BstrHeadInjective(m: nat, n: nat, a: bytes, b: bytes)
    requires m <= 0xFFFF && n <= 0xFFFF
    requires BstrHead(m) + a == BstrHead(n) + b
    ensures m == n && a == b
  {
    var x, y := BstrHead(m) + a, BstrHead(n) + b;
    assert x[0] == BstrHead(m)[0] && y[0] == BstrHead(n)[0];
    assert |BstrHead(m)| == |BstrHead(n)|;
    ConcatCancelsLeft(BstrHead(m), a, BstrHead(n), b);
  }

  /** Byte strings are self-delimiting. */
  lemma BstrInjective(x: bytes, y: bytes, a: bytes, b: bytes)
    requires |x| <= 0xFFFF && |y| <= 0xFFFF
    requires Bstr(x) + a == Bstr(y) + b
    ensures x == y && a == b
  {
    assert Bstr(x) + a == BstrHead(|x|) + (x + a);
    assert Bstr(y) + b == BstrHead(|y|) + (y + b);
    BstrHeadInjective(|x|, |y|, x + a, y + b);
    ConcatCancelsLeft(x, a, y, b);
  }
}

module OscoreCbor {
  import opened Bytes
  import opened Cbor

  /** COSE algorithm identifier of AES-CCM-16-64-128. */
  const ALG_AEAD: byte := 10

  /** The ASCII bytes of "Encrypt0". */
  const ENCRYPT0: bytes := [0x45, 0x6E, 0x63, 0x72, 0x79, 0x70, 0x74, 0x30]

  /** Append `data` at `off` in a fixed buffer. */
  method Put(buf: array<byte>, off: nat, data: bytes) returns (next: nat)
    requires off + |data| <= buf.Length
    modifies buf
    ensures next == off + |data|
    ensures buf[..next] == old(buf[..off]) + data
  {
    next := off;
    var i := 0;
    while i < |data|
      invariant 0 <= i <= |data| && next == off + i
      invariant buf[..next] == old(buf[..off]) + data[..i]
    {
      buf[next] := data[i];
      assert data[..i + 1] == data[..i] + [data[i]];
      assert buf[..next + 1] == buf[..next] + [data[i]];
      next := next + 1;
      i := i + 1;
    }
    assert data[..|data|] == data;
  }

  // Additional authenticated data, section 5.4 of RFC 8613

  /** [oscore_version, [alg_aead], request_kid, request_piv, options] */
  function AadArray(kid: bytes, piv: bytes): bytes
    requires |kid| <= 23 && |piv| <= 23
  {
    [0x85, 0x01, 0x81, ALG_AEAD] + Bstr(kid) + Bstr(piv) + [0x40]
  }

  /** ["Encrypt0", h'', external_aad] */
  function Aad(kid: bytes, piv: bytes): bytes
    requires |kid| <= 23 && |piv| <= 23
  {
    [0x83, 0x68] + ENCRYPT0 + [0x40] + Bstr(AadArray(kid, piv))
  }

  /** Append a byte string shorter than 256 bytes at `off`. */
  method PutBstr(buf: array<byte>, off: nat, data: bytes) returns (next: nat)
    requires |data| <= 0xFF && off + |Bstr(data)| <= buf.Length
    modifies buf
    ensures next == off + |Bstr(data)|
    ensures buf[..next] == old(buf[..off]) + Bstr(data)
  {
    ghost var before := buf[..off];
    if |data| <= 23 {
      next := Put(buf, off, [0x40 + |data|]);
    } else {
      next := Put(buf, off, [0x58, |data|]);
    }
    assert buf[..next] == before + BstrHead(|data|);
    next := Put(buf, next, data);
    assert before + BstrHead(|data|) + data == before + Bstr(data);
  }

  /** The Enc_structure around an `external_aad`, with the source's bounds checks. */
  method BuildEncStructure(externalAad: bytes, buf: array<byte>) returns (r: Option<nat>)
    requires |externalAad| <= 0xFF
    modifies buf
    ensures r.Some? <==> 11 + |Bstr(externalAad)| <= buf.Length
    ensures r.Some? ==> r.value <= buf.Length
                        && buf[..r.value] == [0x83, 0x68] + ENCRYPT0 + [0x40] + Bstr(externalAad)
  {
    var off := 0;
    if off >= buf.Length {
      return None;
    }
    off := Put(buf, off, [0x83]);
    if off + 9 > buf.Length {
      return None;
    }
    off := Put(buf, off, [0x68] + ENCRYPT0);
    if off >= buf.Length {
      return None;
    }
    off := Put(buf, off, [0x40]);
    assert buf[..off] == [0x83, 0x68] + ENCRYPT0 + [0x40];
    if off + (if |externalAad| <= 23 then 1 else 2) > buf.Length {
      return None;
    }
    if off + |Bstr(externalAad)| > buf.Length {
      return None;
    }
    off := PutBstr(buf, off, externalAad);
    return Some(off);
  }

  method BuildAadCbor(requestKid: bytes, requestPiv: bytes, buf: array<byte>) returns (r: Option<nat>)
    modifies buf
    ensures r.Some? <==> |requestKid| <= 23 && |requestPiv| <= 23 && |Aad(requestKid, requestPiv)| <= buf.Length
    ensures r.Some? ==> r.value <= buf.Length && buf[..r.value] == Aad(requestKid, requestPiv)
  {
    var inner := new byte[64];
    var ioff := Put(inner, 0, [0x85, 0x01, 0x81, ALG_AEAD]);
    if |requestKid| > 23 {
      return None;
    }
    ioff := PutBstr(inner, ioff, requestKid);
    if |requestPiv| > 23 {
      return None;
    }
    ioff := PutBstr(inner, ioff, requestPiv);
    ioff := Put(inner, ioff, [0x40]);
    assert inner[..ioff] == AadArray(requestKid, requestPiv);
    r := BuildEncStructure(inner[..ioff], buf);
  }

  /** The AAD binds a message to its request: it determines the request's KID and Partial IV. */
  lemma AadInjective(kid1: bytes, piv1: bytes, kid2: bytes, piv2: bytes)
    requires |kid1| <= 23 && |piv1| <= 23 && |kid2| <= 23 && |piv2| <= 23
    requires Aad(kid1, piv1) == Aad(kid2, piv2)
    ensures kid1 == kid2 && piv1 == piv2
  {
    var head: bytes := [0x83, 0x68] + ENCRYPT0 + [0x40];
    var a1, a2 := AadArray(kid1, piv1), AadArray(kid2, piv2);
    ConcatCancelsLeft(head, Bstr(a1), head, Bstr(a2));
    assert Bstr(a1) + [] == Bstr(a1) && Bstr(a2) + [] == Bstr(a2);
    BstrInjective(a1, a2, [], []);
    var front: bytes := [0x85, 0x01, 0x81, ALG_AEAD];
    assert a1 == front + (Bstr(kid1) + (Bstr(piv1) + [0x40]));
    assert a2 == front + (Bstr(kid2) + (Bstr(piv2) + [0x40]));
    ConcatCancelsLeft(front, Bstr(kid1) + (Bstr(piv1) + [0x40]), front, Bstr(kid2) + (Bstr(piv2) + [0x40]));
    BstrInjective(kid1, kid2, Bstr(piv1) + [0x40], Bstr(piv2) + [0x40]);
    BstrInjective(piv1, piv2, [0x40], [0x40]);
  }

  // Key derivation info, section 3.2.1 of RFC 8613

  const TYPE_KEY: bytes := [0x4B, 0x65, 0x79]

  const TYPE_IV: bytes := [0x49, 0x56]

  const BYTE_STRING: byte := 0x40

  const TEXT_STRING: byte := 0x60

  /** A string with a header of one or two bytes; the second is the length cut to a byte. */
  function Str(major: byte, data: bytes): bytes
    requires major in {BYTE_STRING, TEXT_STRING}
  {
    (if |data| <= 23 then [major + |data|] else [major + 0x18, |data| % 256]) + data
  }

  /** nil stands for no ID Context. */
  function ContextItem(idContext: Option<bytes>): bytes {
    if idContext.Some? then Str(BYTE_STRING, idContext.value) else [0xF6]
  }

  function ShortUint(n: nat): bytes
    requires n <= 0xFF
  {
    if n <= 23 then [n] else [0x18, n]
  }

  /** What precedes the output length. */
  function InfoFront(id: bytes, idContext: Option<bytes>, kind: bytes): bytes {
    [0x85] + Str(BYTE_STRING, id) + ContextItem(idContext) + [ALG_AEAD] + Str(TEXT_STRING, kind)
  }

  /** [id, id_context / nil, alg_aead, type, L] */
  function Info(id: bytes, idContext: Option<bytes>, kind: bytes, length: nat): bytes
    requires length <= 0xFF
  {
    InfoFront(id, idContext, kind) + ShortUint(length)
  }

  method PutStr(buf: array<byte>, off: nat, major: byte, data: bytes) returns (next: nat)
    requires major in {BYTE_STRING, TEXT_STRING} && off + |Str(major, data)| <= buf.Length
    modifies buf
    ensures next == off + |Str(major, data)|
    ensures buf[..next] == old(buf[..off]) + Str(major, data)
  {
    ghost var before := buf[..off];
    if |data| <= 23 {
      next := Put(buf, off, [major + |data|]);
    } else {
      next := Put(buf, off, [major + 0x18, |data| % 256]);
    }
    ghost var head := buf[off..next];
    assert buf[..next] == before + head;
    next := Put(buf, next, data);
    assert before + head + data == before + Str(major, data);
  }

  /** The buffer must have room: the source indexes it unchecked. Lengths above 255 are refused, at the end. */
  method BuildInfoCbor(id: bytes, idContext: Option<bytes>, kind: bytes, outLen: nat, buf: array<byte>)
    returns (len: Option<nat>)
    requires |InfoFront(id, idContext, kind)| + (if outLen <= 23 then 1 else if outLen <= 0xFF then 2 else 0) <= buf.Length
    modifies buf
    ensures len.Some? <==> outLen <= 0xFF
    ensures len.Some? ==> len.value <= buf.Length && buf[..len.value] == Info(id, idContext, kind, outLen)
  {
    hide Str;
    var off := Put(buf, 0, [0x85]);
    off := PutStr(buf, off, BYTE_STRING, id);
    assert buf[..off] == [0x85] + Str(BYTE_STRING, id);
    if idContext.Some? {
      off := PutStr(buf, off, BYTE_STRING, idContext.value);
    } else {
      off := Put(buf, off, [0xF6]);
    }
    assert buf[..off] == [0x85] + Str(BYTE_STRING, id) + ContextItem(idContext);
    off := Put(buf, off, [ALG_AEAD]);
    off := PutStr(buf, off, TEXT_STRING, kind);
    assert buf[..off] == InfoFront(id, idContext, kind);
    if outLen <= 23 {
      off := Put(buf, off, [outLen]);
    } else if outLen <= 0xFF {
      off := Put(buf, off, [0x18, outLen]);
    } else {
      return None;
    }
    return Some(off);
  }

  /** As long as the length fits its byte, a string announces where it ends. */
  lemma StrInjective(major: byte, x: bytes, y: bytes, a: bytes, b: bytes)
    requires major in {BYTE_STRING, TEXT_STRING} && |x| <= 0xFF && |y| <= 0xFF
    requires Str(major, x) + a == Str(major, y) + b
    ensures x == y && a == b
  {
    var s, t := Str(major, x) + a, Str(major, y) + b;
    assert s[0] == Str(major, x)[0] && t[0] == Str(major, y)[0];
    if |x| > 23 {
      assert s[1] == |x| && t[1] == |y|;
    }
    ConcatCancelsLeft(Str(major, x), a, Str(major, y), b);
    var n := if |x| <= 23 then 1 else 2;
    assert Str(major, x)[n..] == x && Str(major, y)[n..] == y;
  }

  lemma ContextItemInjective(ctx1: Option<bytes>, ctx2: Option<bytes>, a: bytes, b: bytes)
    requires (ctx1.Some? ==> |ctx1.value| <= 0xFF) && (ctx2.Some? ==> |ctx2.value| <= 0xFF)
    requires ContextItem(ctx1) + a == ContextItem(ctx2) + b
    ensures ctx1 == ctx2 && a == b
  {
    var r1, r2 := ContextItem(ctx1) + a, ContextItem(ctx2) + b;
    assert r1[0] == ContextItem(ctx1)[0] && r2[0] == ContextItem(ctx2)[0];
    if ctx1.Some? {
      StrInjective(BYTE_STRING, ctx1.value, ctx2.value, a, b);
    } else {
      ConcatCancelsLeft([0xF6], a, [0xF6], b);
    }
  }

  lemma InfoShape(id: bytes, ctx: Option<bytes>, kind: bytes, n: nat)
    requires n <= 0xFF
    ensures Info(id, ctx, kind, n)
            == [0x85] + (Str(BYTE_STRING, id)
                         + (ContextItem(ctx) + ([ALG_AEAD] + (Str(TEXT_STRING, kind) + ShortUint(n)))))
  {
    hide Str, ContextItem, ShortUint;
  }

  /** Keys and IVs are derived from different infos unless identifier, ID Context, kind and length all agree. */
  lemma InfoInjective(id1: bytes, ctx1: Option<bytes>, kind1: bytes, n1: nat,
                      id2: bytes, ctx2: Option<bytes>, kind2: bytes, n2: nat)
    requires |id1| <= 0xFF && (ctx1.Some? ==> |ctx1.value| <= 0xFF) && |kind1| <= 0xFF && n1 <= 0xFF
    requires |id2| <= 0xFF && (ctx2.Some? ==> |ctx2.value| <= 0xFF) && |kind2| <= 0xFF && n2 <= 0xFF
    requires Info(id1, ctx1, kind1, n1) == Info(id2, ctx2, kind2, n2)
    ensures id1 == id2 && ctx1 == ctx2 && kind1 == kind2 && n1 == n2
  {
    hide Str, ContextItem, Info;
    var t1, t2 := Str(TEXT_STRING, kind1) + ShortUint(n1), Str(TEXT_STRING, kind2) + ShortUint(n2);
    var r1, r2 := ContextItem(ctx1) + ([ALG_AEAD] + t1), ContextItem(ctx2) + ([ALG_AEAD] + t2);
    InfoShape(id1, ctx1, kind1, n1);
    InfoShape(id2, ctx2, kind2, n2);
    ConcatCancelsLeft([0x85], Str(BYTE_STRING, id1) + r1, [0x85], Str(BYTE_STRING, id2) + r2);
    StrInjective(BYTE_STRING, id1, id2, r1, r2);
    ContextItemInjective(ctx1, ctx2, [ALG_AEAD] + t1, [ALG_AEAD] + t2);
    ConcatCancelsLeft([ALG_AEAD], t1, [ALG_AEAD], t2);
    StrInjective(TEXT_STRING, kind1, kind2, ShortUint(n1), ShortUint(n2));
  }
}
