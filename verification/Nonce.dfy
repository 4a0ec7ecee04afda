/** The 13-byte AEAD nonce of section 5.2 of RFC 8613. */
module Nonce {
  import opened Bytes
  import opened SeqNumber

  const NONCE_LEN: nat := 13

  /** Room for the identifier between the length byte and the Partial IV. */
  const NONCE_ID_LEN: nat := 7

  type CommonIv = iv: bytes | |iv| == NONCE_LEN witness Zeros(NONCE_LEN)

  function LeftPad(data: bytes, width: nat): (r: bytes)
    requires |data| <= width
    ensures |r| == width
  {
    Zeros(width - |data|) + data
  }

  /** What does not fit is left out. */
  function Fitting(data: bytes, width: nat): (r: bytes)
    ensures |r| <= width
  {
    if |data| <= width then data else []
  }

  /**
   * Length byte, identifier padded to 7 bytes, Partial IV padded to 5, before the Common IV is applied. An identifier
   * or Partial IV too long for its field leaves the field zero.
   */
  function Layout(id: bytes, piv: bytes): (r: bytes)
    ensures |r| == NONCE_LEN
  {
    [(|id| % 256) as byte] + LeftPad(Fitting(id, NONCE_ID_LEN), NONCE_ID_LEN)
    + LeftPad(Fitting(piv, PIV_MAX_LEN), PIV_MAX_LEN)
  }

  function NonceOf(id: bytes, piv: bytes, iv: CommonIv): (r: bytes)
    ensures |r| == NONCE_LEN
  {
    XorBytes(Layout(id, piv), iv)
  }

  /** Fill a zeroed buffer field by field, then exclusive-or the Common IV into it. */
  method ComputeNonce(id: bytes, piv: bytes, iv: CommonIv) returns (nonce: bytes)
    ensures nonce == NonceOf(id, piv, iv)
  {
    nonce := Zeros(NONCE_LEN);
    nonce := nonce[0 := |id| % 256];
    if |id| <= NONCE_ID_LEN {
      nonce := nonce[..8 - |id|] + id + nonce[8..];
    }
    if |piv| != 0 && |piv| <= PIV_MAX_LEN {
      nonce := nonce[..NONCE_LEN - |piv|] + piv;
    }
    assert nonce == Layout(id, piv);
    for i := 0 to NONCE_LEN
      invariant |nonce| == NONCE_LEN
      invariant forall k :: 0 <= k < i ==> nonce[k] == NonceOf(id, piv, iv)[k]
      invariant forall k :: i <= k < NONCE_LEN ==> nonce[k] == Layout(id, piv)[k]
    {
      nonce := nonce[i := Xor(nonce[i], iv[i])];
    }
  }

  lemma {:induction false} BigEndianZeros(n: nat)
    ensures BigEndian(Zeros(n)) == 0
  {
    if n != 0 {
      assert Zeros(n)[..n - 1] == Zeros(n - 1);
      BigEndianZeros(n - 1);
    }
  }

  lemma {:induction false} BigEndianLeftPad(data: bytes, n: nat)
    ensures BigEndian(Zeros(n) + data) == BigEndian(data)
  {
    if data != [] {
      var init := data[..|data| - 1];
      assert (Zeros(n) + data)[..n + |data| - 1] == Zeros(n) + init;
      BigEndianLeftPad(init, n);
    } else {
      assert Zeros(n) + data == Zeros(n);
      BigEndianZeros(n);
    }
  }

  lemma LeftPadInjective(x: bytes, y: bytes, width: nat)
    requires |x| <= width && |y| <= width && LeftPad(x, width) == LeftPad(y, width)
    ensures |x| == |y| ==> x == y
    ensures BigEndian(x) == BigEndian(y)
  {
    hide BigEndian, Zeros;
    BigEndianLeftPad(x, width - |x|);
    BigEndianLeftPad(y, width - |y|);
    if |x| == |y| {
      ConcatCancelsLeft(Zeros(width - |x|), x, Zeros(width - |y|), y);
    }
  }

  lemma LayoutInBounds(id: bytes, piv: bytes)
    requires |id| <= NONCE_ID_LEN && |piv| <= PIV_MAX_LEN
    ensures Layout(id, piv) == [|id|] + LeftPad(id, NONCE_ID_LEN) + LeftPad(piv, PIV_MAX_LEN)
  {
  }

  lemma LayoutInjective(id1: bytes, id2: bytes, piv1: bytes, piv2: bytes)
    requires |id1| <= NONCE_ID_LEN && |piv1| <= PIV_MAX_LEN
    requires |id2| <= NONCE_ID_LEN && |piv2| <= PIV_MAX_LEN
    requires Layout(id1, piv1) == Layout(id2, piv2)
    ensures id1 == id2 && BigEndian(piv1) == BigEndian(piv2)
  {
    hide Layout, Fitting, LeftPad, BigEndian;
    LayoutInBounds(id1, piv1);
    LayoutInBounds(id2, piv2);
    ConcatCancelsLeft([|id1|] + LeftPad(id1, 7), LeftPad(piv1, 5), [|id2|] + LeftPad(id2, 7), LeftPad(piv2, 5));
    ConcatCancelsLeft([|id1|], LeftPad(id1, 7), [|id2|], LeftPad(id2, 7));
    assert [|id1|][0] == [|id2|][0];
    LeftPadInjective(id1, id2, 7);
    LeftPadInjective(piv1, piv2, 5);
  }

  /** Under one Common IV a nonce determines both the identifier and the sequence number. */
  lemma NonceInjective(id1: bytes, id2: bytes, s1: SeqNum, s2: SeqNum, iv: CommonIv)
    requires |id1| <= NONCE_ID_LEN && |id2| <= NONCE_ID_LEN
    ensures |PivBytes(s1)| <= PIV_MAX_LEN && |PivBytes(s2)| <= PIV_MAX_LEN
    ensures NonceOf(id1, PivBytes(s1), iv) == NonceOf(id2, PivBytes(s2), iv) ==> id1 == id2 && s1 == s2
  {
    DecodeInvertsEncode(s1);
    DecodeInvertsEncode(s2);
    if NonceOf(id1, PivBytes(s1), iv) == NonceOf(id2, PivBytes(s2), iv) {
      XorBytesInjective(Layout(id1, PivBytes(s1)), Layout(id2, PivBytes(s2)), iv);
      LayoutInjective(id1, id2, PivBytes(s1), PivBytes(s2));
      PivBytesMeaning(s1);
      PivBytesMeaning(s2);
    }
  }

  /** The bound on identifiers is needed: two different identifiers of eight bytes share every nonce. */
  lemma LongIdentifiersCollide(piv: bytes, iv: CommonIv)
    ensures NonceOf(Zeros(8), piv, iv) == NonceOf([1] + Zeros(7), piv, iv) && Zeros(8) != [1] + Zeros(7)
  {
    assert Zeros(8)[0] == 0;
    assert Layout(Zeros(8), piv) == Layout([1] + Zeros(7), piv);
  }
}
