/** The 40-bit OSCORE sequence number and its Partial IV encoding (section 5.2 and 6.1 of RFC 8613). */
module SeqNumber {
  import opened Bytes

  const MAX: nat := 0xFF_FFFF_FFFF

  const PIV_MAX_LEN: nat := 5

  type SeqNum = n: nat | n <= MAX

  function New(value: nat): Option<SeqNum> {
    if value <= MAX then Some(value) else None
  }

  /** The successor, or `None` at the last 40-bit value. */
  function Increment(n: SeqNum): Option<SeqNum> {
    New(n + 1)
  }

  /** The number a big-endian byte string stands for. */
  function BigEndian(piv: bytes): nat {
    if piv == [] then 0 else 256 * BigEndian(piv[..|piv| - 1]) + piv[|piv| - 1]
  }

  function Pow256(k: nat): nat {
    if k == 0 then 1 else 256 * Pow256(k - 1)
  }

  /** Sequence numbers are the numbers of five bytes, and only the last has no successor. */
  lemma FortyBits(n: SeqNum)
    ensures MAX + 1 == Pow256(5) && PIV_MAX_LEN == 5
    ensures Increment(n) == if n < 0xFF_FFFF_FFFF then Some(n + 1) else None
  {
  }

  /** The shortest big-endian byte string for `n`; zero is one zero byte. */
  function PivBytes(n: nat): (piv: bytes) {
    if n < 256 then [n] else PivBytes(n / 256) + [n % 256]
  }

  /** A byte string accepted as a Partial IV: one to five bytes, no leading zero unless alone. */
  predicate IsPiv(piv: bytes) {
    1 <= |piv| <= PIV_MAX_LEN && (|piv| > 1 ==> piv[0] != 0)
  }

  /** What the decoder computes; `DecodeInvertsEncode` and `EncodeInvertsDecode` say what it means. */
  function Decode(piv: bytes): Option<SeqNum> {
    if IsPiv(piv) then New(BigEndian(piv)) else None
  }

  /** Decode a one to five byte big-endian Partial IV. */
  method FromPiv(piv: bytes) returns (r: Option<SeqNum>)
    ensures r == Decode(piv)
  {
    if |piv| == 0 || |piv| > 5 || (|piv| > 1 && piv[0] == 0) {
      return None;
    }
    var acc: nat := 0;
    for i := 0 to |piv|
      invariant acc == BigEndian(piv[..i])
    {
      acc := 256 * acc + piv[i];
      assert piv[..i + 1][..i] == piv[..i];
    }
    assert piv[..|piv|] == piv;
    return New(acc);
  }

  lemma {:induction false} PivBytesMeaning(n: nat)
    ensures BigEndian(PivBytes(n)) == n
    ensures |PivBytes(n)| >= 1
    ensures |PivBytes(n)| > 1 ==> PivBytes(n)[0] != 0
    ensures n > 0 ==> PivBytes(n)[0] != 0
  {
    if n < 256 {
      assert [n][..0] == [];
    } else {
      PivBytesMeaning(n / 256);
      var init := PivBytes(n / 256);
      assert (init + [n % 256])[..|init|] == init;
    }
  }

  /** The last byte of an encoding, and what precedes it. */
  lemma PivBytesStep(n: nat)
    ensures |PivBytes(n)| >= 1
    ensures PivBytes(n)[|PivBytes(n)| - 1] == n % 256
    ensures |PivBytes(n)| > 1 ==> PivBytes(n)[..|PivBytes(n)| - 1] == PivBytes(n / 256)
  {
    if n >= 256 {
      PivBytesMeaning(n / 256);
    }
  }

  lemma {:induction false} Pow256Positive(k: nat)
    ensures Pow256(k) >= 1
  {
    if k != 0 {
      Pow256Positive(k - 1);
    }
  }

  /** `n` fits in `k` bytes exactly when its encoding has at most `k` bytes: the encoding is minimal. */
  lemma {:induction false} PivBytesLength(n: nat, k: nat)
    requires k >= 1
    ensures |PivBytes(n)| <= k <==> n < Pow256(k)
    decreases k
  {
    if n < 256 {
      Pow256Positive(k - 1);
    } else if k == 1 {
      PivBytesMeaning(n / 256);
    } else {
      PivBytesLength(n / 256, k - 1);
    }
  }

  /** The decoder accepts every encoding and returns the number encoded. */
  lemma DecodeInvertsEncode(n: SeqNum)
    ensures IsPiv(PivBytes(n))
    ensures Decode(PivBytes(n)) == Some(n)
  {
    PivBytesMeaning(n);
    assert Pow256(5) == MAX + 1;
    PivBytesLength(n, 5);
  }

  /** The number of bytes the encoding of `n` takes. */
  method PivLength(n: SeqNum) returns (len: nat)
    ensures 1 <= len <= PIV_MAX_LEN && len == |PivBytes(n)|
  {
    DecodeInvertsEncode(n);
    if n == 0 {
      return 1;
    }
    len := 0;
    var tmp: nat := n;
    while tmp > 0
      invariant tmp > 0 ==> len + |PivBytes(tmp)| == |PivBytes(n)|
      invariant tmp == 0 ==> len == |PivBytes(n)|
      decreases tmp
    {
      PivBytesStep(tmp);
      len := len + 1;
      tmp := tmp / 256;
    }
  }

  /** Write the minimal encoding of `n` at the front of `piv`, last byte first, and return its length. */
  method EncodePiv(n: SeqNum, piv: array<byte>) returns (len: nat)
    requires piv.Length == PIV_MAX_LEN
    modifies piv
    ensures 1 <= len <= PIV_MAX_LEN && piv[..len] == PivBytes(n)
    ensures forall j :: len <= j < PIV_MAX_LEN ==> piv[j] == old(piv[j])
  {
    len := PivLength(n);
    var s: nat := n;
    ghost var target := PivBytes(n);
    assert target[..len] == target;
    var i := 0;
    while i < len
      invariant 0 <= i <= len
      invariant i < len ==> PivBytes(s) == target[..len - i]
      invariant forall j :: len - i <= j < len ==> piv[j] == target[j]
      invariant forall j :: len <= j < PIV_MAX_LEN ==> piv[j] == old(piv[j])
    {
      PivBytesStep(s);
      piv[len - 1 - i] := s % 256;
      s := s / 256;
      i := i + 1;
    }
  }

  lemma {:induction false} BigEndianBound(piv: bytes)
    ensures BigEndian(piv) < Pow256(|piv|)
  {
    if piv != [] {
      BigEndianBound(piv[..|piv| - 1]);
    }
  }

  lemma {:induction false} Pow256Monotone(j: nat, k: nat)
    requires j <= k
    ensures Pow256(j) <= Pow256(k)
    decreases k
  {
    if j < k {
      Pow256Monotone(j, k - 1);
      Pow256Positive(k - 1);
    }
  }

  lemma BigEndianSnoc(init: bytes, last: byte)
    ensures BigEndian(init + [last]) == 256 * BigEndian(init) + last
  {
    assert (init + [last])[..|init|] == init;
  }

  lemma PivBytesSnoc(v: nat, last: byte)
    requires v > 0
    ensures PivBytes(256 * v + last) == PivBytes(v) + [last]
  {
    assert (256 * v + last) / 256 == v && (256 * v + last) % 256 == last;
  }

  lemma {:induction false} BigEndianPositive(piv: bytes)
    requires |piv| >= 1 && piv[0] != 0
    ensures BigEndian(piv) > 0
  {
    if |piv| > 1 {
      BigEndianPositive(piv[..|piv| - 1]);
    }
  }

  lemma {:induction false} MinimalBigEndian(piv: bytes)
    requires |piv| >= 1
    requires |piv| > 1 ==> piv[0] != 0
    ensures PivBytes(BigEndian(piv)) == piv
  {
    var init, last := piv[..|piv| - 1], piv[|piv| - 1];
    assert piv == init + [last];
    if |piv| > 1 {
      MinimalBigEndian(init);
      BigEndianPositive(init);
      BigEndianSnoc(init, last);
      PivBytesSnoc(BigEndian(init), last);
    }
  }

  /** Whatever the decoder accepts is the encoding of the number it returns. */
  lemma {:induction false} EncodeInvertsDecode(piv: bytes)
    ensures Decode(piv).Some? <==> IsPiv(piv)
    ensures Decode(piv).Some? ==> PivBytes(Decode(piv).value) == piv
  {
    BigEndianBound(piv);
    if IsPiv(piv) {
      Pow256Monotone(|piv|, 5);
      assert Pow256(5) == MAX + 1;
      MinimalBigEndian(piv);
    }
  }

  /** Two sequence numbers with the same Partial IV are equal. */
  lemma PivBytesInjective(a: SeqNum, b: SeqNum)
    requires PivBytes(a) == PivBytes(b)
    ensures a == b
  {
    PivBytesMeaning(a);
    PivBytesMeaning(b);
  }
}
