/** Bytes, byte strings, exclusive or, and the result types shared by every module. */
module Bytes {
  type byte = x: int | 0 <= x < 256

  type bytes = seq<byte>

  function Zeros(n: nat): (z: bytes)
    ensures |z| == n
  {
    seq(n, _ => 0)
  }

  /** Keys, hashes and group elements. */
  type Bytes32 = b: bytes | |b| == 32 witness Zeros(32)

  datatype Option<+T> = None | Some(value: T)

  /** A Rust `Result`; usable with `:-`. */
  datatype Result<+T, +E> = Ok(value: T) | Err(error: E) {
    predicate IsFailure() {
      Err?
    }

    function PropagateFailure<U>(): (r: Result<U, E>)
      requires Err?
    {
      Err(error)
    }

    function Extract(): T
      requires Ok?
    {
      value
    }
  }

  /** Append to a buffer of capacity `cap`, all or nothing; what does not fit is the caller's error. */
  function Append<E>(buf: bytes, cap: nat, data: bytes, e: E): (r: Result<bytes, E>)
    ensures r.Ok? <==> |buf| + |data| <= cap
    ensures r.Ok? ==> r.value == buf + data
    ensures r.Err? ==> r.error == e
  {
    if |buf| + |data| <= cap then Ok(buf + data) else Err(e)
  }

  /** A two-byte big-endian number. */
  function U16(hi: byte, lo: byte): (n: nat)
    ensures n <= 0xFFFF
  {
    256 * (hi as int) + lo as int
  }

  function Pow2(n: nat): nat {
    if n == 0 then 1 else 2 * Pow2(n - 1)
  }

  /** Exclusive or of two `k`-bit numbers, bit by bit from the least significant end. */
  function XorBits(k: nat, a: nat, b: nat): nat {
    if k == 0 then 0
    else 2 * XorBits(k - 1, a / 2, b / 2) + (if a % 2 == b % 2 then 0 else 1)
  }

  lemma {:induction false} XorBitsInvolutive(k: nat, a: nat, b: nat)
    requires a < Pow2(k)
    ensures XorBits(k, a, b) < Pow2(k)
    ensures XorBits(k, XorBits(k, a, b), b) == a
  {
    if k != 0 {
      XorBitsInvolutive(k - 1, a / 2, b / 2);
    }
  }

  lemma {:induction false} XorBitsBound(k: nat, a: nat, b: nat)
    ensures XorBits(k, a, b) < Pow2(k)
  {
    if k != 0 {
      XorBitsBound(k - 1, a / 2, b / 2);
    }
  }

  function Xor(a: byte, b: byte): byte {
    XorBitsBound(8, a, b);
    assert Pow2(8) == 256;
    XorBits(8, a, b)
  }

  lemma XorCancels(a: byte, k: byte)
    ensures Xor(Xor(a, k), k) == a
  {
    assert Pow2(8) == 256;
    XorBitsInvolutive(8, a, k);
  }

  /** `data` with `key` exclusive-ored onto it position by position. */
  function XorBytes(data: bytes, key: bytes): (r: bytes)
    requires |data| <= |key|
    ensures |r| == |data|
    ensures forall i :: 0 <= i < |data| ==> r[i] == Xor(data[i], key[i])
  {
    seq(|data|, i requires 0 <= i < |data| => Xor(data[i], key[i]))
  }

  lemma XorBytesCancels(data: bytes, key: bytes)
    requires |data| <= |key|
    ensures XorBytes(XorBytes(data, key), key) == data
  {
    var r := XorBytes(XorBytes(data, key), key);
    forall i | 0 <= i < |data| ensures r[i] == data[i] {
      XorCancels(data[i], key[i]);
    }
  }

  lemma XorBytesInjective(a: bytes, b: bytes, key: bytes)
    requires |a| <= |key| && |b| <= |key|
    requires XorBytes(a, key) == XorBytes(b, key)
    ensures a == b
  {
    XorBytesCancels(a, key);
    XorBytesCancels(b, key);
  }

  /** Splitting a concatenation at the seam. */
  lemma ConcatSplit<T>(a: seq<T>, b: seq<T>)
    ensures (a + b)[..|a|] == a
    ensures (a + b)[|a|..] == b
  {
  }

  lemma FourSlices<T>(s: seq<T>, a: nat, b: nat, c: nat, d: nat)
    requires a < b <= c <= d <= |s| && b == a + 1
    ensures s[a..d] == [s[a]] + s[b..c] + s[c..d]
  {
  }

  lemma Middle<T>(a: seq<T>, b: seq<T>, c: seq<T>)
    ensures (a + b + c)[|a|..|a| + |b|] == b
  {
  }

  lemma Regroup4<T>(a: seq<T>, b: seq<T>, c: seq<T>, d: seq<T>)
    ensures a + ((b + c) + d) == (a + b) + (c + d)
  {
  }

  lemma Regroup5<T>(a: seq<T>, b: seq<T>, c: seq<T>, d: seq<T>, e: seq<T>, f: seq<T>)
    ensures a + b + c + d + e + f == a + (b + c + d + e + f)
  {
  }

  /** Three ways of putting a middle piece between what is before and what is after it. */
  lemma Regroup6<T>(a: seq<T>, b: seq<T>, c: seq<T>, d: seq<T>, e: seq<T>, f: seq<T>)
    ensures a + (b + c + d + e) + f == (a + b) + c + (d + e + f)
    ensures a + (b + c + d + e) + f == (a + b + c) + d + (e + f)
    ensures a + (b + c + d + e) + f == (a + b + c + d) + e + f
  {
  }

  lemma ConcatCancelsLeft<T>(a: seq<T>, b: seq<T>, c: seq<T>, d: seq<T>)
    requires a + b == c + d
    requires |a| == |c|
    ensures a == c && b == d
  {
    ConcatSplit(a, b);
    ConcatSplit(c, d);
  }

  /** Three parts at the front of a sequence, found one after another. */
  lemma ThreeParts<T>(d: seq<T>, a: seq<T>, b: seq<T>, c: seq<T>)
    requires |a| + |b| + |c| <= |d|
    ensures d[..|a| + |b| + |c|] == a + b + c
            <==> d[..|a|] == a && d[|a|..][..|b|] == b && d[|a| + |b|..][..|c|] == c
  {
    var n := |a| + |b| + |c|;
    assert d[|a|..][..|b|] == d[|a|..|a| + |b|];
    assert d[|a| + |b|..][..|c|] == d[|a| + |b|..n];
    assert d[..n] == d[..|a|] + d[|a|..|a| + |b|] + d[|a| + |b|..n];
    if d[..n] == a + b + c {
      ConcatCancelsLeft(d[..|a|] + d[|a|..|a| + |b|], d[|a| + |b|..n], a + b, c);
      ConcatCancelsLeft(d[..|a|], d[|a|..|a| + |b|], a, b);
    }
  }
}
