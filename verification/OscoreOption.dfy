/** The OSCORE option value of section 6.1 of RFC 8613. */
module OscoreOption {
  import opened Bytes
  import opened SeqNumber

  const ID_CONTEXT_CAPACITY: nat := 8

  const KID_MAX_LEN: nat := 7

  const OSCORE_OPTION_MAX_LEN: nat := 1 + PIV_MAX_LEN + 1 + ID_CONTEXT_CAPACITY + KID_MAX_LEN

  /** A parsed option; an empty `piv` means the field is absent. */
  datatype OscoreOption = OscoreOption(piv: bytes, kidContext: Option<bytes>, kid: Option<bytes>)

  const EMPTY_OPTION := OscoreOption([], None, None)

  /** The options this implementation can carry. */
  predicate Valid(o: OscoreOption) {
    && (o.piv != [] ==> IsPiv(o.piv))
    && (o.kidContext.Some? ==> |o.kidContext.value| <= ID_CONTEXT_CAPACITY)
    && (o.kid.Some? ==> |o.kid.value| <= KID_MAX_LEN)
  }

  /** `0x10 | 0x08 | n` for the fields present; the three parts occupy disjoint bits. */
  function Flags(o: OscoreOption): byte
    requires Valid(o)
  {
    (if o.kidContext.Some? then 16 else 0) + (if o.kid.Some? then 8 else 0) + |o.piv|
  }

  /** The wire form: nothing at all for the empty option, otherwise flags and the fields present. */
  function Encode(o: OscoreOption): bytes
    requires Valid(o)
  {
    if o == EMPTY_OPTION then []
    else
      [Flags(o)] + o.piv
      + (if o.kidContext.Some? then [|o.kidContext.value|] + o.kidContext.value else [])
      + (if o.kid.Some? then o.kid.value else [])
  }

  ghost predicate Encodes(o: OscoreOption, data: bytes) {
    Valid(o) && Encode(o) == data
  }

  /** The optional ID context with its length in front. */
  function ContextField(context: Option<bytes>): bytes
    requires context.Some? ==> |context.value| <= ID_CONTEXT_CAPACITY
  {
    if context.Some? then [|context.value|] + context.value else []
  }

  function KidField(kid: Option<bytes>): bytes {
    if kid.Some? then kid.value else []
  }

  lemma EncodeParts(o: OscoreOption)
    requires Valid(o) && o != EMPTY_OPTION
    ensures Encode(o) == [Flags(o)] + (o.piv + (ContextField(o.kidContext) + KidField(o.kid)))
  {
  }

  lemma EncodeInjective(a: OscoreOption, b: OscoreOption)
    requires Valid(a) && Valid(b) && Encode(a) == Encode(b)
    ensures a == b
  {
    if a != EMPTY_OPTION && b != EMPTY_OPTION {
      hide Encode;
      EncodeParts(a);
      EncodeParts(b);
      var ca, cb := ContextField(a.kidContext), ContextField(b.kidContext);
      var ka, kb := KidField(a.kid), KidField(b.kid);
      ConcatCancelsLeft([Flags(a)], a.piv + (ca + ka), [Flags(b)], b.piv + (cb + kb));
      assert [Flags(a)][0] == [Flags(b)][0];
      ConcatCancelsLeft(a.piv, ca + ka, b.piv, cb + kb);
      if a.kidContext.Some? {
        assert (ca + ka)[0] == ca[0] && (cb + kb)[0] == cb[0];
        ConcatCancelsLeft(ca, ka, cb, kb);
        assert ca[1..] == a.kidContext.value && cb[1..] == b.kidContext.value;
      } else {
        ConcatCancelsLeft([], ka, [], kb);
      }
    }
  }

  /** The inverse of `Encode`, by definition rather than by a parser. */
  ghost function Decode(data: bytes): Option<OscoreOption> {
    if exists o :: Encodes(o, data) then
      var o :| Encodes(o, data);
      Some(o)
    else
      None
  }

  lemma DecodeInvertsEncode(o: OscoreOption)
    requires Valid(o)
    ensures Decode(Encode(o)) == Some(o)
  {
    assert Encodes(o, Encode(o));
    var p := Decode(Encode(o)).value;
    EncodeInjective(o, p);
  }

  lemma EncodeInvertsDecode(data: bytes)
    ensures Decode(data).Some? ==> Valid(Decode(data).value) && Encode(Decode(data).value) == data
  {
  }

  lemma DecodedIsValid(data: bytes)
    ensures Decode(data).Some? ==> Valid(Decode(data).value)
  {
  }

  /** The bits of the first byte: `flags & 0xe0 != 0`, `flags & 0x10 != 0`, `flags & 0x08 != 0`, `flags & 0x07`. */
  predicate Reserved(flags: byte) { flags / 32 != 0 }

  predicate HFlag(flags: byte) { (flags / 16) % 2 == 1 }

  predicate KFlag(flags: byte) { (flags / 8) % 2 == 1 }

  function PivLen(flags: byte): nat { flags % 8 }

  lemma FlagBits(flags: byte, h: bool, k: bool, n: nat)
    requires n < 8
    ensures flags == (if h then 16 else 0) + (if k then 8 else 0) + n
            <==> !Reserved(flags) && HFlag(flags) == h && KFlag(flags) == k && PivLen(flags) == n
  {
  }

  /** What the bytes of a non-empty encoding of `o` look like, field by field, once the flags are read as `h k n`. */
  ghost predicate Shape(o: OscoreOption, data: bytes, h: bool, k: bool, n: nat) {
    && Valid(o) && h == o.kidContext.Some? && k == o.kid.Some? && n == |o.piv|
    && var m := 1 + n + if h then 1 + |o.kidContext.value| else 0;
    && |data| == m + (if k then |o.kid.value| else 0)
    && data[1..1 + n] == o.piv
    && (h ==> data[1 + n] == |o.kidContext.value|)
  }

  lemma EncodedShape(o: OscoreOption, data: bytes)
    requires Encodes(o, data) && data != []
    ensures data != [0] && !Reserved(data[0])
    ensures Shape(o, data, HFlag(data[0]), KFlag(data[0]), PivLen(data[0]))
  {
    FlagBits(data[0], o.kidContext.Some?, o.kid.Some?, |o.piv|);
  }

  lemma FieldsDecode(o: OscoreOption, data: bytes)
    requires data != [] && data != [0] && Valid(o)
    requires data[1..] == o.piv + ContextField(o.kidContext) + (if o.kid.Some? then o.kid.value else [])
    requires !Reserved(data[0]) && HFlag(data[0]) == o.kidContext.Some? && KFlag(data[0]) == o.kid.Some?
    requires PivLen(data[0]) == |o.piv|
    ensures Decode(data) == Some(o)
  {
    FlagBits(data[0], o.kidContext.Some?, o.kid.Some?, |o.piv|);
    assert data == [data[0]] + data[1..];
    assert o == EMPTY_OPTION ==> data == [0];
    assert Encode(o) == data;
    DecodeInvertsEncode(o);
  }

  lemma ThreeFields(data: bytes, n: nat, m: nat)
    requires 1 <= n <= m <= |data|
    ensures data[1..] == data[1..n] + data[n..m] + data[m..]
  {
  }

  /** The walk after the first byte; `want`, when there is one, is an option these bytes have the shape of. */
  method ParseFields(data: bytes, h: bool, k: bool, n: nat, ghost want: Option<OscoreOption>)
    returns (r: Option<OscoreOption>)
    requires data != []
    requires want.Some? ==> Shape(want.value, data, h, k, n)
    ensures r.Some? ==>
              && Valid(r.value)
              && data[1..] == r.value.piv + ContextField(r.value.kidContext)
                              + (if r.value.kid.Some? then r.value.kid.value else [])
              && h == r.value.kidContext.Some? && k == r.value.kid.Some? && n == |r.value.piv|
    ensures r.None? ==> want.None?
  {
    var piv: bytes, kidContext, kid := [], None, None;
    var pos := 1;
    if n > 0 {
      if n > PIV_MAX_LEN || pos + n > |data| {
        return None;
      }
      piv := data[pos..pos + n];
      var seqNum := FromPiv(piv);
      SeqNumber.EncodeInvertsDecode(piv);
      if seqNum.None? {
        return None;
      }
      pos := pos + n;
    }
    assert data[1..pos] == piv;
    ghost var pivEnd := pos;
    if h {
      if pos >= |data| {
        return None;
      }
      var s := data[pos];
      pos := pos + 1;
      if s > ID_CONTEXT_CAPACITY || pos + s > |data| {
        return None;
      }
      kidContext := Some(data[pos..pos + s]);
      pos := pos + s;
      assert data[pivEnd..pos] == [s] + kidContext.value;
    }
    assert data[pivEnd..pos] == ContextField(kidContext);
    if k {
      var remaining := |data| - pos;
      if remaining > KID_MAX_LEN {
        return None;
      }
      kid := Some(data[pos..]);
    } else if pos != |data| {
      return None;
    }
    ThreeFields(data, pivEnd, pos);
    return Some(OscoreOption(piv, kidContext, kid));
  }

  /**
   * Walk the option value left to right. It succeeds exactly on encodings of valid options and returns the
   * option encoded; every failure in the source is the same error.
   */
  method ParseOption(data: bytes) returns (r: Option<OscoreOption>)
    ensures r == Decode(data)
  {
    if |data| == 0 {
      DecodeInvertsEncode(EMPTY_OPTION);
      return Some(EMPTY_OPTION);
    }
    ghost var want := Decode(data);
    if want.Some? {
      EncodedShape(want.value, data);
    }
    if data == [0] {
      return None;
    }
    var flags := data[0];
    if Reserved(flags) {
      return None;
    }
    r := ParseFields(data, HFlag(flags), KFlag(flags), PivLen(flags), want);
    if r.Some? {
      FieldsDecode(r.value, data);
    }
  }
}
