/** Credential references and credentials in EDHOC: ID_CRED parsing, raw-key credentials and their checks. */
module EdhocCredential {
  import opened Bytes
  import opened Crypto
  import opened Cbor
  import opened EdhocCbor

  const KEY_LEN_32: nat := 32

  const ID_CRED_MAX_LEN: nat := 64

  const ID_CRED_MAX_PARAMETERS: nat := 8

  const LABEL_ALG: int := 2

  const LABEL_KID: int := 4

  const LABEL_X5T: int := 34

  datatype Reference = Kid(kid: bytes) | X5t(algorithm: int, thumbprint: bytes)

  /** A parsed ID_CRED with its map encoding. */
  datatype IdCred = IdCred(encoded: bytes, reference: Reference)

  // Items the parser steps over

  function AtLeast(data: bytes, n: nat): (r: Result<nat, EdhocError>)
    ensures r == if n <= |data| then Ok(n) else Err(InvalidMessage)
  {
    if n <= |data| then Ok(n) else Err(InvalidMessage)
  }

  /** A canonically encoded integer of at most two bytes: its value and size. */
  function TryParseCborInt(data: bytes): (r: Option<(int, nat)>)
    ensures r.Some? ==> 1 <= r.value.1 <= |data|
  {
    if data == [] then None
    else if data[0] <= 0x17 then Some((data[0], 1))
    else if 0x20 <= data[0] <= 0x37 then Some((-(data[0] as int - 0x20 + 1), 1))
    else if data[0] in {0x18, 0x38} then
      if |data| < 2 || data[1] < 24 then None
      else Some((if data[0] == 0x18 then data[1] as int else -(data[1] as int + 1), 2))
    else if data[0] in {0x19, 0x39} then
      if |data| < 3 || U16(data[1], data[2]) <= 0xFF then None
      else Some((if data[0] == 0x19 then U16(data[1], data[2]) else -(U16(data[1], data[2]) + 1), 3))
    else None
  }

  /** A byte string with the shortest header for its length. */
  function ParseCanonicalBstr(data: bytes): (r: Result<(bytes, nat), EdhocError>)
    ensures r.Ok? ==> 1 <= r.value.1 <= |data| && |r.value.0| < r.value.1
    ensures r.Err? ==> r.error in {InvalidMessage, BufferTooSmall}
  {
    if data == [] then Err(InvalidMessage)
    else if 0x40 <= data[0] <= 0x57 then Slice(data, 1, data[0] - 0x40)
    else if data[0] == 0x58 && |data| >= 2 && data[1] >= 24 then Slice(data, 2, data[1])
    else if data[0] == 0x59 && |data| >= 3 && U16(data[1], data[2]) > 0xFF then Slice(data, 3, U16(data[1], data[2]))
    else Err(InvalidMessage)
  }

  function SkipIntValue(data: bytes): (r: Result<nat, EdhocError>)
    ensures r.Ok? ==> 1 <= r.value <= |data|
    ensures r.Err? ==> r.error == InvalidMessage
  {
    if data == [] then Err(InvalidMessage)
    else if data[0] <= 0x17 || 0x20 <= data[0] <= 0x37 then Ok(1)
    else if data[0] in {0x18, 0x38} then AtLeast(data, 2)
    else if data[0] in {0x19, 0x39} then AtLeast(data, 3)
    else Err(InvalidMessage)
  }

  /** The size of the integer, string or array at the front of `data`. */
  function SkipValue(data: bytes): (r: Result<nat, EdhocError>)
    ensures r.Ok? ==> 1 <= r.value <= |data|
    ensures r.Err? ==> r.error == InvalidMessage
    decreases |data|, 0
  {
    if data == [] || SkipIntValue(data).Ok? then SkipIntValue(data)
    else if 0x40 <= data[0] <= 0x57 then AtLeast(data, 1 + (data[0] - 0x40))
    else if 0x60 <= data[0] <= 0x77 then AtLeast(data, 1 + (data[0] - 0x60))
    else if data[0] in {0x58, 0x78} && |data| >= 2 then AtLeast(data, 2 + data[1] as int)
    else if 0x80 <= data[0] <= 0x97 then SkipItems(data, 1, data[0] - 0x80)
    else if data[0] == 0x98 && |data| >= 2 then SkipItems(data, 2, data[1])
    else Err(InvalidMessage)
  }

  /** Where `count` items starting at `offset` end. */
  function SkipItems(data: bytes, offset: nat, count: nat): (r: Result<nat, EdhocError>)
    requires offset <= |data|
    ensures r.Ok? ==> offset + count <= r.value <= |data|
    ensures r.Err? ==> r.error == InvalidMessage
    decreases |data| - offset, count
  {
    if count == 0 then Ok(offset)
    else
      var n :- SkipValue(data[offset..]);
      SkipItems(data, offset + n, count - 1)
  }

  method SkipCborValue(data: bytes) returns (r: Result<nat, EdhocError>)
    ensures r == SkipValue(data)
    decreases |data|
  {
    if |data| == 0 {
      return Err(InvalidMessage);
    }
    var first := data[0];
    var offset: nat, count: nat := 1, 0;
    if first <= 0x17 || 0x20 <= first <= 0x37 {
      return Ok(1);
    } else if first in {0x18, 0x38} {
      return AtLeast(data, 2);
    } else if first in {0x19, 0x39} {
      return AtLeast(data, 3);
    } else if 0x40 <= first <= 0x57 {
      return AtLeast(data, 1 + (first - 0x40));
    } else if 0x60 <= first <= 0x77 {
      return AtLeast(data, 1 + (first - 0x60));
    } else if first in {0x58, 0x78, 0x98} && |data| < 2 {
      return Err(InvalidMessage);
    } else if first in {0x58, 0x78} {
      return AtLeast(data, 2 + data[1] as int);
    } else if 0x80 <= first <= 0x97 {
      count := first - 0x80;
    } else if first == 0x98 {
      offset, count := 2, data[1];
    } else {
      return Err(InvalidMessage);
    }
    ghost var whole := SkipItems(data, offset, count);
    for i := 0 to count
      invariant 1 <= offset <= |data| && SkipItems(data, offset, count - i) == whole
    {
      var n := SkipCborValue(data[offset..]);
      if n.Err? {
        return n;
      }
      offset := offset + n.value;
    }
    return Ok(offset);
  }

  // Header parameters

  /** The algorithm list from `offset` on: no 1, no 34, no repetition, at most eight integers. */
  function AlgItems(data: bytes, offset: nat, count: nat, seen: seq<int>): (r: Result<nat, EdhocError>)
    requires offset <= |data|
    ensures r.Ok? ==> offset + count <= r.value <= |data|
    ensures r.Err? ==> r.error in {InvalidMessage, BufferTooSmall}
    decreases count
  {
    if count == 0 then Ok(offset)
    else if offset >= |data| then Err(InvalidMessage)
    else
      var item := TryParseCborInt(data[offset..]);
      if item.None? then
        var n :- SkipValue(data[offset..]);
        AlgItems(data, offset + n, count - 1, seen)
      else if item.value.0 in {1, LABEL_X5T} || item.value.0 in seen then Err(InvalidMessage)
      else if |seen| >= 8 then Err(BufferTooSmall)
      else AlgItems(data, offset + item.value.1, count - 1, seen + [item.value.0])
  }

  function AlgValue(data: bytes): (r: Result<nat, EdhocError>)
    ensures r.Ok? ==> 1 <= r.value <= |data|
    ensures r.Err? ==> r.error in {InvalidMessage, BufferTooSmall}
  {
    if SkipIntValue(data).Ok? then SkipIntValue(data)
    else if data != [] && 0x80 <= data[0] <= 0x97 then AlgItems(data, 1, data[0] - 0x80, [])
    else Err(InvalidMessage)
  }

  method ValidateAlgValue(data: bytes) returns (r: Result<nat, EdhocError>)
    ensures r == AlgValue(data)
  {
    hide SkipValue, TryParseCborInt, SkipIntValue;
    if |data| == 0 {
      return Err(InvalidMessage);
    }
    if SkipIntValue(data).Ok? {
      return SkipIntValue(data);
    }
    if !(0x80 <= data[0] <= 0x97) {
      return Err(InvalidMessage);
    }
    var count: nat, offset: nat := data[0] - 0x80, 1;
    var seen: seq<int> := [];
    ghost var whole := AlgItems(data, offset, count, seen);
    for i := 0 to count
      invariant 1 <= offset <= |data| && AlgItems(data, offset, count - i, seen) == whole
    {
      if offset >= |data| {
        return Err(InvalidMessage);
      }
      var item := TryParseCborInt(data[offset..]);
      if item.Some? {
        if item.value.0 == 1 || item.value.0 == LABEL_X5T || item.value.0 in seen {
          return Err(InvalidMessage);
        }
        if |seen| >= 8 {
          return Err(BufferTooSmall);
        }
        seen := seen + [item.value.0];
        offset := offset + item.value.1;
      } else {
        var n := SkipCborValue(data[offset..]);
        if n.Err? {
          return n;
        }
        offset := offset + n.value;
      }
    }
    return Ok(offset);
  }

  /** A thumbprint `[algorithm, hash]`: both parts and the size. */
  function ParseX5t(data: bytes): (r: Result<(int, bytes, nat), EdhocError>)
    ensures r.Ok? ==> 1 <= r.value.2 <= |data|
    ensures r.Err? ==> r.error in {InvalidMessage, BufferTooSmall}
  {
    if data == [] || data[0] != 0x82 then Err(InvalidMessage)
    else
      var alg := TryParseCborInt(data[1..]);
      if alg.None? then Err(InvalidMessage)
      else
        var thumb :- ParseBstr(data[1 + alg.value.1..]);
        if |thumb.0| > ID_CRED_MAX_LEN then Err(BufferTooSmall)
        else Ok((alg.value.0, thumb.0, 1 + alg.value.1 + thumb.1))
  }

  /** What the map loop has gathered: the integer labels in order, and the two kinds of reference. */
  datatype Params = Params(seen: seq<int>, kid: Option<bytes>, x5t: Option<(int, bytes)>)

  /** One value under the integer `label`, and its size. */
  function LabelledValue(data: bytes, key: int, p: Params): (r: Result<(Params, nat), EdhocError>)
    ensures r.Ok? ==> 1 <= r.value.1 <= |data|
    ensures r.Err? ==> r.error in {InvalidMessage, BufferTooSmall}
  {
    if key == 1 then
      var n :- SkipIntValue(data);
      Ok((p, n))
    else if key == LABEL_ALG then
      var n :- AlgValue(data);
      Ok((p, n))
    else if key == LABEL_KID then
      if p.kid.Some? then Err(InvalidMessage)
      else
        var kid :- ParseCanonicalBstr(data);
        if |kid.0| > ID_CRED_MAX_LEN then Err(BufferTooSmall) else Ok((p.(kid := Some(kid.0)), kid.1))
    else if key == LABEL_X5T then
      if p.x5t.Some? then Err(InvalidMessage)
      else
        var x :- ParseX5t(data);
        Ok((p.(x5t := Some((x.0, x.1))), x.2))
    else
      var n :- SkipValue(data);
      Ok((p, n))
  }

  /** One key and its value at `offset`, and where they end. */
  function Pair(data: bytes, offset: nat, p: Params): (r: Result<(Params, nat), EdhocError>)
    requires offset <= |data|
    ensures r.Ok? ==> offset < r.value.1 <= |data|
    ensures r.Err? ==> r.error in {InvalidMessage, BufferTooSmall}
  {
    if offset >= |data| then Err(InvalidMessage)
    else
      var key := TryParseCborInt(data[offset..]);
      if key.Some? then
        var start := offset + key.value.1;
        if key.value.0 in p.seen then Err(InvalidMessage)
        else if |p.seen| >= ID_CRED_MAX_PARAMETERS then Err(BufferTooSmall)
        else
          var r :- LabelledValue(data[start..], key.value.0, p.(seen := p.seen + [key.value.0]));
          Ok((r.0, start + r.1))
      else
        var size :- SkipValue(data[offset..]);
        var value :- SkipValue(data[offset + size..]);
        Ok((p, offset + size + value))
  }

  function Pairs(data: bytes, offset: nat, count: nat, p: Params): (r: Result<(Params, nat), EdhocError>)
    requires offset <= |data|
    ensures r.Ok? ==> offset + count <= r.value.1 <= |data|
    ensures r.Err? ==> r.error in {InvalidMessage, BufferTooSmall}
    decreases count
  {
    if count == 0 then Ok((p, offset))
    else
      var r :- Pair(data, offset, p);
      Pairs(data, r.1, count - 1, r.0)
  }

  /** Exactly one kind of reference. */
  function ReferenceOf(p: Params): Result<Reference, EdhocError> {
    if p.kid.Some? && p.x5t.None? then Ok(Kid(p.kid.value))
    else if p.kid.None? && p.x5t.Some? then Ok(X5t(p.x5t.value.0, p.x5t.value.1))
    else Err(InvalidMessage)
  }

  function IdCredMap(kid: bytes): bytes
    requires |kid| <= 0xFFFF
  {
    [0xA1, 0x04] + Bstr(kid)
  }

  /** The credential reference at the front of `data`: a bare `kid`, or a map of one to eight parameters. */
  function ParseIdCred(data: bytes): (r: Result<(IdCred, nat), EdhocError>)
    ensures r.Ok? ==> 1 <= r.value.1 <= |data| && |r.value.0.encoded| <= ID_CRED_MAX_LEN
    ensures r.Err? ==> r.error in {InvalidMessage, BufferTooSmall}
  {
    if data == [] then Err(InvalidMessage)
    else if data[0] <= 0x17 || 0x20 <= data[0] <= 0x37 then
      Ok((IdCred(IdCredMap([data[0]]), Kid([data[0]])), 1))
    else if data[0] in {0x18, 0x38} then
      if |data| < 2 then Err(InvalidMessage)
      else Ok((IdCred(IdCredMap(data[..2]), Kid(data[..2])), 2))
    else if 0x40 <= data[0] <= 0x58 then
      var kid :- ParseBstr(data);
      if |IdCredMap(kid.0)| > ID_CRED_MAX_LEN then Err(BufferTooSmall)
      else Ok((IdCred(IdCredMap(kid.0), Kid(kid.0)), kid.1))
    else if !(0xA1 <= data[0] <= 0xA8) then Err(InvalidMessage)
    else
      var r :- Pairs(data, 1, data[0] - 0xA0, Params([], None, None));
      var reference :- ReferenceOf(r.0);
      if r.1 > ID_CRED_MAX_LEN then Err(BufferTooSmall)
      else Ok((IdCred(data[..r.1], reference), r.1))
  }

  /** Push the map header and key, then the content. */
  method BareKid(kid: bytes, consumed: nat) returns (r: Result<(IdCred, nat), EdhocError>)
    requires |kid| <= 0xFFFF
    ensures r == if |IdCredMap(kid)| > ID_CRED_MAX_LEN then Err(BufferTooSmall)
                 else Ok((IdCred(IdCredMap(kid), Kid(kid)), consumed))
  {
    var encoded: bytes := [0xA1, 0x04];
    encoded :- EncodeBstr(encoded, ID_CRED_MAX_LEN, kid);
    return Ok((IdCred(encoded, Kid(kid)), consumed));
  }

  method ParseLabelledValue(data: bytes, key: int, p: Params) returns (r: Result<(Params, nat), EdhocError>)
    ensures r == LabelledValue(data, key, p)
  {
    if key == LABEL_ALG {
      var n :- ValidateAlgValue(data);
      return Ok((p, n));
    } else if key == 1 || key == LABEL_KID || key == LABEL_X5T {
      return LabelledValue(data, key, p);
    } else {
      var n :- SkipCborValue(data);
      return Ok((p, n));
    }
  }

  /** The loop over the parameters of a map. */
  method ParseParameters(data: bytes, count: nat) returns (r: Result<(Params, nat), EdhocError>)
    requires data != []
    ensures r == Pairs(data, 1, count, Params([], None, None))
  {
    hide SkipValue, TryParseCborInt, LabelledValue;
    var offset: nat := 1;
    var p := Params([], None, None);
    ghost var whole := Pairs(data, offset, count, p);
    for i := 0 to count
      invariant 1 <= offset <= |data| && Pairs(data, offset, count - i, p) == whole
    {
      if offset >= |data| {
        return Err(InvalidMessage);
      }
      var key := TryParseCborInt(data[offset..]);
      if key.Some? {
        offset := offset + key.value.1;
        if key.value.0 in p.seen {
          return Err(InvalidMessage);
        }
        if |p.seen| >= ID_CRED_MAX_PARAMETERS {
          return Err(BufferTooSmall);
        }
        p := p.(seen := p.seen + [key.value.0]);
        var v :- ParseLabelledValue(data[offset..], key.value.0, p);
        p, offset := v.0, offset + v.1;
      } else {
        var size :- SkipCborValue(data[offset..]);
        offset := offset + size;
        var value :- SkipCborValue(data[offset..]);
        offset := offset + value;
      }
    }
    return Ok((p, offset));
  }

  /** The parser of the source. */
  method ParseIdCredential(data: bytes) returns (r: Result<(IdCred, nat), EdhocError>)
    ensures r == ParseIdCred(data)
  {
    hide Pairs, ParseBstr, IdCredMap;
    if |data| == 0 {
      return Err(InvalidMessage);
    }
    var first := data[0];
    if first <= 0x17 || 0x20 <= first <= 0x37 {
      r := BareKid([first], 1);
      return;
    }
    if first == 0x18 || first == 0x38 {
      if |data| < 2 {
        return Err(InvalidMessage);
      }
      r := BareKid(data[..2], 2);
      return;
    }
    if 0x40 <= first <= 0x57 || first == 0x58 {
      var kid :- ParseBstr(data);
      r := BareKid(kid.0, kid.1);
      return;
    }
    if !(0xA1 <= first <= 0xA8) {
      return Err(InvalidMessage);
    }
    var m :- ParseParameters(data, first - 0xA0);
    var reference :- ReferenceOf(m.0);
    assert [] + data[..m.1] == data[..m.1];
    var encoded :- Extend([], ID_CRED_MAX_LEN, data[..m.1]);
    return Ok((IdCred(encoded, reference), m.1));
  }

  // Every parser depends only on the bytes it consumes

  /** `e` continues the first `n` bytes of `d` in some way of its own. */
  predicate SameFront(d: bytes, e: bytes, n: nat) {
    n <= |d| && n <= |e| && d[..n] == e[..n]
  }

  lemma SameFrontFrom(d: bytes, e: bytes, n: nat, start: nat)
    requires start <= n && SameFront(d, e, n)
    ensures SameFront(d[start..], e[start..], n - start)
  {
    assert d[start..][..n - start] == d[..n][start..];
    assert e[start..][..n - start] == e[..n][start..];
  }

  lemma SameFrontShorter(d: bytes, e: bytes, n: nat, m: nat)
    requires m <= n && SameFront(d, e, n)
    ensures SameFront(d, e, m)
    ensures forall i :: 0 <= i < m ==> d[i] == e[i]
  {
    assert d[..m] == d[..n][..m] && e[..m] == e[..n][..m];
    forall i | 0 <= i < m ensures d[i] == e[i] {
      assert d[i] == d[..m][i] && e[i] == e[..m][i];
    }
  }

  lemma IntIsPrefixStable(d: bytes, e: bytes)
    requires SkipIntValue(d).Ok? && SameFront(d, e, SkipIntValue(d).value)
    ensures SkipIntValue(e) == SkipIntValue(d) && TryParseCborInt(e) == TryParseCborInt(d)
  {
    SameFrontShorter(d, e, SkipIntValue(d).value, SkipIntValue(d).value);
  }

  lemma LabelIsAnInt(d: bytes)
    requires TryParseCborInt(d).Some?
    ensures SkipIntValue(d) == Ok(TryParseCborInt(d).value.1)
  {
  }

  lemma BstrIsPrefixStable(d: bytes, e: bytes)
    ensures ParseBstr(d).Ok? && SameFront(d, e, ParseBstr(d).value.1) ==> ParseBstr(e) == ParseBstr(d)
    ensures ParseCanonicalBstr(d).Ok? && SameFront(d, e, ParseCanonicalBstr(d).value.1) ==>
              ParseCanonicalBstr(e) == ParseCanonicalBstr(d)
  {
    if ParseBstr(d).Ok? && SameFront(d, e, ParseBstr(d).value.1) {
      var n := ParseBstr(d).value.1;
      SameFrontShorter(d, e, n, n);
      var x := ParseBstr(d).value.0;
      assert e[n - |x|..n] == e[..n][n - |x|..n] && d[n - |x|..n] == d[..n][n - |x|..n];
    }
    assert ParseCanonicalBstr(d).Ok? ==> ParseCanonicalBstr(d) == ParseBstr(d);
  }

  /** Appending or replacing bytes behind a value never changes how much is skipped. */
  lemma {:induction false} SkipIsPrefixStable(d: bytes, e: bytes)
    requires SkipValue(d).Ok? && SameFront(d, e, SkipValue(d).value)
    ensures SkipValue(e) == SkipValue(d) && TryParseCborInt(e) == TryParseCborInt(d)
    decreases |d|, 0
  {
    var n := SkipValue(d).value;
    SameFrontShorter(d, e, n, n);
    if SkipIntValue(d).Ok? {
      IntIsPrefixStable(d, e);
    } else if 0x80 <= d[0] <= 0x97 {
      SkipItemsPrefixStable(d, e, 1, d[0] - 0x80);
    } else if d[0] == 0x98 {
      SkipItemsPrefixStable(d, e, 2, d[1]);
    }
  }

  lemma {:induction false} SkipItemsPrefixStable(d: bytes, e: bytes, offset: nat, count: nat)
    requires offset <= |d| && SkipItems(d, offset, count).Ok? && SameFront(d, e, SkipItems(d, offset, count).value)
    ensures SkipItems(e, offset, count) == SkipItems(d, offset, count)
    decreases |d| - offset, count
  {
    hide SkipValue;
    if count != 0 {
      var n := SkipItems(d, offset, count).value;
      var k := SkipValue(d[offset..]).value;
      SameFrontFrom(d, e, n, offset);
      SameFrontShorter(d[offset..], e[offset..], n - offset, k);
      SkipIsPrefixStable(d[offset..], e[offset..]);
      SkipItemsPrefixStable(d, e, offset + k, count - 1);
    }
  }

  lemma {:induction false} AlgItemsPrefixStable(d: bytes, e: bytes, offset: nat, count: nat, seen: seq<int>)
    requires offset <= |d| && AlgItems(d, offset, count, seen).Ok?
    requires SameFront(d, e, AlgItems(d, offset, count, seen).value)
    ensures AlgItems(e, offset, count, seen) == AlgItems(d, offset, count, seen)
    decreases count
  {
    hide SkipValue, SkipIntValue, TryParseCborInt;
    if count != 0 {
      var n := AlgItems(d, offset, count, seen).value;
      var item := TryParseCborInt(d[offset..]);
      SameFrontFrom(d, e, n, offset);
      if item.None? {
        var k := SkipValue(d[offset..]).value;
        SameFrontShorter(d[offset..], e[offset..], n - offset, k);
        SkipIsPrefixStable(d[offset..], e[offset..]);
        AlgItemsPrefixStable(d, e, offset + k, count - 1, seen);
      } else {
        LabelIsAnInt(d[offset..]);
        SameFrontShorter(d[offset..], e[offset..], n - offset, item.value.1);
        IntIsPrefixStable(d[offset..], e[offset..]);
        AlgItemsPrefixStable(d, e, offset + item.value.1, count - 1, seen + [item.value.0]);
      }
    }
  }

  lemma AlgIsPrefixStable(d: bytes, e: bytes)
    requires AlgValue(d).Ok? && SameFront(d, e, AlgValue(d).value)
    ensures AlgValue(e) == AlgValue(d)
  {
    SameFrontShorter(d, e, AlgValue(d).value, AlgValue(d).value);
    if SkipIntValue(d).Ok? {
      IntIsPrefixStable(d, e);
    } else {
      AlgItemsPrefixStable(d, e, 1, d[0] - 0x80, []);
    }
  }

  lemma X5tIsPrefixStable(d: bytes, e: bytes)
    requires ParseX5t(d).Ok? && SameFront(d, e, ParseX5t(d).value.2)
    ensures ParseX5t(e) == ParseX5t(d)
  {
    hide SkipIntValue, TryParseCborInt, ParseBstr;
    var n := ParseX5t(d).value.2;
    var k := TryParseCborInt(d[1..]).value.1;
    SameFrontShorter(d, e, n, 1);
    SameFrontFrom(d, e, n, 1);
    SameFrontShorter(d[1..], e[1..], n - 1, k);
    LabelIsAnInt(d[1..]);
    IntIsPrefixStable(d[1..], e[1..]);
    SameFrontFrom(d, e, n, 1 + k);
    BstrIsPrefixStable(d[1 + k..], e[1 + k..]);
  }

  lemma LabelledValueIsPrefixStable(d: bytes, e: bytes, key: int, p: Params)
    requires LabelledValue(d, key, p).Ok? && SameFront(d, e, LabelledValue(d, key, p).value.1)
    ensures LabelledValue(e, key, p) == LabelledValue(d, key, p)
  {
    hide SkipIntValue, SkipValue, AlgValue, ParseX5t, ParseBstr, ParseCanonicalBstr;
    if key == 1 {
      IntIsPrefixStable(d, e);
    } else if key == LABEL_ALG {
      AlgIsPrefixStable(d, e);
    } else if key == LABEL_KID {
      BstrIsPrefixStable(d, e);
    } else if key == LABEL_X5T {
      X5tIsPrefixStable(d, e);
    } else {
      SkipIsPrefixStable(d, e);
    }
  }

  lemma PairIsPrefixStable(d: bytes, e: bytes, offset: nat, p: Params)
    requires offset <= |d| && Pair(d, offset, p).Ok? && SameFront(d, e, Pair(d, offset, p).value.1)
    ensures Pair(e, offset, p) == Pair(d, offset, p)
  {
    hide SkipIntValue, SkipValue, TryParseCborInt, LabelledValue;
    var n := Pair(d, offset, p).value.1;
    var key := TryParseCborInt(d[offset..]);
    SameFrontFrom(d, e, n, offset);
    if key.Some? {
      var start := offset + key.value.1;
      LabelIsAnInt(d[offset..]);
      SameFrontShorter(d[offset..], e[offset..], n - offset, key.value.1);
      IntIsPrefixStable(d[offset..], e[offset..]);
      SameFrontFrom(d, e, n, start);
      LabelledValueIsPrefixStable(d[start..], e[start..], key.value.0, p.(seen := p.seen + [key.value.0]));
    } else {
      var size := SkipValue(d[offset..]).value;
      SameFrontShorter(d[offset..], e[offset..], n - offset, size);
      SkipIsPrefixStable(d[offset..], e[offset..]);
      SameFrontFrom(d, e, n, offset + size);
      SkipIsPrefixStable(d[offset + size..], e[offset + size..]);
    }
  }

  lemma {:induction false} PairsArePrefixStable(d: bytes, e: bytes, offset: nat, count: nat, p: Params)
    requires offset <= |d| && Pairs(d, offset, count, p).Ok? && SameFront(d, e, Pairs(d, offset, count, p).value.1)
    ensures Pairs(e, offset, count, p) == Pairs(d, offset, count, p)
    decreases count
  {
    hide Pair;
    if count != 0 {
      var n := Pairs(d, offset, count, p).value.1;
      var r := Pair(d, offset, p).value;
      SameFrontShorter(d, e, n, r.1);
      PairIsPrefixStable(d, e, offset, p);
      PairsArePrefixStable(d, e, r.1, count - 1, r.0);
    }
  }

  lemma CanonicalReadsEncodings(x: bytes, tail: bytes)
    requires |x| <= 0xFFFF
    ensures ParseCanonicalBstr(Bstr(x) + tail) == Ok((x, |Bstr(x)|))
  {
    ParseInvertsBstr(x, tail);
    var data := Bstr(x) + tail;
    assert data[0] == BstrHead(|x|)[0];
    if |x| > 0xFF {
      assert data[1] == |x| / 256 && data[2] == |x| % 256;
    } else if |x| > 23 {
      assert data[1] == |x|;
    }
  }

  /** A map with nothing but a `kid` reads back as that `kid`, whatever follows. */
  lemma KidMapParses(kid: bytes, tail: bytes)
    requires |kid| <= 0xFFFF && |IdCredMap(kid)| <= ID_CRED_MAX_LEN
    ensures ParseIdCred(IdCredMap(kid) + tail) == Ok((IdCred(IdCredMap(kid), Kid(kid)), |IdCredMap(kid)|))
  {
    hide SkipValue, AlgValue, ParseX5t, ParseBstr, Bstr;
    var data := IdCredMap(kid) + tail;
    var empty := Params([], None, None);
    assert data[1..] == [0x04] + (Bstr(kid) + tail);
    assert data[2..] == Bstr(kid) + tail;
    assert TryParseCborInt(data[1..]) == Some((LABEL_KID, 1));
    ParseInvertsBstr(kid, tail);
    CanonicalReadsEncodings(kid, tail);
    BstrLength(kid);
    var p := Params([LABEL_KID], Some(kid), None);
    var n := |IdCredMap(kid)|;
    assert LabelledValue(data[2..], LABEL_KID, Params([LABEL_KID], None, None)) == Ok((p, |Bstr(kid)|));
    assert Pair(data, 1, empty) == Ok((p, n)) by {
      assert [] + [LABEL_KID] == [LABEL_KID];
    }
    assert Pairs(data, n, 0, p) == Ok((p, n));
    assert Pairs(data, 1, 1, empty) == Ok((p, n));
    assert data[..n] == IdCredMap(kid);
  }

  /** The parser depends only on the bytes it consumes. */
  lemma IdCredIsPrefixStable(d: bytes, e: bytes)
    requires ParseIdCred(d).Ok? && SameFront(d, e, ParseIdCred(d).value.1)
    ensures ParseIdCred(e) == ParseIdCred(d)
  {
    hide Pairs, ParseBstr, IdCredMap;
    var n := ParseIdCred(d).value.1;
    SameFrontShorter(d, e, n, n);
    if 0xA1 <= d[0] <= 0xA8 {
      PairsArePrefixStable(d, e, 1, d[0] - 0xA0, Params([], None, None));
    } else {
      BstrIsPrefixStable(d, e);
    }
  }

  lemma IdCredMapLength(kid: bytes)
    requires |kid| <= 0xFFFF
    ensures |IdCredMap(kid)| == 2 + |kid| + if |kid| <= 23 then 1 else if |kid| <= 0xFF then 2 else 3
  {
    BstrLength(kid);
  }

  /** Normalising twice is normalising once: the kept encoding reads back as the same reference. */
  lemma NormalisationIsIdempotent(data: bytes)
    requires ParseIdCred(data).Ok?
    ensures var cred := ParseIdCred(data).value.0;
            ParseIdCred(cred.encoded) == Ok((cred, |cred.encoded|))
  {
    hide Pairs, ParseBstr, IdCredMap;
    var (cred, n) := ParseIdCred(data).value;
    if 0xA1 <= data[0] <= 0xA8 {
      assert cred.encoded == data[..n];
      IdCredIsPrefixStable(data, cred.encoded);
    } else {
      assert |cred.reference.kid| <= 60 by { IdCredMapLength(cred.reference.kid); }
      KidMapParses(cred.reference.kid, []);
      assert cred.encoded + [] == cred.encoded;
    }
  }

  // Which maps are accepted

  /** A gathered state whose labels are distinct and whose values came from their own labels. */
  predicate Consistent(p: Params) {
    && (forall i, j :: 0 <= i < j < |p.seen| ==> p.seen[i] != p.seen[j])
    && (p.kid.Some? <==> LABEL_KID in p.seen)
    && (p.x5t.Some? <==> LABEL_X5T in p.seen)
  }

  lemma {:induction false} PairsAreConsistent(data: bytes, offset: nat, count: nat, p: Params)
    requires offset <= |data| && Consistent(p) && Pairs(data, offset, count, p).Ok?
    ensures Consistent(Pairs(data, offset, count, p).value.0)
    decreases count
  {
    hide SkipValue, TryParseCborInt, ParseCanonicalBstr, ParseX5t, AlgValue, SkipIntValue;
    if count != 0 {
      var r := Pair(data, offset, p).value;
      PairsAreConsistent(data, r.1, count - 1, r.0);
    }
  }

  /**
   * An accepted map repeats no integer label and carries exactly one of `kid` and `x5t`; the reference is
   * the value gathered under the one it carries.
   */
  lemma AcceptedMapIsUnambiguous(data: bytes)
    requires ParseIdCred(data).Ok? && data[0] >= 0xA1
    ensures var p := Pairs(data, 1, data[0] - 0xA0, Params([], None, None)).value.0;
            && Consistent(p)
            && (LABEL_KID in p.seen <==> LABEL_X5T !in p.seen)
            && ParseIdCred(data).value.0.reference
               == if LABEL_KID in p.seen then Kid(p.kid.value) else X5t(p.x5t.value.0, p.x5t.value.1)
  {
    hide Pairs;
    PairsAreConsistent(data, 1, data[0] - 0xA0, Params([], None, None));
  }

  // Credentials

  const COSE_KEY_HEAD: bytes := [0xA3, 0x01, 0x01, 0x20, 0x06, 0x21]

  /** ID_CRED of a raw key: the first eight bytes of its hash as `kid`. */
  function IdCredOf(c: Crypto, pk: Bytes32): (r: bytes)
    ensures |r| == 11
  {
    IdCredMap(c.hash(pk)[..8])
  }

  /** The raw key as a COSE_Key map. */
  function CredentialOf(pk: Bytes32): (r: bytes)
    ensures |r| == 40
  {
    COSE_KEY_HEAD + Bstr(pk)
  }

  method EncodeIdCred(start: bytes, cap: nat, c: Crypto, pk: Bytes32) returns (r: Result<bytes, EdhocError>)
    ensures r == Extend(start, cap, IdCredOf(c, pk))
  {
    var kid := c.hash(pk);
    var buf := start;
    buf :- Extend(buf, cap, [0xA1]);
    buf :- Extend(buf, cap, [0x04]);
    buf :- Extend(buf, cap, [0x48]);
    buf :- Extend(buf, cap, kid[..8]);
    assert buf == start + IdCredOf(c, pk);
    return Ok(buf);
  }

  method EncodeCredential(start: bytes, cap: nat, pk: Bytes32) returns (r: Result<bytes, EdhocError>)
    ensures r == Extend(start, cap, CredentialOf(pk))
  {
    var buf := start;
    buf :- Extend(buf, cap, [0xA3]);
    buf :- Extend(buf, cap, [0x01]);
    buf :- Extend(buf, cap, [0x01]);
    buf :- Extend(buf, cap, [0x20]);
    buf :- Extend(buf, cap, [0x06]);
    buf :- Extend(buf, cap, [0x21]);
    assert buf == start + COSE_KEY_HEAD;
    buf :- EncodeBstr(buf, cap, pk);
    assert buf == start + CredentialOf(pk);
    return Ok(buf);
  }

  /** What the application supplies about its peer. */
  datatype PeerCredential = PeerCredential(publicKey: Bytes32, idCred: bytes, credential: bytes)

  function RawKeyPeer(c: Crypto, pk: Bytes32): PeerCredential {
    PeerCredential(pk, IdCredOf(c, pk), CredentialOf(pk))
  }

  /** The key must be acceptable, and a COSE_Key map must be the one for that key. */
  function CheckPeer(c: Crypto, peer: PeerCredential): Result<(), EdhocError> {
    var data := peer.credential;
    if !c.validPoint(peer.publicKey) then Err(SignatureVerification)
    else if data == [] || data[0] != 0xA3 then Ok(())
    else if !(COSE_KEY_HEAD <= data) then Err(InvalidMessage)
    else
      var x :- ParseBstr(data[|COSE_KEY_HEAD|..]);
      if x.0 != peer.publicKey then Err(SignatureVerification) else Ok(())
  }

  /** The checks of the source, position by position. */
  method ValidatePeerCredential(c: Crypto, peer: PeerCredential) returns (r: Result<(), EdhocError>)
    ensures r == CheckPeer(c, peer)
  {
    hide ParseBstr;
    if !c.validPoint(peer.publicKey) {
      return Err(SignatureVerification);
    }
    var data := peer.credential;
    if |data| == 0 || data[0] != 0xA3 {
      return Ok(());
    }
    if |data| < 2 {
      return Err(InvalidMessage);
    }
    if data[1] != 0x01 || |data| <= 2 || data[2] != 0x01 {
      return Err(InvalidMessage);
    }
    if |data| <= 3 || data[3] != 0x20 || |data| <= 4 || data[4] != 0x06 {
      return Err(InvalidMessage);
    }
    if |data| <= 5 || data[5] != 0x21 {
      return Err(InvalidMessage);
    }
    var x :- ParseBstr(data[6..]);
    if |x.0| != 32 || x.0 != peer.publicKey {
      return Err(SignatureVerification);
    }
    return Ok(());
  }

  /** A COSE_Key credential passes for exactly one acceptable key: the one inside it. */
  lemma CredentialBindsKey(c: Crypto, pk: Bytes32, other: Bytes32, idCred: bytes, tail: bytes)
    ensures CheckPeer(c, PeerCredential(other, idCred, CredentialOf(pk) + tail)).Ok?
            <==> other == pk && c.validPoint(pk)
  {
    hide ParseBstr;
    var data := CredentialOf(pk) + tail;
    assert data[6..] == Bstr(pk) + tail;
    ParseInvertsBstr(pk, tail);
  }

  /** What a party sends about itself reads back as its own reference, whatever follows. */
  lemma OwnIdCredParses(c: Crypto, pk: Bytes32, tail: bytes)
    ensures ParseIdCred(IdCredOf(c, pk) + tail)
            == Ok((IdCred(IdCredOf(c, pk), Kid(c.hash(pk)[..8])), |IdCredOf(c, pk)|))
  {
    KidMapParses(c.hash(pk)[..8], tail);
  }
}
