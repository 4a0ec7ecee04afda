/**
 * The inner CoAP body: options in delta-length form (section 3.1 of RFC 7252), then a marker and a payload.
 * The repository walks it with two independent loops; both are proved against one recursive reading, and the
 * reading against the encoder of the RFC.
 */
module CoapBody {
  import opened Bytes

  const PAYLOAD_MARKER: byte := 0xFF

  /** Option numbers are `u16`. */
  const MAX_OPTION_NUMBER: nat := 0xFFFF

  // The encoder of the RFC

  datatype CoapOption = CoapOption(delta: nat, value: bytes)

  /** The largest number a nibble with a two-byte extension can express. */
  const MAX_EXTENDED: nat := 269 + 0xFFFF

  /** An option that can be written down; its delta may still be more than any option number. */
  predicate Valid(o: CoapOption) {
    o.delta <= MAX_EXTENDED && |o.value| <= MAX_EXTENDED
  }

  function Nibble(v: nat): nat {
    if v <= 12 then v else if v < 269 then 13 else 14
  }

  function Extension(v: nat): bytes
    requires v <= MAX_EXTENDED
  {
    if v <= 12 then [] else if v < 269 then [v - 13] else [(v - 269) / 256, (v - 269) % 256]
  }

  /** Section 3.1 of RFC 7252: what a nibble and the bytes of its extension stand for; 15 is reserved. */
  function Denoted(nibble: nat, extension: bytes): Option<nat> {
    if nibble < 13 && |extension| == 0 then Some(nibble)
    else if nibble == 13 && |extension| == 1 then Some(13 + extension[0] as int)
    else if nibble == 14 && |extension| == 2 then Some(269 + 256 * extension[0] as int + extension[1] as int)
    else None
  }

  /** Every number up to 65804 is written so that it is denoted, in the shortest way. */
  lemma NumbersAreDenoted(v: nat, nibble: nat, extension: bytes)
    requires v <= 65804
    ensures Denoted(Nibble(v), Extension(v)) == Some(v)
    ensures Denoted(nibble, extension) == Some(v) ==> |Extension(v)| <= |extension|
  {
  }

  function EncodeOption(o: CoapOption): (r: bytes)
    requires Valid(o)
    ensures |r| >= 1
  {
    [16 * Nibble(o.delta) + Nibble(|o.value|)] + Extension(o.delta) + Extension(|o.value|) + o.value
  }

  function EncodeOptions(opts: seq<CoapOption>): bytes
    requires forall o :: o in opts ==> Valid(o)
  {
    if opts == [] then [] else EncodeOption(opts[0]) + EncodeOptions(opts[1..])
  }

  function LastNumber(opts: seq<CoapOption>): nat {
    if opts == [] then 0 else opts[0].delta + LastNumber(opts[1..])
  }

  /** A list of options that can be written down: every field fits and the last option number is a `u16`. */
  predicate Encodable(opts: seq<CoapOption>) {
    (forall o :: o in opts ==> Valid(o)) && LastNumber(opts) <= MAX_OPTION_NUMBER
  }

  function Body(options: bytes, payload: bytes): bytes {
    options + if payload == [] then [] else [PAYLOAD_MARKER] + payload
  }

  // The recursive reading

  datatype Header = Header(delta: nat, valueStart: nat, end: nat)

  /** The value of a nibble whose extension, if any, starts at `pos`, and where the extension ends. */
  function ReadNibble(data: bytes, pos: nat, nibble: nat): (r: Option<(nat, nat)>)
    ensures r.Some? ==> r.value.1 >= pos
  {
    if nibble <= 12 then Some((nibble, pos))
    else if nibble == 13 && pos + 1 <= |data| then Some((13 + data[pos] as int, pos + 1))
    else if nibble == 14 && pos + 2 <= |data| then Some((269 + U16(data[pos], data[pos + 1]), pos + 2))
    else None
  }

  /** The option at `pos`, if it is complete. */
  function ReadHeader(data: bytes, pos: nat): (r: Option<Header>)
    requires pos < |data|
    ensures r.Some? ==> pos < r.value.valueStart <= r.value.end <= |data|
  {
    var delta := ReadNibble(data, pos + 1, data[pos] / 16);
    if delta.None? then None else
    var length := ReadNibble(data, delta.value.1, data[pos] % 16);
    if length.None? || length.value.1 + length.value.0 > |data| then None
    else Some(Header(delta.value.0, length.value.1, length.value.1 + length.value.0))
  }

  /**
   * Where the options from `pos` on end, `number` being the option number reached there; `None` when malformed.
   * A marker must be followed by at least one byte.
   */
  function Split(data: bytes, pos: nat, number: nat): (r: Option<nat>)
    requires pos <= |data|
    ensures r.Some? ==> pos <= r.value <= |data|
    ensures r.Some? && r.value < |data| ==> data[r.value] == PAYLOAD_MARKER && r.value + 1 < |data|
    decreases |data| - pos
  {
    if pos == |data| then Some(pos)
    else if data[pos] == PAYLOAD_MARKER then (if pos + 1 == |data| then None else Some(pos))
    else
      var h := ReadHeader(data, pos);
      if h.None? || number + h.value.delta > MAX_OPTION_NUMBER then None
      else Split(data, h.value.end, number + h.value.delta)
  }

  /** The options themselves, for data that splits. */
  function Options(data: bytes, pos: nat, number: nat): (r: seq<CoapOption>)
    requires pos <= |data| && Split(data, pos, number).Some?
    decreases |data| - pos
  {
    if pos == |data| || data[pos] == PAYLOAD_MARKER then []
    else
      var h := ReadHeader(data, pos).value;
      [CoapOption(h.delta, data[h.valueStart..h.end])] + Options(data, h.end, number + h.delta)
  }

  /** A delta extension above 0xFEF2, so that adding 269 leaves `u16`; a reserved length nibble is caught first. */
  predicate OverlongAt(data: bytes, pos: nat)
    requires pos < |data|
  {
    data[pos] / 16 == 14 && data[pos] % 16 != 15 && pos + 3 <= |data|
    && U16(data[pos + 1], data[pos + 2]) > 0xFEF2
  }

  /** From `pos` on, an option is reached whose two-byte delta extension is too large for `u16`. */
  predicate OverlongDelta(data: bytes, pos: nat, number: nat)
    requires pos <= |data|
    decreases |data| - pos
  {
    pos < |data| && data[pos] != PAYLOAD_MARKER
    && (OverlongAt(data, pos)
        || var h := ReadHeader(data, pos);
           h.Some? && number + h.value.delta <= MAX_OPTION_NUMBER
           && OverlongDelta(data, h.value.end, number + h.value.delta))
  }

  // The first walker

  method DecodeNibble(data: bytes, start: nat, nibble: nat) returns (r: Option<(nat, nat)>)
    requires nibble < 16
    ensures r == ReadNibble(data, start, nibble)
  {
    var pos := start;
    if nibble <= 12 {
      return Some((nibble, pos));
    } else if nibble == 13 {
      if pos >= |data| {
        return None;
      }
      var value: nat := data[pos];
      pos := pos + 1;
      return Some((13 + value, pos));
    } else if nibble == 14 {
      var end := pos + 2;
      if end > |data| {
        return None;
      }
      var value := U16(data[pos], data[pos + 1]);
      pos := end;
      return Some((269 + value, pos));
    } else {
      return None;
    }
  }

  /** Split a body into its encoded options and its payload. */
  method ParseInnerBody(data: bytes) returns (r: Option<(bytes, bytes)>)
    ensures r.Some? <==> Split(data, 0, 0).Some?
    ensures r.Some? ==> r.value.0 == data[..Split(data, 0, 0).value]
    ensures r.Some? ==> Body(r.value.0, r.value.1) == data
  {
    hide ReadNibble;
    var pos: nat := 0;
    var number: nat := 0;
    while pos < |data|
      invariant 0 <= pos <= |data|
      invariant Split(data, 0, 0) == Split(data, pos, number)
    {
      var optionStart := pos;
      var header := data[pos];
      pos := pos + 1;
      if header == PAYLOAD_MARKER {
        if pos == |data| {
          return None;
        }
        return Some((data[..optionStart], data[pos..]));
      }
      var delta := DecodeNibble(data, pos, header / 16);
      if delta.None? {
        return None;
      }
      var length := DecodeNibble(data, delta.value.1, header % 16);
      if length.None? {
        return None;
      }
      if delta.value.0 > 0xFFFF || number + delta.value.0 > 0xFFFF {
        return None;
      }
      number := number + delta.value.0;
      var end := length.value.1 + length.value.0;
      if end > |data| {
        return None;
      }
      pos := end;
    }
    assert data[..|data|] == data;
    return Some((data, []));
  }

  // The second walker

  datatype Marker = NoMarker | MarkerAt(pos: nat) | Malformed | Panicked

  /** What the caller makes of the marker: a marker with nothing after it is malformed. */
  function SplitAt(m: Marker, data: bytes): Option<nat> {
    match m
    case NoMarker => Some(|data|)
    case MarkerAt(pos) => if pos + 1 < |data| then Some(pos) else None
    case _ => None
  }

  /**
   * The second walker's own reading: the two-byte delta is added in `u16`, where the sum wraps, or panics in a
   * build with overflow checks; a reserved length nibble is seen before the addition, a missing extension after.
   */
  function Walk(data: bytes, pos: nat, number: nat, checks: bool): (m: Marker)
    requires pos <= |data|
    ensures m.MarkerAt? ==> pos <= m.pos < |data| && data[m.pos] == PAYLOAD_MARKER
    decreases |data| - pos
  {
    if pos == |data| then NoMarker
    else if data[pos] == PAYLOAD_MARKER then MarkerAt(pos)
    else
      if data[pos] / 16 == 15 || data[pos] % 16 == 15 then Malformed else
      var delta := ReadNibble(data, pos + 1, data[pos] / 16);
      if delta.None? then Malformed
      else if checks && delta.value.0 > 0xFFFF then Panicked
      else
        var sum := number + delta.value.0 % 0x1_0000;
        var length := ReadNibble(data, delta.value.1, data[pos] % 16);
        if sum > MAX_OPTION_NUMBER || length.None? || length.value.1 + length.value.0 > |data| then Malformed
        else Walk(data, length.value.1 + length.value.0, sum, checks)
  }

  datatype Delta = DeltaMissing | DeltaPanics | DeltaIs(value: nat, next: nat)

  /** The delta arm of the walker: the sum is a `u16`. */
  method ExtendedDelta(data: bytes, start: nat, nibble: nat, overflowChecks: bool) returns (r: Delta)
    requires nibble < 15
    ensures var n := ReadNibble(data, start, nibble);
            && (r.DeltaMissing? <==> n.None?)
            && (r.DeltaPanics? <==> n.Some? && overflowChecks && n.value.0 > 0xFFFF)
            && (r.DeltaIs? ==> r.value == n.value.0 % 0x1_0000 && r.next == n.value.1)
            && (r.DeltaIs? && overflowChecks ==> r.value == n.value.0)
  {
    var pos := start;
    if nibble <= 12 {
      return DeltaIs(nibble, pos);
    } else if nibble == 13 {
      if pos >= |data| {
        return DeltaMissing;
      }
      var d := data[pos] as int + 13;
      pos := pos + 1;
      return DeltaIs(d, pos);
    } else {
      if pos + 1 >= |data| {
        return DeltaMissing;
      }
      var sum := U16(data[pos], data[pos + 1]) + 269;
      if overflowChecks && sum > 0xFFFF {
        return DeltaPanics;
      }
      pos := pos + 2;
      return DeltaIs(sum % 0x1_0000, pos);
    }
  }

  /** The length arm of the walker. */
  method ExtendedLength(data: bytes, start: nat, nibble: nat) returns (r: Option<(nat, nat)>)
    requires nibble < 15
    ensures r == ReadNibble(data, start, nibble)
  {
    var pos := start;
    if nibble <= 12 {
      return Some((nibble, pos));
    } else if nibble == 13 {
      if pos >= |data| {
        return None;
      }
      var ext := data[pos] as int + 13;
      pos := pos + 1;
      return Some((ext, pos));
    } else {
      if pos + 1 >= |data| {
        return None;
      }
      var ext := U16(data[pos], data[pos + 1]);
      pos := pos + 2;
      return Some((ext + 269, pos));
    }
  }

  method FindPayloadMarker(data: bytes, overflowChecks: bool) returns (m: Marker)
    ensures m == Walk(data, 0, 0, overflowChecks)
  {
    hide ReadNibble;
    var pos: nat := 0;
    var cumulative: nat := 0;
    while pos < |data|
      invariant 0 <= pos <= |data|
      invariant Walk(data, 0, 0, overflowChecks) == Walk(data, pos, cumulative, overflowChecks)
    {
      var first := data[pos];
      if first == PAYLOAD_MARKER {
        return MarkerAt(pos);
      }
      var deltaNibble, lenNibble := first / 16, first % 16;
      if deltaNibble == 15 {
        return Malformed;
      }
      if lenNibble == 15 {
        return Malformed;
      }
      pos := pos + 1;
      var delta := ExtendedDelta(data, pos, deltaNibble, overflowChecks);
      if delta.DeltaMissing? {
        return Malformed;
      } else if delta.DeltaPanics? {
        return Panicked;
      }
      if cumulative + delta.value > 0xFFFF {
        return Malformed;
      }
      cumulative := cumulative + delta.value;
      var length := ExtendedLength(data, delta.next, lenNibble);
      if length.None? {
        return Malformed;
      }
      pos := length.value.1;
      if pos + length.value.0 > |data| {
        return Malformed;
      }
      pos := pos + length.value.0;
    }
    return NoMarker;
  }

  // The two walkers agree

  /** A reserved nibble is never read, and a delta leaves `u16` exactly at an overlong extension. */
  lemma HeaderNibbles(data: bytes, pos: nat)
    requires pos < |data|
    ensures data[pos] / 16 == 15 || data[pos] % 16 == 15 ==> ReadHeader(data, pos).None?
    ensures OverlongAt(data, pos) ==> data[pos] / 16 != 15
    ensures var delta := ReadNibble(data, pos + 1, data[pos] / 16);
            OverlongAt(data, pos) <==> data[pos] % 16 != 15 && delta.Some? && delta.value.0 > 0xFFFF
  {
  }

  lemma {:induction false} CheckedWalkIsSplit(data: bytes, pos: nat, number: nat)
    requires pos <= |data|
    ensures Walk(data, pos, number, true).Panicked? <==> OverlongDelta(data, pos, number)
    ensures !OverlongDelta(data, pos, number) ==>
              SplitAt(Walk(data, pos, number, true), data) == Split(data, pos, number)
    decreases |data| - pos
  {
    hide ReadNibble, OverlongAt;
    if pos < |data| {
      HeaderNibbles(data, pos);
    }
    if pos < |data| && data[pos] != PAYLOAD_MARKER && !OverlongAt(data, pos) {
      var h := ReadHeader(data, pos);
      if h.Some? && number + h.value.delta <= MAX_OPTION_NUMBER {
        CheckedWalkIsSplit(data, h.value.end, number + h.value.delta);
      }
    }
  }

  lemma {:induction false} WrappingWalkIsSplit(data: bytes, pos: nat, number: nat)
    requires pos <= |data|
    requires !OverlongDelta(data, pos, number)
    ensures SplitAt(Walk(data, pos, number, false), data) == Split(data, pos, number)
    decreases |data| - pos
  {
    hide ReadNibble, OverlongAt;
    if pos < |data| {
      HeaderNibbles(data, pos);
    }
    if pos < |data| && data[pos] != PAYLOAD_MARKER {
      var h := ReadHeader(data, pos);
      if h.Some? && number + h.value.delta <= MAX_OPTION_NUMBER {
        WrappingWalkIsSplit(data, h.value.end, number + h.value.delta);
      }
    }
  }

  lemma {:induction false} WrappingWalkNeverPanics(data: bytes, pos: nat, number: nat)
    requires pos <= |data|
    ensures !Walk(data, pos, number, false).Panicked?
    decreases |data| - pos
  {
    if pos < |data| && data[pos] != PAYLOAD_MARKER {
      var h := ReadHeader(data, pos);
      if h.Some? && number + h.value.delta % 0x1_0000 <= MAX_OPTION_NUMBER {
        WrappingWalkNeverPanics(data, h.value.end, number + h.value.delta % 0x1_0000);
      }
    }
  }

  lemma {:induction false} OverlongIsRejected(data: bytes, pos: nat, number: nat)
    requires pos <= |data|
    requires OverlongDelta(data, pos, number)
    ensures Split(data, pos, number).None?
    decreases |data| - pos
  {
    if !OverlongAt(data, pos) {
      var h := ReadHeader(data, pos).value;
      OverlongIsRejected(data, h.end, number + h.delta);
    }
  }

  /**
   * In a build with overflow checks the walkers give the same split or the same error exactly on the bodies in
   * which no overlong delta is reached; on the others one panics where the other reports an error.
   */
  lemma WalkersAgreeChecked(data: bytes)
    ensures !OverlongDelta(data, 0, 0)
            <==> !Walk(data, 0, 0, true).Panicked?
                 && SplitAt(Walk(data, 0, 0, true), data) == Split(data, 0, 0)
  {
    CheckedWalkIsSplit(data, 0, 0);
  }

  // The reading inverts the encoder

  lemma NibbleInvertsExtension(v: nat, before: bytes, after: bytes)
    requires v <= MAX_EXTENDED
    ensures ReadNibble(before + Extension(v) + after, |before|, Nibble(v))
            == Some((v, |before| + |Extension(v)|))
  {
    var data := before + Extension(v) + after;
    if v > 12 {
      assert data[|before|] == Extension(v)[0];
    }
    if v >= 269 {
      assert data[|before| + 1] == Extension(v)[1];
    }
  }

  lemma ExtensionInvertsNibble(data: bytes, pos: nat, nibble: nat)
    requires ReadNibble(data, pos, nibble).Some?
    ensures var (v, next) := ReadNibble(data, pos, nibble).value;
            && (nibble > 12 ==> pos <= next <= |data| && data[pos..next] == Extension(v))
            && (nibble <= 12 ==> next == pos && Extension(v) == [])
            && v <= MAX_EXTENDED && nibble == Nibble(v)
  {
    if nibble == 14 {
      var n := U16(data[pos], data[pos + 1]);
      assert n / 256 == data[pos] && n % 256 == data[pos + 1];
      assert data[pos..pos + 2] == [data[pos], data[pos + 1]];
    }
  }

  lemma NibblesOfByte(d: nat, l: nat)
    requires d <= 14 && l <= 14
    ensures 16 * d + l <= 0xFE && (16 * d + l) / 16 == d && (16 * d + l) % 16 == l
  {
  }

  lemma HeaderInvertsOption(o: CoapOption, before: bytes, after: bytes)
    requires Valid(o)
    ensures |EncodeOption(o)| >= 1
    ensures var data := before + EncodeOption(o) + after;
            var h := ReadHeader(data, |before|);
            && data[|before|] != PAYLOAD_MARKER
            && h.Some? && h.value.delta == o.delta && h.value.end == |before| + |EncodeOption(o)|
            && data[h.value.valueStart..h.value.end] == o.value
  {
    hide ReadNibble, Extension;
    var data := before + EncodeOption(o) + after;
    var first := [16 * Nibble(o.delta) + Nibble(|o.value|)];
    var dx, lx := Extension(o.delta), Extension(|o.value|);
    NibblesOfByte(Nibble(o.delta), Nibble(|o.value|));
    assert data[|before|] == first[0];
    hide Nibble;
    Regroup6(before, first, dx, lx, o.value, after);
    NibbleInvertsExtension(o.delta, before + first, lx + o.value + after);
    NibbleInvertsExtension(|o.value|, before + first + dx, o.value + after);
    Middle(before + first + dx + lx, o.value, after);
  }

  lemma OptionInvertsHeader(data: bytes, pos: nat)
    requires pos < |data| && data[pos] != PAYLOAD_MARKER && ReadHeader(data, pos).Some?
    ensures var h := ReadHeader(data, pos).value;
            var o := CoapOption(h.delta, data[h.valueStart..h.end]);
            Valid(o) && EncodeOption(o) == data[pos..h.end]
  {
    hide ReadNibble, Nibble, Extension;
    var delta := ReadNibble(data, pos + 1, data[pos] / 16).value;
    ExtensionInvertsNibble(data, pos + 1, data[pos] / 16);
    ExtensionInvertsNibble(data, delta.1, data[pos] % 16);
    var h := ReadHeader(data, pos).value;
    FourSlices(data, pos, pos + 1, delta.1, h.valueStart);
    assert data[pos..h.end] == data[pos..h.valueStart] + data[h.valueStart..h.end];
  }

  /** Decoding an accepted body and encoding the options again gives back its option bytes, byte for byte. */
  lemma {:induction false} ReencodeIsIdentity(data: bytes, pos: nat, number: nat)
    requires pos <= |data| && number <= MAX_OPTION_NUMBER
    requires Split(data, pos, number).Some?
    ensures var opts := Options(data, pos, number);
            && Encodable(opts) && number + LastNumber(opts) <= MAX_OPTION_NUMBER
            && EncodeOptions(opts) == data[pos..Split(data, pos, number).value]
    decreases |data| - pos
  {
    hide ReadHeader, EncodeOption;
    if pos < |data| && data[pos] != PAYLOAD_MARKER {
      var h := ReadHeader(data, pos).value;
      OptionInvertsHeader(data, pos);
      ReencodeIsIdentity(data, h.end, number + h.delta);
      var opts, rest := Options(data, pos, number), Options(data, h.end, number + h.delta);
      assert opts[1..] == rest;
      var n := Split(data, pos, number).value;
      assert data[pos..n] == data[pos..h.end] + data[h.end..n];
    }
  }

  lemma BodyCons(before: bytes, opts: seq<CoapOption>, payload: bytes)
    requires opts != [] && forall o :: o in opts ==> Valid(o)
    ensures var (first, after) := (EncodeOption(opts[0]), Body(EncodeOptions(opts[1..]), payload));
            && before + Body(EncodeOptions(opts), payload) == before + first + after
            && before + Body(EncodeOptions(opts), payload) == (before + first) + after
            && |EncodeOptions(opts)| == |first| + |EncodeOptions(opts[1..])|
  {
    hide EncodeOption;
    var first, rest := EncodeOption(opts[0]), EncodeOptions(opts[1..]);
    Regroup4(before, first, rest, Body(rest, payload)[|rest|..]);
    assert Body(rest, payload) == rest + Body(rest, payload)[|rest|..];
    assert Body(first + rest, payload) == (first + rest) + Body(rest, payload)[|rest|..];
  }

  lemma SplitOne(data: bytes, pos: nat, number: nat)
    requires pos < |data| && data[pos] != PAYLOAD_MARKER && ReadHeader(data, pos).Some?
    requires number + ReadHeader(data, pos).value.delta <= MAX_OPTION_NUMBER
    ensures var h := ReadHeader(data, pos).value;
            && Split(data, pos, number) == Split(data, h.end, number + h.delta)
            && (Split(data, pos, number).Some? ==>
                  Options(data, pos, number)
                  == [CoapOption(h.delta, data[h.valueStart..h.end])] + Options(data, h.end, number + h.delta))
  {
    hide ReadHeader;
  }

  /** Every encodable option list is read back, whatever payload follows. */
  lemma {:induction false} EncodedOptionsSplit(before: bytes, opts: seq<CoapOption>, payload: bytes, number: nat)
    requires Encodable(opts) && number + LastNumber(opts) <= MAX_OPTION_NUMBER
    ensures var data := before + Body(EncodeOptions(opts), payload);
            && Split(data, |before|, number) == Some(|before| + |EncodeOptions(opts)|)
            && Options(data, |before|, number) == opts
    decreases |opts|
  {
    hide ReadHeader, EncodeOption;
    var data := before + Body(EncodeOptions(opts), payload);
    if opts != [] {
      var first := EncodeOption(opts[0]);
      var after := Body(EncodeOptions(opts[1..]), payload);
      BodyCons(before, opts, payload);
      HeaderInvertsOption(opts[0], before, after);
      hide Split, Options, Body;
      SplitOne(data, |before|, number);
      EncodedOptionsSplit(before + first, opts[1..], payload, number + opts[0].delta);
      assert opts == [opts[0]] + opts[1..];
    } else if payload != [] {
      assert data[|before|] == PAYLOAD_MARKER;
    }
  }

  /** The body is options and nothing else. */
  predicate OptionsOnly(data: bytes) {
    Split(data, 0, 0) == Some(|data|)
  }

  /** Options-only bytes are exactly the encodings of encodable option lists. */
  lemma OptionsOnlyIsEncoding(data: bytes)
    ensures OptionsOnly(data) <==> exists opts :: Encodable(opts) && EncodeOptions(opts) == data
  {
    if OptionsOnly(data) {
      ReencodeIsIdentity(data, 0, 0);
      assert data[0..|data|] == data;
      assert Encodable(Options(data, 0, 0)) && EncodeOptions(Options(data, 0, 0)) == data;
    }
    forall opts | Encodable(opts) && EncodeOptions(opts) == data ensures OptionsOnly(data) {
      EncodedOptionsSplit([], opts, [], 0);
      assert [] + Body(EncodeOptions(opts), []) == data;
    }
  }

  /** Options-only bytes followed by any payload split exactly between the two, for both walkers. */
  lemma BodySplitsAtSeam(options: bytes, payload: bytes, checks: bool)
    requires OptionsOnly(options)
    ensures Split(Body(options, payload), 0, 0) == Some(|options|)
    ensures SplitAt(Walk(Body(options, payload), 0, 0, checks), Body(options, payload)) == Some(|options|)
  {
    ReencodeIsIdentity(options, 0, 0);
    assert options[0..|options|] == options;
    EncodedOptionsSplit([], Options(options, 0, 0), payload, 0);
    var data := Body(options, payload);
    assert [] + data == data;
    if OverlongDelta(data, 0, 0) {
      OverlongIsRejected(data, 0, 0);
    }
    CheckedWalkIsSplit(data, 0, 0);
    WrappingWalkIsSplit(data, 0, 0);
  }

  // Where the walkers disagree without overflow checks

  /** The option number a 16-bit sum of the deltas reaches. */
  function WrappedNumber(opts: seq<CoapOption>): nat {
    if opts == [] then 0 else opts[0].delta % 0x1_0000 + WrappedNumber(opts[1..])
  }

  predicate Overlong(o: CoapOption) {
    o.delta > MAX_OPTION_NUMBER
  }

  /**
   * The body is a list of options with some delta above 65535 whose deltas, reduced to 16 bits, sum to at most
   * 65535, and any payload.
   */
  ghost predicate WrapsAround(data: bytes) {
    exists opts: seq<CoapOption>, payload ::
      && (forall o :: o in opts ==> Valid(o))
      && (exists o :: o in opts && Overlong(o)) && WrappedNumber(opts) <= MAX_OPTION_NUMBER
      && data == Body(EncodeOptions(opts), payload)
  }

  /** The second walker accepts every option list whose reduced deltas sum to an option number. */
  lemma {:induction false} WrappedOptionsWalk(before: bytes, opts: seq<CoapOption>, payload: bytes, number: nat)
    requires forall o :: o in opts ==> Valid(o)
    requires number + WrappedNumber(opts) <= MAX_OPTION_NUMBER
    ensures var data := before + Body(EncodeOptions(opts), payload);
            SplitAt(Walk(data, |before|, number, false), data) == Some(|before| + |EncodeOptions(opts)|)
    decreases |opts|
  {
    hide ReadNibble, EncodeOption;
    var data := before + Body(EncodeOptions(opts), payload);
    if opts != [] {
      var first := EncodeOption(opts[0]);
      var after := Body(EncodeOptions(opts[1..]), payload);
      BodyCons(before, opts, payload);
      HeaderInvertsOption(opts[0], before, after);
      HeaderNibbles(data, |before|);
      WrappedOptionsWalk(before + first, opts[1..], payload, number + opts[0].delta % 0x1_0000);
    } else if payload != [] {
      assert data[|before|] == PAYLOAD_MARKER;
    }
  }

  /** The first walker rejects every option list with an overlong delta. */
  lemma {:induction false} OverlongOptionsRejected(before: bytes, opts: seq<CoapOption>, payload: bytes, number: nat)
    requires forall o :: o in opts ==> Valid(o)
    requires exists o :: o in opts && Overlong(o)
    ensures Split(before + Body(EncodeOptions(opts), payload), |before|, number).None?
    decreases |opts|
  {
    hide ReadHeader, EncodeOption;
    var first := EncodeOption(opts[0]);
    var after := Body(EncodeOptions(opts[1..]), payload);
    BodyCons(before, opts, payload);
    HeaderInvertsOption(opts[0], before, after);
    if !Overlong(opts[0]) {
      OverlongOptionsRejected(before + first, opts[1..], payload, number + opts[0].delta);
    }
  }

  /** What the second walker accepts is the encoding of such a list. */
  lemma {:induction false} WalkedOptions(data: bytes, pos: nat, number: nat) returns (opts: seq<CoapOption>)
    requires pos <= |data| && number <= MAX_OPTION_NUMBER
    requires SplitAt(Walk(data, pos, number, false), data).Some?
    ensures forall o :: o in opts ==> Valid(o)
    ensures number + WrappedNumber(opts) <= MAX_OPTION_NUMBER
    ensures pos <= SplitAt(Walk(data, pos, number, false), data).value <= |data|
    ensures EncodeOptions(opts) == data[pos..SplitAt(Walk(data, pos, number, false), data).value]
    ensures OverlongDelta(data, pos, number) ==> exists o :: o in opts && Overlong(o)
    decreases |data| - pos
  {
    hide ReadNibble, OverlongAt, EncodeOption;
    opts := [];
    if pos < |data| && data[pos] != PAYLOAD_MARKER {
      HeaderNibbles(data, pos);
      var h := ReadHeader(data, pos).value;
      OptionInvertsHeader(data, pos);
      var first := CoapOption(h.delta, data[h.valueStart..h.end]);
      var rest := WalkedOptions(data, h.end, number + h.delta % 0x1_0000);
      opts := [first] + rest;
      assert opts[0] == first && opts[1..] == rest;
      assert first in opts && forall o :: o in rest ==> o in opts;
      assert OverlongAt(data, pos) ==> Overlong(first);
      hide Overlong, Valid;
      var n := SplitAt(Walk(data, pos, number, false), data).value;
      assert data[pos..n] == data[pos..h.end] + data[h.end..n];
    }
  }

  lemma WrappedAreAccepted(data: bytes)
    requires WrapsAround(data)
    ensures Split(data, 0, 0).None? && SplitAt(Walk(data, 0, 0, false), data).Some?
  {
    var opts: seq<CoapOption>, payload :|
      && (forall o :: o in opts ==> Valid(o))
      && (exists o :: o in opts && Overlong(o)) && WrappedNumber(opts) <= MAX_OPTION_NUMBER
      && data == Body(EncodeOptions(opts), payload);
    hide Walk, Split, EncodeOptions, WrappedNumber, Overlong;
    assert [] + data == data;
    WrappedOptionsWalk([], opts, payload, 0);
    OverlongOptionsRejected([], opts, payload, 0);
  }

  lemma AcceptedOverlongWraps(data: bytes)
    requires OverlongDelta(data, 0, 0) && SplitAt(Walk(data, 0, 0, false), data).Some?
    ensures WrapsAround(data)
  {
    hide Walk, EncodeOptions, WrappedNumber, Overlong, OverlongDelta;
    var opts := WalkedOptions(data, 0, 0);
    var n := SplitAt(Walk(data, 0, 0, false), data).value;
    var payload := if n < |data| then data[n + 1..] else [];
    assert data == Body(data[..n], payload);
  }

  /**
   * Without overflow checks the walkers give the same split or the same error exactly on the bodies that do not
   * wrap around; on those, the second one accepts what the first rejects.
   */
  lemma WalkersAgreeWrapping(data: bytes)
    ensures SplitAt(Walk(data, 0, 0, false), data) == Split(data, 0, 0) <==> !WrapsAround(data)
    ensures WrapsAround(data) ==> Split(data, 0, 0).None? && SplitAt(Walk(data, 0, 0, false), data).Some?
  {
    hide Walk, Split, WrapsAround, OverlongDelta;
    if WrapsAround(data) {
      WrappedAreAccepted(data);
    } else if !OverlongDelta(data, 0, 0) {
      WrappingWalkIsSplit(data, 0, 0);
    } else {
      OverlongIsRejected(data, 0, 0);
      if SplitAt(Walk(data, 0, 0, false), data).Some? {
        AcceptedOverlongWraps(data);
      }
    }
  }

  /** Bytes the second walker takes for options: a list whose deltas, reduced to 16 bits, sum to an option number. */
  ghost predicate Walkable(options: bytes) {
    exists opts: seq<CoapOption> ::
      (forall o :: o in opts ==> Valid(o)) && WrappedNumber(opts) <= MAX_OPTION_NUMBER && EncodeOptions(opts) == options
  }

  /** The second walker stops right after such bytes and after no others, whatever payload follows. */
  lemma WalkStopsAtSeam(options: bytes, payload: bytes)
    ensures SplitAt(Walk(Body(options, payload), 0, 0, false), Body(options, payload)) == Some(|options|)
            <==> Walkable(options)
  {
    hide Walk, EncodeOptions, WrappedNumber, OverlongDelta;
    var data := Body(options, payload);
    assert [] + data == data;
    if SplitAt(Walk(data, 0, 0, false), data) == Some(|options|) {
      var opts := WalkedOptions(data, 0, 0);
      assert data[0..|options|] == options;
    }
    if Walkable(options) {
      var opts: seq<CoapOption> :|
        (forall o :: o in opts ==> Valid(o)) && WrappedNumber(opts) <= MAX_OPTION_NUMBER && EncodeOptions(opts) == options;
      WrappedOptionsWalk([], opts, payload, 0);
    }
  }

  /** Such a body: a lone option header whose delta extension is 0xFFFF. */
  lemma WalkersDisagree()
    ensures Split([0xE0, 0xFF, 0xFF], 0, 0) == None
    ensures SplitAt(Walk([0xE0, 0xFF, 0xFF], 0, 0, false), [0xE0, 0xFF, 0xFF]) == Some(3)
    ensures Walk([0xE0, 0xFF, 0xFF], 0, 0, true) == Panicked
  {
    var data: bytes := [0xE0, 0xFF, 0xFF];
    assert ReadNibble(data, 1, data[0] / 16) == Some((65804, 3));
    assert ReadHeader(data, 0) == Some(Header(65804, 3, 3));
  }
}
