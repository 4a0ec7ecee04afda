/** CBOR items of EDHOC messages: byte strings, identifiers and cipher suite lists (RFC 9528). */
module EdhocCbor {
  import opened Bytes
  import opened Cbor

  datatype EdhocError =
    | InvalidState
    | InvalidMessage
    | UnsupportedSuite
    | SignatureVerification
    | DecryptFailed
    | BufferTooSmall

  const CONNECTION_ID_CAPACITY: nat := 7

  type ConnectionId = id: bytes | |id| <= CONNECTION_ID_CAPACITY

  /** A bounded append with the one error EDHOC has for it. */
  function Extend(buf: bytes, cap: nat, data: bytes): (r: Result<bytes, EdhocError>)
    ensures r.Ok? <==> |buf| + |data| <= cap
    ensures r.Ok? ==> r.value == buf + data
    ensures r.Err? ==> r.error == BufferTooSmall
  {
    Append(buf, cap, data, BufferTooSmall)
  }

  /** What a chain of appends to an empty buffer comes to. */
  function Fit(cap: nat, data: bytes): Result<bytes, EdhocError> {
    if |data| <= cap then Ok(data) else Err(BufferTooSmall)
  }

  // Byte strings

  function AppendBstr(buf: bytes, cap: nat, data: bytes): Result<bytes, EdhocError> {
    if |data| > 0xFFFF then Err(BufferTooSmall) else Extend(buf, cap, Bstr(data))
  }

  /** Push the header for the length, then the content. */
  method EncodeBstr(start: bytes, cap: nat, data: bytes) returns (r: Result<bytes, EdhocError>)
    ensures r == AppendBstr(start, cap, data)
  {
    var buf := start;
    var len := |data|;
    if len <= 23 {
      buf :- Extend(buf, cap, [0x40 + len]);
    } else if len <= 0xFF {
      buf :- Extend(buf, cap, [0x58]);
      buf :- Extend(buf, cap, [len]);
    } else if len <= 0xFFFF {
      buf :- Extend(buf, cap, [0x59]);
      buf :- Extend(buf, cap, [len / 256]);
      buf :- Extend(buf, cap, [len % 256]);
    } else {
      return Err(BufferTooSmall);
    }
    assert buf == start + BstrHead(len);
    buf :- Extend(buf, cap, data);
    assert buf == start + Bstr(data);
    return Ok(buf);
  }

  function Slice(data: bytes, start: nat, len: nat): (r: Result<(bytes, nat), EdhocError>)
    ensures r.Ok? ==> r.value.1 == start + len <= |data| && |r.value.0| == len
    ensures r.Err? ==> r.error == InvalidMessage
  {
    if start + len <= |data| then Ok((data[start..start + len], start + len)) else Err(InvalidMessage)
  }

  /** A byte string at the front of `data`: its content and the bytes consumed. */
  function ParseBstr(data: bytes): (r: Result<(bytes, nat), EdhocError>)
    ensures r.Ok? ==> 1 <= r.value.1 <= |data| && |r.value.0| < r.value.1 && |r.value.0| <= 0xFFFF
    ensures r.Err? ==> r.error == InvalidMessage
  {
    if data == [] then Err(InvalidMessage)
    else if 0x40 <= data[0] <= 0x57 then Slice(data, 1, data[0] - 0x40)
    else if data[0] == 0x58 && |data| >= 2 then Slice(data, 2, data[1])
    else if data[0] == 0x59 && |data| >= 3 then Slice(data, 3, U16(data[1], data[2]))
    else Err(InvalidMessage)
  }

  /** The parser reads back every encoding, whatever follows it. */
  lemma ParseInvertsBstr(x: bytes, tail: bytes)
    requires |x| <= 0xFFFF
    ensures ParseBstr(Bstr(x) + tail) == Ok((x, |Bstr(x)|))
  {
    var data := Bstr(x) + tail;
    var n := |BstrHead(|x|)|;
    assert data[..n] == BstrHead(|x|);
    assert data[n..n + |x|] == x;
    if |x| > 0xFF {
      assert data[1] == |x| / 256 && data[2] == |x| % 256;
    } else if |x| > 23 {
      assert data[1] == |x|;
    }
  }

  // Connection identifiers

  predicate CompactNegative(id: bytes) {
    |id| == 1 && 0x20 <= id[0] <= 0x37
  }

  /** One byte that is itself a one-byte CBOR integer is sent as that byte, anything else as a byte string. */
  function Identifier(id: bytes): (r: bytes)
    requires |id| <= CONNECTION_ID_CAPACITY
    ensures 1 <= |r| <= 1 + |id|
  {
    if |id| == 1 && (id[0] <= 0x17 || 0x20 <= id[0] <= 0x37) then id else Bstr(id)
  }

  method EncodeIdentifier(start: bytes, cap: nat, id: bytes) returns (r: Result<bytes, EdhocError>)
    requires |id| <= CONNECTION_ID_CAPACITY
    ensures r == Extend(start, cap, Identifier(id))
  {
    if |id| == 1 && (id[0] <= 0x17 || 0x20 <= id[0] <= 0x37) {
      assert id == [id[0]];
      var buf :- Extend(start, cap, [id[0]]);
      return Ok(buf);
    }
    r := EncodeBstr(start, cap, id);
  }

  /** An identifier at the front of `data`; a negative integer -n becomes the single byte 256 - n. */
  function ParseIdentifier(data: bytes): (r: Result<(bytes, nat), EdhocError>)
    ensures r.Ok? ==> 1 <= r.value.1 <= |data| && |r.value.0| <= CONNECTION_ID_CAPACITY
  {
    if data == [] then Err(InvalidMessage)
    else if data[0] <= 0x17 then Ok(([data[0]], 1))
    else if 0x20 <= data[0] <= 0x37 then Ok(([256 - (data[0] - 0x20 + 1)], 1))
    else if 0x40 <= data[0] <= 0x57 then
      var len := data[0] - 0x40;
      if len == 1 && |data| >= 2 && data[1] <= 23 then Err(InvalidMessage)
      else if |data| < 1 + len then Err(InvalidMessage)
      else if len > CONNECTION_ID_CAPACITY then Err(BufferTooSmall)
      else Ok((data[1..1 + len], 1 + len))
    else if data[0] == 0x58 && |data| >= 2 && |data| >= 2 + data[1] as int && data[1] <= CONNECTION_ID_CAPACITY then
      Ok((data[2..2 + data[1] as int], 2 + data[1] as int))
    else Err(InvalidMessage)
  }

  /**
   * An identifier survives the trip exactly when it is not one of the single bytes 0x20 to 0x37: the encoder
   * sends those raw and the parser reads them as negative integers.
   */
  lemma IdentifierRoundTrip(id: bytes, tail: bytes)
    requires |id| <= CONNECTION_ID_CAPACITY
    ensures ParseIdentifier(Identifier(id) + tail) == Ok((id, |Identifier(id)|)) <==> !CompactNegative(id)
    ensures CompactNegative(id) ==>
              ParseIdentifier(Identifier(id) + tail) == Ok(([0xFF - (id[0] - 0x20)], 1))
  {
    var data := Identifier(id) + tail;
    assert data[0] == Identifier(id)[0];
    if Identifier(id) == Bstr(id) {
      assert data[1..1 + |id|] == id;
      assert |id| == 1 ==> data[1] == id[0];
    } else {
      assert [data[0]] == id;
    }
  }

  // Cipher suites

  /** One integer of a suite list: its value if it is an unsigned byte, and its size. */
  function SuiteItem(data: bytes, offset: nat): (r: Option<(Option<byte>, nat)>)
    ensures r.Some? ==> r.value.1 >= 1 && offset + r.value.1 <= |data|
  {
    if offset >= |data| then None
    else
      var e := data[offset];
      var size := if e <= 0x17 || 0x20 <= e <= 0x37 then 1
                  else if e == 0x18 || e == 0x38 then 2
                  else if e == 0x19 || e == 0x39 then 3
                  else if e == 0x1A || e == 0x3A then 5
                  else if e == 0x1B || e == 0x3B then 9
                  else 0;
      if size == 0 || offset + size > |data| then None
      else Some((if e <= 0x17 then Some(e) else if e == 0x18 then Some(data[offset + 1]) else None, size))
  }

  /** The first unsigned byte among `count` items, or what was selected before, and where the items end. */
  function SuiteItems(data: bytes, offset: nat, count: nat, selected: Option<byte>): (r: Option<(Option<byte>, nat)>)
    requires offset <= |data|
    ensures r.Some? ==> offset + count <= r.value.1 <= |data|
    decreases count
  {
    if count == 0 then Some((selected, offset))
    else
      var item := SuiteItem(data, offset);
      if item.None? then None
      else SuiteItems(data, offset + item.value.1, count - 1, if selected.None? then item.value.0 else selected)
  }

  /** The selected suite and the bytes consumed. */
  function SuitesI(data: bytes): (r: Option<(byte, nat)>)
    ensures r.Some? ==> 1 <= r.value.1 <= |data|
  {
    if data == [] then None
    else if data[0] <= 0x17 then Some((data[0], 1))
    else if data[0] == 0x18 then (if |data| < 2 then None else Some((data[1], 2)))
    else if !(0x80 <= data[0] <= 0x98) || (data[0] == 0x98 && |data| < 2) then None
    else
      var (count, start) := if data[0] == 0x98 then (data[1] as nat, 2) else ((data[0] - 0x80) as nat, 1);
      if count == 0 then None
      else
        var r := SuiteItems(data, start, count, None);
        if r.None? || r.value.0.None? then None else Some((r.value.0.value, r.value.1))
  }

  /** The loop of the source: errors are all the same. */
  method ParseSuitesI(data: bytes) returns (r: Option<(byte, nat)>)
    ensures r == SuitesI(data)
  {
    hide SuiteItem;
    if |data| == 0 {
      return None;
    }
    var first := data[0];
    if first <= 0x17 {
      return Some((first, 1));
    } else if first == 0x18 {
      if |data| < 2 {
        return None;
      }
      return Some((data[1], 2));
    }
    var count: nat, offset: nat := 0, 0;
    if 0x80 <= first <= 0x97 {
      count, offset := first - 0x80, 1;
    } else if first == 0x98 {
      if |data| < 2 {
        return None;
      }
      count, offset := data[1], 2;
    } else {
      return None;
    }
    if count == 0 {
      return None;
    }
    var selected: Option<byte> := None;
    ghost var whole := SuiteItems(data, offset, count, None);
    for i := 0 to count
      invariant offset <= |data| && SuiteItems(data, offset, count - i, selected) == whole
    {
      var item := SuiteItem(data, offset);
      if item.None? {
        return None;
      }
      if selected.None? {
        selected := item.value.0;
      }
      offset := offset + item.value.1;
    }
    return if selected.Some? then Some((selected.value, offset)) else None;
  }

  lemma {:induction false} SelectionIsKept(data: bytes, offset: nat, count: nat, suite: byte)
    requires offset <= |data|
    ensures var r := SuiteItems(data, offset, count, Some(suite)); r.Some? ==> r.value.0 == Some(suite)
    decreases count
  {
    if count > 0 {
      var item := SuiteItem(data, offset);
      if item.Some? {
        SelectionIsKept(data, offset + item.value.1, count - 1, suite);
      }
    }
  }

  /**
   * Of an accepted list the first element is selected if it is an unsigned byte; otherwise a later one is. So the
   * rule the source's comment states, that the first element is selected, is kept exactly on lists that start with
   * an unsigned byte.
   */
  lemma FirstSuiteSelected(data: bytes)
    requires |data| >= 2 && 0x81 <= data[0] <= 0x98 && SuitesI(data).Some?
    ensures var start := if data[0] == 0x98 then 2 else 1;
            && SuiteItem(data, start).Some?
            && (SuiteItem(data, start).value.0 == Some(SuitesI(data).value.0)
                <==> SuiteItem(data, start).value.0.Some?)
  {
    var start, count := if data[0] == 0x98 then 2 else 1, if data[0] == 0x98 then data[1] else data[0] - 0x80;
    var item := SuiteItem(data, start).value;
    if item.0.Some? {
      SelectionIsKept(data, start + item.1, count - 1, item.0.value);
    }
  }

  /** Of `[-1, 0]` the second element is selected. */
  lemma LaterSuiteCanBeSelected()
    ensures SuitesI([0x82, 0x20, 0x00]) == Some((0, 3))
  {
    var data: bytes := [0x82, 0x20, 0x00];
    assert SuiteItem(data, 1) == Some((None, 1)) && SuiteItem(data, 2) == Some((Some(0), 1));
    assert SuiteItems(data, 3, 0, Some(0)) == Some((Some(0), 3));
    assert SuiteItems(data, 2, 1, None) == Some((Some(0), 3));
  }

  /** The suite list of an error message: the bytes it takes. */
  function SuitesR(data: bytes): Option<nat> {
    if data == [] then None
    else if data[0] <= 0x17 then Some(1)
    else if data[0] == 0x18 && |data| >= 2 then Some(2)
    else if 0x80 <= data[0] <= 0x97 && |data| >= 1 + (data[0] - 0x80) as int then Some(1 + (data[0] - 0x80) as int)
    else if data[0] == 0x98 && |data| >= 2 && |data| >= 2 + data[1] as int then Some(2 + data[1] as int)
    else None
  }
}
