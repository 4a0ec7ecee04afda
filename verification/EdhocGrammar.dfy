/**
 * Which bytes each EDHOC parser accepts, and as what: every acceptance is an equivalence with data items written by the
 * rules of RFC 8949, independently of the parsers' case distinctions.
 */
module EdhocGrammar {
  import opened Bytes
  import opened SeqNumber
  import opened Cbor
  import opened CborItem
  import opened EdhocCbor
  import opened EdhocCredential
  import opened OscoreWire

  // Heads

  /** The head at the front of `d`, if it is complete. */
  function HeadOf(d: bytes): (r: Option<Head>)
    ensures r.Some? ==> ValidHead(r.value) && WriteHead(r.value) <= d
  {
    if d == [] then None
    else
      var major, info := d[0] / 32, d[0] % 32;
      var size := if info < 24 then 0 else if info == 24 then 1 else if info == 25 then 2
                  else if info == 26 then 4 else 8;
      if info > 27 || |d| < 1 + size then None
      else
        var h := Head(major, info, d[1..1 + size]);
        assert WriteHead(h) == d[..1 + size];
        Some(h)
  }

  /** A head reads back, whatever follows. */
  lemma HeadReads(h: Head, tail: bytes)
    requires ValidHead(h)
    ensures HeadOf(WriteHead(h) + tail) == Some(h)
  {
    var d := WriteHead(h) + tail;
    assert d[0] == 32 * h.major + h.info;
    assert d[1..1 + |h.arg|] == h.arg;
  }

  lemma ArgumentOfShort(h: Head)
    requires ValidHead(h)
    ensures h.info == 24 ==> Argument(h) == h.arg[0]
    ensures h.info == 25 ==> Argument(h) == U16(h.arg[0], h.arg[1])
  {
    if h.info == 24 {
      assert h.arg == [h.arg[0]];
      assert BigEndian(h.arg[..0]) == 0;
    } else if h.info == 25 {
      assert h.arg == [h.arg[0], h.arg[1]];
      BigEndianOfTwo(h.arg[0], h.arg[1]);
    }
  }

  /** `d` begins with this head and has this content behind it, `n` bytes in all. */
  predicate StartsWith(d: bytes, h: Head, content: bytes, n: nat) {
    ValidHead(h) && n <= |d| && d[..n] == WriteHead(h) + content
  }

  lemma StartsWithHead(d: bytes, h: Head, content: bytes, n: nat)
    requires StartsWith(d, h, content, n)
    ensures HeadOf(d) == Some(h) && n == 1 + |h.arg| + |content|
    ensures d[1 + |h.arg|..n] == content && d[0] == 32 * h.major + h.info
    ensures h.info == 24 ==> d[1] == h.arg[0]
    ensures h.info == 25 ==> d[1] == h.arg[0] && d[2] == h.arg[1]
  {
    assert d == WriteHead(h) + (content + d[n..]);
    HeadReads(h, content + d[n..]);
    assert d[..n][1 + |h.arg|..] == content;
  }

  lemma FrontOfHead(d: bytes, n: nat)
    requires HeadOf(d).Some? && 1 + |HeadOf(d).value.arg| <= n <= |d|
    ensures StartsWith(d, HeadOf(d).value, d[1 + |HeadOf(d).value.arg|..n], n)
    ensures var h := HeadOf(d).value;
            && d[0] == 32 * h.major + h.info
            && (h.info == 24 ==> d[1] == h.arg[0])
            && (h.info == 25 ==> d[1] == h.arg[0] && d[2] == h.arg[1])
  {
    var h := HeadOf(d).value;
    assert d[..n] == d[..1 + |h.arg|] + d[1 + |h.arg|..n];
  }

  // Integers

  predicate IntegerHead(h: Head) {
    ValidHead(h) && h.major in {UNSIGNED, NEGATIVE} && h.info <= 25
  }

  /** Integers with an argument of at most two bytes are skipped, in any width. */
  lemma IntegersSkipped(d: bytes, n: nat)
    ensures SkipIntValue(d) == Ok(n) <==> exists h :: IntegerHead(h) && StartsWith(d, h, [], n)
  {
    if SkipIntValue(d) == Ok(n) {
      var h := HeadOf(d).value;
      FrontOfHead(d, n);
      assert IntegerHead(h) && StartsWith(d, h, [], n);
    }
    if h :| IntegerHead(h) && StartsWith(d, h, [], n) {
      StartsWithHead(d, h, [], n);
    }
  }

  lemma LabelIsWritten(d: bytes)
    requires TryParseCborInt(d).Some?
    ensures var (v, n) := TryParseCborInt(d).value;
            -0x1_0000 <= v <= 0xFFFF && n <= |d| && d[..n] == Write(Int(v))
  {
    var (v, n) := TryParseCborInt(d).value;
    if n == 3 {
      var u := U16(d[1], d[2]);
      assert u / 256 == d[1] && u % 256 == d[2];
    }
  }

  /** A label is an integer of at most two bytes in its shortest form. */
  lemma LabelsRead(d: bytes, v: int, n: nat)
    ensures TryParseCborInt(d) == Some((v, n))
            <==> -0x1_0000 <= v <= 0xFFFF && n <= |d| && d[..n] == Write(Int(v))
  {
    if TryParseCborInt(d) == Some((v, n)) {
      LabelIsWritten(d);
    }
    if -0x1_0000 <= v <= 0xFFFF && n <= |d| && d[..n] == Write(Int(v)) {
      assert d[0] == d[..n][0];
      if n > 1 {
        assert d[1] == d[..n][1];
      }
      if n > 2 {
        assert d[2] == d[..n][2];
      }
    }
  }

  // Byte strings

  predicate BytesHead(h: Head, content: bytes) {
    ValidHead(h) && h.major == BYTE_STRING && h.info <= 25 && Argument(h) == |content|
  }

  /** Byte strings with a length of at most two bytes are read, in any width. */
  lemma BytesRead(d: bytes, x: bytes, n: nat)
    ensures ParseBstr(d) == Ok((x, n)) <==> exists h :: BytesHead(h, x) && StartsWith(d, h, x, n)
  {
    if ParseBstr(d) == Ok((x, n)) {
      var h := HeadOf(d).value;
      ArgumentOfShort(h);
      FrontOfHead(d, n);
      assert BytesHead(h, x) && StartsWith(d, h, x, n);
    }
    if h :| BytesHead(h, x) && StartsWith(d, h, x, n) {
      StartsWithHead(d, h, x, n);
      ArgumentOfShort(h);
    }
  }

  lemma ShortestIsThis(h: Head)
    requires ValidHead(h) && h.major < 8
    requires h.info < 24 || (h.info == 24 && Argument(h) >= 24) || (h.info == 25 && Argument(h) > 0xFF)
    ensures Argument(h) <= 0xFFFF && Shortest(h.major, Argument(h)) == h
  {
    ArgumentOfShort(h);
    if h.info == 25 {
      var n := Argument(h);
      assert n / 256 == h.arg[0] && n % 256 == h.arg[1];
      assert h.arg == [h.arg[0], h.arg[1]];
    } else if h.info == 24 {
      assert h.arg == [h.arg[0]];
    }
  }

  /** Canonical byte strings are the ones in shortest form. */
  lemma CanonicalBytesRead(d: bytes, x: bytes, n: nat)
    ensures ParseCanonicalBstr(d) == Ok((x, n)) <==> |x| <= 0xFFFF && n <= |d| && d[..n] == Write(ByteString(x))
  {
    if ParseCanonicalBstr(d) == Ok((x, n)) {
      var h := HeadOf(d).value;
      ArgumentOfShort(h);
      FrontOfHead(d, n);
      ShortestIsThis(h);
    }
    if |x| <= 0xFFFF && n <= |d| && d[..n] == Write(ByteString(x)) {
      BstrOnTheWire(x);
      assert d == Bstr(x) + d[n..];
      CanonicalReadsEncodings(x, d[n..]);
    }
  }

  // Values that are skipped

  /** Integers, byte and text strings and arrays of such, with lengths of at most one byte. */
  predicate Skippable(item: Item): (r: bool)
    ensures r ==> ValidItem(item)
  {
    && ValidItem(item)
    && match item
       case Number(h) => h.major in {UNSIGNED, NEGATIVE} && h.info <= 25
       case String(h, _) => h.info <= 24
       case List(h, items) => h.major == ARRAY && h.info <= 24 && forall x :: x in items ==> Skippable(x)
  }

  /** The bytes that the parsers look at. */
  lemma HeadFacts(h: Head, content: bytes, tail: bytes)
    requires ValidHead(h)
    ensures var d := WriteHead(h) + content + tail;
            && d[0] == 32 * h.major + h.info && |d| == 1 + |h.arg| + |content| + |tail|
            && (h.info == 24 ==> d[1] == h.arg[0])
  {
  }

  lemma {:induction false} SkipReads(item: Item, tail: bytes)
    requires Skippable(item)
    ensures SkipValue(Write(item) + tail) == Ok(|Write(item)|)
    decreases item, 0
  {
    var d := Write(item) + tail;
    var h := item.head;
    ArgumentOfShort(h);
    match item {
      case Number(_) =>
        HeadFacts(h, [], tail);
      case String(_, content) =>
        HeadFacts(h, content, tail);
      case List(_, items) =>
        HeadFacts(h, WriteAll(items), tail);
        assert d == WriteHead(h) + WriteAll(items) + tail;
        SkipReadsAll(WriteHead(h), items, tail);
    }
  }

  lemma {:induction false} SkipReadsAll(before: bytes, items: seq<Item>, tail: bytes)
    requires forall x :: x in items ==> ValidItem(x) && Skippable(x)
    ensures SkipItems(before + WriteAll(items) + tail, |before|, |items|) == Ok(|before| + |WriteAll(items)|)
    decreases items, 1
  {
    var d := before + WriteAll(items) + tail;
    if items != [] {
      hide SkipValue, Write;
      var first, rest := Write(items[0]), WriteAll(items[1..]);
      assert d[|before|..] == first + (rest + tail);
      SkipReads(items[0], rest + tail);
      assert d == (before + first) + rest + tail;
      SkipReadsAll(before + first, items[1..], tail);
    }
  }

  /** What was skipped, as an item. */
  lemma {:induction false} SkippedIsItem(d: bytes) returns (item: Item)
    requires SkipValue(d).Ok?
    ensures Skippable(item) && Write(item) == d[..SkipValue(d).value]
    decreases |d|, 0
  {
    var n := SkipValue(d).value;
    var h := HeadOf(d).value;
    ArgumentOfShort(h);
    FrontOfHead(d, n);
    if h.major in {UNSIGNED, NEGATIVE} {
      item := Number(h);
    } else if h.major in {BYTE_STRING, TEXT_STRING} {
      item := String(h, d[1 + |h.arg|..n]);
    } else {
      var items := SkippedAreItems(d, 1 + |h.arg|, Argument(h));
      item := List(h, items);
    }
  }

  lemma {:induction false} SkippedAreItems(d: bytes, offset: nat, count: nat) returns (items: seq<Item>)
    requires offset <= |d| && offset > 0 && SkipItems(d, offset, count).Ok?
    ensures |items| == count && (forall x :: x in items ==> ValidItem(x) && Skippable(x))
    ensures WriteAll(items) == d[offset..SkipItems(d, offset, count).value]
    decreases |d| - offset, count
  {
    items := [];
    if count > 0 {
      hide SkipValue, Write;
      var k, n := SkipValue(d[offset..]).value, SkipItems(d, offset, count).value;
      var first := SkippedIsItem(d[offset..]);
      var rest := SkippedAreItems(d, offset + k, count - 1);
      items := [first] + rest;
      assert items[1..] == rest;
      assert d[offset..][..k] == d[offset..offset + k];
      assert d[offset..n] == d[offset..offset + k] + d[offset + k..n];
    }
  }

  /** Exactly these values are skipped, and as far as they reach. */
  lemma ValuesSkipped(d: bytes, n: nat)
    ensures SkipValue(d) == Ok(n) <==> n <= |d| && exists item :: Skippable(item) && Write(item) == d[..n]
  {
    hide SkipValue, Skippable, Write;
    if SkipValue(d) == Ok(n) {
      var item := SkippedIsItem(d);
    }
    if n <= |d| && exists item :: Skippable(item) && Write(item) == d[..n] {
      var item :| Skippable(item) && Write(item) == d[..n];
      assert d == Write(item) + d[n..];
      SkipReads(item, d[n..]);
    }
  }

  // Thumbprints

  /** [algorithm, hash] with the algorithm in shortest form and the hash at most 64 bytes. */
  ghost predicate ThumbprintForm(front: bytes, alg: int, thumbprint: bytes) {
    && |thumbprint| <= 64 && -0x1_0000 <= alg <= 0xFFFF
    && exists h :: BytesHead(h, thumbprint) && front == [0x82] + Write(Int(alg)) + (WriteHead(h) + thumbprint)
  }

  lemma ReadThumbprint(d: bytes)
    requires ParseX5t(d).Ok?
    ensures var (alg, thumbprint, n) := ParseX5t(d).value;
            n <= |d| && ThumbprintForm(d[..n], alg, thumbprint)
  {
    hide TryParseCborInt, ParseBstr, Write, Int, BytesHead;
    var (alg, thumbprint, n) := ParseX5t(d).value;
    var k := TryParseCborInt(d[1..]).value.1;
    LabelsRead(d[1..], alg, k);
    BytesRead(d[1 + k..], thumbprint, n - 1 - k);
    var h :| BytesHead(h, thumbprint) && StartsWith(d[1 + k..], h, thumbprint, n - 1 - k);
    ThreeParts(d, [0x82], Write(Int(alg)), WriteHead(h) + thumbprint);
  }

  lemma ThumbprintReads(d: bytes, alg: int, thumbprint: bytes, n: nat)
    requires n <= |d| && ThumbprintForm(d[..n], alg, thumbprint)
    ensures ParseX5t(d) == Ok((alg, thumbprint, n))
  {
    hide TryParseCborInt, ParseBstr, Write, Int;
    var h :| BytesHead(h, thumbprint) && d[..n] == [0x82] + Write(Int(alg)) + (WriteHead(h) + thumbprint);
    var k := |Write(Int(alg))|;
    ThreeParts(d, [0x82], Write(Int(alg)), WriteHead(h) + thumbprint);
    assert d[..1][0] == 0x82;
    LabelsRead(d[1..], alg, k);
    assert StartsWith(d[1 + k..], h, thumbprint, n - 1 - k);
    BytesRead(d[1 + k..], thumbprint, n - 1 - k);
  }

  lemma ThumbprintsRead(d: bytes, alg: int, thumbprint: bytes, n: nat)
    ensures ParseX5t(d) == Ok((alg, thumbprint, n)) <==> n <= |d| && ThumbprintForm(d[..n], alg, thumbprint)
  {
    hide ParseX5t, ThumbprintForm;
    if ParseX5t(d) == Ok((alg, thumbprint, n)) {
      ReadThumbprint(d);
    }
    if n <= |d| && ThumbprintForm(d[..n], alg, thumbprint) {
      ThumbprintReads(d, alg, thumbprint, n);
    }
  }

  // Bare references

  /** A bare integer stands for the `kid` that is its encoding, a bare byte string for the one that is its content. */
  lemma BareReferences(d: bytes)
    requires d != [] && d[0] / 32 != 5
    ensures var r := ParseIdCred(d);
            && (d[0] % 32 < 24 && d[0] / 32 < 2 ==> r == Ok((IdCred([0xA1, 0x04, 0x41, d[0]], Kid([d[0]])), 1)))
            && (d[0] in {0x18, 0x38} ==>
                  r == if |d| < 2 then Err(InvalidMessage)
                       else Ok((IdCred([0xA1, 0x04, 0x42, d[0], d[1]], Kid([d[0], d[1]])), 2)))
            && (d[0] / 32 == 2 && d[0] % 32 <= 24 ==>
                  match ParseBstr(d)
                  case Err(_) => r == Err(InvalidMessage)
                  case Ok((kid, n)) =>
                    if |kid| > 60 then r == Err(BufferTooSmall)
                    else r == Ok((IdCred([0xA1, 0x04] + Write(ByteString(kid)), Kid(kid)), n)))
            && (d[0] % 32 > 24 || d[0] / 32 > 2 ==> r == Err(InvalidMessage))
  {
    if d[0] in {0x18, 0x38} && |d| >= 2 {
      assert d[..2] == [d[0], d[1]];
      assert IdCredMap(d[..2]) == [0xA1, 0x04, 0x42, d[0], d[1]];
    } else if d[0] % 32 < 24 && d[0] / 32 < 2 {
      assert IdCredMap([d[0]]) == [0xA1, 0x04, 0x41, d[0]];
    } else if d[0] / 32 == 2 && d[0] % 32 <= 24 && ParseBstr(d).Ok? {
      var kid := ParseBstr(d).value.0;
      IdCredMapLength(kid);
      BstrOnTheWire(kid);
    }
  }

  /** A map has one to eight entries. */
  lemma MapSizes(d: bytes)
    requires d != [] && d[0] / 32 == 5 && (d[0] % 32 == 0 || d[0] % 32 > 8)
    ensures ParseIdCred(d) == Err(InvalidMessage)
  {
  }

  // Connection identifiers

  /**
   * The bytes of an identifier: its own encoding, unless that is a negative integer; or a byte string with a length byte it
   * does not need; or the negative integer that stands for 0xE8 to 0xFF.
   */
  predicate IdentifierForm(front: bytes, id: bytes) {
    && |id| <= 7
    && (front == (if |id| == 1 && id[0] <= 0x17 then id else Write(ByteString(id)))
        || front == [0x58, |id|] + id
        || (|id| == 1 && id[0] >= 0xE8 && front == Write(Int(id[0] as int - 0x100))))
  }

  lemma IdentifiersRead(d: bytes, id: bytes, n: nat)
    ensures ParseIdentifier(d) == Ok((id, n)) <==> n <= |d| && IdentifierForm(d[..n], id)
  {
    if |id| <= 7 {
      BstrOnTheWire(id);
    }
    if ParseIdentifier(d) == Ok((id, n)) {
      if d[0] <= 0x37 {
        assert d[..n] == [d[0]];
        if d[0] >= 0x20 {
          assert Write(Int(id[0] as int - 0x100)) == [d[0]];
        }
      } else if d[0] <= 0x57 {
        assert d[..n] == [d[0]] + d[1..n];
      } else {
        assert d[..n] == [0x58, d[1]] + d[2..n];
      }
    }
    if n <= |d| && IdentifierForm(d[..n], id) {
      if |id| == 1 && id[0] >= 0xE8 {
        assert Write(Int(id[0] as int - 0x100)) == [(0x20 + (0xFF - id[0])) as byte];
      }
      if |id| == 1 {
        assert id == [id[0]];
      }
      assert n >= 1 && d[0] == d[..n][0];
      if d[0] == 0x58 {
        assert d[1] == d[..n][1] && d[2..n] == d[..n][2..] == id;
      } else if d[0] >= 0x40 {
        assert d[1..n] == d[..n][1..] == id;
        assert |id| == 1 ==> d[1] == id[0];
      }
    }
  }

  /** Seven bytes is the limit; a shorter form must be used where there is one; all else is malformed. */
  lemma IdentifiersRefused(d: bytes)
    ensures ParseIdentifier(d) == Err(BufferTooSmall)
            <==> d != [] && 0x48 <= d[0] <= 0x57 && |d| >= 1 + (d[0] - 0x40) as int
    ensures ParseIdentifier(d).Err? ==> ParseIdentifier(d).error in {BufferTooSmall, InvalidMessage}
    ensures |d| >= 2 && d[0] == 0x41 && d[1] <= 0x17 ==> ParseIdentifier(d) == Err(InvalidMessage)
  {
  }

  lemma IdentifierIsPrefixStable(d: bytes, e: bytes)
    requires ParseIdentifier(d).Ok? && SameFront(d, e, ParseIdentifier(d).value.1)
    ensures ParseIdentifier(e) == ParseIdentifier(d)
  {
    hide ParseIdentifier, IdentifierForm;
    var (id, n) := ParseIdentifier(d).value;
    IdentifiersRead(d, id, n);
    IdentifiersRead(e, id, n);
  }

  // Suites

  /** An integer of any width. */
  predicate SuiteHead(h: Head): (r: bool)
    ensures r ==> ValidHead(h)
  {
    ValidHead(h) && h.major in {UNSIGNED, NEGATIVE}
  }

  /** Its value if it is unsigned and at most 255 in at most two bytes. */
  function SuiteValue(h: Head): Option<byte>
    requires ValidHead(h)
  {
    if h.major == UNSIGNED && h.info < 24 then Some(h.info)
    else if h.major == UNSIGNED && h.info == 24 then Some(h.arg[0])
    else None
  }

  lemma SuiteItemsRead(data: bytes, offset: nat, h: Head)
    requires offset <= |data|
    ensures SuiteHead(h) && WriteHead(h) <= data[offset..] ==>
              SuiteItem(data, offset) == Some((SuiteValue(h), |WriteHead(h)|))
    ensures SuiteItem(data, offset).Some? ==> HeadOf(data[offset..]).Some? && SuiteHead(HeadOf(data[offset..]).value)
  {
    if SuiteHead(h) && WriteHead(h) <= data[offset..] {
      var n := |WriteHead(h)|;
      assert data[offset..][..n] == WriteHead(h);
      assert data[offset] == WriteHead(h)[0] && (h.info == 24 ==> data[offset + 1] == WriteHead(h)[1]);
    }
  }

  function WriteHeads(heads: seq<Head>): bytes
    requires forall h :: h in heads ==> ValidHead(h)
  {
    if heads == [] then [] else WriteHead(heads[0]) + WriteHeads(heads[1..])
  }

  /** The first value in a list, or the one found before. */
  function FirstValue(heads: seq<Head>, selected: Option<byte>): Option<byte>
    requires forall h :: h in heads ==> ValidHead(h)
  {
    if selected.Some? || heads == [] then selected else FirstValue(heads[1..], SuiteValue(heads[0]))
  }

  lemma FirstOfFirst(heads: seq<Head>, selected: Option<byte>)
    requires heads != [] && forall h :: h in heads ==> ValidHead(h)
    ensures FirstValue(heads, selected)
            == FirstValue(heads[1..], if selected.None? then SuiteValue(heads[0]) else selected)
  {
  }

  lemma {:induction false} SuitesReadAll(before: bytes, heads: seq<Head>, tail: bytes, selected: Option<byte>)
    requires forall h :: h in heads ==> ValidHead(h) && SuiteHead(h)
    ensures SuiteItems(before + WriteHeads(heads) + tail, |before|, |heads|, selected)
            == Some((FirstValue(heads, selected), |before| + |WriteHeads(heads)|))
    decreases |heads|
  {
    hide SuiteItem, SuiteValue;
    var data := before + WriteHeads(heads) + tail;
    if heads != [] {
      var first, rest := WriteHead(heads[0]), WriteHeads(heads[1..]);
      assert data[|before|..] == first + (rest + tail);
      SuiteItemsRead(data, |before|, heads[0]);
      assert data == (before + first) + rest + tail;
      SuitesReadAll(before + first, heads[1..], tail, if selected.None? then SuiteValue(heads[0]) else selected);
      FirstOfFirst(heads, selected);
    }
  }

  lemma {:induction false} SuitesAreHeads(data: bytes, offset: nat, count: nat, selected: Option<byte>)
    returns (heads: seq<Head>)
    requires offset <= |data| && SuiteItems(data, offset, count, selected).Some?
    ensures |heads| == count && (forall h :: h in heads ==> ValidHead(h) && SuiteHead(h))
    ensures data[offset..SuiteItems(data, offset, count, selected).value.1] == WriteHeads(heads)
    decreases count
  {
    hide SuiteItem, SuiteValue, HeadOf;
    heads := [];
    if count > 0 {
      var h := if HeadOf(data[offset..]).Some? then HeadOf(data[offset..]).value else Head(0, 0, []);
      SuiteItemsRead(data, offset, h);
      var next := offset + |WriteHead(h)|;
      var n := SuiteItems(data, offset, count, selected).value.1;
      assert data[offset..][..|WriteHead(h)|] == WriteHead(h) == data[offset..next];
      var rest := SuitesAreHeads(data, next, count - 1, if selected.None? then SuiteValue(h) else selected);
      heads := [h] + rest;
      assert heads[1..] == rest;
      assert data[offset..n] == data[offset..next] + data[next..n];
    }
  }

  /** An array of integers, with a length of at most one byte. */
  predicate SuiteArray(data: bytes, h: Head, heads: seq<Head>) {
    && ValidHead(h) && h.major == ARRAY && h.info <= 24 && Argument(h) == |heads|
    && (forall x :: x in heads ==> ValidHead(x) && SuiteHead(x)) && data == WriteHead(h) + WriteHeads(heads)
  }

  lemma SuiteListIsArray(data: bytes)
    requires data != [] && data[0] / 32 == ARRAY && SuitesI(data).Some?
    ensures var (suite, n) := SuitesI(data).value;
            n <= |data| && exists h, heads :: SuiteArray(data[..n], h, heads) && FirstValue(heads, None) == Some(suite)
  {
    hide SuiteItems, SuiteHead, FirstValue, WriteHeads;
    var (suite, n) := SuitesI(data).value;
    var h := HeadOf(data).value;
    ArgumentOfShort(h);
    var start := |WriteHead(h)|;
    var heads := SuitesAreHeads(data, start, Argument(h), None);
    assert data[..n] == WriteHead(h) + data[start..n];
    SuitesReadAll(WriteHead(h), heads, data[n..], None);
    assert data == WriteHead(h) + WriteHeads(heads) + data[n..];
    assert SuiteArray(data[..n], h, heads);
  }

  lemma SuiteArrayReads(data: bytes, n: nat, h: Head, heads: seq<Head>)
    requires data != [] && n <= |data| && SuiteArray(data[..n], h, heads) && FirstValue(heads, None).Some?
    ensures SuitesI(data) == Some((FirstValue(heads, None).value, n))
  {
    hide SuiteItems, SuiteHead, WriteHeads;
    ArgumentOfShort(h);
    assert data == WriteHead(h) + WriteHeads(heads) + data[n..];
    HeadFacts(h, WriteHeads(heads), data[n..]);
    SuitesReadAll(WriteHead(h), heads, data[n..], None);
    assert |heads| > 0;
  }

  /** A list of suites is accepted exactly if it is such an array, and selects the first unsigned byte in it. */
  lemma SuiteListsRead(data: bytes, suite: byte, n: nat)
    requires data != [] && data[0] / 32 == ARRAY
    ensures SuitesI(data) == Some((suite, n))
            <==> n <= |data| && exists h, heads :: SuiteArray(data[..n], h, heads) && FirstValue(heads, None) == Some(suite)
  {
    if SuitesI(data) == Some((suite, n)) {
      SuiteListIsArray(data);
    }
    if n <= |data| && exists h, heads :: SuiteArray(data[..n], h, heads) && FirstValue(heads, None) == Some(suite) {
      var h, heads :| SuiteArray(data[..n], h, heads) && FirstValue(heads, None) == Some(suite);
      SuiteArrayReads(data, n, h, heads);
    }
  }

  /** Anything but an array must be a single unsigned byte. */
  lemma SingleSuitesRead(data: bytes, suite: byte, n: nat)
    requires data == [] || data[0] / 32 != ARRAY
    ensures SuitesI(data) == Some((suite, n))
            <==> exists h :: SuiteHead(h) && SuiteValue(h) == Some(suite) && StartsWith(data, h, [], n)
  {
    if SuitesI(data) == Some((suite, n)) {
      var h := HeadOf(data).value;
      FrontOfHead(data, n);
      assert SuiteHead(h) && SuiteValue(h) == Some(suite) && StartsWith(data, h, [], n);
    }
    if h :| SuiteHead(h) && SuiteValue(h) == Some(suite) && StartsWith(data, h, [], n) {
      StartsWithHead(data, h, [], n);
    }
  }
}
