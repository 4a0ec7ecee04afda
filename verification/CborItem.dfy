/**
 * CBOR data items by section 3 of RFC 8949: a head of major type, additional information and argument, then content.
 * Written apart from the encoders and parsers of the repository, which are measured against it.
 */
module CborItem {
  import opened Bytes
  import opened SeqNumber

  const UNSIGNED: nat := 0

  const NEGATIVE: nat := 1

  const BYTE_STRING: nat := 2

  const TEXT_STRING: nat := 3

  const ARRAY: nat := 4

  const MAP: nat := 5

  const SIMPLE: nat := 7

  datatype Head = Head(major: nat, info: nat, arg: bytes)

  /** Up to 23 the additional information is the argument; from 24 on it says how many bytes follow. */
  predicate ValidHead(h: Head) {
    && h.major < 8 && h.info <= 27
    && |h.arg| == if h.info < 24 then 0 else if h.info == 24 then 1 else if h.info == 25 then 2
                  else if h.info == 26 then 4 else 8
  }

  function Argument(h: Head): nat {
    if h.info < 24 then h.info else BigEndian(h.arg)
  }

  function WriteHead(h: Head): (r: bytes)
    requires ValidHead(h)
    ensures |r| == 1 + |h.arg|
  {
    [(32 * h.major + h.info) as byte] + h.arg
  }

  lemma BigEndianOfTwo(a: byte, b: byte)
    ensures BigEndian([a, b]) == 256 * (a as int) + b as int
  {
    assert [a, b][..1] == [a];
    assert BigEndian([a]) == a;
  }

  /** The head of least size. */
  function Shortest(major: nat, n: nat): (h: Head)
    requires major < 8 && n <= 0xFFFF
    ensures ValidHead(h) && Argument(h) == n
  {
    if n < 24 then Head(major, n, [])
    else if n < 256 then
      assert BigEndian([n]) == n;
      Head(major, 24, [n])
    else
      BigEndianOfTwo(n / 256, n % 256);
      Head(major, 25, [n / 256, n % 256])
  }

  datatype Item = Number(head: Head) | String(head: Head, content: bytes) | List(head: Head, items: seq<Item>)

  /** The argument of a string is its length, of an array the number of items, of a map the number of pairs. */
  predicate ValidItem(item: Item) {
    && ValidHead(item.head)
    && match item
       case Number(h) => h.major in {UNSIGNED, NEGATIVE, SIMPLE}
       case String(h, content) => h.major in {BYTE_STRING, TEXT_STRING} && Argument(h) == |content|
       case List(h, items) =>
         && ((h.major == ARRAY && Argument(h) == |items|) || (h.major == MAP && 2 * Argument(h) == |items|))
         && forall x :: x in items ==> ValidItem(x)
  }

  function Write(item: Item): (r: bytes)
    requires ValidItem(item)
    ensures |r| >= 1
    decreases item
  {
    match item
    case Number(h) => WriteHead(h)
    case String(h, content) => WriteHead(h) + content
    case List(h, items) => WriteHead(h) + WriteAll(items)
  }

  function WriteAll(items: seq<Item>): bytes
    requires forall x :: x in items ==> ValidItem(x)
    decreases items
  {
    if items == [] then [] else Write(items[0]) + WriteAll(items[1..])
  }

  // Items in their shortest form

  function Ascii(s: string): (r: bytes)
    ensures |r| == |s|
  {
    seq(|s|, i requires 0 <= i < |s| => s[i] as int % 256)
  }

  function Uint(n: nat): (r: Item)
    requires n <= 0xFFFF
    ensures ValidItem(r)
  {
    Number(Shortest(UNSIGNED, n))
  }

  /** The integer `v`, which may be negative. */
  function Int(v: int): (r: Item)
    requires -0x1_0000 <= v <= 0xFFFF
    ensures ValidItem(r)
  {
    if v >= 0 then Uint(v) else Number(Shortest(NEGATIVE, -1 - v))
  }

  function ByteString(content: bytes): (r: Item)
    requires |content| <= 0xFFFF
    ensures ValidItem(r)
  {
    String(Shortest(BYTE_STRING, |content|), content)
  }

  function Text(s: string): (r: Item)
    requires |s| <= 0xFFFF
    ensures ValidItem(r)
  {
    String(Shortest(TEXT_STRING, |s|), Ascii(s))
  }

  function Array(items: seq<Item>): (r: Item)
    requires |items| <= 0xFFFF && forall x :: x in items ==> ValidItem(x)
    ensures ValidItem(r)
  {
    List(Shortest(ARRAY, |items|), items)
  }

  /** Keys and values in turn. */
  function Map(items: seq<Item>): (r: Item)
    requires |items| <= 0xFFFF && |items| % 2 == 0 && forall x :: x in items ==> ValidItem(x)
    ensures ValidItem(r)
  {
    List(Shortest(MAP, |items| / 2), items)
  }

  const NULL: Item := Number(Head(SIMPLE, 22, []))

  // Unfolding

  lemma WriteAllCons(x: Item, rest: seq<Item>)
    requires ValidItem(x) && forall y :: y in rest ==> ValidItem(y)
    ensures WriteAll([x] + rest) == Write(x) + WriteAll(rest)
  {
    assert ([x] + rest)[1..] == rest;
  }

  lemma WriteThree(a: Item, b: Item, c: Item)
    requires ValidItem(a) && ValidItem(b) && ValidItem(c)
    ensures WriteAll([a, b, c]) == Write(a) + Write(b) + Write(c)
  {
    hide Write, ValidItem;
    assert [a, b, c] == [a] + ([b] + ([c] + []));
    WriteAllCons(c, []);
    WriteAllCons(b, [c] + []);
    WriteAllCons(a, [b] + ([c] + []));
  }

  lemma WriteFour(a: Item, b: Item, c: Item, d: Item)
    requires ValidItem(a) && ValidItem(b) && ValidItem(c) && ValidItem(d)
    ensures WriteAll([a, b, c, d]) == Write(a) + Write(b) + Write(c) + Write(d)
  {
    hide Write, ValidItem;
    assert [a, b, c, d] == [a] + [b, c, d];
    WriteThree(b, c, d);
    WriteAllCons(a, [b, c, d]);
  }

  lemma WriteFive(a: Item, b: Item, c: Item, d: Item, e: Item)
    requires ValidItem(a) && ValidItem(b) && ValidItem(c) && ValidItem(d) && ValidItem(e)
    ensures WriteAll([a, b, c, d, e]) == Write(a) + Write(b) + Write(c) + Write(d) + Write(e)
  {
    hide Write, ValidItem;
    assert [a, b, c, d, e] == [a] + [b, c, d, e];
    WriteFour(b, c, d, e);
    WriteAllCons(a, [b, c, d, e]);
  }

  lemma WriteShortArray(items: seq<Item>)
    requires |items| <= 23 && forall x :: x in items ==> ValidItem(x)
    ensures Write(Array(items)) == [(0x80 + |items|) as byte] + WriteAll(items)
  {
    hide WriteAll, ValidItem;
    assert WriteHead(Shortest(ARRAY, |items|)) == [(0x80 + |items|) as byte];
  }

  /** Short arrays begin with 0x80 plus the number of items. */
  lemma WriteArray3(a: Item, b: Item, c: Item)
    requires ValidItem(a) && ValidItem(b) && ValidItem(c)
    ensures Write(Array([a, b, c])) == [0x83] + (Write(a) + Write(b) + Write(c))
  {
    hide ValidItem, WriteAll, Write, Array;
    WriteThree(a, b, c);
    WriteShortArray([a, b, c]);
  }

  lemma WriteArray4(a: Item, b: Item, c: Item, d: Item)
    requires ValidItem(a) && ValidItem(b) && ValidItem(c) && ValidItem(d)
    ensures Write(Array([a, b, c, d])) == [0x84] + (Write(a) + Write(b) + Write(c) + Write(d))
  {
    hide ValidItem, WriteAll, Write, Array;
    WriteFour(a, b, c, d);
    WriteShortArray([a, b, c, d]);
  }

  lemma WriteArray5(a: Item, b: Item, c: Item, d: Item, e: Item)
    requires ValidItem(a) && ValidItem(b) && ValidItem(c) && ValidItem(d) && ValidItem(e)
    ensures Write(Array([a, b, c, d, e])) == [0x85] + (Write(a) + Write(b) + Write(c) + Write(d) + Write(e))
  {
    hide ValidItem, WriteAll, Write, Array;
    WriteFive(a, b, c, d, e);
    WriteShortArray([a, b, c, d, e]);
  }
}
