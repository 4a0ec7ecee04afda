/**
 * Which algorithm lists and which ID_CRED maps are accepted, said of the items in them and without the loops: a list or
 * a map is accepted exactly when it is the concatenation of complete items that satisfy the rules.
 */
module EdhocIdCred {
  import opened Bytes
  import opened EdhocCbor
  import opened EdhocCredential

  /** One complete value and nothing else. */
  predicate IsValue(item: bytes) {
    SkipValue(item) == Ok(|item|)
  }

  /** The value of an item that is a canonical integer of at most two bytes. */
  function IntegerOf(item: bytes): Option<int> {
    var r := TryParseCborInt(item);
    if r.Some? then Some(r.value.0) else None
  }

  function Concat(items: seq<bytes>): bytes {
    if items == [] then [] else items[0] + Concat(items[1..])
  }

  predicate Distinct(s: seq<int>) {
    forall i, j :: 0 <= i < j < |s| ==> s[i] != s[j]
  }

  lemma SkipAgreesOnInts(data: bytes)
    requires SkipIntValue(data).Ok?
    ensures SkipValue(data) == SkipIntValue(data)
  {
  }

  lemma ItemAtFront(item: bytes, data: bytes, offset: nat)
    requires offset + |item| <= |data| && data[offset..offset + |item|] == item && IsValue(item)
    ensures |item| >= 1 && SkipValue(data[offset..]) == Ok(|item|)
    ensures TryParseCborInt(data[offset..]) == TryParseCborInt(item)
    ensures TryParseCborInt(item).Some? ==> TryParseCborInt(item).value.1 == |item|
  {
    hide SkipValue, TryParseCborInt, SkipIntValue;
    assert data[offset..][..|item|] == item && item[..|item|] == item;
    SkipIsPrefixStable(item, data[offset..]);
    if TryParseCborInt(item).Some? {
      LabelIsAnInt(item);
      SkipAgreesOnInts(item);
    }
  }

  /** The value the skipper finds at `offset`, cut out. */
  lemma ItemCutOut(data: bytes, offset: nat) returns (item: bytes)
    requires offset <= |data| && SkipValue(data[offset..]).Ok?
    ensures IsValue(item) && TryParseCborInt(item) == TryParseCborInt(data[offset..])
    ensures offset + |item| <= |data| && item == data[offset..offset + |item|]
    ensures |item| == SkipValue(data[offset..]).value
  {
    hide SkipValue, TryParseCborInt, SkipIntValue;
    var n := SkipValue(data[offset..]).value;
    item := data[offset..offset + n];
    assert data[offset..][..n] == item && item[..n] == item;
    SkipIsPrefixStable(data[offset..], item);
  }

  // Algorithm lists

  /** The canonical integers of a list, in order. */
  function Integers(items: seq<bytes>): seq<int> {
    if items == [] then []
    else (if IntegerOf(items[0]).Some? then [IntegerOf(items[0]).value] else []) + Integers(items[1..])
  }

  /** No integer twice, neither 1 nor 34, at most eight of them. */
  predicate Unambiguous(integers: seq<int>) {
    Distinct(integers) && 1 !in integers && 34 !in integers && |integers| <= 8
  }

  lemma OneMoreInteger(seen: seq<int>, v: int)
    requires Unambiguous(seen) && v !in {1, 34} && v !in seen && |seen| < 8
    ensures Unambiguous(seen + [v])
  {
  }

  /** The integers seen after one more item. */
  function SeenAfter(seen: seq<int>, item: bytes): seq<int> {
    if IntegerOf(item).Some? then seen + [IntegerOf(item).value] else seen
  }

  lemma NoItems(data: bytes, offset: nat, seen: seq<int>)
    requires offset <= |data|
    ensures AlgItems(data, offset, 0, seen) == Ok(offset)
    ensures Concat([]) == [] && seen + Integers([]) == seen
  {
  }

  lemma OneMoreItem(seen: seq<int>, item: bytes, rest: seq<bytes>)
    ensures seen + Integers([item] + rest) == SeenAfter(seen, item) + Integers(rest)
    ensures Concat([item] + rest) == item + Concat(rest)
  {
    hide IntegerOf;
    assert ([item] + rest)[1..] == rest;
  }

  lemma AcceptedAlgItem(data: bytes, offset: nat, count: nat, seen: seq<int>) returns (item: bytes)
    requires offset <= |data| && count > 0 && AlgItems(data, offset, count, seen).Ok? && Unambiguous(seen)
    ensures IsValue(item) && offset + |item| <= |data| && item == data[offset..offset + |item|]
    ensures AlgItems(data, offset, count, seen) == AlgItems(data, offset + |item|, count - 1, SeenAfter(seen, item))
    ensures Unambiguous(SeenAfter(seen, item))
  {
    hide SkipValue, TryParseCborInt, SkipIntValue, IsValue, Unambiguous;
    var r := TryParseCborInt(data[offset..]);
    if r.Some? {
      LabelIsAnInt(data[offset..]);
      SkipAgreesOnInts(data[offset..]);
      OneMoreInteger(seen, r.value.0);
    }
    item := ItemCutOut(data, offset);
  }

  lemma {:induction false} AcceptedAlgItems(data: bytes, offset: nat, count: nat, seen: seq<int>)
    returns (items: seq<bytes>)
    requires offset <= |data| && AlgItems(data, offset, count, seen).Ok? && Unambiguous(seen)
    ensures |items| == count && (forall item :: item in items ==> IsValue(item))
    ensures Unambiguous(seen + Integers(items))
    ensures data[offset..AlgItems(data, offset, count, seen).value] == Concat(items)
    decreases count
  {
    hide IsValue, Unambiguous, AlgItems, Integers, Concat, SeenAfter;
    items := [];
    if count == 0 {
      NoItems(data, offset, seen);
    } else {
      var item := AcceptedAlgItem(data, offset, count, seen);
      var next, n := offset + |item|, AlgItems(data, offset, count, seen).value;
      var rest := AcceptedAlgItems(data, next, count - 1, SeenAfter(seen, item));
      items := [item] + rest;
      OneMoreItem(seen, item, rest);
      assert data[offset..n] == data[offset..next] + data[next..n];
    }
  }

  lemma AlgItemAccepts(data: bytes, offset: nat, item: bytes, count: nat, seen: seq<int>)
    requires IsValue(item) && offset + |item| <= |data| && item == data[offset..offset + |item|] && count > 0
    requires Unambiguous(SeenAfter(seen, item))
    ensures AlgItems(data, offset, count, seen) == AlgItems(data, offset + |item|, count - 1, SeenAfter(seen, item))
  {
    hide SkipValue, TryParseCborInt, SkipIntValue, IsValue;
    ItemAtFront(item, data, offset);
    if IntegerOf(item).Some? {
      var after := SeenAfter(seen, item);
      assert after[|seen|] == IntegerOf(item).value;
      assert forall i :: 0 <= i < |seen| ==> after[i] == seen[i];
    }
  }

  /** A part of unambiguous integers is unambiguous. */
  lemma UnambiguousPrefix(a: seq<int>, b: seq<int>)
    requires Unambiguous(a + b)
    ensures Unambiguous(a)
  {
    assert forall i :: 0 <= i < |a| ==> (a + b)[i] == a[i];
  }

  lemma {:induction false} AlgItemsAccept(data: bytes, offset: nat, items: seq<bytes>, seen: seq<int>)
    requires forall item :: item in items ==> IsValue(item)
    requires offset + |Concat(items)| <= |data| && data[offset..offset + |Concat(items)|] == Concat(items)
    requires Unambiguous(seen + Integers(items))
    ensures AlgItems(data, offset, |items|, seen) == Ok(offset + |Concat(items)|)
    decreases |items|
  {
    hide IsValue, Unambiguous, AlgItems, Integers, Concat, SeenAfter;
    if items == [] {
      NoItems(data, offset, seen);
    } else {
      var item, rest := items[0], items[1..];
      assert items == [item] + rest;
      OneMoreItem(seen, item, rest);
      var next, end := offset + |item|, offset + |Concat(items)|;
      assert data[offset..next] == data[offset..end][..|item|] && data[next..end] == data[offset..end][|item|..];
      UnambiguousPrefix(SeenAfter(seen, item), Integers(rest));
      AlgItemAccepts(data, offset, item, |items|, seen);
      AlgItemsAccept(data, next, rest, SeenAfter(seen, item));
    }
  }

  /** An array of these items, whose canonical integers are unambiguous. */
  predicate IsAlgArray(data: bytes, items: seq<bytes>) {
    && |items| <= 23 && data == [(0x80 + |items|) as byte] + Concat(items)
    && (forall item :: item in items ==> IsValue(item))
    && Unambiguous(Integers(items))
  }

  lemma EmptyIsUnambiguous()
    ensures Unambiguous([])
  {
  }

  /**
   * An algorithm array is accepted, and `n` bytes long, exactly when those bytes are an array of complete items in
   * which no canonical integer is 1 or 34 or comes twice, and there are at most eight of them.
   */
  lemma AlgArraysAccepted(data: bytes, n: nat)
    requires data != [] && 0x80 <= data[0] <= 0x97
    ensures AlgValue(data) == Ok(n) <==> n <= |data| && exists items :: IsAlgArray(data[..n], items)
  {
    hide Integers, Concat, Unambiguous, IsValue, AlgItems;
    assert Unambiguous([]) by { EmptyIsUnambiguous(); }
    if AlgValue(data) == Ok(n) {
      var items := AcceptedAlgItems(data, 1, data[0] - 0x80, []);
      assert [] + Integers(items) == Integers(items);
      assert data[..n] == [data[0]] + data[1..n];
      assert IsAlgArray(data[..n], items);
    }
    if n <= |data| && exists items :: IsAlgArray(data[..n], items) {
      var items :| IsAlgArray(data[..n], items);
      assert data[..n][0] == data[0];
      assert data[1..n] == data[..n][1..] == Concat(items);
      assert [] + Integers(items) == Integers(items);
      AlgItemsAccept(data, 1, items, []);
    }
  }

  // Maps

  datatype Entry = Entry(key: bytes, value: bytes)

  function Flat(entries: seq<Entry>): bytes {
    if entries == [] then [] else entries[0].key + entries[0].value + Flat(entries[1..])
  }

  /** The integer labels, in order; other keys have none. */
  function Labels(entries: seq<Entry>): seq<int> {
    if entries == [] then []
    else (if IntegerOf(entries[0].key).Some? then [IntegerOf(entries[0].key).value] else []) + Labels(entries[1..])
  }

  /** What may stand under a key: an integer, an algorithm, a short `kid`, a thumbprint, or any value. */
  predicate Fits(e: Entry) {
    var n := |e.value|;
    match IntegerOf(e.key)
    case None => IsValue(e.value)
    case Some(key) =>
      if key == 1 then SkipIntValue(e.value) == Ok(n)
      else if key == 2 then AlgValue(e.value) == Ok(n)
      else if key == 4 then
        ParseCanonicalBstr(e.value).Ok? && ParseCanonicalBstr(e.value).value.1 == n
        && |ParseCanonicalBstr(e.value).value.0| <= ID_CRED_MAX_LEN
      else if key == 34 then ParseX5t(e.value).Ok? && ParseX5t(e.value).value.2 == n
      else IsValue(e.value)
  }

  predicate WellFormed(e: Entry) {
    IsValue(e.key) && Fits(e)
  }

  /** The gathered state after one more entry. */
  function Step(p: Params, e: Entry): Params
    requires WellFormed(e)
  {
    match IntegerOf(e.key)
    case None => p
    case Some(key) =>
      Params(p.seen + [key],
             if key == 4 then Some(ParseCanonicalBstr(e.value).value.0) else p.kid,
             if key == 34 then Some((ParseX5t(e.value).value.0, ParseX5t(e.value).value.1)) else p.x5t)
  }

  function Gather(p: Params, entries: seq<Entry>): Params
    requires forall e :: e in entries ==> WellFormed(e)
    decreases |entries|
  {
    if entries == [] then p else Gather(Step(p, entries[0]), entries[1..])
  }

  /** The value under a label, cut out of the data: it fits, and reads alone as it does in place. */
  lemma ValueCutOut(data: bytes, start: nat, key: bytes, p: Params) returns (value: bytes)
    requires start <= |data| && IsValue(key) && IntegerOf(key).Some?
    requires LabelledValue(data[start..], IntegerOf(key).value, p).Ok?
    ensures Fits(Entry(key, value)) && |value| == LabelledValue(data[start..], IntegerOf(key).value, p).value.1
    ensures start + |value| <= |data| && value == data[start..start + |value|]
    ensures LabelledValue(value, IntegerOf(key).value, p) == LabelledValue(data[start..], IntegerOf(key).value, p)
  {
    hide SkipValue, TryParseCborInt, SkipIntValue, AlgValue, ParseX5t, ParseCanonicalBstr;
    var n := LabelledValue(data[start..], IntegerOf(key).value, p).value.1;
    value := data[start..start + n];
    assert data[start..][..n] == value && value[..n] == value;
    LabelledValueIsPrefixStable(data[start..], value, IntegerOf(key).value, p);
  }

  /** A value that fits is read in place. */
  lemma ValueAtFront(e: Entry, data: bytes, start: nat, p: Params)
    requires WellFormed(e) && IntegerOf(e.key).Some? && IntegerOf(e.key).value !in p.seen
    requires Consistent(p)
    requires start + |e.value| <= |data| && data[start..start + |e.value|] == e.value
    ensures LabelledValue(data[start..], IntegerOf(e.key).value, p.(seen := p.seen + [IntegerOf(e.key).value]))
            == Ok((Step(p, e), |e.value|))
  {
    hide SkipValue, TryParseCborInt, SkipIntValue, AlgValue, ParseX5t, ParseCanonicalBstr;
    var key := IntegerOf(e.key).value;
    var p' := p.(seen := p.seen + [key]);
    assert LabelledValue(e.value, key, p') == Ok((Step(p, e), |e.value|));
    assert data[start..][..|e.value|] == e.value && e.value[..|e.value|] == e.value;
    LabelledValueIsPrefixStable(e.value, data[start..], key, p');
  }

  lemma AcceptedPair(data: bytes, offset: nat, p: Params) returns (e: Entry)
    requires offset <= |data| && Pair(data, offset, p).Ok?
    ensures WellFormed(e) && offset + |e.key| + |e.value| == Pair(data, offset, p).value.1 <= |data|
    ensures data[offset..Pair(data, offset, p).value.1] == e.key + e.value
    ensures Pair(data, offset, p).value.0 == Step(p, e)
    ensures IntegerOf(e.key).Some? ==> IntegerOf(e.key).value !in p.seen
  {
    hide SkipValue, TryParseCborInt, SkipIntValue, AlgValue, ParseX5t, ParseCanonicalBstr;
    var r := TryParseCborInt(data[offset..]);
    if r.Some? {
      LabelIsAnInt(data[offset..]);
      SkipAgreesOnInts(data[offset..]);
    }
    var key := ItemCutOut(data, offset);
    var start, n := offset + |key|, Pair(data, offset, p).value.1;
    var value: bytes;
    if r.Some? {
      value := ValueCutOut(data, start, key, p.(seen := p.seen + [r.value.0]));
    } else {
      value := ItemCutOut(data, start);
    }
    e := Entry(key, value);
    assert data[offset..n] == data[offset..start] + data[start..n];
  }

  lemma StepWithoutLabel(p: Params, e: Entry)
    requires WellFormed(e) && IntegerOf(e.key).None?
    ensures Step(p, e) == p
  {
  }

  lemma PairAccepts(data: bytes, offset: nat, p: Params, e: Entry)
    requires WellFormed(e) && Consistent(p) && |p.seen| < ID_CRED_MAX_PARAMETERS
    requires IntegerOf(e.key).Some? ==> IntegerOf(e.key).value !in p.seen
    requires offset + |e.key| + |e.value| <= |data|
    requires data[offset..offset + |e.key| + |e.value|] == e.key + e.value
    ensures Pair(data, offset, p) == Ok((Step(p, e), offset + |e.key| + |e.value|))
  {
    hide SkipValue, TryParseCborInt, SkipIntValue, LabelledValue, Step;
    var start, end := offset + |e.key|, offset + |e.key| + |e.value|;
    assert data[offset..start] == data[offset..end][..|e.key|] && data[start..end] == data[offset..end][|e.key|..];
    ItemAtFront(e.key, data, offset);
    if IntegerOf(e.key).Some? {
      ValueAtFront(e, data, start, p);
    } else {
      ItemAtFront(e.value, data, start);
      assert Step(p, e) == p by { StepWithoutLabel(p, e); }
    }
  }

  lemma StepKeepsConsistent(p: Params, e: Entry)
    requires WellFormed(e) && Consistent(p) && (IntegerOf(e.key).Some? ==> IntegerOf(e.key).value !in p.seen)
    ensures Consistent(Step(p, e)) && |p.seen| <= |Step(p, e).seen| <= |p.seen| + 1
    ensures Step(p, e).seen == p.seen + if IntegerOf(e.key).Some? then [IntegerOf(e.key).value] else []
  {
    hide WellFormed, IntegerOf, ParseX5t, ParseCanonicalBstr;
  }

  lemma {:induction false} AcceptedPairs(data: bytes, offset: nat, count: nat, p: Params) returns (entries: seq<Entry>)
    requires offset <= |data| && Consistent(p) && Pairs(data, offset, count, p).Ok?
    ensures |entries| == count && (forall e :: e in entries ==> WellFormed(e))
    ensures Pairs(data, offset, count, p).value.0 == Gather(p, entries)
    ensures data[offset..Pairs(data, offset, count, p).value.1] == Flat(entries)
    ensures Distinct(p.seen + Labels(entries))
    decreases count
  {
    hide Pair, WellFormed, Step, IntegerOf;
    entries := [];
    if count == 0 {
      assert p.seen + Labels(entries) == p.seen;
    } else {
      var (q, next) := Pair(data, offset, p).value;
      var e := AcceptedPair(data, offset, p);
      StepKeepsConsistent(p, e);
      var rest := AcceptedPairs(data, next, count - 1, q);
      entries := [e] + rest;
      assert entries[1..] == rest;
      assert p.seen + Labels(entries) == q.seen + Labels(rest);
      var n := Pairs(data, offset, count, p).value.1;
      assert data[offset..n] == data[offset..next] + data[next..n];
    }
  }

  lemma {:induction false} PairsAccept(data: bytes, offset: nat, entries: seq<Entry>, p: Params)
    requires (forall e :: e in entries ==> WellFormed(e)) && Consistent(p)
    requires |p.seen| + |entries| <= ID_CRED_MAX_PARAMETERS && Distinct(p.seen + Labels(entries))
    requires offset + |Flat(entries)| <= |data| && data[offset..offset + |Flat(entries)|] == Flat(entries)
    ensures Pairs(data, offset, |entries|, p) == Ok((Gather(p, entries), offset + |Flat(entries)|))
    decreases |entries|
  {
    hide Pair, WellFormed, Step, IntegerOf;
    if entries != [] {
      var e, rest := entries[0], entries[1..];
      var next, end := offset + |e.key| + |e.value|, offset + |Flat(entries)|;
      assert data[offset..end] == (e.key + e.value) + Flat(rest);
      assert data[offset..next] == data[offset..end][..|e.key + e.value|];
      assert data[next..end] == data[offset..end][|e.key + e.value|..];
      if IntegerOf(e.key).Some? {
        assert (p.seen + Labels(entries))[|p.seen|] == IntegerOf(e.key).value;
        assert forall i :: 0 <= i < |p.seen| ==> (p.seen + Labels(entries))[i] == p.seen[i];
      }
      PairAccepts(data, offset, p, e);
      StepKeepsConsistent(p, e);
      assert p.seen + Labels(entries) == Step(p, e).seen + Labels(rest);
      PairsAccept(data, next, rest, Step(p, e));
    }
  }

  // The reference

  /** The entries have one that is this reference, and none of the other kind. */
  ghost predicate Carries(entries: seq<Entry>, reference: Reference) {
    match reference
    case Kid(kid) =>
      && (exists e :: e in entries && IntegerOf(e.key) == Some(4) && ParseCanonicalBstr(e.value) == Ok((kid, |e.value|)))
      && (forall e :: e in entries ==> IntegerOf(e.key) != Some(34))
    case X5t(algorithm, thumbprint) =>
      && (exists e :: e in entries && IntegerOf(e.key) == Some(34)
                      && ParseX5t(e.value) == Ok((algorithm, thumbprint, |e.value|)))
      && (forall e :: e in entries ==> IntegerOf(e.key) != Some(4))
  }

  lemma NextIsNew(p: Params, entries: seq<Entry>)
    requires entries != [] && Distinct(p.seen + Labels(entries))
    ensures IntegerOf(entries[0].key).Some? ==> IntegerOf(entries[0].key).value !in p.seen
    ensures p.seen + Labels(entries)
            == p.seen + (if IntegerOf(entries[0].key).Some? then [IntegerOf(entries[0].key).value] else [])
               + Labels(entries[1..])
  {
    hide IntegerOf;
    var all := p.seen + Labels(entries);
    if IntegerOf(entries[0].key).Some? {
      assert all[|p.seen|] == IntegerOf(entries[0].key).value;
      assert forall i :: 0 <= i < |p.seen| ==> all[i] == p.seen[i];
    }
  }

  /** What is gathered under a label is the value of an entry with that label, or was there before. */
  lemma {:induction false} GatheredKid(p: Params, entries: seq<Entry>)
    requires (forall e :: e in entries ==> WellFormed(e)) && Distinct(p.seen + Labels(entries)) && Consistent(p)
    ensures var q := Gather(p, entries);
            && (q.kid.Some? <==> p.kid.Some? || exists e :: e in entries && IntegerOf(e.key) == Some(4))
            && (forall e :: e in entries && IntegerOf(e.key) == Some(4) ==>
                  ParseCanonicalBstr(e.value) == Ok((q.kid.value, |e.value|)))
            && (p.kid.Some? ==> q.kid == p.kid)
    decreases |entries|
  {
    if entries != [] {
      var e, rest := entries[0], entries[1..];
      NextIsNew(p, entries);
      StepKeepsConsistent(p, e);
      GatheredKid(Step(p, e), rest);
    }
  }

  lemma {:induction false} GatheredX5t(p: Params, entries: seq<Entry>)
    requires (forall e :: e in entries ==> WellFormed(e)) && Distinct(p.seen + Labels(entries)) && Consistent(p)
    ensures var q := Gather(p, entries);
            && (q.x5t.Some? <==> p.x5t.Some? || exists e :: e in entries && IntegerOf(e.key) == Some(34))
            && (forall e :: e in entries && IntegerOf(e.key) == Some(34) ==>
                  ParseX5t(e.value) == Ok((q.x5t.value.0, q.x5t.value.1, |e.value|)))
            && (p.x5t.Some? ==> q.x5t == p.x5t)
    decreases |entries|
  {
    if entries != [] {
      var e, rest := entries[0], entries[1..];
      NextIsNew(p, entries);
      StepKeepsConsistent(p, e);
      GatheredX5t(Step(p, e), rest);
    }
  }

  const NOTHING: Params := Params([], None, None)

  lemma ReferenceIsCarried(entries: seq<Entry>, reference: Reference)
    requires (forall e :: e in entries ==> WellFormed(e)) && Distinct(Labels(entries))
    ensures ReferenceOf(Gather(NOTHING, entries)) == Ok(reference) <==> Carries(entries, reference)
  {
    hide Gather, IntegerOf, ParseCanonicalBstr, ParseX5t, WellFormed, Labels, Distinct;
    assert Consistent(NOTHING);
    assert NOTHING.seen + Labels(entries) == Labels(entries);
    GatheredKid(NOTHING, entries);
    GatheredX5t(NOTHING, entries);
  }

  /** A map of one to eight well-formed entries with distinct integer labels. */
  predicate IsParameterMap(data: bytes, entries: seq<Entry>) {
    && 1 <= |entries| <= 8 && data == [(0xA0 + |entries|) as byte] + Flat(entries)
    && (forall e :: e in entries ==> WellFormed(e)) && Distinct(Labels(entries))
  }

  /**
   * A map is accepted, `n` bytes long and with this reference, exactly when those bytes fit the buffer and are a map of
   * one to eight complete entries, no integer label twice, each value as its label asks, that carries the reference
   * and nothing of the other kind.
   */
  lemma MapsAccepted(data: bytes, n: nat, reference: Reference)
    requires data != [] && 0xA1 <= data[0] <= 0xA8 && n <= |data|
    ensures ParseIdCred(data) == Ok((IdCred(data[..n], reference), n))
            <==> n <= 64 && exists entries :: IsParameterMap(data[..n], entries) && Carries(entries, reference)
  {
    hide Pairs, Gather, Flat, Labels, Distinct, WellFormed, Carries, ReferenceOf;
    assert Consistent(NOTHING);
    if ParseIdCred(data) == Ok((IdCred(data[..n], reference), n)) {
      var entries := AcceptedPairs(data, 1, data[0] - 0xA0, NOTHING);
      assert NOTHING.seen + Labels(entries) == Labels(entries);
      ReferenceIsCarried(entries, reference);
      assert data[..n] == [data[0]] + data[1..n];
      assert IsParameterMap(data[..n], entries);
    }
    if n <= ID_CRED_MAX_LEN && exists entries :: IsParameterMap(data[..n], entries) && Carries(entries, reference) {
      var entries :| IsParameterMap(data[..n], entries) && Carries(entries, reference);
      assert data[..n][0] == data[0];
      assert data[1..n] == data[..n][1..] == Flat(entries);
      assert NOTHING.seen + Labels(entries) == Labels(entries);
      PairsAccept(data, 1, entries, NOTHING);
      ReferenceIsCarried(entries, reference);
    }
  }

  // Refusals

  /** One more item of an algorithm array: what is refused, and as what. */
  lemma AlgItemRefused(data: bytes, offset: nat, count: nat, seen: seq<int>)
    requires offset <= |data| && count > 0
    ensures var r, item := AlgItems(data, offset, count, seen), TryParseCborInt(data[offset..]);
            && (offset == |data| ==> r == Err(InvalidMessage))
            && (item.Some? && (item.value.0 in {1, 34} || item.value.0 in seen) ==> r == Err(InvalidMessage))
            && (item.Some? && item.value.0 !in {1, 34} && item.value.0 !in seen && |seen| >= 8 ==> r == Err(BufferTooSmall))
            && (item.None? && SkipValue(data[offset..]).Err? ==> r == Err(InvalidMessage))
  {
    hide TryParseCborInt, SkipValue;
  }

  /** An algorithm that is neither an integer nor such an array is malformed. */
  lemma AlgRefused(data: bytes)
    requires SkipIntValue(data).Err? && (data == [] || !(0x80 <= data[0] <= 0x97))
    ensures AlgValue(data) == Err(InvalidMessage)
  {
  }

  /** One more entry of a map: a repeated label is malformed, a long `kid` or thumbprint too large, and so on. */
  lemma EntryRefused(data: bytes, offset: nat, p: Params)
    requires offset <= |data| && Consistent(p)
    ensures var r, key := Pair(data, offset, p), TryParseCborInt(data[offset..]);
            && (offset == |data| ==> r == Err(InvalidMessage))
            && (key.None? && SkipValue(data[offset..]).Err? ==> r == Err(InvalidMessage))
            && (key.Some? && key.value.0 in p.seen ==> r == Err(InvalidMessage))
            && (key.Some? && key.value.0 !in p.seen && |p.seen| < 8 ==>
                  var value := data[offset + key.value.1..];
                  match key.value.0
                  case 1 => SkipIntValue(value).Err? ==> r == Err(InvalidMessage)
                  case 2 => AlgValue(value).Err? ==> r == Err(AlgValue(value).error)
                  case 4 =>
                    if ParseCanonicalBstr(value).Err? then r == Err(InvalidMessage)
                    else |ParseCanonicalBstr(value).value.0| > 64 ==> r == Err(BufferTooSmall)
                  case 34 => ParseX5t(value).Err? ==> r == Err(ParseX5t(value).error)
                  case _ => SkipValue(value).Err? ==> r == Err(InvalidMessage))
  {
    hide TryParseCborInt, SkipValue, AlgValue, ParseX5t;
  }

  lemma ThumbprintRefused(data: bytes)
    requires ParseX5t(data).Err?
    ensures ParseX5t(data).error == BufferTooSmall
            <==> data != [] && data[0] == 0x82 && TryParseCborInt(data[1..]).Some?
                 && var rest := ParseBstr(data[1 + TryParseCborInt(data[1..]).value.1..]); rest.Ok? && |rest.value.0| > 64
    ensures ParseX5t(data).error in {BufferTooSmall, InvalidMessage}
  {
    hide TryParseCborInt, ParseBstr;
  }

  /** A map of good entries is malformed without exactly one kind of reference, and too large above 64 bytes. */
  lemma MapRefused(data: bytes)
    requires data != [] && 0xA1 <= data[0] <= 0xA8
    ensures var pairs := Pairs(data, 1, data[0] - 0xA0, NOTHING);
            && (pairs.Err? ==> ParseIdCred(data) == Err(pairs.error))
            && (pairs.Ok? && (4 in pairs.value.0.seen <==> 34 in pairs.value.0.seen) ==> ParseIdCred(data) == Err(InvalidMessage))
            && (pairs.Ok? && !(4 in pairs.value.0.seen <==> 34 in pairs.value.0.seen) && pairs.value.1 > 64 ==>
                  ParseIdCred(data) == Err(BufferTooSmall))
  {
    hide Pairs;
    assert Consistent(NOTHING);
    if Pairs(data, 1, data[0] - 0xA0, NOTHING).Ok? {
      PairsAreConsistent(data, 1, data[0] - 0xA0, NOTHING);
    }
  }

  /** The first entry that is refused decides. */
  lemma FirstRefusalDecides(data: bytes, offset: nat, count: nat, p: Params)
    requires offset <= |data| && count > 0
    ensures var r := Pair(data, offset, p);
            Pairs(data, offset, count, p) == if r.Err? then Err(r.error) else Pairs(data, r.value.1, count - 1, r.value.0)
  {
    hide Pair;
  }
}
