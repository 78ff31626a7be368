/**
 Reader and writer are exact inverses. Two inductions carry everything: `PayloadRoundTrip` (an encoded
 tree within the limits reads back) and `PayloadCanonical` (whatever reads back was such an encoding).
 */
module NbtTheorems {
  import opened Bytes
  import opened Utf8
  import opened Names
  import opened NbtTree
  import opened NbtFormat

  // ----- flat fields -----

  lemma StringRoundTrip(v: bytes, s: bytes)
    requires IsUtf8(v) && |v| <= MAX_STRING
    ensures ParseString(EncodeString(v) + s) == Ok(v, s)
  {
    Pow256Values();
    DecodeEncodeBE(2, |v|);
    Assoc(EncodeBE(2, |v|), v, s);
    Split(EncodeBE(2, |v|), v + s);
    Split(v, s);
  }

  lemma StringCanonical(s: bytes)
    requires ParseString(s).Ok?
    ensures var r := ParseString(s);
            s == EncodeString(r.value) + r.rest && IsUtf8(r.value) && |r.value| <= MAX_STRING
  {
    Pow256Values();
    EncodeDecodeBE(s[..2]);
    assert s == s[..2] + s[2..];
  }

  lemma LengthRoundTrip(n: nat, s: bytes, min: nat)
    requires n <= MAX_ARRAY && n * min <= |s|
    ensures ParseLength(EncodeBE(4, n) + s, min) == Ok(n, s)
  {
    var all := EncodeBE(4, n) + s;
    Pow256Values();
    DecodeEncodeInt(4, n);
    assert all[..4] == EncodeBE(4, n) && all[4..] == s;
  }

  lemma LengthCanonical(s: bytes, min: nat)
    requires ParseLength(s, min).Ok?
    ensures var r := ParseLength(s, min); s == EncodeBE(4, r.value) + r.rest && r.value <= MAX_ARRAY
  {
    Pow256Values();
    EncodeDecodeInt(s[..4]);
    assert s == s[..4] + s[4..];
  }

  lemma TagIdRoundTrip(id: TagId, s: bytes)
    ensures ParseTagId([TagByte(id)] + s) == Ok(id, s)
  {
    assert ([TagByte(id)] + s)[1..] == s;
  }

  lemma FixedRoundTrip(width: nat, v: int, s: bytes)
    requires width > 0
    ensures (EncodeBE(width, v) + s)[..width] == EncodeBE(width, v) && (EncodeBE(width, v) + s)[width..] == s
    ensures InRange(width, v) ==> DecodeInt(EncodeBE(width, v)) == v
    ensures 0 <= v < Pow256(width) ==> DecodeBE(EncodeBE(width, v)) == v
  {
    if InRange(width, v) { DecodeEncodeInt(width, v); }
    if 0 <= v < Pow256(width) { DecodeEncodeBE(width, v); }
  }

  lemma ArrayRoundTrip(width: nat, vs: seq<int>, s: bytes)
    requires width > 0 && AllInRange(width, vs) && |vs| <= MAX_ARRAY
    ensures var body := EncodeInts(width, vs) + s;
            && ParseLength(EncodeBE(4, |vs|) + EncodeInts(width, vs) + s, width) == Ok(|vs|, body)
            && DecodeInts(width, body, |vs|) == vs && body[width * |vs|..] == s
  {
    hide ParseLength, EncodeBE, EncodeInts, DecodeInts;
    Assoc(EncodeBE(4, |vs|), EncodeInts(width, vs), s);
    Split(EncodeInts(width, vs), s);
    LengthRoundTrip(|vs|, EncodeInts(width, vs) + s, width);
    DecodeEncodeInts(width, vs, s);
  }

  lemma BytesRoundTrip(raw: bytes, s: bytes)
    requires |raw| <= MAX_ARRAY
    ensures ParseLength(EncodeBE(4, |raw|) + raw + s, 1) == Ok(|raw|, raw + s)
    ensures (raw + s)[..|raw|] == raw && (raw + s)[|raw|..] == s
  {
    LengthRoundTrip(|raw|, raw + s, 1);
    Assoc(EncodeBE(4, |raw|), raw, s);
    Split(raw, s);
  }

  /** The six fixed-width numbers. */
  predicate IsNumber(t: Tag) {
    t.TByte? || t.TShort? || t.TInt? || t.TLong? || t.TFloat? || t.TDouble?
  }

  lemma NumberRoundTrip(t: Tag, s: bytes)
    requires IsNumber(t) && Valid(t)
    ensures ParseLeaf(EncodeLeaf(t) + s, Id(t)) == Ok(t, s)
  {
    hide EncodeBE, DecodeBE, DecodeInt, Pow256, InRange;
    match t
    case TByte(v) => FixedRoundTrip(1, v, s);
    case TShort(v) => FixedRoundTrip(2, v, s);
    case TInt(v) => FixedRoundTrip(4, v, s);
    case TLong(v) => FixedRoundTrip(8, v, s);
    case TFloat(v) => FixedRoundTrip(4, v, s);
    case TDouble(v) => FixedRoundTrip(8, v, s);
  }

  lemma LeafRoundTrip(t: Tag, s: bytes)
    requires IsLeaf(t) && Valid(t) && Fits(t)
    ensures ParseLeaf(EncodeLeaf(t) + s, Id(t)) == Ok(t, s)
  {
    hide EncodeBE, DecodeBE, DecodeInt, DecodeInts, EncodeInts, ParseLength, ParseString, EncodeString, IsUtf8, Pow256,
         InRange, AllInRange;
    if IsNumber(t) {
      NumberRoundTrip(t, s);
    } else {
      match t
      case TByteArray(raw) => BytesRoundTrip(raw, s);
      case TString(text) => StringRoundTrip(text, s);
      case TIntArray(vs) => ArrayRoundTrip(4, vs, s);
      case TLongArray(vs) => ArrayRoundTrip(8, vs, s);
    }
  }

  lemma FixedCanonical(s: bytes, width: nat)
    requires 0 < width <= |s|
    ensures s == EncodeBE(width, DecodeInt(s[..width])) + s[width..]
    ensures s == EncodeBE(width, DecodeBE(s[..width])) + s[width..]
  {
    EncodeDecodeInt(s[..width]);
    EncodeDecodeBE(s[..width]);
    assert s == s[..width] + s[width..];
  }

  lemma ArrayCanonical(s: bytes, width: nat)
    requires width > 0 && ParseLength(s, width).Ok?
    ensures var r := ParseLength(s, width);
            && r.value <= MAX_ARRAY && width * r.value <= |r.rest|
            && s == EncodeBE(4, r.value) + EncodeInts(width, DecodeInts(width, r.rest, r.value))
                + r.rest[width * r.value..]
  {
    hide ParseLength, EncodeBE, EncodeInts, DecodeInts;
    var r := ParseLength(s, width);
    LengthCanonical(s, width);
    EncodeDecodeInts(width, r.rest, r.value);
    assert r.rest == r.rest[..width * r.value] + r.rest[width * r.value..];
  }

  lemma BytesCanonical(s: bytes)
    requires ParseLength(s, 1).Ok?
    ensures var r := ParseLength(s, 1);
            r.value <= MAX_ARRAY && s == (EncodeBE(4, r.value) + r.rest[..r.value]) + r.rest[r.value..]
  {
    hide ParseLength, EncodeBE;
    var r := ParseLength(s, 1);
    LengthCanonical(s, 1);
    assert r.rest == r.rest[..r.value] + r.rest[r.value..];
  }

  lemma NumberCanonical(s: bytes, id: TagId)
    requires id in {Byte, Short, Int, Long, Float, Double} && ParseLeaf(s, id).Ok?
    ensures ReadsLeaf(s, id, ParseLeaf(s, id))
  {
    hide EncodeBE, DecodeBE, DecodeInt, Pow256, InRange;
    match id
    case Byte => FixedCanonical(s, 1);
    case Short => FixedCanonical(s, 2);
    case Int => FixedCanonical(s, 4);
    case Long => FixedCanonical(s, 8);
    case Float => FixedCanonical(s, 4);
    case Double => FixedCanonical(s, 8);
  }

  /** What reading a leaf of type `id` must give back. */
  ghost predicate ReadsLeaf(s: bytes, id: TagId, r: Read<Tag>) {
    r.Ok? ==>
      && IsLeaf(r.value) && Id(r.value) == id && Valid(r.value) && Fits(r.value)
      && s == EncodeLeaf(r.value) + r.rest
  }

  lemma IntArrayCanonical(s: bytes)
    ensures ReadsLeaf(s, IntArray, ParseLeaf(s, IntArray))
  {
    hide EncodeBE, DecodeInts, EncodeInts, ParseLength, Pow256, InRange, AllInRange;
    if ParseLength(s, 4).Ok? { ArrayCanonical(s, 4); }
  }

  lemma LongArrayCanonical(s: bytes)
    ensures ReadsLeaf(s, LongArray, ParseLeaf(s, LongArray))
  {
    hide EncodeBE, DecodeInts, EncodeInts, ParseLength, Pow256, InRange, AllInRange;
    if ParseLength(s, 8).Ok? { ArrayCanonical(s, 8); }
  }

  lemma TextCanonical(s: bytes, id: TagId)
    requires id == ByteArray || id == String
    ensures ReadsLeaf(s, id, ParseLeaf(s, id))
  {
    hide EncodeBE, ParseLength, ParseString, EncodeString, IsUtf8;
    if ParseLeaf(s, id).Ok? {
      if id == String { StringCanonical(s); } else { BytesCanonical(s); }
    }
  }

  lemma LeafCanonical(s: bytes, id: TagId)
    requires id != End && id != List && id != Compound && ParseLeaf(s, id).Ok?
    ensures ReadsLeaf(s, id, ParseLeaf(s, id))
  {
    hide ParseLeaf, ReadsLeaf;
    match id
    case ByteArray => TextCanonical(s, id);
    case String => TextCanonical(s, id);
    case IntArray => IntArrayCanonical(s);
    case LongArray => LongArrayCanonical(s);
    case _ => NumberCanonical(s, id);
  }

  // ----- trees: what is written within the limits reads back -----

  /** A list's declared count always passes the reader's size check. */
  lemma {:induction false} ItemsAreLongEnough(items: seq<Tag>, et: TagId)
    requires ValidItems(items, et)
    ensures |items| * MinElementSize(et) <= |EncodeItems(items)|
  {
    hide Valid, EncodePayload, MinElementSize;
    if items != [] {
      ItemsAreLongEnough(items[1..], et);
      ItemIsLongEnough(items[0]);
      ProductCons(|items|, MinElementSize(et));
    }
  }

  lemma ProductCons(n: nat, m: nat)
    requires n > 0
    ensures n * m == m + (n - 1) * m
  {}

  lemma ItemIsLongEnough(t: Tag)
    ensures MinElementSize(Id(t)) <= |EncodePayload(t)|
  {
    hide EncodeItems, EncodeBody, EncodeInts, EncodeString;
    CountBelowBytes(t);
  }

  /** No tree has more tags than bytes. */
  lemma {:induction false} CountBelowBytes(t: Tag)
    ensures Count(t) <= |EncodePayload(t)|
  {
    match t
    case TList(_, items) => CountItemsBelowBytes(items);
    case TCompound(es) => CountEntriesBelowBytes(es);
    case _ =>
  }

  lemma {:induction false} CountItemsBelowBytes(items: seq<Tag>)
    ensures CountItems(items) <= |EncodeItems(items)|
  {
    if items != [] {
      CountBelowBytes(items[0]);
      CountItemsBelowBytes(items[1..]);
    }
  }

  lemma {:induction false} CountEntriesBelowBytes(es: seq<Entry>)
    ensures CountEntries(es) < |EncodeBody(es)|
  {
    if es != [] {
      CountBelowBytes(es[0].value);
      CountEntriesBelowBytes(es[1..]);
    }
  }

  /** One list header, given that its items read back. */
  lemma ListStep(lim: Limits, et: TagId, items: seq<Tag>, s: bytes, depth: nat, nodes: nat)
    requires Valid(TList(et, items)) && Fits(TList(et, items)) && depth <= lim.depth && nodes + 1 <= lim.nodes
    ensures var p := ParseItems(lim, EncodeItems(items) + s, et, |items|, depth + 1, nodes + 1);
            ParsePayload(lim, EncodePayload(TList(et, items)) + s, List, depth, nodes)
            == if p.Done? then Done(TList(et, p.value), p.rest, p.nodes) else Stop(p.error)
  {
    hide ParsePayload, ParseItems, ParseLength, EncodeItems, EncodeBE, ValidItems, FitsItems, MinElementSize;
    var len, tail := EncodeBE(4, |items|), EncodeItems(items);
    ItemsAreLongEnough(items, et);
    LengthRoundTrip(|items|, tail + s, MinElementSize(et));
    Assoc([TagByte(et)], len + tail, s);
    Assoc(len, tail, s);
    ListOpens(lim, et, |items|, len + (tail + s), tail + s, depth, nodes);
  }

  /** A type byte and an acceptable count lead to that many items. */
  lemma ListOpens(lim: Limits, et: TagId, n: nat, s1: bytes, s2: bytes, depth: nat, nodes: nat)
    requires depth <= lim.depth && nodes + 1 <= lim.nodes && (et == End ==> n == 0)
    requires ParseLength(s1, MinElementSize(et)) == Ok(n, s2)
    ensures var p := ParseItems(lim, s2, et, n, depth + 1, nodes + 1);
            ParsePayload(lim, [TagByte(et)] + s1, List, depth, nodes)
            == if p.Done? then Done(TList(et, p.value), p.rest, p.nodes) else Stop(p.error)
  {
    hide ParseItems, ParseLength, ParseBody, ParseLeaf, MinElementSize;
    TagIdRoundTrip(et, s1);
  }

  lemma BodyCons(es: seq<Entry>, s: bytes)
    requires es != []
    ensures EncodeBody(es) + s
            == [TagByte(Id(es[0].value))]
               + (EncodeString(es[0].name) + (EncodePayload(es[0].value) + (EncodeBody(es[1..]) + s)))
  {
    var a, b, c, d := [TagByte(Id(es[0].value))], EncodeString(es[0].name), EncodePayload(es[0].value),
        EncodeBody(es[1..]);
    Assoc(a, b + (c + d), s);
    Assoc(b, c + d, s);
    Assoc(c, d, s);
  }

  /** One compound entry, given that its value reads back. */
  lemma EntryStep(lim: Limits, e: Entry, s: bytes, s2: bytes, depth: nat, nodes: nat, nodes1: nat)
    requires IsUtf8(e.name) && |e.name| <= MAX_STRING
    requires ParsePayload(lim, s2, Id(e.value), depth, nodes) == Done(e.value, s, nodes1)
    ensures ParseEntries(lim, [TagByte(Id(e.value))] + (EncodeString(e.name) + s2), depth, nodes)
            == Prepend([e], ParseEntries(lim, s, depth, nodes1))
  {
    hide ParsePayload, ParseString, EncodeString, IsUtf8;
    TagIdRoundTrip(Id(e.value), EncodeString(e.name) + s2);
    StringRoundTrip(e.name, s2);
  }

  lemma LeafStep(lim: Limits, t: Tag, s: bytes, depth: nat, nodes: nat)
    requires IsLeaf(t) && Valid(t) && Fits(t) && depth <= lim.depth && nodes + 1 <= lim.nodes
    ensures ParsePayload(lim, EncodePayload(t) + s, Id(t), depth, nodes) == Done(t, s, nodes + 1)
  {
    hide ParseLeaf, EncodeLeaf, Valid;
    LeafRoundTrip(t, s);
    assert EncodePayload(t) == EncodeLeaf(t);
  }

  lemma CompoundStep(lim: Limits, es: seq<Entry>, s: bytes, s1: bytes, depth: nat, nodes: nat, nodes1: nat)
    requires Distinct(NamesOf(es)) && depth + 1 <= lim.depth && nodes + 1 <= lim.nodes
    requires ParseEntries(lim, s, depth + 1, nodes + 1) == Done(es, s1, nodes1)
    ensures ParsePayload(lim, s, Compound, depth, nodes) == Done(TCompound(es), s1, nodes1)
  {
    DuplicateNameExact(NamesOf(es));
  }

  lemma {:induction false} PayloadRoundTrip(lim: Limits, t: Tag, s: bytes, depth: nat, nodes: nat)
    requires Valid(t) && Fits(t)
    requires depth + Height(t) <= lim.depth && nodes + Count(t) <= lim.nodes
    ensures ParsePayload(lim, EncodePayload(t) + s, Id(t), depth, nodes) == Done(t, s, nodes + Count(t))
    decreases t, 0
  {
    hide ParsePayload, ParseItems, ParseEntries, ParseLeaf, EncodeItems, EncodeBody, EncodeLeaf, EncodeBE, IsUtf8,
         InRange, AllInRange, Pow256, Distinct;
    match t
    case TList(et, items) =>
      ListStep(lim, et, items, s, depth, nodes);
      ItemsRoundTrip(lim, items, et, s, depth + 1, nodes + 1);
    case TCompound(es) =>
      EntriesRoundTrip(lim, es, s, depth + 1, nodes + 1);
      CompoundStep(lim, es, EncodeBody(es) + s, s, depth, nodes, nodes + Count(t));
    case _ => LeafStep(lim, t, s, depth, nodes);
  }

  lemma ItemRoundTrip(lim: Limits, t: Tag, s: bytes, n: nat, depth: nat, nodes: nat)
    requires Valid(t) && Fits(t)
    requires depth + Height(t) <= lim.depth && nodes + Count(t) <= lim.nodes
    ensures ParseItems(lim, EncodePayload(t) + s, Id(t), n + 1, depth, nodes)
            == Prepend([t], ParseItems(lim, s, Id(t), n, depth, nodes + Count(t)))
    decreases t, 1
  {
    hide ParsePayload, EncodePayload, Valid, Fits, Height, Count;
    PayloadRoundTrip(lim, t, s, depth, nodes);
  }

  lemma {:induction false} ItemsRoundTrip(lim: Limits, items: seq<Tag>, et: TagId, s: bytes, depth: nat, nodes: nat)
    requires ValidItems(items, et) && FitsItems(items)
    requires depth + HeightItems(items) <= lim.depth + 1 && nodes + CountItems(items) <= lim.nodes
    ensures ParseItems(lim, EncodeItems(items) + s, et, |items|, depth, nodes)
            == Done(items, s, nodes + CountItems(items))
    decreases items, 0
  {
    hide ParsePayload, EncodePayload, Valid, Fits, Height, Count;
    if items != [] {
      var tail := EncodeItems(items[1..]) + s;
      Assoc(EncodePayload(items[0]), EncodeItems(items[1..]), s);
      ItemRoundTrip(lim, items[0], tail, |items| - 1, depth, nodes);
      ItemsRoundTrip(lim, items[1..], et, s, depth, nodes + Count(items[0]));
      assert items == [items[0]] + items[1..];
    } else {
      assert EncodeItems(items) + s == s;
    }
  }

  lemma EntryRoundTrip(lim: Limits, e: Entry, s: bytes, depth: nat, nodes: nat)
    requires IsUtf8(e.name) && |e.name| <= MAX_STRING && Valid(e.value) && Fits(e.value)
    requires depth + Height(e.value) <= lim.depth && nodes + Count(e.value) <= lim.nodes
    ensures ParseEntries(lim, [TagByte(Id(e.value))] + (EncodeString(e.name) + (EncodePayload(e.value) + s)),
                         depth, nodes)
            == Prepend([e], ParseEntries(lim, s, depth, nodes + Count(e.value)))
    decreases e.value, 1
  {
    hide *;
    PayloadRoundTrip(lim, e.value, s, depth, nodes);
    EntryStep(lim, e, s, EncodePayload(e.value) + s, depth, nodes, nodes + Count(e.value));
  }

  lemma {:induction false} EntriesRoundTrip(lim: Limits, es: seq<Entry>, s: bytes, depth: nat, nodes: nat)
    requires ValidEntries(es) && FitsEntries(es)
    requires depth + HeightEntries(es) <= lim.depth && nodes + CountEntries(es) <= lim.nodes
    ensures ParseEntries(lim, EncodeBody(es) + s, depth, nodes) == Done(es, s, nodes + CountEntries(es))
    decreases es, 0
  {
    hide ParsePayload, ParseString, ParseEntries, EncodePayload, EncodeString, EncodeBody, Valid, Fits, Height, Count,
         IsUtf8;
    if es == [] {
      NoEntries(lim, s, depth, nodes);
    } else {
      BodyCons(es, s);
      EntryRoundTrip(lim, es[0], EncodeBody(es[1..]) + s, depth, nodes);
      EntriesRoundTrip(lim, es[1..], s, depth, nodes + Count(es[0].value));
      assert es == [es[0]] + es[1..];
    }
  }

  lemma NoEntries(lim: Limits, s: bytes, depth: nat, nodes: nat)
    ensures ParseEntries(lim, EncodeBody([]) + s, depth, nodes) == Done([], s, nodes)
  {
    hide ParsePayload, ParseString;
    TagIdRoundTrip(End, s);
  }

  // ----- trees: what reads back was written, within the limits -----

  /** What reading a payload must give back: the input was its encoding, and it is within the limits. */
  ghost predicate ReadsTree(lim: Limits, s: bytes, id: TagId, depth: nat, nodes: nat, r: Parsed<Tag>) {
    r.Done? ==>
      && Id(r.value) == id && Valid(r.value) && Fits(r.value) && s == EncodePayload(r.value) + r.rest
      && depth + Height(r.value) <= lim.depth && r.nodes == nodes + Count(r.value) <= lim.nodes
  }

  lemma {:induction false} PayloadCanonical(lim: Limits, s: bytes, id: TagId, depth: nat, nodes: nat)
    ensures ReadsTree(lim, s, id, depth, nodes, ParsePayload(lim, s, id, depth, nodes))
    decreases |s|, 3
  {
    hide ParsePayload, ReadsTree;
    match id
    case End => NoEnd(lim, s, depth, nodes);
    case List => ListCanonical(lim, s, depth, nodes);
    case Compound => CompoundCanonical(lim, s, depth, nodes);
    case _ => LeafPayloadCanonical(lim, s, id, depth, nodes);
  }

  lemma NoEnd(lim: Limits, s: bytes, depth: nat, nodes: nat)
    ensures ParsePayload(lim, s, End, depth, nodes).Stop?
    ensures ReadsTree(lim, s, End, depth, nodes, ParsePayload(lim, s, End, depth, nodes))
  {}

  lemma LeafPayloadCanonical(lim: Limits, s: bytes, id: TagId, depth: nat, nodes: nat)
    requires id != End && id != List && id != Compound
    ensures ReadsTree(lim, s, id, depth, nodes, ParsePayload(lim, s, id, depth, nodes))
  {
    hide ParseLeaf, EncodeLeaf, Valid, Fits;
    if ParseLeaf(s, id).Ok? { LeafCanonical(s, id); }
  }

  lemma ListCanonical(lim: Limits, s: bytes, depth: nat, nodes: nat)
    ensures ReadsTree(lim, s, List, depth, nodes, ParsePayload(lim, s, List, depth, nodes))
    decreases |s|, 2
  {
    hide ParseItems, ParseBody, ParseLeaf, EncodeItems, EncodeBody, EncodeLeaf, ParseLength, EncodeBE, ValidItems,
         FitsItems, HeightItems, CountItems;
    if ParsePayload(lim, s, List, depth, nodes).Done? {
      var et, s1 := ParseTagId(s).value, ParseTagId(s).rest;
      var n, s2 := ParseLength(s1, MinElementSize(et)).value, ParseLength(s1, MinElementSize(et)).rest;
      LengthCanonical(s1, MinElementSize(et));
      ItemsCanonical(lim, s2, et, n, depth + 1, nodes + 1);
      NoItems();
      var r := ParseItems(lim, s2, et, n, depth + 1, nodes + 1);
      Assoc(EncodeBE(4, n), EncodeItems(r.value), r.rest);
      Assoc([TagByte(et)], EncodeBE(4, n) + EncodeItems(r.value), r.rest);
    }
  }

  lemma NoItems()
    ensures HeightItems([]) == 0 && CountItems([]) == 0
  {}

  lemma CompoundCanonical(lim: Limits, s: bytes, depth: nat, nodes: nat)
    ensures ReadsTree(lim, s, Compound, depth, nodes, ParsePayload(lim, s, Compound, depth, nodes))
    decreases |s|, 2
  {
    hide ParseItems, ParseEntries, ParseLeaf, EncodeItems, EncodeBody, EncodeLeaf, ParseLength, DuplicateName,
         Distinct, ValidEntries, FitsEntries, HeightEntries, CountEntries;
    if ParsePayload(lim, s, Compound, depth, nodes).Done? {
      var body, p := ParseBody(lim, s, depth + 1, nodes + 1), ParseEntries(lim, s, depth + 1, nodes + 1);
      assert body.Done? && p.Done? && depth + 1 <= lim.depth && DuplicateName(NamesOf(p.value)).None? && body == p;
      EntriesCanonical(lim, s, depth + 1, nodes + 1);
      DuplicateNameExact(NamesOf(p.value));
    }
  }

  lemma {:induction false} ItemsCanonical(lim: Limits, s: bytes, id: TagId, n: nat, depth: nat, nodes: nat)
    requires ParseItems(lim, s, id, n, depth, nodes).Done? && depth <= lim.depth + 1 && nodes <= lim.nodes
    ensures var r := ParseItems(lim, s, id, n, depth, nodes);
            && |r.value| == n && ValidItems(r.value, id) && FitsItems(r.value) && s == EncodeItems(r.value) + r.rest
            && depth + HeightItems(r.value) <= lim.depth + 1
            && r.nodes == nodes + CountItems(r.value) <= lim.nodes
    decreases |s|, 4
  {
    hide ParsePayload, EncodePayload, Valid, Fits, Height, Count;
    if n > 0 {
      var p := ParsePayload(lim, s, id, depth, nodes);
      var q := ParseItems(lim, p.rest, id, n - 1, depth, p.nodes);
      PayloadCanonical(lim, s, id, depth, nodes);
      ItemsCanonical(lim, p.rest, id, n - 1, depth, p.nodes);
      assert ([p.value] + q.value)[1..] == q.value;
      Assoc(EncodePayload(p.value), EncodeItems(q.value), q.rest);
    }
  }

  lemma {:induction false} EntriesCanonical(lim: Limits, s: bytes, depth: nat, nodes: nat)
    requires ParseEntries(lim, s, depth, nodes).Done? && depth <= lim.depth && nodes <= lim.nodes
    ensures var r := ParseEntries(lim, s, depth, nodes);
            && ValidEntries(r.value) && FitsEntries(r.value) && s == EncodeBody(r.value) + r.rest
            && depth + HeightEntries(r.value) <= lim.depth
            && r.nodes == nodes + CountEntries(r.value) <= lim.nodes
    decreases |s|, 0
  {
    hide ParsePayload, ParseString, EncodePayload, EncodeString, Valid, Fits, Height, Count, IsUtf8;
    var id, s1 := ParseTagId(s).value, ParseTagId(s).rest;
    if id != End {
      var name, s2 := ParseString(s1).value, ParseString(s1).rest;
      StringCanonical(s1);
      var p := ParsePayload(lim, s2, id, depth, nodes);
      PayloadCanonical(lim, s2, id, depth, nodes);
      var q := ParseEntries(lim, p.rest, depth, p.nodes);
      EntriesCanonical(lim, p.rest, depth, p.nodes);
      assert ([Entry(name, p.value)] + q.value)[1..] == q.value;
      Assoc(EncodePayload(p.value), EncodeBody(q.value), q.rest);
      Assoc(EncodeString(name), EncodePayload(p.value) + EncodeBody(q.value), q.rest);
      Assoc([TagByte(id)], EncodeString(name) + (EncodePayload(p.value) + EncodeBody(q.value)), q.rest);
    }
  }

  // ----- documents -----

  /** A document: a root compound the types allow, whose lengths fit their prefixes. */
  predicate Document(es: seq<Entry>) {
    Valid(TCompound(es)) && Fits(TCompound(es))
  }

  predicate Within(lim: Limits, es: seq<Entry>) {
    1 + HeightEntries(es) <= lim.depth && CountEntries(es) <= lim.nodes
  }

  lemma BodyRoundTrip(lim: Limits, es: seq<Entry>, s: bytes)
    requires Document(es) && Within(lim, es)
    ensures ParseBody(lim, EncodeBody(es) + s, 1, 0) == Done(es, s, CountEntries(es))
  {
    EntriesRoundTrip(lim, es, s, 1, 0);
    hide ParseEntries, EncodeBody, DuplicateName;
    DuplicateNameExact(NamesOf(es));
  }

  lemma BodyCanonical(lim: Limits, s: bytes)
    requires ParseBody(lim, s, 1, 0).Done?
    ensures var r := ParseBody(lim, s, 1, 0);
            && Document(r.value) && Within(lim, r.value)
            && s == EncodeBody(r.value) + r.rest && r.nodes == CountEntries(r.value) < |s| - |r.rest|
  {
    hide ParseEntries, EncodeBody, DuplicateName;
    var es := ParseEntries(lim, s, 1, 0).value;
    EntriesCanonical(lim, s, 1, 0);
    DuplicateNameExact(NamesOf(es));
    CountEntriesBelowBytes(es);
  }

  /** Value round trip: a document within the limits reads back, and what follows it is left alone. */
  lemma NetworkRoundTrip(lim: Limits, es: seq<Entry>, s: bytes)
    requires Document(es) && Within(lim, es)
    ensures ParseNetworkRoot(lim, NetworkDocument(es) + s) == Done(es, s, CountEntries(es))
  {
    BodyRoundTrip(lim, es, s);
    hide ParseBody, EncodeBody;
    Assoc([TagByte(Compound)], EncodeBody(es), s);
    TagIdRoundTrip(Compound, EncodeBody(es) + s);
  }

  lemma NamedRoundTrip(lim: Limits, name: bytes, es: seq<Entry>, s: bytes)
    requires Document(es) && Within(lim, es) && IsUtf8(name) && |name| <= MAX_STRING
    ensures ParseNamedRoot(lim, NamedDocument(name, es) + s) == Done(Named(name, es), s, CountEntries(es))
  {
    BodyRoundTrip(lim, es, s);
    hide ParseBody, EncodeBody, ParseString, EncodeString;
    Assoc([TagByte(Compound)], EncodeString(name) + EncodeBody(es), s);
    Assoc(EncodeString(name), EncodeBody(es), s);
    TagIdRoundTrip(Compound, EncodeString(name) + (EncodeBody(es) + s));
    StringRoundTrip(name, EncodeBody(es) + s);
  }

  /**
   Canonical bytes: whatever the reader accepts is the encoding of what it returned, byte for byte. The
   node counter is exactly the number of tags below the root, within the budget and below the bytes read.
   */
  lemma NetworkCanonical(lim: Limits, s: bytes)
    requires ParseNetworkRoot(lim, s).Done?
    ensures var r := ParseNetworkRoot(lim, s);
            && Document(r.value) && Within(lim, r.value) && s == NetworkDocument(r.value) + r.rest
            && r.nodes == CountEntries(r.value) <= lim.nodes && r.nodes < |s| - |r.rest|
  {
    hide ParseBody, EncodeBody, Document;
    var r := ParseNetworkRoot(lim, s);
    BodyCanonical(lim, ParseTagId(s).rest);
    Assoc([TagByte(Compound)], EncodeBody(r.value), r.rest);
  }

  lemma NamedCanonical(lim: Limits, s: bytes)
    requires ParseNamedRoot(lim, s).Done?
    ensures var r := ParseNamedRoot(lim, s);
            && Document(r.value.entries) && Within(lim, r.value.entries)
            && IsUtf8(r.value.name) && |r.value.name| <= MAX_STRING
            && s == NamedDocument(r.value.name, r.value.entries) + r.rest
            && r.nodes == CountEntries(r.value.entries) <= lim.nodes && r.nodes < |s| - |r.rest|
  {
    hide ParseBody, EncodeBody, ParseString, EncodeString, Document;
    var r := ParseNamedRoot(lim, s);
    var s1 := ParseTagId(s).rest;
    StringCanonical(s1);
    BodyCanonical(lim, ParseString(s1).rest);
    Assoc(EncodeString(r.value.name), EncodeBody(r.value.entries), r.rest);
    Assoc([TagByte(Compound)], EncodeString(r.value.name) + EncodeBody(r.value.entries), r.rest);
  }

  /** The accepted inputs are exactly the encodings of documents within the limits, followed by anything. */
  lemma NetworkAccepts(lim: Limits, s: bytes)
    ensures ParseNetworkRoot(lim, s).Done? <==>
            exists es: seq<Entry>, rest: bytes :: Document(es) && Within(lim, es) && s == NetworkDocument(es) + rest
  {
    hide ParseNetworkRoot, NetworkDocument, Document, Within;
    if ParseNetworkRoot(lim, s).Done? {
      NetworkCanonical(lim, s);
    }
    forall es: seq<Entry>, rest: bytes | Document(es) && Within(lim, es) && s == NetworkDocument(es) + rest
      ensures ParseNetworkRoot(lim, s).Done?
    {
      NetworkRoundTrip(lim, es, rest);
    }
  }

  /** One encoding per tree and one tree per encoding, whatever the limits. */
  lemma Unambiguous(es1: seq<Entry>, s1: bytes, es2: seq<Entry>, s2: bytes)
    requires Document(es1) && Document(es2) && NetworkDocument(es1) + s1 == NetworkDocument(es2) + s2
    ensures es1 == es2 && s1 == s2
  {
    hide ParseNetworkRoot, NetworkDocument, Document;
    var lim := Limits(1 + Max(HeightEntries(es1), HeightEntries(es2)), Max(CountEntries(es1), CountEntries(es2)));
    NetworkRoundTrip(lim, es1, s1);
    NetworkRoundTrip(lim, es2, s2);
  }

  /** The depth guards and the node budget reject exactly the documents that exceed them. */
  lemma LimitsExact(lim: Limits, es: seq<Entry>, s: bytes)
    requires Document(es)
    ensures ParseNetworkRoot(lim, NetworkDocument(es) + s).Done? <==> Within(lim, es)
  {
    hide ParseNetworkRoot, NetworkDocument, Document, Within;
    var all := NetworkDocument(es) + s;
    if Within(lim, es) {
      NetworkRoundTrip(lim, es, s);
    }
    if ParseNetworkRoot(lim, all).Done? {
      NetworkCanonical(lim, all);
      Unambiguous(es, s, ParseNetworkRoot(lim, all).value, ParseNetworkRoot(lim, all).rest);
    }
  }

  /** The same for the named form: the name, the tree and where it ends are all determined by the bytes. */
  lemma NamedUnambiguous(n1: bytes, es1: seq<Entry>, s1: bytes, n2: bytes, es2: seq<Entry>, s2: bytes)
    requires Document(es1) && Document(es2) && IsUtf8(n1) && IsUtf8(n2) && |n1| <= MAX_STRING && |n2| <= MAX_STRING
    requires NamedDocument(n1, es1) + s1 == NamedDocument(n2, es2) + s2
    ensures n1 == n2 && es1 == es2 && s1 == s2
  {
    hide ParseNamedRoot, NamedDocument, Document, IsUtf8;
    var lim := Limits(1 + Max(HeightEntries(es1), HeightEntries(es2)), Max(CountEntries(es1), CountEntries(es2)));
    NamedRoundTrip(lim, n1, es1, s1);
    NamedRoundTrip(lim, n2, es2, s2);
  }

  lemma NamedLimitsExact(lim: Limits, name: bytes, es: seq<Entry>, s: bytes)
    requires Document(es) && IsUtf8(name) && |name| <= MAX_STRING
    ensures ParseNamedRoot(lim, NamedDocument(name, es) + s).Done? <==> Within(lim, es)
  {
    hide ParseNamedRoot, NamedDocument, Document, Within, IsUtf8;
    var all := NamedDocument(name, es) + s;
    if Within(lim, es) {
      NamedRoundTrip(lim, name, es, s);
    }
    if ParseNamedRoot(lim, all).Done? {
      NamedCanonical(lim, all);
      var r := ParseNamedRoot(lim, all);
      NamedUnambiguous(name, es, s, r.value.name, r.value.entries, r.rest);
    }
  }

  lemma NamedAccepts(lim: Limits, s: bytes)
    ensures ParseNamedRoot(lim, s).Done? <==>
            exists name: bytes, es: seq<Entry>, rest: bytes ::
              && IsUtf8(name) && |name| <= MAX_STRING
              && Document(es) && Within(lim, es) && s == NamedDocument(name, es) + rest
  {
    hide ParseNamedRoot, NamedDocument, Document, Within, IsUtf8;
    if ParseNamedRoot(lim, s).Done? {
      NamedCanonical(lim, s);
    }
    forall name: bytes, es: seq<Entry>, rest: bytes |
      IsUtf8(name) && |name| <= MAX_STRING && Document(es) && Within(lim, es) && s == NamedDocument(name, es) + rest
      ensures ParseNamedRoot(lim, s).Done?
    {
      NamedRoundTrip(lim, name, es, rest);
    }
  }

  /** A read that succeeds gives the same result, consuming the same bytes, on every longer input. */
  lemma NetworkExtends(lim: Limits, s: bytes, t: bytes)
    requires ParseNetworkRoot(lim, s).Done?
    ensures var r := ParseNetworkRoot(lim, s); ParseNetworkRoot(lim, s + t) == Done(r.value, r.rest + t, r.nodes)
  {
    hide ParseNetworkRoot, NetworkDocument, Document, Within;
    var r := ParseNetworkRoot(lim, s);
    NetworkCanonical(lim, s);
    Assoc(NetworkDocument(r.value), r.rest, t);
    NetworkRoundTrip(lim, r.value, r.rest + t);
  }

  lemma NamedExtends(lim: Limits, s: bytes, t: bytes)
    requires ParseNamedRoot(lim, s).Done?
    ensures var r := ParseNamedRoot(lim, s); ParseNamedRoot(lim, s + t) == Done(r.value, r.rest + t, r.nodes)
  {
    hide ParseNamedRoot, NamedDocument, Document, Within, IsUtf8;
    var r := ParseNamedRoot(lim, s);
    NamedCanonical(lim, s);
    Assoc(NamedDocument(r.value.name, r.value.entries), r.rest, t);
    NamedRoundTrip(lim, r.value.name, r.value.entries, r.rest + t);
  }

  /** Truncation at any point is rejected. */
  lemma TruncationRejected(lim: Limits, es: seq<Entry>, cut: nat)
    requires Document(es) && cut < |NetworkDocument(es)|
    ensures ParseNetworkRoot(lim, NetworkDocument(es)[..cut]).Stop?
  {
    hide ParseNetworkRoot, NetworkDocument, Document, Within;
    var doc := NetworkDocument(es);
    if ParseNetworkRoot(lim, doc[..cut]).Done? {
      var r := ParseNetworkRoot(lim, doc[..cut]);
      NetworkCanonical(lim, doc[..cut]);
      Assoc(NetworkDocument(r.value), r.rest, doc[cut..]);
      assert doc[..cut] + doc[cut..] == doc == doc + [];
      Unambiguous(es, [], r.value, r.rest + doc[cut..]);
    }
  }

  lemma NamedTruncationRejected(lim: Limits, name: bytes, es: seq<Entry>, cut: nat)
    requires Document(es) && IsUtf8(name) && |name| <= MAX_STRING && cut < |NamedDocument(name, es)|
    ensures ParseNamedRoot(lim, NamedDocument(name, es)[..cut]).Stop?
  {
    hide ParseNamedRoot, NamedDocument, Document, Within, IsUtf8;
    var doc := NamedDocument(name, es);
    if ParseNamedRoot(lim, doc[..cut]).Done? {
      var r := ParseNamedRoot(lim, doc[..cut]);
      NamedCanonical(lim, doc[..cut]);
      Assoc(NamedDocument(r.value.name, r.value.entries), r.rest, doc[cut..]);
      assert doc[..cut] + doc[cut..] == doc == doc + [];
      NamedUnambiguous(name, es, [], r.value.name, r.value.entries, r.rest + doc[cut..]);
    }
  }

  /** The lone `End` that stands for an absent document is never confused with a present one. */
  lemma OptionalRootExact(lim: Limits, s: bytes)
    ensures ParseOptionalRoot(lim, [TagByte(End)] + s) == Done(None, s, 0)
    ensures forall es: seq<Entry> :: Document(es) && Within(lim, es) ==>
              ParseOptionalRoot(lim, NetworkDocument(es) + s) == Done(Some(es), s, CountEntries(es))
  {
    TagIdRoundTrip(End, s);
    forall es: seq<Entry> | Document(es) && Within(lim, es)
      ensures ParseOptionalRoot(lim, NetworkDocument(es) + s) == Done(Some(es), s, CountEntries(es))
    {
      BodyRoundTrip(lim, es, s);
      hide ParseBody, EncodeBody;
      Assoc([TagByte(Compound)], EncodeBody(es), s);
      TagIdRoundTrip(Compound, EncodeBody(es) + s);
    }
  }

  /** The optional reader is the network reader, errors included, except that a leading `End` is an absent document. */
  lemma OptionalIsNetwork(lim: Limits, s: bytes)
    ensures var r, n := ParseOptionalRoot(lim, s), ParseNetworkRoot(lim, s);
            r == if s != [] && s[0] == 0 then Done(None, s[1..], 0)
                 else if n.Done? then Done(Some(n.value), n.rest, n.nodes) else Stop(n.error)
  {
    hide ParseBody;
  }

  /** What the optional reader accepts: exactly a lone `End`, or a document within the limits, then anything. */
  lemma OptionalAccepts(lim: Limits, s: bytes)
    ensures ParseOptionalRoot(lim, s).Done? <==>
            || (exists rest: bytes :: s == [TagByte(End)] + rest)
            || (exists es: seq<Entry>, rest: bytes ::
                  Document(es) && Within(lim, es) && s == NetworkDocument(es) + rest)
  {
    hide ParseOptionalRoot, ParseNetworkRoot, Document, Within, EncodeBody;
    OptionalIsNetwork(lim, s);
    NetworkAccepts(lim, s);
    if s != [] && s[0] == 0 { assert s == [TagByte(End)] + s[1..]; }
  }

  lemma OptionalExtends(lim: Limits, s: bytes, t: bytes)
    requires ParseOptionalRoot(lim, s).Done?
    ensures var r := ParseOptionalRoot(lim, s); ParseOptionalRoot(lim, s + t) == Done(r.value, r.rest + t, r.nodes)
  {
    hide ParseOptionalRoot, ParseNetworkRoot;
    OptionalIsNetwork(lim, s);
    OptionalIsNetwork(lim, s + t);
    NothingRead(lim);
    if s != [] && s[0] == 0 {
      assert (s + t)[1..] == s[1..] + t;
    } else {
      NetworkExtends(lim, s, t);
    }
  }

  lemma NothingRead(lim: Limits)
    ensures ParseNetworkRoot(lim, []) == Stop(UnexpectedEof)
  {}

  lemma OptionalTruncationRejected(lim: Limits, es: seq<Entry>, cut: nat)
    requires Document(es) && cut < |NetworkDocument(es)|
    ensures ParseOptionalRoot(lim, NetworkDocument(es)[..cut]).Stop?
  {
    hide ParseOptionalRoot, ParseNetworkRoot, Document, EncodeBody;
    OptionalIsNetwork(lim, NetworkDocument(es)[..cut]);
    TruncationRejected(lim, es, cut);
  }

  /**
   Every compound of a decoded tree, at every level, answers `get` as the map built by iterating it would,
   whichever of the three readers it came from.
   */
  lemma DecodedGetConsistent(lim: Limits, s: bytes)
    ensures ParseNetworkRoot(lim, s).Done? ==> GetConsistent(TCompound(ParseNetworkRoot(lim, s).value))
    ensures ParseNamedRoot(lim, s).Done? ==> GetConsistent(TCompound(ParseNamedRoot(lim, s).value.entries))
    ensures var r := ParseOptionalRoot(lim, s); r.Done? && r.value.Some? ==> GetConsistent(TCompound(r.value.value))
  {
    hide ParseNetworkRoot, ParseNamedRoot, ParseOptionalRoot, NetworkDocument, NamedDocument, GetConsistent;
    if ParseNetworkRoot(lim, s).Done? {
      NetworkCanonical(lim, s);
      ValidIsGetConsistent(TCompound(ParseNetworkRoot(lim, s).value));
    }
    if ParseNamedRoot(lim, s).Done? {
      NamedCanonical(lim, s);
      ValidIsGetConsistent(TCompound(ParseNamedRoot(lim, s).value.entries));
    }
    if ParseOptionalRoot(lim, s).Done? && ParseOptionalRoot(lim, s).value.Some? {
      OptionalIsNetwork(lim, s);
    }
  }

  // ----- one root form read as the other -----

  /** The second byte of a named document is the high byte of its name's length. */
  lemma NamedSecondByte(name: bytes, es: seq<Entry>, s: bytes)
    requires |name| <= MAX_STRING
    ensures var all := NamedDocument(name, es) + s;
            |all| >= 2 && all == [TagByte(Compound)] + ([|name| / 256] + all[2..])
  {
    var all, n := NamedDocument(name, es) + s, |name| / 256;
    assert EncodeBE(1, n) == EncodeBE(0, n / 256) + [n % 256];
    assert EncodeBE(2, |name|)[0] == n;
    hide EncodeBE, EncodeBody;
    assert all[0] == TagByte(Compound) && all[1] == n;
  }

  /** What the first byte of a body decides: an `End` closes it, no tag fails it, any other opens an entry. */
  lemma BodyFirstByte(lim: Limits, b: byte, rest: bytes)
    requires lim.depth >= 1
    ensures var r := ParseBody(lim, [b] + rest, 1, 0);
            && (b == 0 ==> r == Done([], rest, 0))
            && (b > 0 ==> r.Stop? || r.value != [])
            && (b > 12 ==> r == Stop(UnknownTag(b)))
  {
    hide ParsePayload, ParseString, DuplicateName;
    assert ([b] + rest)[1..] == rest;
    var none: seq<Entry> := [];
    DuplicateNameExact(NamesOf(none));
    var p := ParseEntries(lim, [b] + rest, 1, 0);
    if b == 0 {
      assert p == Done(none, rest, 0);
    } else {
      assert p.Stop? || p.value != [];
    }
  }

  /**
   The two root forms are not told apart by the bytes. A named document read as a network one gives an empty
   compound exactly when the name is shorter than 256 bytes, its high length byte then being an `End`; from
   13 * 256 bytes on that byte names no tag and the read fails; in between it is taken for an entry's type.
   */
  lemma NamedReadAsNetwork(lim: Limits, name: bytes, es: seq<Entry>, s: bytes)
    requires |name| <= MAX_STRING && lim.depth >= 1
    ensures var all := NamedDocument(name, es) + s; var r := ParseNetworkRoot(lim, all);
            && |all| >= 2
            && (r == Done([], all[2..], 0) <==> |name| < 256)
            && (|name| >= 256 ==> r.Stop? || r.value != [])
            && (|name| >= 13 * 256 ==> r == Stop(UnknownTag(|name| / 256)))
  {
    var all, n := NamedDocument(name, es) + s, |name| / 256;
    NamedSecondByte(name, es, s);
    hide NamedDocument, ParseBody;
    TagIdRoundTrip(Compound, [n] + all[2..]);
    BodyFirstByte(lim, n, all[2..]);
  }

  // ----- chains: how deep is deep -----

  /** `n` nested lists, the innermost empty. */
  function ListChain(n: nat): (t: Tag)
    requires n > 0
  {
    if n == 1 then TList(End, []) else TList(List, [ListChain(n - 1)])
  }

  /** `n` nested compounds, the innermost empty. */
  function CompoundChain(n: nat): (t: Tag)
    requires n > 0
  {
    if n == 1 then TCompound([]) else TCompound([Entry([], CompoundChain(n - 1))])
  }

  lemma OneItem(t: Tag)
    requires Valid(t) && Fits(t)
    ensures ValidItems([t], Id(t)) && FitsItems([t]) && HeightItems([t]) == 1 + Height(t) && CountItems([t]) == Count(t)
  {
    hide Valid, Fits, Height, Count;
    assert [t][1..] == [];
    assert ValidItems([], Id(t)) && FitsItems([]) && HeightItems([]) == 0 && CountItems([]) == 0;
  }

  lemma OneEntry(t: Tag)
    requires Valid(t) && Fits(t)
    ensures var es := [Entry([], t)];
            Document(es) && HeightEntries(es) == Height(t) && CountEntries(es) == Count(t)
  {
    hide Height, Count;
    var es := [Entry([], t)];
    assert es[1..] == [];
    assert ValidEntries([]) && FitsEntries([]) && HeightEntries([]) == 0 && CountEntries([]) == 0;
    assert ValidEntries(es) && FitsEntries(es);
  }

  lemma {:induction false} ListChainMeasures(n: nat)
    requires n > 0
    ensures var t := ListChain(n); Valid(t) && Fits(t) && Id(t) == List && Height(t) == n - 1 && Count(t) == n
  {
    if n > 1 {
      ListChainMeasures(n - 1);
      OneItem(ListChain(n - 1));
    }
  }

  lemma {:induction false} CompoundChainMeasures(n: nat)
    requires n > 0
    ensures var t := CompoundChain(n); Valid(t) && Fits(t) && Height(t) == n && Count(t) == n
  {
    if n > 1 {
      CompoundChainMeasures(n - 1);
      OneEntry(CompoundChain(n - 1));
    }
  }

  /** Below the root, lists may nest one level deeper than compounds before the depth limit fires. */
  lemma ChainsExact(lim: Limits, n: nat, s: bytes)
    requires 0 < n <= lim.nodes
    ensures ParseNetworkRoot(lim, NetworkDocument([Entry([], ListChain(n))]) + s).Done? <==> n <= lim.depth
    ensures ParseNetworkRoot(lim, NetworkDocument([Entry([], CompoundChain(n))]) + s).Done? <==> n + 1 <= lim.depth
  {
    hide ParseNetworkRoot, NetworkDocument, ListChain, CompoundChain, Document, Valid, Fits;
    ListChainMeasures(n);
    CompoundChainMeasures(n);
    OneEntry(ListChain(n));
    OneEntry(CompoundChain(n));
    LimitsExact(lim, [Entry([], ListChain(n))], s);
    LimitsExact(lim, [Entry([], CompoundChain(n))], s);
  }
}
