/**
 The NBT writer (crates/nbt/src/write.rs). Its specification says what it appends even when it fails
 half way; the theorems then say when it succeeds, and tie it to the layout and to the reader.
 */
module NbtWriter {
  import opened Bytes
  import opened Utf8
  import opened NbtTree
  import opened NbtFormat
  import opened NbtTheorems

  /** What a write appended, and the error that stopped it, if any. */
  datatype Written = Written(out: bytes, error: Option<NbtError>)

  function Emit(s: bytes): Written { Written(s, None) }

  function Refuse(e: NbtError): Written { Written([], Some(e)) }

  function Then(a: Written, b: Written): (r: Written) {
    if a.error.Some? then a else Written(a.out + b.out, b.error)
  }

  // ----- specification -----

  function WrittenString(s: bytes): Written {
    if |s| > MAX_STRING then Refuse(StringTooLong(|s|)) else Emit(EncodeString(s))
  }

  /** Everything but the containers: only a length prefix can refuse. */
  function WrittenLeaf(t: Tag): Written
    requires IsLeaf(t)
  {
    match t
    case TByteArray(s) => if |s| > MAX_ARRAY then Refuse(ArrayTooLong(|s|)) else Emit(EncodeLeaf(t))
    case TString(s) => WrittenString(s)
    case TIntArray(vs) => if |vs| > MAX_ARRAY then Refuse(ArrayTooLong(|vs|)) else Emit(EncodeLeaf(t))
    case TLongArray(vs) => if |vs| > MAX_ARRAY then Refuse(ArrayTooLong(|vs|)) else Emit(EncodeLeaf(t))
    case _ => Emit(EncodeLeaf(t))
  }

  function WrittenPayload(t: Tag, depth: nat): Written
    decreases t, 0
  {
    if depth > MAX_DEPTH then Refuse(DepthExceeded(MAX_DEPTH))
    else match t
      case TList(et, items) =>
        Then(Emit([TagByte(et)]),
             if |items| > MAX_ARRAY then Refuse(ArrayTooLong(|items|))
             else Then(Emit(EncodeBE(4, |items|)), WrittenItems(items, depth + 1)))
      case TCompound(es) => WrittenBody(es, depth + 1)
      case _ => WrittenLeaf(t)
  }

  function WrittenItems(items: seq<Tag>, depth: nat): Written
    decreases items, 0
  {
    if items == [] then Emit([]) else Then(WrittenPayload(items[0], depth), WrittenItems(items[1..], depth))
  }

  function WrittenEntries(es: seq<Entry>, depth: nat): Written
    decreases es, 0
  {
    if es == [] then Emit([TagByte(End)])
    else Then(Emit([TagByte(Id(es[0].value))]),
              Then(WrittenString(es[0].name),
                   Then(WrittenPayload(es[0].value, depth), WrittenEntries(es[1..], depth))))
  }

  function WrittenBody(es: seq<Entry>, depth: nat): Written
    decreases es, 1
  {
    if depth > MAX_DEPTH then Refuse(DepthExceeded(MAX_DEPTH)) else WrittenEntries(es, depth)
  }

  function WrittenNetworkRoot(es: seq<Entry>): Written {
    Then(Emit([TagByte(Compound)]), WrittenBody(es, 1))
  }

  function WrittenNamedRoot(name: bytes, es: seq<Entry>): Written {
    Then(Emit([TagByte(Compound)]), Then(WrittenString(name), WrittenBody(es, 1)))
  }

  // ----- when it succeeds, and what it emits -----

  /** A write that succeeds exactly when `ok`, emits `full` then, and never strays from it before failing. */
  predicate Writes(w: Written, full: bytes, ok: bool) {
    && (w.error.None? <==> ok)
    && w.out <= full
    && (ok ==> w.out == full)
  }

  lemma ThenWrites(a: Written, fa: bytes, ga: bool, b: Written, fb: bytes, gb: bool)
    requires Writes(a, fa, ga) && Writes(b, fb, gb)
    ensures Writes(Then(a, b), fa + fb, ga && gb)
  {}

  lemma {:induction false} PayloadWrites(t: Tag, depth: nat)
    ensures Writes(WrittenPayload(t, depth), EncodePayload(t), Fits(t) && depth + Height(t) <= MAX_DEPTH)
    decreases t
  {
    hide EncodeBE, EncodeLeaf, EncodeItems, EncodeBody, WrittenItems, WrittenBody, Fits, Height;
    if depth <= MAX_DEPTH {
      match t
      case TList(et, items) => ListWrites(et, items, depth);
      case TCompound(es) => CompoundWrites(es, depth);
      case _ => LeafWrites(t);
    }
  }

  lemma LeafWrites(t: Tag)
    requires IsLeaf(t)
    ensures Writes(WrittenLeaf(t), EncodeLeaf(t), Fits(t)) && Height(t) == 0
  {}

  lemma ListWrites(et: TagId, items: seq<Tag>, depth: nat)
    requires depth <= MAX_DEPTH
    ensures var t := TList(et, items);
            Writes(WrittenPayload(t, depth), EncodePayload(t), Fits(t) && depth + Height(t) <= MAX_DEPTH)
    decreases items, 1
  {
    hide EncodeBE, EncodeItems, WrittenItems, FitsItems, HeightItems;
    var ok := FitsItems(items) && depth + HeightItems(items) <= MAX_DEPTH;
    ItemsWrite(items, depth + 1);
    var len := EncodeBE(4, |items|);
    ThenWrites(Emit(len), len, true, WrittenItems(items, depth + 1), EncodeItems(items), ok);
    var tail := if |items| > MAX_ARRAY then Refuse(ArrayTooLong(|items|))
        else Then(Emit(len), WrittenItems(items, depth + 1));
    ThenWrites(Emit([TagByte(et)]), [TagByte(et)], true, tail, len + EncodeItems(items), |items| <= MAX_ARRAY && ok);
  }

  lemma CompoundWrites(es: seq<Entry>, depth: nat)
    requires depth <= MAX_DEPTH
    ensures var t := TCompound(es);
            Writes(WrittenPayload(t, depth), EncodePayload(t), Fits(t) && depth + Height(t) <= MAX_DEPTH)
    decreases es, 1
  {
    hide EncodeBody, WrittenEntries, FitsEntries, HeightEntries;
    if depth < MAX_DEPTH {
      EntriesWrite(es, depth + 1);
    }
  }

  lemma {:induction false} ItemsWrite(items: seq<Tag>, depth: nat)
    requires depth <= MAX_DEPTH + 1
    ensures Writes(WrittenItems(items, depth), EncodeItems(items),
                   FitsItems(items) && depth + HeightItems(items) <= MAX_DEPTH + 1)
    decreases items, 0
  {
    hide WrittenPayload, EncodePayload, Fits, Height;
    if items != [] {
      PayloadWrites(items[0], depth);
      ItemsWrite(items[1..], depth);
      ThenWrites(WrittenPayload(items[0], depth), EncodePayload(items[0]),
                 Fits(items[0]) && depth + Height(items[0]) <= MAX_DEPTH,
                 WrittenItems(items[1..], depth), EncodeItems(items[1..]),
                 FitsItems(items[1..]) && depth + HeightItems(items[1..]) <= MAX_DEPTH + 1);
    }
  }

  lemma {:induction false} EntriesWrite(es: seq<Entry>, depth: nat)
    requires depth <= MAX_DEPTH
    ensures Writes(WrittenEntries(es, depth), EncodeBody(es), FitsEntries(es) && depth + HeightEntries(es) <= MAX_DEPTH)
    decreases es, 0
  {
    hide WrittenPayload, EncodePayload, WrittenString, EncodeString, Fits, Height;
    if es != [] {
      var e, rest := es[0], es[1..];
      var ok := FitsEntries(rest) && depth + HeightEntries(rest) <= MAX_DEPTH;
      var ok1 := Fits(e.value) && depth + Height(e.value) <= MAX_DEPTH;
      PayloadWrites(e.value, depth);
      EntriesWrite(rest, depth);
      StringWrites(e.name);
      var w1 := Then(WrittenPayload(e.value, depth), WrittenEntries(rest, depth));
      ThenWrites(WrittenPayload(e.value, depth), EncodePayload(e.value), ok1, WrittenEntries(rest, depth),
                 EncodeBody(rest), ok);
      var f1 := EncodePayload(e.value) + EncodeBody(rest);
      ThenWrites(WrittenString(e.name), EncodeString(e.name), |e.name| <= MAX_STRING, w1, f1, ok1 && ok);
      var id := [TagByte(Id(e.value))];
      ThenWrites(Emit(id), id, true, Then(WrittenString(e.name), w1), EncodeString(e.name) + f1,
                 |e.name| <= MAX_STRING && ok1 && ok);
    }
  }

  lemma StringWrites(s: bytes)
    ensures Writes(WrittenString(s), EncodeString(s), |s| <= MAX_STRING)
  {}

  /**
   The writer accepts exactly the roots whose lengths fit and whose nesting is within the limit, and then
   emits exactly the layout; on refusal it has emitted a prefix of it.
   */
  lemma NetworkRootWrites(es: seq<Entry>)
    ensures Writes(WrittenNetworkRoot(es), NetworkDocument(es), FitsEntries(es) && 1 + HeightEntries(es) <= MAX_DEPTH)
  {
    hide WrittenEntries, EncodeBody, FitsEntries, HeightEntries;
    EntriesWrite(es, 1);
    var id := [TagByte(Compound)];
    ThenWrites(Emit(id), id, true, WrittenBody(es, 1), EncodeBody(es),
               FitsEntries(es) && 1 + HeightEntries(es) <= MAX_DEPTH);
  }

  lemma NamedRootWrites(name: bytes, es: seq<Entry>)
    ensures Writes(WrittenNamedRoot(name, es), NamedDocument(name, es),
                   |name| <= MAX_STRING && FitsEntries(es) && 1 + HeightEntries(es) <= MAX_DEPTH)
  {
    hide WrittenEntries, EncodeBody, FitsEntries, HeightEntries, WrittenString, EncodeString;
    EntriesWrite(es, 1);
    StringWrites(name);
    var ok := FitsEntries(es) && 1 + HeightEntries(es) <= MAX_DEPTH;
    ThenWrites(WrittenString(name), EncodeString(name), |name| <= MAX_STRING, WrittenBody(es, 1), EncodeBody(es), ok);
    var id := [TagByte(Compound)];
    ThenWrites(Emit(id), id, true, Then(WrittenString(name), WrittenBody(es, 1)), EncodeString(name) + EncodeBody(es),
               |name| <= MAX_STRING && ok);
  }

  // ----- writer against reader -----

  /** What the writer accepted, within the node budget it does not check, the reader returns unchanged. */
  lemma ReadsBackWhatWasWritten(es: seq<Entry>, s: bytes)
    requires Valid(TCompound(es)) && WrittenNetworkRoot(es).error.None?
    ensures ParseNetworkRoot(PYRITE, WrittenNetworkRoot(es).out + s).Done? <==> CountEntries(es) <= MAX_TOTAL_NODES
    ensures CountEntries(es) <= MAX_TOTAL_NODES ==>
              ParseNetworkRoot(PYRITE, WrittenNetworkRoot(es).out + s) == Done(es, s, CountEntries(es))
  {
    hide WrittenNetworkRoot, NetworkDocument, ParseNetworkRoot, ValidEntries, FitsEntries, HeightEntries, CountEntries;
    NetworkRootWrites(es);
    LimitsExact(PYRITE, es, s);
    if CountEntries(es) <= MAX_TOTAL_NODES {
      NetworkRoundTrip(PYRITE, es, s);
    }
  }

  lemma ReadsBackNamed(name: bytes, es: seq<Entry>, s: bytes)
    requires Valid(TCompound(es)) && IsUtf8(name) && WrittenNamedRoot(name, es).error.None?
    ensures ParseNamedRoot(PYRITE, WrittenNamedRoot(name, es).out + s).Done? <==> CountEntries(es) <= MAX_TOTAL_NODES
    ensures CountEntries(es) <= MAX_TOTAL_NODES ==>
              ParseNamedRoot(PYRITE, WrittenNamedRoot(name, es).out + s) == Done(Named(name, es), s, CountEntries(es))
  {
    hide WrittenNamedRoot, NamedDocument, ParseNamedRoot, ValidEntries, FitsEntries, HeightEntries, CountEntries,
         IsUtf8;
    NamedRootWrites(name, es);
    NamedLimitsExact(PYRITE, name, es, s);
    if CountEntries(es) <= MAX_TOTAL_NODES {
      NamedRoundTrip(PYRITE, name, es, s);
    }
  }

  /** Whatever the reader accepts, the writer accepts and emits exactly the bytes that were read. */
  lemma WritesBackWhatWasRead(s: bytes)
    requires ParseNetworkRoot(PYRITE, s).Done?
    ensures var r := ParseNetworkRoot(PYRITE, s);
            WrittenNetworkRoot(r.value).error.None? && s == WrittenNetworkRoot(r.value).out + r.rest
  {
    hide WrittenNetworkRoot, NetworkDocument, ParseNetworkRoot, FitsEntries, HeightEntries;
    NetworkCanonical(PYRITE, s);
    NetworkRootWrites(ParseNetworkRoot(PYRITE, s).value);
  }

  lemma WritesBackNamed(s: bytes)
    requires ParseNamedRoot(PYRITE, s).Done?
    ensures var r := ParseNamedRoot(PYRITE, s);
            && WrittenNamedRoot(r.value.name, r.value.entries).error.None?
            && s == WrittenNamedRoot(r.value.name, r.value.entries).out + r.rest
  {
    hide WrittenNamedRoot, NamedDocument, ParseNamedRoot, FitsEntries, HeightEntries;
    NamedCanonical(PYRITE, s);
    NamedRootWrites(ParseNamedRoot(PYRITE, s).value.name, ParseNamedRoot(PYRITE, s).value.entries);
  }

  /** Writer and reader draw the depth limit at the same place, in both root forms. */
  lemma DepthAgreement(es: seq<Entry>, s: bytes)
    requires Document(es) && CountEntries(es) <= MAX_TOTAL_NODES
    ensures WrittenNetworkRoot(es).error.None? <==> 1 + HeightEntries(es) <= MAX_DEPTH
    ensures WrittenNetworkRoot(es).error.None? <==> ParseNetworkRoot(PYRITE, NetworkDocument(es) + s).Done?
    ensures forall name: bytes :: IsUtf8(name) && |name| <= MAX_STRING ==>
              && (WrittenNamedRoot(name, es).error.None? <==> 1 + HeightEntries(es) <= MAX_DEPTH)
              && (WrittenNamedRoot(name, es).error.None? <==> ParseNamedRoot(PYRITE, NamedDocument(name, es) + s).Done?)
  {
    hide WrittenNetworkRoot, NetworkDocument, ParseNetworkRoot, WrittenNamedRoot, NamedDocument, ParseNamedRoot, IsUtf8,
         FitsEntries, ValidEntries, HeightEntries, CountEntries;
    NetworkRootWrites(es);
    LimitsExact(PYRITE, es, s);
    forall name: bytes | IsUtf8(name) && |name| <= MAX_STRING
      ensures WrittenNamedRoot(name, es).error.None? <==> 1 + HeightEntries(es) <= MAX_DEPTH
      ensures WrittenNamedRoot(name, es).error.None? <==> ParseNamedRoot(PYRITE, NamedDocument(name, es) + s).Done?
    {
      NamedRootWrites(name, es);
      NamedLimitsExact(PYRITE, name, es, s);
    }
  }

  // ----- the writer as the source runs it -----

  lemma ThenAssoc(a: Written, b: Written, c: Written)
    ensures Then(a, Then(b, c)) == Then(Then(a, b), c)
  {}

  method WriteNbtString(dst: Sink, s: bytes) returns (error: Option<NbtError>)
    modifies dst
    ensures Written(dst.data, error) == Then(Emit(old(dst.data)), WrittenString(s))
  {
    if |s| > MAX_STRING {
      return Some(StringTooLong(|s|));
    }
    dst.Put(EncodeBE(2, |s|));
    dst.Put(s);
    return None;
  }

  method PutInts(dst: Sink, width: nat, values: seq<int>)
    modifies dst
    ensures dst.data == old(dst.data) + EncodeInts(width, values)
  {
    for i := 0 to |values|
      invariant old(dst.data) + EncodeInts(width, values) == dst.data + EncodeInts(width, values[i..])
    {
      assert values[i..][1..] == values[i + 1..];
      dst.Put(EncodeBE(width, values[i]));
    }
  }

  method WriteLeaf(dst: Sink, t: Tag) returns (error: Option<NbtError>)
    requires IsLeaf(t)
    modifies dst
    ensures Written(dst.data, error) == Then(Emit(old(dst.data)), WrittenLeaf(t))
  {
    hide EncodeBE, EncodeInts, WrittenString;
    if IsNumber(t) {
      WriteNumber(dst, t);
      return None;
    }
    match t
    case TString(s) => error := WriteNbtString(dst, s);
    case TByteArray(s) =>
      if |s| > MAX_ARRAY { return Some(ArrayTooLong(|s|)); }
      dst.Put(EncodeBE(4, |s|));
      dst.Put(s);
      return None;
    case TIntArray(vs) => error := WriteInts(dst, 4, vs);
    case TLongArray(vs) => error := WriteInts(dst, 8, vs);
  }

  method WriteInts(dst: Sink, width: nat, vs: seq<int>) returns (error: Option<NbtError>)
    modifies dst
    ensures Written(dst.data, error)
         == if |vs| > MAX_ARRAY then Written(old(dst.data), Some(ArrayTooLong(|vs|)))
            else Emit(old(dst.data) + (EncodeBE(4, |vs|) + EncodeInts(width, vs)))
  {
    hide EncodeBE, EncodeInts;
    if |vs| > MAX_ARRAY {
      return Some(ArrayTooLong(|vs|));
    }
    dst.Put(EncodeBE(4, |vs|));
    PutInts(dst, width, vs);
    return None;
  }

  method WriteNumber(dst: Sink, t: Tag)
    requires IsNumber(t)
    modifies dst
    ensures dst.data == old(dst.data) + EncodeLeaf(t)
  {
    hide EncodeBE;
    match t
    case TByte(v) => dst.Put(EncodeBE(1, v));
    case TShort(v) => dst.Put(EncodeBE(2, v));
    case TInt(v) => dst.Put(EncodeBE(4, v));
    case TLong(v) => dst.Put(EncodeBE(8, v));
    case TFloat(v) => dst.Put(EncodeBE(4, v));
    case TDouble(v) => dst.Put(EncodeBE(8, v));
  }

  method WritePayload(dst: Sink, t: Tag, depth: nat) returns (error: Option<NbtError>)
    modifies dst
    ensures Written(dst.data, error) == Then(Emit(old(dst.data)), WrittenPayload(t, depth))
    decreases t, 0
  {
    hide EncodeBE, WrittenLeaf, WrittenEntries;
    if depth > MAX_DEPTH {
      return Some(DepthExceeded(MAX_DEPTH));
    }
    match t
    case TList(et, items) =>
      dst.Put([TagByte(et)]);
      if |items| > MAX_ARRAY {
        return Some(ArrayTooLong(|items|));
      }
      dst.Put(EncodeBE(4, |items|));
      for i := 0 to |items|
        invariant Then(Emit(old(dst.data)), WrittenPayload(t, depth))
                  == Then(Emit(dst.data), WrittenItems(items[i..], depth + 1))
      {
        assert items[i..][1..] == items[i + 1..];
        ThenAssoc(Emit(dst.data), WrittenPayload(items[i], depth + 1), WrittenItems(items[i + 1..], depth + 1));
        error := WritePayload(dst, items[i], depth + 1);
        if error.Some? {
          return;
        }
      }
      return None;
    case TCompound(es) => error := WriteCompoundBody(dst, es, depth + 1);
    case _ => error := WriteLeaf(dst, t);
  }

  method WriteCompoundBody(dst: Sink, es: seq<Entry>, depth: nat) returns (error: Option<NbtError>)
    modifies dst
    ensures Written(dst.data, error) == Then(Emit(old(dst.data)), WrittenBody(es, depth))
    decreases es, 0
  {
    hide EncodeString, WrittenPayload;
    if depth > MAX_DEPTH {
      return Some(DepthExceeded(MAX_DEPTH));
    }
    for i := 0 to |es|
      invariant Then(Emit(old(dst.data)), WrittenBody(es, depth))
                == Then(Emit(dst.data), WrittenEntries(es[i..], depth))
    {
      EntryAppended(dst.data, es, i, depth);
      dst.Put([TagByte(Id(es[i].value))]);
      error := WriteNbtString(dst, es[i].name);
      if error.Some? {
        return;
      }
      error := WritePayload(dst, es[i].value, depth);
      if error.Some? {
        return;
      }
    }
    dst.Put([TagByte(End)]);
    return None;
  }

  lemma EntryAppended(data: bytes, es: seq<Entry>, i: nat, depth: nat)
    requires i < |es|
    ensures Then(Emit(data), WrittenEntries(es[i..], depth))
            == Then(Then(Then(Emit(data + [TagByte(Id(es[i].value))]), WrittenString(es[i].name)),
                         WrittenPayload(es[i].value, depth)), WrittenEntries(es[i + 1..], depth))
  {
    hide EncodeString, WrittenPayload, WrittenString;
    assert es[i..][1..] == es[i + 1..] && es[i..][0] == es[i];
    var a, b, c, d := Emit([TagByte(Id(es[i].value))]), WrittenString(es[i].name), WrittenPayload(es[i].value, depth),
        WrittenEntries(es[i + 1..], depth);
    ThenAssoc(Emit(data), a, Then(b, Then(c, d)));
    ThenAssoc(Then(Emit(data), a), b, Then(c, d));
    ThenAssoc(Then(Then(Emit(data), a), b), c, d);
  }

  method WriteNetworkRoot(dst: Sink, es: seq<Entry>) returns (error: Option<NbtError>)
    modifies dst
    ensures Written(dst.data, error) == Then(Emit(old(dst.data)), WrittenNetworkRoot(es))
  {
    hide WrittenBody;
    ThenAssoc(Emit(dst.data), Emit([TagByte(Compound)]), WrittenBody(es, 1));
    dst.Put([TagByte(Compound)]);
    error := WriteCompoundBody(dst, es, 1);
  }

  method WriteNamedRoot(dst: Sink, name: bytes, es: seq<Entry>) returns (error: Option<NbtError>)
    modifies dst
    ensures Written(dst.data, error) == Then(Emit(old(dst.data)), WrittenNamedRoot(name, es))
  {
    hide WrittenBody, WrittenString;
    ThenAssoc(Emit(dst.data), Emit([TagByte(Compound)]), Then(WrittenString(name), WrittenBody(es, 1)));
    dst.Put([TagByte(Compound)]);
    ThenAssoc(Emit(dst.data), WrittenString(name), WrittenBody(es, 1));
    error := WriteNbtString(dst, name);
    if error.Some? {
      return;
    }
    error := WriteCompoundBody(dst, es, 1);
  }
}
