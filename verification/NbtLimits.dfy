/**
 The limits and refusals of the NBT codec with the repository's own numbers (crates/nbt/src/error.rs): which
 documents are too deep or too large, what each refusal says, and that reader and writer refuse no others.
 */
module NbtLimits {
  import opened Bytes
  import opened Utf8
  import opened Names
  import opened NbtTree
  import opened NbtFormat
  import opened NbtTheorems
  import opened NbtWriter

  // ----- what the reader says of a document beyond its limits -----

  /** Read within the limits; otherwise refused by a limit that really is exceeded. */
  predicate Told<T>(lim: Limits, r: Parsed<T>, depth: nat, nodes: nat) {
    if depth <= lim.depth && nodes <= lim.nodes then r.Done?
    else
      && r.Stop?
      && (|| (r.error == DepthExceeded(lim.depth) && depth > lim.depth)
          || (r.error == TooManyNodes(lim.nodes) && nodes > lim.nodes))
  }

  lemma {:induction false} PayloadTold(lim: Limits, t: Tag, s: bytes, depth: nat, nodes: nat)
    requires Valid(t) && Fits(t)
    ensures Told(lim, ParsePayload(lim, EncodePayload(t) + s, Id(t), depth, nodes), depth + Height(t), nodes + Count(t))
    decreases t, 1
  {
    hide ParsePayload, EncodePayload, Valid, Fits;
    if depth > lim.depth || nodes + 1 > lim.nodes {
      GuardsTold(lim, EncodePayload(t) + s, Id(t), depth, nodes);
    } else {
      match t
      case TList(et, items) => ListTold(lim, et, items, s, depth, nodes);
      case TCompound(es) => CompoundTold(lim, es, s, depth, nodes);
      case _ => LeafStep(lim, t, s, depth, nodes);
    }
  }

  lemma GuardsTold(lim: Limits, s: bytes, id: TagId, depth: nat, nodes: nat)
    requires depth > lim.depth || nodes + 1 > lim.nodes
    ensures ParsePayload(lim, s, id, depth, nodes)
            == if depth > lim.depth then Stop(DepthExceeded(lim.depth)) else Stop(TooManyNodes(lim.nodes))
  {}

  lemma {:induction false} ListTold(lim: Limits, et: TagId, items: seq<Tag>, s: bytes, depth: nat, nodes: nat)
    requires Valid(TList(et, items)) && Fits(TList(et, items)) && depth <= lim.depth && nodes + 1 <= lim.nodes
    ensures var t := TList(et, items);
            Told(lim, ParsePayload(lim, EncodePayload(t) + s, List, depth, nodes), depth + Height(t), nodes + Count(t))
    decreases items, 1
  {
    hide ParsePayload, ParseItems, EncodePayload, EncodeItems, ValidItems, FitsItems, HeightItems, CountItems;
    ListStep(lim, et, items, s, depth, nodes);
    ItemsTold(lim, items, et, s, depth + 1, nodes + 1);
  }

  lemma {:induction false} ItemsTold(lim: Limits, items: seq<Tag>, et: TagId, s: bytes, depth: nat, nodes: nat)
    requires ValidItems(items, et) && FitsItems(items) && 0 < depth <= lim.depth + 1 && nodes <= lim.nodes
    ensures Told(lim, ParseItems(lim, EncodeItems(items) + s, et, |items|, depth, nodes),
                 depth - 1 + HeightItems(items), nodes + CountItems(items))
    decreases items, 0
  {
    hide ParsePayload, ParseItems, EncodePayload, Valid, Fits, Height, Count;
    if items == [] {
      NoItemsRead(lim, s, et, depth, nodes);
    } else {
      var t, tail := items[0], EncodeItems(items[1..]) + s;
      ItemFirst(lim, EncodePayload(t) + tail, et, |items|, depth, nodes);
      Assoc(EncodePayload(t), EncodeItems(items[1..]), s);
      PayloadTold(lim, t, tail, depth, nodes);
      if depth + Height(t) <= lim.depth && nodes + Count(t) <= lim.nodes {
        ItemRoundTrip(lim, t, tail, |items| - 1, depth, nodes);
        ItemsTold(lim, items[1..], et, s, depth, nodes + Count(t));
      }
    }
  }

  lemma NoItemsRead(lim: Limits, s: bytes, et: TagId, depth: nat, nodes: nat)
    ensures ParseItems(lim, EncodeItems([]) + s, et, 0, depth, nodes) == Done([], s, nodes)
  {
    assert EncodeItems([]) + s == s;
  }

  /** An item that is refused is refused for that reason. */
  lemma ItemFirst(lim: Limits, s: bytes, et: TagId, n: nat, depth: nat, nodes: nat)
    requires n > 0
    ensures var p := ParsePayload(lim, s, et, depth, nodes);
            p.Stop? ==> ParseItems(lim, s, et, n, depth, nodes) == Stop(p.error)
  {
    hide ParsePayload;
  }

  /** A compound opens a level of its own, and then reads its entries. */
  lemma CompoundOpens(lim: Limits, s: bytes, depth: nat, nodes: nat)
    requires depth <= lim.depth && nodes + 1 <= lim.nodes
    ensures var p := ParseEntries(lim, s, depth + 1, nodes + 1);
            ParsePayload(lim, s, Compound, depth, nodes)
            == if depth + 1 > lim.depth then Stop(DepthExceeded(lim.depth))
               else if p.Stop? then Stop(p.error)
               else if DuplicateName(NamesOf(p.value)).Some? then
                 Stop(DuplicateKey(DuplicateName(NamesOf(p.value)).value))
               else Done(TCompound(p.value), p.rest, p.nodes)
  {
    hide ParseEntries, DuplicateName;
    var body := ParseBody(lim, s, depth + 1, nodes + 1);
    assert depth + 1 > lim.depth ==> body == Stop(DepthExceeded(lim.depth));
  }

  lemma {:induction false} CompoundTold(lim: Limits, es: seq<Entry>, s: bytes, depth: nat, nodes: nat)
    requires Valid(TCompound(es)) && Fits(TCompound(es)) && depth <= lim.depth && nodes + 1 <= lim.nodes
    ensures var t := TCompound(es);
            Told(lim, ParsePayload(lim, EncodePayload(t) + s, Compound, depth, nodes), depth + Height(t),
                 nodes + Count(t))
    decreases es, 1
  {
    hide ParsePayload, ParseEntries, EncodeBody, ValidEntries, FitsEntries, HeightEntries, CountEntries, DuplicateName,
         Distinct;
    CompoundOpens(lim, EncodeBody(es) + s, depth, nodes);
    if depth + 1 <= lim.depth {
      EntriesTold(lim, es, s, depth + 1, nodes + 1);
      if depth + 1 + HeightEntries(es) <= lim.depth && nodes + 1 + CountEntries(es) <= lim.nodes {
        EntriesRoundTrip(lim, es, s, depth + 1, nodes + 1);
        DuplicateNameExact(NamesOf(es));
      }
    }
  }

  /** An entry whose value is refused is refused for that reason. */
  lemma EntryRefused(lim: Limits, id: TagId, name: bytes, s: bytes, depth: nat, nodes: nat)
    requires id != End && IsUtf8(name) && |name| <= MAX_STRING && ParsePayload(lim, s, id, depth, nodes).Stop?
    ensures ParseEntries(lim, [TagByte(id)] + (EncodeString(name) + s), depth, nodes)
            == Stop(ParsePayload(lim, s, id, depth, nodes).error)
  {
    hide ParsePayload, ParseString, EncodeString, IsUtf8;
    TagIdRoundTrip(id, EncodeString(name) + s);
    StringRoundTrip(name, s);
  }

  lemma {:induction false} EntriesTold(lim: Limits, es: seq<Entry>, s: bytes, depth: nat, nodes: nat)
    requires ValidEntries(es) && FitsEntries(es) && depth <= lim.depth && nodes <= lim.nodes
    ensures Told(lim, ParseEntries(lim, EncodeBody(es) + s, depth, nodes),
                 depth + HeightEntries(es), nodes + CountEntries(es))
    decreases es, 0
  {
    hide ParsePayload, ParseEntries, EncodePayload, EncodeBody, EncodeString, Valid, Fits, Height, Count, IsUtf8;
    if es == [] {
      NoEntries(lim, s, depth, nodes);
    } else {
      var e, tail := es[0], EncodeBody(es[1..]) + s;
      BodyCons(es, s);
      PayloadTold(lim, e.value, tail, depth, nodes);
      if depth + Height(e.value) <= lim.depth && nodes + Count(e.value) <= lim.nodes {
        EntryRoundTrip(lim, e, tail, depth, nodes);
        EntriesTold(lim, es[1..], s, depth, nodes + Count(e.value));
      } else {
        EntryRefused(lim, Id(e.value), e.name, EncodePayload(e.value) + tail, depth, nodes);
      }
    }
  }

  /** What follows the root's type byte is its body. */
  lemma RootBody(lim: Limits, s: bytes)
    ensures ParseNetworkRoot(lim, [TagByte(Compound)] + s) == ParseBody(lim, s, 1, 0)
  {
    hide ParseBody;
    TagIdRoundTrip(Compound, s);
  }

  lemma BodyIsEntries(lim: Limits, s: bytes)
    ensures var p := ParseEntries(lim, s, 1, 0);
            ParseBody(lim, s, 1, 0)
            == if 1 > lim.depth then Stop(DepthExceeded(lim.depth))
               else if p.Stop? then Stop(p.error)
               else if DuplicateName(NamesOf(p.value)).Some? then
                 Stop(DuplicateKey(DuplicateName(NamesOf(p.value)).value))
               else p
  {
    hide ParseEntries, DuplicateName;
  }

  /**
   With the repository's limits: a document is read exactly when it nests at most 512 levels and has at most
   65 536 tags below its root, and otherwise the reader names a limit that it does exceed.
   */
  lemma ReaderLimits(es: seq<Entry>, s: bytes)
    requires Document(es)
    ensures var r := ParseNetworkRoot(PYRITE, NetworkDocument(es) + s);
            var deep, large := 1 + HeightEntries(es) > 512, CountEntries(es) > 65_536;
            && (r == Done(es, s, CountEntries(es)) <==> !deep && !large)
            && (deep || large ==> (r == Stop(DepthExceeded(512)) && deep) || (r == Stop(TooManyNodes(65_536)) && large))
  {
    hide ParseEntries, ParseBody, EncodeBody, ValidEntries, FitsEntries, HeightEntries, CountEntries, DuplicateName,
         Distinct;
    Assoc([TagByte(Compound)], EncodeBody(es), s);
    RootBody(PYRITE, EncodeBody(es) + s);
    BodyIsEntries(PYRITE, EncodeBody(es) + s);
    EntriesTold(PYRITE, es, s, 1, 0);
    if 1 + HeightEntries(es) <= 512 && CountEntries(es) <= 65_536 {
      NetworkRoundTrip(PYRITE, es, s);
    }
  }

  // ----- chains and flat lists, with the numbers -----

  function Chained(t: Tag): seq<Entry> { [Entry([], t)] }

  /** Below the root 511 compounds may nest, or 512 lists, for the reader and for the writer alike. */
  lemma DepthLimitExact(n: nat, s: bytes)
    requires n > 0
    ensures n <= 65_536 ==>
              && (ParseNetworkRoot(PYRITE, NetworkDocument(Chained(CompoundChain(n))) + s).Done? <==> n <= 511)
              && (ParseNetworkRoot(PYRITE, NetworkDocument(Chained(ListChain(n))) + s).Done? <==> n <= 512)
    ensures WrittenNetworkRoot(Chained(CompoundChain(n))).error.None? <==> n <= 511
    ensures WrittenNetworkRoot(Chained(ListChain(n))).error.None? <==> n <= 512
  {
    hide ParseNetworkRoot, NetworkDocument, WrittenNetworkRoot, ListChain, CompoundChain, Document, Valid, Fits,
         FitsEntries;
    ListChainMeasures(n);
    CompoundChainMeasures(n);
    OneEntry(ListChain(n));
    OneEntry(CompoundChain(n));
    DocumentFits(Chained(ListChain(n)));
    DocumentFits(Chained(CompoundChain(n)));
    NetworkRootWrites(Chained(ListChain(n)));
    NetworkRootWrites(Chained(CompoundChain(n)));
    if n <= 65_536 { ChainsExact(PYRITE, n, s); }
  }

  lemma DocumentFits(es: seq<Entry>)
    requires Document(es)
    ensures FitsEntries(es)
  {}

  function Zeros(n: nat): (items: seq<Tag>)
    ensures |items| == n
  {
    seq(n, _ => TByte(0))
  }

  lemma {:induction false} ZerosMeasures(n: nat)
    ensures ValidItems(Zeros(n), Byte) && FitsItems(Zeros(n)) && CountItems(Zeros(n)) == n
    ensures HeightItems(Zeros(n)) == if n == 0 then 0 else 1
  {
    if n > 0 {
      ZerosMeasures(n - 1);
      assert Zeros(n)[1..] == Zeros(n - 1);
    }
  }

  /** One list of `n` bytes below the root: the list and its items are at most 65 536 tags. */
  lemma NodeLimitExact(n: nat, s: bytes)
    requires n <= MAX_ARRAY
    ensures var r := ParseNetworkRoot(PYRITE, NetworkDocument(Chained(TList(Byte, Zeros(n)))) + s);
            if n <= 65_535 then r.Done? else r == Stop(TooManyNodes(65_536))
  {
    var t := TList(Byte, Zeros(n));
    ZerosMeasures(n);
    assert Valid(t) && Fits(t) && Height(t) <= 1 && Count(t) == n + 1;
    hide ParseNetworkRoot, NetworkDocument, Document, Valid, Fits, Height, Count, Zeros;
    OneEntry(t);
    ReaderLimits(Chained(t), s);
  }

  // ----- what the writer says -----

  /** A write that stopped, stopped for a reason that holds. */
  predicate Refusal(w: Written, depth: nat) {
    match w.error
    case None => true
    case Some(DepthExceeded(max)) => max == 512 && depth > 512
    case Some(ArrayTooLong(n)) => n > 2_147_483_647
    case Some(StringTooLong(n)) => n > 65_535
    case _ => false
  }

  lemma {:induction false} PayloadRefusal(t: Tag, depth: nat)
    ensures Refusal(WrittenPayload(t, depth), depth + Height(t))
    decreases t, 0
  {
    hide EncodeLeaf, EncodeBE, EncodeString, WrittenItems, WrittenEntries, WrittenLeaf, HeightItems, HeightEntries;
    if depth <= MAX_DEPTH {
      match t
      case TList(_, items) => ItemsRefusal(items, depth + 1);
      case TCompound(es) => if depth < MAX_DEPTH { EntriesRefusal(es, depth + 1); }
      case _ => LeafRefusal(t);
    }
  }

  lemma LeafRefusal(t: Tag)
    requires IsLeaf(t)
    ensures Refusal(WrittenLeaf(t), 0)
  {
    hide EncodeLeaf, EncodeString;
  }

  lemma {:induction false} ItemsRefusal(items: seq<Tag>, depth: nat)
    requires depth > 0
    ensures Refusal(WrittenItems(items, depth), depth - 1 + HeightItems(items))
    decreases items, 0
  {
    hide WrittenPayload, Height;
    if items != [] {
      PayloadRefusal(items[0], depth);
      ItemsRefusal(items[1..], depth);
    }
  }

  lemma {:induction false} EntriesRefusal(es: seq<Entry>, depth: nat)
    ensures Refusal(WrittenEntries(es, depth), depth + HeightEntries(es))
    decreases es, 0
  {
    hide WrittenPayload, Height, EncodeString;
    if es != [] {
      PayloadRefusal(es[0].value, depth);
      EntriesRefusal(es[1..], depth);
      assert Refusal(WrittenString(es[0].name), 0);
      hide WrittenString;
    }
  }

  /** The writer refuses a document only for a depth above 512, a length above 2^31 - 1 or a string above 65 535. */
  lemma WriterLimits(es: seq<Entry>)
    ensures Refusal(WrittenNetworkRoot(es), 1 + HeightEntries(es))
    ensures Document(es) ==> (WrittenNetworkRoot(es).error ==
                              if 1 + HeightEntries(es) <= 512 then None else Some(DepthExceeded(512)))
  {
    hide WrittenEntries, EncodeBody, HeightEntries, FitsEntries, ValidEntries, Distinct;
    EntriesRefusal(es, 1);
    NetworkRootWrites(es);
    if Document(es) && 1 + HeightEntries(es) > 512 { DocumentRefusal(es); }
  }

  /** What fits is refused for its depth alone. */
  lemma DocumentRefusal(es: seq<Entry>)
    requires FitsEntries(es) && 1 + HeightEntries(es) > 512
    ensures WrittenNetworkRoot(es).error == Some(DepthExceeded(512))
  {
    hide WrittenEntries, EncodeBody, HeightEntries, FitsEntries;
    NetworkRootWrites(es);
    FittingEntries(es, 1);
  }

  lemma {:induction false} FittingPayload(t: Tag, depth: nat)
    requires Fits(t)
    ensures WrittenPayload(t, depth).error in {None, Some(DepthExceeded(512))}
    decreases t, 0
  {
    hide EncodeLeaf, EncodeBE, EncodeString;
    match t
    case TList(_, items) => FittingItems(items, depth + 1);
    case TCompound(es) => FittingEntries(es, depth + 1);
    case _ =>
  }

  lemma {:induction false} FittingItems(items: seq<Tag>, depth: nat)
    requires FitsItems(items)
    ensures WrittenItems(items, depth).error in {None, Some(DepthExceeded(512))}
    decreases items, 0
  {
    hide WrittenPayload, Fits;
    if items != [] {
      FittingPayload(items[0], depth);
      FittingItems(items[1..], depth);
    }
  }

  lemma {:induction false} FittingEntries(es: seq<Entry>, depth: nat)
    requires FitsEntries(es)
    ensures WrittenEntries(es, depth).error in {None, Some(DepthExceeded(512))}
    decreases es, 0
  {
    hide WrittenPayload, Fits, EncodeString;
    if es != [] {
      FittingPayload(es[0].value, depth);
      FittingEntries(es[1..], depth);
    }
  }

  lemma OneWritten(name: bytes, t: Tag)
    ensures WrittenNetworkRoot([Entry(name, t)]).error
            == if |name| > 65_535 then Some(StringTooLong(|name|)) else WrittenPayload(t, 1).error
  {
    hide WrittenPayload, WrittenEntries, EncodeString, Id;
    OneEntryWritten(name, t);
  }

  /** One string field: a name and a text of up to 65 535 bytes each are written, longer ones refused by length. */
  lemma StringCaps(name: bytes, text: bytes)
    ensures WrittenNetworkRoot([Entry(name, TString(text))]).error
            == if |name| > 65_535 then Some(StringTooLong(|name|))
               else if |text| > 65_535 then Some(StringTooLong(|text|)) else None
  {
    OneWritten(name, TString(text));
  }

  /** One array field: up to 2^31 - 1 elements are written, more are refused by their number. */
  lemma ArrayCaps(raw: bytes, ints: seq<int>, items: seq<Tag>, et: TagId)
    ensures WrittenNetworkRoot([Entry([], TByteArray(raw))]).error
            == if |raw| > 2_147_483_647 then Some(ArrayTooLong(|raw|)) else None
    ensures WrittenNetworkRoot([Entry([], TIntArray(ints))]).error
            == if |ints| > 2_147_483_647 then Some(ArrayTooLong(|ints|)) else None
    ensures WrittenNetworkRoot([Entry([], TLongArray(ints))]).error
            == if |ints| > 2_147_483_647 then Some(ArrayTooLong(|ints|)) else None
    ensures |items| > 2_147_483_647 ==>
              WrittenNetworkRoot([Entry([], TList(et, items))]).error == Some(ArrayTooLong(|items|))
  {
    hide WrittenNetworkRoot, WrittenItems, EncodeLeaf;
    OneWritten([], TByteArray(raw));
    OneWritten([], TIntArray(ints));
    OneWritten([], TLongArray(ints));
    OneWritten([], TList(et, items));
  }

  /** What a refused length leaves behind: nothing, but for the element type a list has written by then. */
  lemma RefusedPayloadOutput(t: Tag)
    ensures t.TString? && |t.text| > 65_535 ==> WrittenPayload(t, 1) == Written([], Some(StringTooLong(|t.text|)))
    ensures t.TByteArray? && |t.raw| > 2_147_483_647
            ==> WrittenPayload(t, 1) == Written([], Some(ArrayTooLong(|t.raw|)))
    ensures t.TList? && |t.items| > 2_147_483_647 ==>
              WrittenPayload(t, 1) == Written([TagByte(t.elementType)], Some(ArrayTooLong(|t.items|)))
  {
    hide WrittenItems, WrittenEntries, EncodeBE, EncodeLeaf;
  }

  /** A refused field leaves its type byte, then its name, then what its payload had written. */
  lemma RefusedOutput(name: bytes, t: Tag)
    ensures |name| > 65_535 ==> WrittenNetworkRoot([Entry(name, t)]).out == [10, TagByte(Id(t))]
    ensures |name| <= 65_535 && WrittenPayload(t, 1).error.Some? ==>
              WrittenNetworkRoot([Entry(name, t)]).out
              == [10] + ([TagByte(Id(t))] + ((EncodeBE(2, |name|) + name) + WrittenPayload(t, 1).out))
  {
    hide EncodeBE, WrittenPayload, Id;
    var es, w := [Entry(name, t)], WrittenPayload(t, 1);
    OneEntryWritten(name, t);
    hide WrittenEntries;
    assert WrittenNetworkRoot(es) == Then(Emit([10]), WrittenEntries(es, 1));
  }

  lemma OneEntryWritten(name: bytes, t: Tag)
    ensures WrittenEntries([Entry(name, t)], 1)
            == Then(Emit([TagByte(Id(t))]), Then(WrittenString(name), Then(WrittenPayload(t, 1), Emit([TagByte(End)]))))
  {
    hide WrittenPayload, WrittenString, Id;
    assert [Entry(name, t)][1..] == [];
  }

  // ----- malformed documents -----

  /** A document of one field whose payload is refused is refused for that reason, whatever follows. */
  lemma FieldRefused(lim: Limits, id: TagId, name: bytes, s: bytes)
    requires lim.depth >= 1 && id != End && IsUtf8(name) && |name| <= MAX_STRING && ParsePayload(lim, s, id, 1, 0).Stop?
    ensures ParseNetworkRoot(lim, [TagByte(Compound)] + ([TagByte(id)] + (EncodeString(name) + s)))
            == Stop(ParsePayload(lim, s, id, 1, 0).error)
  {
    hide ParsePayload, ParseEntries, ParseBody, EncodeString, IsUtf8;
    EntryRefused(lim, id, name, s, 1, 0);
    RootBody(lim, [TagByte(id)] + (EncodeString(name) + s));
    BodyIsEntries(lim, [TagByte(id)] + (EncodeString(name) + s));
  }

  /** The bytes each element of an array takes. */
  function ElementWidth(id: TagId): nat
    requires id == ByteArray || id == IntArray || id == LongArray
  {
    match id case ByteArray => 1 case IntArray => 4 case _ => 8
  }

  /** A count read from its four bytes: negative, or more than what follows can hold, or accepted. */
  lemma CountRead(n: int, rest: bytes, size: nat)
    requires -0x8000_0000 <= n < 0x8000_0000
    ensures ParseLength(EncodeBE(4, n) + rest, size)
            == if n < 0 then Err(NegativeLength(n))
               else if n * size > |rest| then Err(LengthExceedsInput(n * size, |rest|))
               else Ok(n, rest)
  {
    var all := EncodeBE(4, n) + rest;
    Pow256Values();
    DecodeEncodeInt(4, n);
    assert all[..4] == EncodeBE(4, n) && all[4..] == rest;
    hide EncodeBE, DecodeInt, Pow256;
  }

  /** An array whose count is negative, or declares more than what follows, is refused by those figures. */
  lemma ArrayRefused(id: TagId, n: int, rest: bytes, depth: nat, nodes: nat)
    requires id == ByteArray || id == IntArray || id == LongArray
    requires depth <= 512 && nodes < 65_536 && -0x8000_0000 <= n < 0x8000_0000
    ensures var r := ParsePayload(PYRITE, EncodeBE(4, n) + rest, id, depth, nodes);
            && (n < 0 ==> r == Stop(NegativeLength(n)))
            && (n >= 0 && n * ElementWidth(id) > |rest| ==> r == Stop(LengthExceedsInput(n * ElementWidth(id), |rest|)))
            && (n >= 0 && n * ElementWidth(id) <= |rest| ==> r.Done? && r.rest == rest[n * ElementWidth(id)..])
  {
    hide EncodeBE, ParseLength, DecodeInts;
    CountRead(n, rest, ElementWidth(id));
  }

  /** The same for a list, whose element size depends on its type; and a list of `End` must be empty. */
  lemma ListRefused(et: TagId, n: int, rest: bytes, depth: nat, nodes: nat)
    requires depth <= 512 && nodes < 65_536 && -0x8000_0000 <= n < 0x8000_0000
    ensures var size := match et
                        case End => 0 case Short => 2 case Int => 4 case Float => 4 case Long => 8 case Double => 8
                        case _ => 1;
            var r := ParsePayload(PYRITE, [TagByte(et)] + (EncodeBE(4, n) + rest), List, depth, nodes);
            && (n < 0 ==> r == Stop(NegativeLength(n)))
            && (n >= 0 && n * size > |rest| ==> r == Stop(LengthExceedsInput(n * size, |rest|)))
            && (n > 0 && et == End ==> r == Stop(InvalidListElementType(End)))
  {
    hide EncodeBE, ParseLength, ParseItems, ParseBody, ParseLeaf;
    CountRead(n, rest, MinElementSize(et));
    TagIdRoundTrip(et, EncodeBE(4, n) + rest);
  }

  /** A string that is cut short, or is not UTF-8, is refused as such, as a value and as a name. */
  lemma StringRefused(text: bytes, rest: bytes, depth: nat, nodes: nat)
    requires depth <= 512 && nodes < 65_536 && |text| <= 65_535
    ensures var whole := EncodeBE(2, |text|) + (text + rest);
            && (!IsUtf8(text) ==> ParsePayload(PYRITE, whole, String, depth, nodes) == Stop(InvalidUtf8))
            && (IsUtf8(text) ==>
                  ParsePayload(PYRITE, whole, String, depth, nodes) == Done(TString(text), rest, nodes + 1))
    ensures forall k: nat :: k < |text| ==>
              ParsePayload(PYRITE, EncodeBE(2, |text|) + text[..k], String, depth, nodes)
              == Stop(LengthExceedsInput(|text|, k))
  {
    hide ParseString, IsUtf8, EncodeBE, ParseItems, ParseBody;
    PrefixedRead(text, rest);
    forall k: nat | k < |text|
      ensures ParsePayload(PYRITE, EncodeBE(2, |text|) + text[..k], String, depth, nodes)
              == Stop(LengthExceedsInput(|text|, k))
    {
      PrefixedShort(|text|, text[..k]);
    }
  }

  lemma PrefixedRead(text: bytes, rest: bytes)
    requires |text| <= 65_535
    ensures ParseString(EncodeBE(2, |text|) + (text + rest))
            == if IsUtf8(text) then Ok(text, rest) else Err(InvalidUtf8)
  {
    Pow256Values();
    DecodeEncodeBE(2, |text|);
    Split(EncodeBE(2, |text|), text + rest);
    Split(text, rest);
    hide EncodeBE, DecodeBE, IsUtf8;
  }

  lemma PrefixedShort(n: nat, rest: bytes)
    requires |rest| < n <= 65_535
    ensures ParseString(EncodeBE(2, n) + rest) == Err(LengthExceedsInput(n, |rest|))
  {
    Pow256Values();
    DecodeEncodeBE(2, n);
    Split(EncodeBE(2, n), rest);
    hide EncodeBE, DecodeBE, IsUtf8;
  }

  /** Input that ends inside a number or a length is reported as ended. */
  lemma EndedRefused(id: TagId, s: bytes, depth: nat, nodes: nat)
    requires depth <= 512 && nodes < 65_536
    requires |s| < match id
                   case Byte => 1 case Short => 2 case Int => 4 case Float => 4 case Long => 8 case Double => 8
                   case String => 2 case ByteArray => 4 case IntArray => 4 case LongArray => 4
                   case List => 1 case _ => 0
    ensures ParsePayload(PYRITE, s, id, depth, nodes) == Stop(UnexpectedEof)
  {}

  /** What is not a compound is no document, and an unknown type byte is named, by every reader. */
  lemma RootRefused(lim: Limits, b: byte, s: bytes)
    ensures b > 12 ==>
              && ParseNetworkRoot(lim, [b] + s) == Stop(UnknownTag(b))
              && ParseNamedRoot(lim, [b] + s) == Stop(UnknownTag(b))
              && ParseOptionalRoot(lim, [b] + s) == Stop(UnknownTag(b))
    ensures b <= 12 && b != 10 ==>
              && ParseNetworkRoot(lim, [b] + s) == Stop(RootNotCompound(TagOf(b).value))
              && ParseNamedRoot(lim, [b] + s) == Stop(RootNotCompound(TagOf(b).value))
              && (b != 0 ==> ParseOptionalRoot(lim, [b] + s) == Stop(RootNotCompound(TagOf(b).value)))
    ensures ParseNetworkRoot(lim, []) == Stop(UnexpectedEof) && ParseNamedRoot(lim, []) == Stop(UnexpectedEof)
            && ParseOptionalRoot(lim, []) == Stop(UnexpectedEof)
  {
    hide ParseBody, ParseString;
    assert ([b] + s)[1..] == s && ([b] + s)[0] == b;
  }

  /** The same for the type byte of an entry. */
  lemma EntryTypeRefused(lim: Limits, b: byte, s: bytes)
    requires lim.depth >= 1
    ensures b > 12 ==> ParseNetworkRoot(lim, [TagByte(Compound)] + ([b] + s)) == Stop(UnknownTag(b))
    ensures ParseNetworkRoot(lim, [TagByte(Compound)]) == Stop(UnexpectedEof)
  {
    hide ParseBody, ParsePayload, ParseString;
    RootBody(lim, [b] + s);
    RootBody(lim, []);
    BodyIsEntries(lim, [b] + s);
    BodyIsEntries(lim, []);
    assert [TagByte(Compound)] + [] == [TagByte(Compound)];
    assert ([b] + s)[0] == b;
  }

  /** A compound that repeats a name is refused, at whatever depth, with the least name that it repeats. */
  lemma RepeatedNameRefused(lim: Limits, es: seq<Entry>, s: bytes, depth: nat, nodes: nat)
    requires ValidEntries(es) && FitsEntries(es) && !Distinct(NamesOf(es))
    requires depth + 1 + HeightEntries(es) <= lim.depth && nodes + 1 + CountEntries(es) <= lim.nodes
    ensures var r := ParsePayload(lim, EncodePayload(TCompound(es)) + s, Compound, depth, nodes);
            r.Stop? && r.error.DuplicateKey? && LeastRepeated(NamesOf(es), Some(r.error.name))
  {
    hide ParsePayload, ParseEntries, EncodeBody, ValidEntries, FitsEntries, HeightEntries, CountEntries, DuplicateName,
         Distinct, Leq;
    EntriesRoundTrip(lim, es, s, depth + 1, nodes + 1);
    CompoundOpens(lim, EncodeBody(es) + s, depth, nodes);
    DuplicateNameExact(NamesOf(es));
  }

  /** The same at the root. */
  lemma RepeatedRootNameRefused(lim: Limits, es: seq<Entry>, s: bytes)
    requires ValidEntries(es) && FitsEntries(es) && !Distinct(NamesOf(es)) && Within(lim, es)
    ensures var r := ParseNetworkRoot(lim, NetworkDocument(es) + s);
            r.Stop? && r.error.DuplicateKey? && LeastRepeated(NamesOf(es), Some(r.error.name))
  {
    hide ParseEntries, ParseBody, EncodeBody, ValidEntries, FitsEntries, HeightEntries, CountEntries, DuplicateName,
         Distinct, Leq;
    EntriesRoundTrip(lim, es, s, 1, 0);
    Assoc([TagByte(Compound)], EncodeBody(es), s);
    RootBody(lim, EncodeBody(es) + s);
    BodyIsEntries(lim, EncodeBody(es) + s);
    DuplicateNameExact(NamesOf(es));
  }

  /** The least size of an element by type: exact for the fixed-width ones, one byte for all others. */
  lemma ElementSizes(t: Tag)
    ensures IsNumber(t) ==> MinElementSize(Id(t)) == |EncodePayload(t)|
    ensures !IsNumber(t) ==> MinElementSize(Id(t)) == 1
    ensures |EncodePayload(TCompound([]))| == 1 && MinElementSize(End) == 0
  {
    hide EncodeItems, EncodeInts, EncodeString;
    assert EncodeBody([]) == [TagByte(End)];
  }
}
