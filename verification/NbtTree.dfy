/** The NBT value tree and its construction API (crates/nbt/src/tag.rs, crates/nbt/src/error.rs). */
module NbtTree {
  import opened Bytes
  import opened Utf8
  import opened Names

  datatype TagId =
    End | Byte | Short | Int | Long | Float | Double | ByteArray | String | List | Compound | IntArray | LongArray

  /** Floats are their bit patterns; strings and names are their UTF-8 bytes. */
  datatype Tag =
    | TByte(int8: int)
    | TShort(int16: int)
    | TInt(int32: int)
    | TLong(int64: int)
    | TFloat(bits32: nat)
    | TDouble(bits64: nat)
    | TByteArray(raw: bytes)
    | TString(text: bytes)
    | TList(elementType: TagId, items: seq<Tag>)
    | TCompound(entries: seq<Entry>)
    | TIntArray(ints: seq<int>)
    | TLongArray(longs: seq<int>)

  datatype Entry = Entry(name: bytes, value: Tag)

  datatype NbtError =
    | UnexpectedEof
    | UnknownTag(b: byte)
    | RootNotCompound(id: TagId)
    | DepthExceeded(max: nat)
    | NegativeLength(len: int)
    | LengthExceedsInput(declared: nat, remaining: nat)
    | InvalidListElementType(id: TagId)
    | HeterogeneousList(expected: TagId, found: TagId)
    | TooManyNodes(max: nat)
    | DuplicateKey(name: bytes)
    | ArrayTooLong(size: nat)
    | StringTooLong(size: nat)
    | InvalidUtf8

  // ----- tag identifiers -----

  function TagByte(id: TagId): byte {
    match id
    case End => 0 case Byte => 1 case Short => 2 case Int => 3 case Long => 4 case Float => 5 case Double => 6
    case ByteArray => 7 case String => 8 case List => 9 case Compound => 10 case IntArray => 11 case LongArray => 12
  }

  /** Exactly the bytes 0 to 12 name a tag, and the numbering is the one `TagByte` writes. */
  function TagOf(b: byte): (r: Option<TagId>)
    ensures r.Some? <==> b <= 12
    ensures r.Some? ==> TagByte(r.value) == b
  {
    match b
    case 0 => Some(End) case 1 => Some(Byte) case 2 => Some(Short) case 3 => Some(Int) case 4 => Some(Long)
    case 5 => Some(Float) case 6 => Some(Double) case 7 => Some(ByteArray) case 8 => Some(String) case 9 => Some(List)
    case 10 => Some(Compound) case 11 => Some(IntArray) case 12 => Some(LongArray)
    case _ => None
  }

  function Id(t: Tag): (id: TagId)
    ensures id != End
  {
    match t
    case TByte(_) => Byte case TShort(_) => Short case TInt(_) => Int case TLong(_) => Long
    case TFloat(_) => Float case TDouble(_) => Double case TByteArray(_) => ByteArray case TString(_) => String
    case TList(_, _) => List case TCompound(_) => Compound case TIntArray(_) => IntArray case TLongArray(_) => LongArray
  }

  // ----- what the types and constructors guarantee about a tree -----

  function NamesOf(es: seq<Entry>): (r: seq<bytes>)
    ensures |r| == |es|
  {
    seq(|es|, i requires 0 <= i < |es| => es[i].name)
  }

  /** Numbers in range, strings UTF-8, lists homogeneous, names unique, at every level. */
  predicate Valid(t: Tag) {
    match t
    case TByte(v) => InRange(1, v)
    case TShort(v) => InRange(2, v)
    case TInt(v) => InRange(4, v)
    case TLong(v) => InRange(8, v)
    case TFloat(v) => v < Pow256(4)
    case TDouble(v) => v < Pow256(8)
    case TByteArray(_) => true
    case TString(s) => IsUtf8(s)
    case TList(et, items) => (et == End ==> items == []) && ValidItems(items, et)
    case TCompound(es) => ValidEntries(es) && Distinct(NamesOf(es))
    case TIntArray(vs) => AllInRange(4, vs)
    case TLongArray(vs) => AllInRange(8, vs)
  }

  predicate ValidItems(items: seq<Tag>, et: TagId) {
    items == [] || (Id(items[0]) == et && Valid(items[0]) && ValidItems(items[1..], et))
  }

  predicate ValidEntries(es: seq<Entry>) {
    es == [] || (IsUtf8(es[0].name) && Valid(es[0].value) && ValidEntries(es[1..]))
  }

  // ----- lists -----

  predicate Homogeneous(items: seq<Tag>) {
    forall i, j :: 0 <= i < j < |items| ==> Id(items[i]) == Id(items[j])
  }

  datatype Built = Built(list: Tag) | Refused(error: NbtError)

  /** `NbtList::new`: succeeds exactly on homogeneous items, and then the list carries their type. */
  method NewList(items: seq<Tag>) returns (r: Built)
    ensures r.Built? <==> Homogeneous(items)
    ensures r.Built? ==> r.list == TList(if items == [] then End else Id(items[0]), items)
    ensures r.Refused? ==>
              exists k :: 0 < k < |items| && Id(items[k]) != Id(items[0])
                          && r.error == HeterogeneousList(Id(items[0]), Id(items[k]))
                          && forall j :: 0 <= j < k ==> Id(items[j]) == Id(items[0])
    ensures r.Built? && (forall i :: 0 <= i < |items| ==> Valid(items[i])) ==> Valid(r.list)
  {
    if items == [] {
      return Built(TList(End, []));
    }
    var elementType := Id(items[0]);
    for i := 0 to |items|
      invariant forall j :: 0 <= j < i ==> Id(items[j]) == elementType
    {
      if Id(items[i]) != elementType {
        return Refused(HeterogeneousList(elementType, Id(items[i])));
      }
    }
    hide Valid;
    BuiltListValid(items, elementType);
    return Built(TList(elementType, items));
  }

  /** A list of valid items of one type is valid. */
  lemma {:induction false} BuiltListValid(items: seq<Tag>, et: TagId)
    requires (forall i :: 0 <= i < |items| ==> Id(items[i]) == et) && (et == End ==> items == [])
    ensures (forall i :: 0 <= i < |items| ==> Valid(items[i])) ==> Valid(TList(et, items))
  {
    if forall i :: 0 <= i < |items| ==> Valid(items[i]) {
      ItemsValid(items, et);
    }
  }

  lemma {:induction false} ItemsValid(items: seq<Tag>, et: TagId)
    requires forall i :: 0 <= i < |items| ==> Valid(items[i]) && Id(items[i]) == et
    ensures ValidItems(items, et)
  {
    hide Valid;
    if items != [] {
      ItemsValid(items[1..], et);
    }
  }

  // ----- compounds -----

  /** The first entry with this name. */
  function Lookup(es: seq<Entry>, name: bytes): (r: Option<Tag>) {
    if es == [] then None else if es[0].name == name then Some(es[0].value) else Lookup(es[1..], name)
  }

  /** Replace the first entry with this name in place, or append. */
  function InsertEntry(es: seq<Entry>, name: bytes, value: Tag): (r: seq<Entry>) {
    if es == [] then [Entry(name, value)]
    else if es[0].name == name then [Entry(name, value)] + es[1..]
    else [es[0]] + InsertEntry(es[1..], name, value)
  }

  lemma {:induction false} InsertEntryAt(es: seq<Entry>, i: nat, name: bytes, value: Tag)
    requires i <= |es| && (forall j :: 0 <= j < i ==> es[j].name != name) && (i < |es| ==> es[i].name == name)
    ensures InsertEntry(es, name, value) == if i < |es| then es[i := Entry(name, value)] else es + [Entry(name, value)]
  {
    if 0 < i {
      InsertEntryAt(es[1..], i - 1, name, value);
      assert es == [es[0]] + es[1..];
    }
  }

  class NbtCompound {
    var entries: seq<Entry>

    constructor ()
      ensures entries == []
    {
      entries := [];
    }

    method Insert(name: bytes, value: Tag)
      modifies this
      ensures entries == InsertEntry(old(entries), name, value)
    {
      for i := 0 to |entries|
        invariant entries == old(entries)
        invariant forall j :: 0 <= j < i ==> entries[j].name != name
      {
        if entries[i].name == name {
          InsertEntryAt(entries, i, name, value);
          entries := entries[i := Entry(name, value)];
          return;
        }
      }
      InsertEntryAt(entries, |entries|, name, value);
      entries := entries + [Entry(name, value)];
    }

    method Push(name: bytes, value: Tag)
      modifies this
      ensures entries == old(entries) + [Entry(name, value)]
    {
      entries := entries + [Entry(name, value)];
    }

    method Get(name: bytes) returns (r: Option<Tag>)
      ensures r == Lookup(entries, name)
    {
      for i := 0 to |entries|
        invariant Lookup(entries, name) == Lookup(entries[i..], name)
      {
        if entries[i].name == name {
          return Some(entries[i].value);
        }
        assert entries[i..][1..] == entries[i + 1..];
      }
      return None;
    }
  }

  // ----- a compound is an ordered map -----

  /** A compound after a history of inserts, oldest first. */
  function Inserts(ops: seq<Entry>): (es: seq<Entry>) {
    if ops == [] then [] else
      var last := ops[|ops| - 1];
      InsertEntry(Inserts(ops[..|ops| - 1]), last.name, last.value)
  }

  /** Each name once, at its first occurrence. */
  function FirstOccurrences(names: seq<bytes>): (r: seq<bytes>) {
    if names == [] then [] else
      var init, last := names[..|names| - 1], names[|names| - 1];
      if last in init then FirstOccurrences(init) else FirstOccurrences(init) + [last]
  }

  /** The map built by iterating entries in order: a later entry overwrites an earlier one. */
  function AsMap(es: seq<Entry>): (m: map<bytes, Tag>) {
    if es == [] then map[] else
      var last := es[|es| - 1];
      AsMap(es[..|es| - 1])[last.name := last.value]
  }

  function MapGet(m: map<bytes, Tag>, name: bytes): Option<Tag> {
    if name in m then Some(m[name]) else None
  }

  lemma NamesCons(e: Entry, es: seq<Entry>)
    ensures NamesOf([e] + es) == [e.name] + NamesOf(es)
  {}

  lemma {:induction false} InsertNames(es: seq<Entry>, name: bytes, value: Tag)
    ensures NamesOf(InsertEntry(es, name, value)) == if name in NamesOf(es) then NamesOf(es) else NamesOf(es) + [name]
  {
    if es == [] {
      NamesCons(Entry(name, value), []);
    } else {
      assert es == [es[0]] + es[1..];
      NamesCons(es[0], es[1..]);
      NamesCons(Entry(name, value), es[1..]);
      NamesCons(es[0], InsertEntry(es[1..], name, value));
      hide NamesOf;
      InsertNames(es[1..], name, value);
    }
  }

  lemma {:induction false} InsertLookup(es: seq<Entry>, name: bytes, value: Tag, n: bytes)
    ensures Lookup(InsertEntry(es, name, value), n) == if n == name then Some(value) else Lookup(es, n)
  {
    if es != [] {
      var r := InsertEntry(es, name, value);
      if es[0].name == name {
        assert r[1..] == es[1..];
      } else {
        assert r[1..] == InsertEntry(es[1..], name, value);
        InsertLookup(es[1..], name, value, n);
      }
    }
  }

  lemma {:induction false} FirstOccurrencesSpec(names: seq<bytes>)
    ensures Distinct(FirstOccurrences(names))
    ensures forall n :: n in FirstOccurrences(names) <==> n in names
  {
    if names != [] {
      var init := names[..|names| - 1];
      FirstOccurrencesSpec(init);
      assert names == init + [names[|names| - 1]];
    }
  }

  /**
   After any history of inserts: names are unique and in first-insertion order, and looking a name up
   gives the last value inserted under it.
   */
  lemma {:induction false} InsertsRefineOrderedMap(ops: seq<Entry>)
    ensures NamesOf(Inserts(ops)) == FirstOccurrences(NamesOf(ops))
    ensures Distinct(NamesOf(Inserts(ops)))
    ensures forall n :: Lookup(Inserts(ops), n) == MapGet(AsMap(ops), n)
  {
    hide Distinct, Lookup, InsertEntry;
    FirstOccurrencesSpec(NamesOf(ops));
    if ops == [] {
      NothingInserted();
    } else {
      var init, last := ops[..|ops| - 1], ops[|ops| - 1];
      InsertsRefineOrderedMap(init);
      InsertNames(Inserts(init), last.name, last.value);
      forall n
        ensures Lookup(Inserts(ops), n) == if n == last.name then Some(last.value) else Lookup(Inserts(init), n)
      {
        InsertLookup(Inserts(init), last.name, last.value, n);
      }
      FirstOccurrencesSpec(NamesOf(init));
      assert NamesOf(ops)[..|ops| - 1] == NamesOf(init);
    }
  }

  lemma NothingInserted()
    ensures forall n :: Lookup([], n) == MapGet(AsMap([]), n)
  {}

  lemma {:induction false} LookupSnoc(es: seq<Entry>, e: Entry, n: bytes)
    ensures Lookup(es + [e], n) == if Lookup(es, n).Some? then Lookup(es, n)
                                   else if e.name == n then Some(e.value) else None
    ensures Lookup(es, n).Some? <==> n in NamesOf(es)
  {
    if es == [] {
      assert Lookup([e][1..], n).None?;
    } else {
      LookupSnoc(es[1..], e, n);
      assert (es + [e])[1..] == es[1..] + [e];
      assert NamesOf(es) == [es[0].name] + NamesOf(es[1..]);
    }
  }

  /** With unique names, `get` (first match) agrees with iteration (last match) on every name. */
  lemma {:induction false} GetAgreesWithIteration(es: seq<Entry>, n: bytes)
    requires Distinct(NamesOf(es))
    ensures Lookup(es, n) == MapGet(AsMap(es), n)
  {
    if es != [] {
      var init, last := es[..|es| - 1], es[|es| - 1];
      assert es == init + [last];
      assert NamesOf(init) == NamesOf(es)[..|es| - 1];
      GetAgreesWithIteration(init, n);
      LookupSnoc(init, last, n);
      assert last.name !in NamesOf(init) by {
        assert NamesOf(es)[|es| - 1] == last.name;
      }
    }
  }

  lemma {:induction false} InsertValidEntries(es: seq<Entry>, name: bytes, value: Tag)
    requires ValidEntries(es) && IsUtf8(name) && Valid(value)
    ensures ValidEntries(InsertEntry(es, name, value))
  {
    hide Valid, IsUtf8;
    var r := InsertEntry(es, name, value);
    if es == [] {
      assert r[1..] == [];
    } else if es[0].name == name {
      assert r[1..] == es[1..];
    } else {
      InsertValidEntries(es[1..], name, value);
      assert r[1..] == InsertEntry(es[1..], name, value);
    }
  }

  /** `insert` keeps a compound valid: the types of its arguments, and uniqueness of names, are all it takes. */
  lemma InsertKeepsValid(es: seq<Entry>, name: bytes, value: Tag)
    requires Valid(TCompound(es)) && IsUtf8(name) && Valid(value)
    ensures Valid(TCompound(InsertEntry(es, name, value)))
  {
    hide ValidEntries, IsUtf8, InsertEntry;
    InsertValidEntries(es, name, value);
    InsertNames(es, name, value);
  }

  /** Whatever is built by inserts from an empty compound, with valid values under UTF-8 names, is valid. */
  lemma {:induction false} InsertsValid(ops: seq<Entry>)
    requires forall i :: 0 <= i < |ops| ==> IsUtf8(ops[i].name) && Valid(ops[i].value)
    ensures Valid(TCompound(Inserts(ops)))
  {
    if ops == [] {
      assert ValidEntries([]);
    } else {
      hide Valid, IsUtf8;
      InsertsValid(ops[..|ops| - 1]);
      InsertKeepsValid(Inserts(ops[..|ops| - 1]), ops[|ops| - 1].name, ops[|ops| - 1].value);
    }
  }

  /** Without the duplicate check they may disagree: the reason a decoded compound is rejected for it. */
  lemma GetDisagreesOnDuplicates()
    ensures exists es: seq<Entry>, n: bytes :: Lookup(es, n) != MapGet(AsMap(es), n)
  {
    var es := [Entry([], TByte(1)), Entry([], TByte(2))];
    assert Lookup(es, []) == Some(TByte(1));
    assert AsMap(es)[[]] == TByte(2);
    assert MapGet(AsMap(es), []) == Some(TByte(2));
  }

  /** In every compound of the tree, `get` agrees with the map built by iterating. */
  ghost predicate GetConsistent(t: Tag) {
    match t
    case TList(_, items) => GetConsistentItems(items)
    case TCompound(es) => GetConsistentEntries(es) && forall n :: Lookup(es, n) == MapGet(AsMap(es), n)
    case _ => true
  }

  ghost predicate GetConsistentItems(items: seq<Tag>) {
    items == [] || (GetConsistent(items[0]) && GetConsistentItems(items[1..]))
  }

  ghost predicate GetConsistentEntries(es: seq<Entry>) {
    es == [] || (GetConsistent(es[0].value) && GetConsistentEntries(es[1..]))
  }

  lemma {:induction false} ValidIsGetConsistent(t: Tag)
    requires Valid(t)
    ensures GetConsistent(t)
  {
    match t
    case TList(et, items) => ValidItemsGetConsistent(items, et);
    case TCompound(es) =>
      ValidEntriesGetConsistent(es);
      forall n ensures Lookup(es, n) == MapGet(AsMap(es), n) { GetAgreesWithIteration(es, n); }
    case _ =>
  }

  lemma {:induction false} ValidItemsGetConsistent(items: seq<Tag>, et: TagId)
    requires ValidItems(items, et)
    ensures GetConsistentItems(items)
  {
    if items != [] {
      ValidIsGetConsistent(items[0]);
      ValidItemsGetConsistent(items[1..], et);
    }
  }

  lemma {:induction false} ValidEntriesGetConsistent(es: seq<Entry>)
    requires ValidEntries(es)
    ensures GetConsistentEntries(es)
  {
    if es != [] {
      ValidIsGetConsistent(es[0].value);
      ValidEntriesGetConsistent(es[1..]);
    }
  }
}
