/**
 The NBT wire format as pure functions: the byte layout of a tree, the measures the limits speak of,
 and the reader as a parser (crates/nbt/src/read.rs). The reader takes its limits as a parameter;
 `PYRITE` holds the repository's constants.
 */
module NbtFormat {
  import opened Bytes
  import opened Utf8
  import opened Names
  import opened NbtTree

  const MAX_DEPTH: nat := 512
  const MAX_TOTAL_NODES: nat := 0x1_0000
  const MAX_STRING: nat := 0xFFFF
  const MAX_ARRAY: nat := 0x7FFF_FFFF

  datatype Limits = Limits(depth: nat, nodes: nat)
  const PYRITE := Limits(MAX_DEPTH, MAX_TOTAL_NODES)

  // ----- layout -----

  function EncodeString(s: bytes): bytes {
    EncodeBE(2, |s|) + s
  }

  predicate IsLeaf(t: Tag) {
    !t.TList? && !t.TCompound?
  }

  function EncodeLeaf(t: Tag): (r: bytes)
    requires IsLeaf(t)
    ensures r != []
  {
    match t
    case TByte(v) => EncodeBE(1, v)
    case TShort(v) => EncodeBE(2, v)
    case TInt(v) => EncodeBE(4, v)
    case TLong(v) => EncodeBE(8, v)
    case TFloat(v) => EncodeBE(4, v)
    case TDouble(v) => EncodeBE(8, v)
    case TByteArray(s) => EncodeBE(4, |s|) + s
    case TString(s) => EncodeString(s)
    case TIntArray(vs) => EncodeBE(4, |vs|) + EncodeInts(4, vs)
    case TLongArray(vs) => EncodeBE(4, |vs|) + EncodeInts(8, vs)
  }

  function EncodePayload(t: Tag): (r: bytes) {
    match t
    case TList(et, items) => [TagByte(et)] + (EncodeBE(4, |items|) + EncodeItems(items))
    case TCompound(es) => EncodeBody(es)
    case _ => EncodeLeaf(t)
  }

  function EncodeItems(items: seq<Tag>): (r: bytes) {
    if items == [] then [] else EncodePayload(items[0]) + EncodeItems(items[1..])
  }

  function EncodeBody(es: seq<Entry>): (r: bytes) {
    if es == [] then [TagByte(End)]
    else [TagByte(Id(es[0].value))] + (EncodeString(es[0].name) + (EncodePayload(es[0].value) + EncodeBody(es[1..])))
  }

  // ----- measures -----

  /** Every string and array length fits its prefix. */
  predicate Fits(t: Tag) {
    match t
    case TByteArray(s) => |s| <= MAX_ARRAY
    case TString(s) => |s| <= MAX_STRING
    case TList(_, items) => |items| <= MAX_ARRAY && FitsItems(items)
    case TCompound(es) => FitsEntries(es)
    case TIntArray(vs) => |vs| <= MAX_ARRAY
    case TLongArray(vs) => |vs| <= MAX_ARRAY
    case _ => true
  }

  predicate FitsItems(items: seq<Tag>) {
    items == [] || (Fits(items[0]) && FitsItems(items[1..]))
  }

  predicate FitsEntries(es: seq<Entry>) {
    es == [] || (|es[0].name| <= MAX_STRING && Fits(es[0].value) && FitsEntries(es[1..]))
  }

  function Max(a: nat, b: nat): nat { if a < b then b else a }

  /** Levels below a tag: a compound always opens one, a list only when it has items. */
  function Height(t: Tag): nat {
    match t
    case TList(_, items) => HeightItems(items)
    case TCompound(es) => 1 + HeightEntries(es)
    case _ => 0
  }

  function HeightItems(items: seq<Tag>): nat {
    if items == [] then 0 else Max(1 + Height(items[0]), HeightItems(items[1..]))
  }

  function HeightEntries(es: seq<Entry>): nat {
    if es == [] then 0 else Max(Height(es[0].value), HeightEntries(es[1..]))
  }

  /** The number of tags in a tree, itself included. */
  function Count(t: Tag): (n: nat)
    ensures n >= 1
  {
    match t
    case TList(_, items) => 1 + CountItems(items)
    case TCompound(es) => 1 + CountEntries(es)
    case _ => 1
  }

  function CountItems(items: seq<Tag>): nat {
    if items == [] then 0 else Count(items[0]) + CountItems(items[1..])
  }

  function CountEntries(es: seq<Entry>): nat {
    if es == [] then 0 else Count(es[0].value) + CountEntries(es[1..])
  }

  // ----- parsing flat fields -----

  type Read<+T> = Parse<T, NbtError>

  function ParseTagId(s: bytes): (r: Read<TagId>)
    ensures r.Ok? ==> s == [TagByte(r.value)] + r.rest
  {
    if s == [] then Err(UnexpectedEof)
    else match TagOf(s[0]) case None => Err(UnknownTag(s[0])) case Some(id) => Ok(id, s[1..])
  }

  function ParseString(s: bytes): (r: Read<bytes>)
    ensures r.Ok? ==> |r.rest| < |s|
  {
    if |s| < 2 then Err(UnexpectedEof)
    else
      var len, s1 := DecodeBE(s[..2]), s[2..];
      if |s1| < len then Err(LengthExceedsInput(len, |s1|))
      else if !IsUtf8(s1[..len]) then Err(InvalidUtf8)
      else Ok(s1[..len], s1[len..])
  }

  /** An element count, refused when that many elements of the least size could not follow. */
  function ParseLength(s: bytes, minElementSize: nat): (r: Read<nat>)
    ensures r.Ok? ==> r.value * minElementSize <= |r.rest| && |s| == |r.rest| + 4
  {
    if |s| < 4 then Err(UnexpectedEof)
    else
      var len, s1 := DecodeInt(s[..4]), s[4..];
      if len < 0 then Err(NegativeLength(len))
      else if len * minElementSize > |s1| then Err(LengthExceedsInput(len * minElementSize, |s1|))
      else Ok(len, s1)
  }

  function MinElementSize(id: TagId): nat {
    match id
    case End => 0
    case Short => 2
    case Int => 4
    case Float => 4
    case Long => 8
    case Double => 8
    case _ => 1
  }

  /** Every type that carries a payload but the two containers. */
  function ParseLeaf(s: bytes, id: TagId): (r: Read<Tag>)
    requires id != End && id != List && id != Compound
    ensures r.Ok? ==> |r.rest| < |s|
  {
    match id
    case Byte => if |s| < 1 then Err(UnexpectedEof) else Ok(TByte(DecodeInt(s[..1])), s[1..])
    case Short => if |s| < 2 then Err(UnexpectedEof) else Ok(TShort(DecodeInt(s[..2])), s[2..])
    case Int => if |s| < 4 then Err(UnexpectedEof) else Ok(TInt(DecodeInt(s[..4])), s[4..])
    case Long => if |s| < 8 then Err(UnexpectedEof) else Ok(TLong(DecodeInt(s[..8])), s[8..])
    case Float => if |s| < 4 then Err(UnexpectedEof) else Ok(TFloat(DecodeBE(s[..4])), s[4..])
    case Double => if |s| < 8 then Err(UnexpectedEof) else Ok(TDouble(DecodeBE(s[..8])), s[8..])
    case ByteArray =>
      (match ParseLength(s, 1)
       case Err(e) => Err(e)
       case Ok(n, s1) => Ok(TByteArray(s1[..n]), s1[n..]))
    case String =>
      (match ParseString(s)
       case Err(e) => Err(e)
       case Ok(text, s1) => Ok(TString(text), s1))
    case IntArray =>
      (match ParseLength(s, 4)
       case Err(e) => Err(e)
       case Ok(n, s1) => Ok(TIntArray(DecodeInts(4, s1, n)), s1[4 * n..]))
    case LongArray =>
      (match ParseLength(s, 8)
       case Err(e) => Err(e)
       case Ok(n, s1) => Ok(TLongArray(DecodeInts(8, s1, n)), s1[8 * n..]))
  }

  // ----- parsing trees -----

  /** `nodes` is the running total of tags decoded so far. */
  datatype Parsed<+T> = Done(value: T, rest: bytes, nodes: nat) | Stop(error: NbtError)

  function ParsePayload(lim: Limits, s: bytes, id: TagId, depth: nat, nodes: nat): (r: Parsed<Tag>)
    ensures r.Done? ==> |r.rest| < |s|
    decreases |s|, 1
  {
    if depth > lim.depth then Stop(DepthExceeded(lim.depth))
    else if nodes + 1 > lim.nodes then Stop(TooManyNodes(lim.nodes))
    else match id
      case End => Stop(InvalidListElementType(End))
      case List =>
        (match ParseTagId(s)
         case Err(e) => Stop(e)
         case Ok(et, s1) =>
           match ParseLength(s1, MinElementSize(et))
           case Err(e) => Stop(e)
           case Ok(n, s2) =>
             if et == End && n != 0 then Stop(InvalidListElementType(End))
             else match ParseItems(lim, s2, et, n, depth + 1, nodes + 1)
               case Stop(e) => Stop(e)
               case Done(items, s3, total) => Done(TList(et, items), s3, total))
      case Compound =>
        (match ParseBody(lim, s, depth + 1, nodes + 1)
         case Stop(e) => Stop(e)
         case Done(es, s1, total) => Done(TCompound(es), s1, total))
      case _ =>
        match ParseLeaf(s, id)
        case Err(e) => Stop(e)
        case Ok(t, s1) => Done(t, s1, nodes + 1)
  }

  function ParseItems(lim: Limits, s: bytes, id: TagId, n: nat, depth: nat, nodes: nat): (r: Parsed<seq<Tag>>)
    ensures r.Done? ==> |r.rest| <= |s|
    decreases |s|, 2
  {
    if n == 0 then Done([], s, nodes)
    else match ParsePayload(lim, s, id, depth, nodes)
      case Stop(e) => Stop(e)
      case Done(t, s1, nodes1) => Prepend([t], ParseItems(lim, s1, id, n - 1, depth, nodes1))
  }

  function ParseBody(lim: Limits, s: bytes, depth: nat, nodes: nat): (r: Parsed<seq<Entry>>)
    ensures r.Done? ==> |r.rest| < |s|
    decreases |s|, 0, 1
  {
    if depth > lim.depth then Stop(DepthExceeded(lim.depth))
    else match ParseEntries(lim, s, depth, nodes)
      case Stop(e) => Stop(e)
      case Done(es, s1, total) =>
        match DuplicateName(NamesOf(es))
        case Some(name) => Stop(DuplicateKey(name))
        case None => Done(es, s1, total)
  }

  function ParseEntries(lim: Limits, s: bytes, depth: nat, nodes: nat): (r: Parsed<seq<Entry>>)
    ensures r.Done? ==> |r.rest| < |s|
    decreases |s|, 0, 0
  {
    match ParseTagId(s)
    case Err(e) => Stop(e)
    case Ok(id, s1) =>
      if id == End then Done([], s1, nodes)
      else match ParseString(s1)
        case Err(e) => Stop(e)
        case Ok(name, s2) =>
          match ParsePayload(lim, s2, id, depth, nodes)
          case Stop(e) => Stop(e)
          case Done(value, s3, nodes1) => Prepend([Entry(name, value)], ParseEntries(lim, s3, depth, nodes1))
  }

  /** The result of a loop that had already pushed `acc` when the rest of it gave `r`. */
  function Prepend<T>(acc: seq<T>, r: Parsed<seq<T>>): (q: Parsed<seq<T>>)
    ensures r.Done? <==> q.Done?
    ensures q.Done? ==> q.rest == r.rest && q.nodes == r.nodes
    ensures acc == [] ==> q == r
    ensures r.Done? && r.value == [] ==> q.value == acc
  {
    match r case Stop(e) => Stop(e) case Done(v, s, n) => assert [] + v == v; Done(acc + v, s, n)
  }

  // ----- documents -----

  function ParseNetworkRoot(lim: Limits, s: bytes): (r: Parsed<seq<Entry>>) {
    match ParseTagId(s)
    case Err(e) => Stop(e)
    case Ok(id, s1) => if id != Compound then Stop(RootNotCompound(id)) else ParseBody(lim, s1, 1, 0)
  }

  datatype Named = Named(name: bytes, entries: seq<Entry>)

  function ParseNamedRoot(lim: Limits, s: bytes): (r: Parsed<Named>) {
    match ParseTagId(s)
    case Err(e) => Stop(e)
    case Ok(id, s1) =>
      if id != Compound then Stop(RootNotCompound(id))
      else match ParseString(s1)
        case Err(e) => Stop(e)
        case Ok(name, s2) =>
          match ParseBody(lim, s2, 1, 0)
          case Stop(e) => Stop(e)
          case Done(es, s3, total) => Done(Named(name, es), s3, total)
  }

  function ParseOptionalRoot(lim: Limits, s: bytes): (r: Parsed<Option<seq<Entry>>>) {
    match ParseTagId(s)
    case Err(e) => Stop(e)
    case Ok(id, s1) =>
      if id == End then Done(None, s1, 0)
      else if id != Compound then Stop(RootNotCompound(id))
      else match ParseBody(lim, s1, 1, 0)
        case Stop(e) => Stop(e)
        case Done(es, s2, total) => Done(Some(es), s2, total)
  }

  function NetworkDocument(es: seq<Entry>): bytes {
    [TagByte(Compound)] + EncodeBody(es)
  }

  function NamedDocument(name: bytes, es: seq<Entry>): bytes {
    [TagByte(Compound)] + (EncodeString(name) + EncodeBody(es))
  }
}
