/**
 The NBT reader as the source runs it (crates/nbt/src/read.rs): recursive descent over one mutable
 input with a shared node counter. Every method is proved to do what its parser in `NbtFormat` says.
 */
module NbtReader {
  import opened Bytes
  import opened Utf8
  import opened Names
  import opened NbtTree
  import opened NbtFormat

  type Outcome<+T> = Result<T, NbtError>

  /** The running total of tags, shared by the whole descent. */
  class Counter {
    var n: nat

    constructor ()
      ensures n == 0
    {
      n := 0;
    }
  }

  /** The same for a parser of trees, which also counts. */
  ghost predicate FollowsTree<T>(r: Outcome<T>, rest: bytes, n: nat, p: Parsed<T>) {
    match p case Done(v, s, total) => r == Success(v) && rest == s && n == total case Stop(e) => r == Failure(e)
  }

  method ReadTagId(src: Source) returns (r: Outcome<TagId>)
    modifies src
    ensures Follows(r, src.rest, ParseTagId(old(src.rest)))
  {
    if src.rest == [] {
      return Failure(UnexpectedEof);
    }
    var b := src.rest[0];
    src.rest := src.rest[1..];
    match TagOf(b)
    case None => return Failure(UnknownTag(b));
    case Some(id) => return Success(id);
  }

  method ReadNbtString(src: Source) returns (r: Outcome<bytes>)
    modifies src
    ensures Follows(r, src.rest, ParseString(old(src.rest)))
  {
    if |src.rest| < 2 {
      return Failure(UnexpectedEof);
    }
    var len := DecodeBE(src.rest[..2]);
    src.rest := src.rest[2..];
    if |src.rest| < len {
      return Failure(LengthExceedsInput(len, |src.rest|));
    }
    var text := src.rest[..len];
    src.rest := src.rest[len..];
    if !IsUtf8(text) {
      return Failure(InvalidUtf8);
    }
    return Success(text);
  }

  method ReadLength(src: Source, minElementSize: nat) returns (r: Outcome<nat>)
    modifies src
    ensures Follows(r, src.rest, ParseLength(old(src.rest), minElementSize))
  {
    if |src.rest| < 4 {
      return Failure(UnexpectedEof);
    }
    var declared := DecodeInt(src.rest[..4]);
    src.rest := src.rest[4..];
    if declared < 0 {
      return Failure(NegativeLength(declared));
    }
    var required := declared * minElementSize;
    if required > |src.rest| {
      return Failure(LengthExceedsInput(required, |src.rest|));
    }
    return Success(declared);
  }

  /** A fixed-width value, once the input is known to hold it. */
  method ReadFixed(src: Source, width: nat) returns (r: Outcome<bytes>)
    modifies src
    ensures if |old(src.rest)| < width then r == Failure(UnexpectedEof)
            else r == Success(old(src.rest)[..width]) && src.rest == old(src.rest)[width..]
  {
    if |src.rest| < width {
      return Failure(UnexpectedEof);
    }
    r := Success(src.rest[..width]);
    src.rest := src.rest[width..];
  }

  /** The array loops read without checking again: the length check has already paid for every element. */
  method GetInts(src: Source, width: nat, n: nat) returns (values: seq<int>)
    requires width > 0 && width * n <= |src.rest|
    modifies src
    ensures values == DecodeInts(width, old(src.rest), n) && src.rest == old(src.rest)[width * n..]
  {
    hide DecodeInts, DecodeInt;
    values := [];
    ghost var s := src.rest;
    for i := 0 to n
      invariant width * i + width * (n - i) == width * n && 0 <= width * i && 0 <= width * (n - i)
      invariant src.rest == s[width * i..] && |values| == i
      invariant DecodeInts(width, s, n) == values + DecodeInts(width, src.rest, n - i)
    {
      NextInt(width, src.rest, n - i);
      assert width * (n - i) == width + width * (n - i - 1) && width * (n - i - 1) >= 0;
      assert width * (i + 1) == width * i + width;
      values := values + [DecodeInt(src.rest[..width])];
      src.rest := src.rest[width..];
    }
    assert values + DecodeInts(width, src.rest, 0) == values;
  }

  method ReadLeaf(src: Source, id: TagId) returns (r: Outcome<Tag>)
    requires id != End && id != List && id != Compound
    modifies src
    ensures Follows(r, src.rest, ParseLeaf(old(src.rest), id))
  {
    hide DecodeInt, DecodeBE, DecodeInts, ParseLength, ParseString;
    match id
    case Byte => var v :- ReadFixed(src, 1); return Success(TByte(DecodeInt(v)));
    case Short => var v :- ReadFixed(src, 2); return Success(TShort(DecodeInt(v)));
    case Int => var v :- ReadFixed(src, 4); return Success(TInt(DecodeInt(v)));
    case Long => var v :- ReadFixed(src, 8); return Success(TLong(DecodeInt(v)));
    case Float => var v :- ReadFixed(src, 4); return Success(TFloat(DecodeBE(v)));
    case Double => var v :- ReadFixed(src, 8); return Success(TDouble(DecodeBE(v)));
    case ByteArray =>
      var n :- ReadLength(src, 1);
      r := Success(TByteArray(src.rest[..n]));
      src.rest := src.rest[n..];
    case String => var text :- ReadNbtString(src); return Success(TString(text));
    case IntArray =>
      var n :- ReadLength(src, 4);
      var values := GetInts(src, 4, n);
      return Success(TIntArray(values));
    case LongArray =>
      var n :- ReadLength(src, 8);
      var values := GetInts(src, 8, n);
      return Success(TLongArray(values));
  }

  method ReadPayload(src: Source, id: TagId, depth: nat, nodes: Counter) returns (r: Outcome<Tag>)
    modifies src, nodes
    ensures FollowsTree(r, src.rest, nodes.n, ParsePayload(PYRITE, old(src.rest), id, depth, old(nodes.n)))
    decreases |src.rest|, 1
  {
    hide ParseLeaf, ParseLength, ParseItems, ParseBody;
    if depth > MAX_DEPTH {
      return Failure(DepthExceeded(MAX_DEPTH));
    }
    nodes.n := nodes.n + 1;
    if nodes.n > MAX_TOTAL_NODES {
      return Failure(TooManyNodes(MAX_TOTAL_NODES));
    }
    match id
    case End => return Failure(InvalidListElementType(End));
    case List =>
      var elementType :- ReadTagId(src);
      var len :- ReadLength(src, MinElementSize(elementType));
      if elementType == End && len != 0 {
        return Failure(InvalidListElementType(End));
      }
      var items :- ReadItems(src, elementType, len, depth + 1, nodes);
      return Success(TList(elementType, items));
    case Compound =>
      var entries :- ReadCompoundBody(src, depth + 1, nodes);
      return Success(TCompound(entries));
    case _ => r := ReadLeaf(src, id);
  }

  /** The list-element loop of `read_payload`. */
  method ReadItems(src: Source, id: TagId, len: nat, depth: nat, nodes: Counter) returns (r: Outcome<seq<Tag>>)
    modifies src, nodes
    ensures FollowsTree(r, src.rest, nodes.n, ParseItems(PYRITE, old(src.rest), id, len, depth, old(nodes.n)))
    decreases |src.rest|, 2
  {
    hide ParsePayload;
    var items: seq<Tag> := [];
    for i := 0 to len
      invariant |src.rest| <= |old(src.rest)|
      invariant ParseItems(PYRITE, old(src.rest), id, len, depth, old(nodes.n))
             == Prepend(items, ParseItems(PYRITE, src.rest, id, len - i, depth, nodes.n))
    {
      PrependTwice(items, ParseItems(PYRITE, src.rest, id, len - i, depth, nodes.n));
      var item :- ReadPayload(src, id, depth, nodes);
      items := items + [item];
    }
    return Success(items);
  }

  method ReadCompoundBody(src: Source, depth: nat, nodes: Counter) returns (r: Outcome<seq<Entry>>)
    modifies src, nodes
    ensures FollowsTree(r, src.rest, nodes.n, ParseBody(PYRITE, old(src.rest), depth, old(nodes.n)))
    decreases |src.rest|, 0
  {
    hide ParsePayload, ParseString, DuplicateName;
    if depth > MAX_DEPTH {
      return Failure(DepthExceeded(MAX_DEPTH));
    }
    var compound := new NbtCompound();
    while true
      invariant |src.rest| <= |old(src.rest)| && fresh(compound)
      invariant ParseEntries(PYRITE, old(src.rest), depth, old(nodes.n))
             == Prepend(compound.entries, ParseEntries(PYRITE, src.rest, depth, nodes.n))
      decreases |src.rest|
    {
      PrependTwice(compound.entries, ParseEntries(PYRITE, src.rest, depth, nodes.n));
      var id :- ReadTagId(src);
      if id == End {
        var duplicate := FindDuplicate(NamesOf(compound.entries));
        if duplicate.Some? {
          return Failure(DuplicateKey(duplicate.value));
        }
        return Success(compound.entries);
      }
      var name :- ReadNbtString(src);
      var value :- ReadPayload(src, id, depth, nodes);
      compound.Push(name, value);
    }
  }

  /** Pushing one more element before the rest of a loop, whatever that element and rest are. */
  lemma PrependTwice<T>(acc: seq<T>, r: Parsed<seq<T>>)
    ensures forall x: T, q: Parsed<seq<T>> :: r == Prepend([x], q) ==> Prepend(acc, r) == Prepend(acc + [x], q)
  {
    forall x: T, q: Parsed<seq<T>> | r == Prepend([x], q) ensures Prepend(acc, r) == Prepend(acc + [x], q) {
      if q.Done? {
        assert acc + ([x] + q.value) == (acc + [x]) + q.value;
      }
    }
  }

  method ReadNetworkRoot(src: Source) returns (r: Outcome<seq<Entry>>)
    modifies src
    ensures match ParseNetworkRoot(PYRITE, old(src.rest))
            case Done(es, s, _) => r == Success(es) && src.rest == s
            case Stop(e) => r == Failure(e)
  {
    hide ParseBody;
    var id :- ReadTagId(src);
    if id != Compound {
      return Failure(RootNotCompound(id));
    }
    var nodes := new Counter();
    r := ReadCompoundBody(src, 1, nodes);
  }

  method ReadNamedRoot(src: Source) returns (r: Outcome<Named>)
    modifies src
    ensures match ParseNamedRoot(PYRITE, old(src.rest))
            case Done(doc, s, _) => r == Success(doc) && src.rest == s
            case Stop(e) => r == Failure(e)
  {
    hide ParseBody, ParseString;
    var id :- ReadTagId(src);
    if id != Compound {
      return Failure(RootNotCompound(id));
    }
    var name :- ReadNbtString(src);
    var nodes := new Counter();
    var entries :- ReadCompoundBody(src, 1, nodes);
    return Success(Named(name, entries));
  }

  method ReadOptionalNetworkRoot(src: Source) returns (r: Outcome<Option<seq<Entry>>>)
    modifies src
    ensures match ParseOptionalRoot(PYRITE, old(src.rest))
            case Done(doc, s, _) => r == Success(doc) && src.rest == s
            case Stop(e) => r == Failure(e)
  {
    hide ParseBody;
    var id :- ReadTagId(src);
    match id
    case End => return Success(None);
    case Compound =>
      var nodes := new Counter();
      var entries :- ReadCompoundBody(src, 1, nodes);
      return Success(Some(entries));
    case other => return Failure(RootNotCompound(other));
  }
}
