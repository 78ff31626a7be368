/**
 Where every byte of a layout stands and what it is (crates/nbt/src/write.rs, crates/protocol/src/buf.rs), with
 the numbers written out, so that a mistake made alike in writing and reading shows.
 */
module Layouts {
  import opened Bytes
  import opened VarInt
  import opened NbtTree
  import opened NbtFormat
  import opened NbtTheorems
  import opened Packets

  // ----- NBT -----

  /** Each type's own number. */
  lemma IdNumbers(t: Tag)
    ensures TagByte(Id(t)) ==
            match t
            case TByte(_) => 1 case TShort(_) => 2 case TInt(_) => 3 case TLong(_) => 4 case TFloat(_) => 5
            case TDouble(_) => 6 case TByteArray(_) => 7 case TString(_) => 8 case TList(_, _) => 9
            case TCompound(_) => 10 case TIntArray(_) => 11 case TLongArray(_) => 12
    ensures TagByte(End) == 0
  {}

  function Bits(t: Tag): int
    requires IsNumber(t)
  {
    match t
    case TByte(v) => v case TShort(v) => v case TInt(v) => v case TLong(v) => v case TFloat(v) => v case TDouble(v) => v
  }

  /** Byte `i` of a value of `width` bytes is what is left of it after the bytes below are shifted out. */
  predicate InOrder(s: bytes, width: nat, v: int) {
    |s| == width && forall i :: 0 <= i < width ==> s[i] == ShiftBytes(v, width - 1 - i) % 256
  }

  lemma EncodedInOrder(width: nat, v: int)
    ensures InOrder(EncodeBE(width, v), width, v)
  {
    forall i | 0 <= i < width
      ensures EncodeBE(width, v)[i] == ShiftBytes(v, width - 1 - i) % 256
    {
      BigEndian(width, v, i);
    }
  }

  /** Every number is in network byte order, at its own width. */
  lemma NumberLayout(t: Tag)
    requires IsNumber(t)
    ensures var width := match t
                         case TByte(_) => 1 case TShort(_) => 2 case TInt(_) => 4 case TLong(_) => 8 case TFloat(_) => 4
                         case TDouble(_) => 8;
            InOrder(EncodePayload(t), width, Bits(t))
  {
    hide EncodeBE, InOrder;
    EncodedInOrder(|EncodePayload(t)|, Bits(t));
  }

  /** The `j`th element of an array stands at its place, at its width, in the same order. */
  lemma {:induction false} EncodeIntsAt(width: nat, vs: seq<int>, j: nat)
    requires j < |vs|
    ensures 0 <= width * j <= width * j + width <= |EncodeInts(width, vs)|
    ensures EncodeInts(width, vs)[width * j..width * j + width] == EncodeBE(width, vs[j])
  {
    hide EncodeBE;
    assert |EncodeInts(width, vs)| == width + width * |vs[1..]|;
    if j == 0 {
      assert width * j == 0;
    } else {
      EncodeIntsAt(width, vs[1..], j - 1);
      assert width * j == width + width * (j - 1);
      SliceAfter(EncodeBE(width, vs[0]), EncodeInts(width, vs[1..]), width * (j - 1), width * (j - 1) + width);
    }
  }

  lemma SliceAfter(a: bytes, b: bytes, i: nat, j: nat)
    requires i <= j <= |b|
    ensures (a + b)[|a| + i..|a| + j] == b[i..j]
  {}

  /** An array is its count in four bytes, then its elements: 1, 4 or 8 bytes each. */
  lemma ArrayLayout(raw: bytes, ints: seq<int>, j: nat)
    ensures var s := EncodePayload(TByteArray(raw)); |s| == 4 + |raw| && InOrder(s[..4], 4, |raw|) && s[4..] == raw
    ensures var s := EncodePayload(TIntArray(ints)); |s| == 4 + 4 * |ints| && InOrder(s[..4], 4, |ints|)
    ensures var s := EncodePayload(TLongArray(ints)); |s| == 4 + 8 * |ints| && InOrder(s[..4], 4, |ints|)
    ensures j < |ints| ==> InOrder(EncodePayload(TIntArray(ints))[4 + 4 * j..8 + 4 * j], 4, ints[j])
    ensures j < |ints| ==> InOrder(EncodePayload(TLongArray(ints))[4 + 8 * j..12 + 8 * j], 8, ints[j])
  {
    hide EncodeBE, EncodeInts, InOrder;
    EncodedInOrder(4, |raw|);
    EncodedInOrder(4, |ints|);
    Split(EncodeBE(4, |raw|), raw);
    Split(EncodeBE(4, |ints|), EncodeInts(4, ints));
    Split(EncodeBE(4, |ints|), EncodeInts(8, ints));
    if j < |ints| {
      EncodedInOrder(4, ints[j]);
      EncodedInOrder(8, ints[j]);
      EncodeIntsAt(4, ints, j);
      EncodeIntsAt(8, ints, j);
      SliceAfter(EncodeBE(4, |ints|), EncodeInts(4, ints), 4 * j, 4 * j + 4);
      SliceAfter(EncodeBE(4, |ints|), EncodeInts(8, ints), 8 * j, 8 * j + 8);
    }
  }

  /** A string is its length in two bytes, then its bytes; a list its type, its count in four, then bare payloads. */
  lemma StringAndListLayout(text: bytes, et: TagId, items: seq<Tag>)
    ensures var s := EncodePayload(TString(text)); |s| == 2 + |text| && InOrder(s[..2], 2, |text|) && s[2..] == text
    ensures var s := EncodePayload(TList(et, items));
            && |s| == 5 + |EncodeItems(items)| && s[0] == TagByte(et) && InOrder(s[1..5], 4, |items|)
            && s[5..] == EncodeItems(items)
  {
    hide EncodeBE, EncodeItems, InOrder;
    EncodedInOrder(2, |text|);
    EncodedInOrder(4, |items|);
    Split(EncodeBE(2, |text|), text);
    var s := EncodePayload(TList(et, items));
    assert s[1..5] == EncodeBE(4, |items|);
    assert s[5..] == EncodeItems(items);
  }

  /** A compound is type, name and payload of each entry, then an `End`. */
  lemma CompoundLayout(e: Entry, es: seq<Entry>)
    ensures EncodePayload(TCompound([])) == [0]
    ensures EncodePayload(TCompound([e] + es))
            == [TagByte(Id(e.value))]
               + (EncodePayload(TString(e.name)) + (EncodePayload(e.value) + EncodePayload(TCompound(es))))
  {
    hide EncodeBE, Id;
    assert ([e] + es)[1..] == es;
  }

  // ----- packets -----

  lemma {:induction false} SmallValue(width: nat, v: byte)
    requires width > 0
    ensures EncodeBE(width, v) == seq(width - 1, _ => 0) + [v as int]
  {
    if width > 1 {
      SmallValue(width - 1, 0);
      assert EncodeBE(width, v) == EncodeBE(width - 1, 0) + [v as int];
      assert EncodeBE(width - 1, 0) == seq(width - 1, _ => 0);
    }
  }

  /** A string in a packet: its byte length as a VarInt, then its bytes. */
  lemma ShortString(text: bytes)
    requires |text| < 128
    ensures WriteString(text) == [|text|] + text
  {
    assert WriteGroups(|text|) == [|text|];
  }

  /** Name before identity, the identity in sixteen bytes with its low byte last. */
  lemma LoginStartLayout(name: bytes, uuid: u128)
    requires |name| < 128
    ensures var s := EncodeLoginStart(LoginStart(name, uuid));
            |s| == 17 + |name| && s[0] == |name| && s[1..1 + |name|] == name && InOrder(s[1 + |name|..], 16, uuid)
  {
    hide EncodeBE, InOrder, WriteString;
    ShortString(name);
    EncodedInOrder(16, uuid);
    var s := EncodeLoginStart(LoginStart(name, uuid));
    assert s[1..1 + |name|] == name;
    assert s[1 + |name|..] == EncodeBE(16, uuid);
  }

  /** A property: name, value, then a presence byte and the signature if there is one. */
  lemma PropertyLayout(name: bytes, value: bytes, signature: bytes)
    requires |name| < 128 && |value| < 128 && |signature| < 128
    ensures EncodeProperty(ProfileProperty(name, value, None)) == ([|name|] + name) + (([|value|] + value) + [0])
    ensures EncodeProperty(ProfileProperty(name, value, Some(signature)))
            == ([|name|] + name) + (([|value|] + value) + ([1] + ([|signature|] + signature)))
  {
    hide WriteString;
    ShortString(name);
    ShortString(value);
    ShortString(signature);
  }

  /** A login success: identity, name, counted properties, session, in that order. */
  lemma LoginSuccessLayout(uuid: u128, name: bytes, p: ProfileProperty, session: u128)
    requires |name| < 128
    ensures var s := EncodeLoginSuccess(LoginSuccess(GameProfile(uuid, name, [p]), session));
            var n := 17 + |name|; var m := n + 1 + |EncodeProperty(p)|;
            && |s| == m + 16 && InOrder(s[..16], 16, uuid) && s[16] == |name| && s[17..n] == name
            && s[n] == 1 && s[n + 1..m] == EncodeProperty(p) && InOrder(s[m..], 16, session)
    ensures var s := EncodeLoginSuccess(LoginSuccess(GameProfile(uuid, name, []), session));
            var n := 17 + |name|;
            && |s| == n + 17 && InOrder(s[..16], 16, uuid) && s[16] == |name| && s[17..n] == name
            && s[n] == 0 && InOrder(s[n + 1..], 16, session)
  {
    hide EncodeLoginSuccess, EncodeProperty, EncodePropertyArray, InOrder;
    FewProperties(p);
    SuccessParts(uuid, name, [p], session);
    SuccessParts(uuid, name, [], session);
    Headed(EncodeLoginSuccess(LoginSuccess(GameProfile(uuid, name, [p]), session)), 17 + |name|, 1, EncodeProperty(p));
    Headed(EncodeLoginSuccess(LoginSuccess(GameProfile(uuid, name, []), session)), 17 + |name|, 0, []);
  }

  lemma FewProperties(p: ProfileProperty)
    ensures EncodePropertyArray([p]) == [1] + EncodeProperty(p) && EncodePropertyArray([]) == [0]
  {
    assert WriteGroups(1) == [1] && WriteGroups(0) == [0];
    hide EncodeProperty;
    assert [p][1..] == [];
    assert EncodeProperties([]) == [];
  }

  lemma SuccessParts(uuid: u128, name: bytes, ps: seq<ProfileProperty>, session: u128)
    requires |name| < 128
    ensures var s := EncodeLoginSuccess(LoginSuccess(GameProfile(uuid, name, ps), session));
            var n := 17 + |name|; var m := n + |EncodePropertyArray(ps)|;
            && |s| == m + 16 && InOrder(s[..16], 16, uuid) && s[16] == |name| && s[17..n] == name
            && s[n..m] == EncodePropertyArray(ps) && InOrder(s[m..], 16, session)
  {
    hide EncodeBE, InOrder, WriteString, EncodePropertyArray;
    ShortString(name);
    EncodedInOrder(16, uuid);
    EncodedInOrder(16, session);
    FourParts(EncodeBE(16, uuid), WriteString(name), EncodePropertyArray(ps), EncodeBE(16, session));
    var s := EncodeLoginSuccess(LoginSuccess(GameProfile(uuid, name, ps), session));
    Headed(s, 16, |name|, name);
  }

  /** A part of `s` that is one byte and then some others. */
  lemma Headed(s: bytes, at: nat, head: byte, tail: bytes)
    requires at + 1 + |tail| <= |s| && s[at..at + 1 + |tail|] == [head] + tail
    ensures s[at] == head && s[at + 1..at + 1 + |tail|] == tail
  {
    var b := s[at..at + 1 + |tail|];
    assert s[at] == b[0] && s[at + 1..at + 1 + |tail|] == b[1..];
  }

  lemma FourParts(a: bytes, b: bytes, c: bytes, d: bytes)
    ensures var s := a + (b + (c + d)); var i := |a| + |b|; var j := i + |c|;
            |s| == j + |d| && s[..|a|] == a && s[|a|..i] == b && s[i..j] == c && s[j..] == d
  {}
}
