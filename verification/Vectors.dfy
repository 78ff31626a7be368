/** Byte layouts the repository's own tests pin down, so that no pair of matching mistakes can hide. */
module Vectors {
  import opened Bytes
  import opened VarInt
  import opened NbtTree
  import opened NbtFormat
  import opened Packets
  import opened Layouts

  /** crates/protocol/src/varint.rs, the documented encodings. */
  lemma VarIntVectors()
    ensures WriteVarInt(0) == [0x00] && WriteVarInt(127) == [0x7f] && WriteVarInt(128) == [0x80, 0x01]
    ensures WriteVarInt(25565) == [0xdd, 0xc7, 0x01] && WriteVarInt(2097151) == [0xff, 0xff, 0x7f]
  {
    assert WriteGroups(199) == [0xc7, 0x01] && WriteGroups(16383) == [0xff, 0x7f];
    assert WriteGroups(0x1FFFFF) == [0xff] + WriteGroups(16383);
  }

  lemma NegativeVarIntVectors()
    ensures WriteVarInt(-1) == [0xff, 0xff, 0xff, 0xff, 0x0f]
    ensures WriteVarInt(-2147483648) == [0x80, 0x80, 0x80, 0x80, 0x08]
  {
    hide WriteGroups;
    NextGroup(0xFFFFFFFF);
    NextGroup(0x1FFFFFF);
    NextGroup(0x3FFFF);
    NextGroup(0x7FF);
    NextGroup(15);
    NextGroup(0x80000000);
    NextGroup(0x1000000);
    NextGroup(0x20000);
    NextGroup(0x400);
    NextGroup(8);
  }

  lemma NextGroup(u: nat)
    ensures WriteGroups(u) == if u < 128 then [u] else [u % 128 + 128] + WriteGroups(u / 128)
  {}

  /** The 64-bit encodings. */
  lemma VarLongVectors()
    ensures WriteVarLong(9223372036854775807) == [0xff, 0xff, 0xff, 0xff, 0xff, 0xff, 0xff, 0xff, 0x7f]
    ensures WriteVarLong(-1) == [0xff, 0xff, 0xff, 0xff, 0xff, 0xff, 0xff, 0xff, 0xff, 0x01]
  {
    hide WriteGroups;
    NextGroup(0x7FFF_FFFF_FFFF_FFFF);
    NextGroup(0xFFFF_FFFF_FFFF_FFFF);
    NextGroup(0x1FF_FFFF_FFFF_FFFF);
    NextGroup(0xFF_FFFF_FFFF_FFFF);
    NextGroup(0x3_FFFF_FFFF_FFFF);
    NextGroup(0x1_FFFF_FFFF_FFFF);
    NextGroup(0x7FF_FFFF_FFFF);
    NextGroup(0x3FF_FFFF_FFFF);
    NextGroup(0xF_FFFF_FFFF);
    NextGroup(0x7_FFFF_FFFF);
    NextGroup(0x1FFF_FFFF);
    NextGroup(0xFFF_FFFF);
    NextGroup(0x3F_FFFF);
    NextGroup(0x1F_FFFF);
    NextGroup(0x7FFF);
    NextGroup(0x3FFF);
    NextGroup(0xFF);
    NextGroup(0x7F);
    NextGroup(1);
  }

  /** The tag numbering of crates/nbt/src/tag.rs. */
  lemma TagNumbering()
    ensures forall i :: 0 <= i < 13 ==>
              TagOf(i) == Some([End, Byte, Short, Int, Long, Float, Double, ByteArray, String, List, Compound,
                                IntArray, LongArray][i])
  {}

  lemma {:induction false} SmallBE(v: nat)
    requires v < 256
    ensures EncodeBE(2, v) == [0, v] && EncodeBE(4, v) == [0, 0, 0, v]
  {
    assert EncodeBE(1, 0) == [0] && EncodeBE(2, 0) == [0, 0] && EncodeBE(3, 0) == [0, 0, 0];
  }

  lemma OneEntryBody(name: bytes, t: Tag)
    requires |name| < 256
    ensures EncodeBody([Entry(name, t)]) == [TagByte(Id(t))] + (([0, |name|] + name) + (EncodePayload(t) + [0]))
  {
    SmallBE(|name|);
    hide EncodeBE, EncodePayload;
    var es := [Entry(name, t)];
    assert es[1..] == [] && EncodeBody([]) == [0];
    assert EncodeString(name) == [0, |name|] + name;
  }

  /** crates/nbt/src/write.rs: a nested compound holding one int, in the network form. */
  lemma DocumentVector()
    ensures NetworkDocument([Entry([0x6e, 0x75, 0x6d], TCompound([Entry([0x61], TInt(123))]))])
            == [0x0a] + ([0x0a] + (([0x00, 0x03] + [0x6e, 0x75, 0x6d])
                                   + (([0x03] + (([0x00, 0x01] + [0x61])
                                                 + ([0x00, 0x00, 0x00, 0x7b] + [0x00]))) + [0x00])))
  {
    SmallBE(123);
    assert EncodePayload(TInt(123)) == [0, 0, 0, 0x7b];
    hide EncodeBE;
    var inner := [Entry([0x61], TInt(123))];
    OneEntryBody([0x61], TInt(123));
    assert EncodePayload(TCompound(inner)) == EncodeBody(inner);
    OneEntryBody([0x6e, 0x75, 0x6d], TCompound(inner));
    hide EncodeBody, EncodePayload;
  }

  /** crates/nbt/src/write.rs: a list writes its type once, then bare payloads. */
  lemma ListVector()
    ensures EncodePayload(TList(Byte, [TByte(7), TByte(8)])) == [0x01, 0x00, 0x00, 0x00, 0x02, 0x07, 0x08]
  {
    SmallBE(2);
    assert EncodePayload(TByte(7)) == [7] && EncodePayload(TByte(8)) == [8] by {
      assert EncodeBE(1, 7) == [7] && EncodeBE(1, 8) == [8];
    }
    hide EncodeBE, EncodeLeaf;
    var items := [TByte(7), TByte(8)];
    assert EncodeItems(items) == [7, 8] by {
      hide EncodePayload;
      assert items[1..] == [TByte(8)] && [TByte(8)][1..] == [];
      assert EncodeItems([]) == [];
      assert EncodeItems([TByte(8)]) == [8];
    }
    hide EncodeItems;
  }

  /** crates/nbt/src/write.rs: scalars are big-endian, negative ones in two's complement. */
  lemma ScalarVectors()
    ensures EncodePayload(TByte(-1)) == [0xff] && EncodePayload(TShort(0x0102)) == [0x01, 0x02]
    ensures EncodePayload(TInt(-2)) == [0xff, 0xff, 0xff, 0xfe]
    ensures EncodePayload(TFloat(0x3fc0_0000)) == [0x3f, 0xc0, 0x00, 0x00]
    ensures EncodePayload(TLong(0x0102_0304_0506_0708)) == [0x01, 0x02, 0x03, 0x04, 0x05, 0x06, 0x07, 0x08]
    ensures EncodePayload(TDouble(0x0102_0304_0506_0708)) == [0x01, 0x02, 0x03, 0x04, 0x05, 0x06, 0x07, 0x08]
  {
    hide EncodeBE;
    LongBytes();
    NextByte(1, -1);
    NextByte(2, -1);
    NextByte(3, -1);
    NextByte(4, -2);
    NextByte(1, 0x01);
    NextByte(2, 0x0102);
    NextByte(1, 0x3f);
    NextByte(2, 0x3fc0);
    NextByte(3, 0x3f_c000);
    NextByte(4, 0x3fc0_0000);
    NoBytes();
  }

  lemma NextByte(width: nat, v: int)
    requires width > 0
    ensures EncodeBE(width, v) == EncodeBE(width - 1, v / 256) + [v % 256]
  {}

  lemma NoBytes()
    ensures forall v :: EncodeBE(0, v) == []
  {}

  lemma LongBytes()
    ensures EncodeBE(8, 0x0102_0304_0506_0708) == [0x01, 0x02, 0x03, 0x04, 0x05, 0x06, 0x07, 0x08]
  {
    hide EncodeBE;
    NoBytes();
    NextByte(1, 0x01);
    NextByte(2, 0x0102);
    NextByte(3, 0x01_0203);
    NextByte(4, 0x0102_0304);
    NextByte(5, 0x01_0203_0405);
    NextByte(6, 0x0102_0304_0506);
    NextByte(7, 0x01_0203_0405_0607);
    NextByte(8, 0x0102_0304_0506_0708);
  }

  /** crates/protocol/src/packets/login.rs: the name "ab", then the identity 1 in sixteen bytes. */
  lemma LoginStartVector()
    ensures EncodeLoginStart(LoginStart([0x61, 0x62], 1))
            == [0x02, 0x61, 0x62, 0, 0, 0, 0, 0, 0, 0, 0, 0, 0, 0, 0, 0, 0, 0, 1]
  {
    SmallValue(16, 1);
    ShortString([0x61, 0x62]);
    hide EncodeBE, WriteString;
  }

  lemma PortBytes()
    ensures EncodeBE(2, 25565) == [0x63, 0xdd]
  {
    assert EncodeBE(1, 0x63) == [0x63];
  }

  /** crates/protocol/src/packets/handshake.rs: version, address, port, next state, in that order. */
  lemma HandshakeVector()
    ensures EncodeHandshake(Handshake(776, [0x6c, 0x6f, 0x63, 0x61, 0x6c, 0x68, 0x6f, 0x73, 0x74], 25565, ToStatus))
            == [0x88, 0x06] + (([0x09] + [0x6c, 0x6f, 0x63, 0x61, 0x6c, 0x68, 0x6f, 0x73, 0x74])
                               + ([0x63, 0xdd] + [0x01]))
  {
    PortBytes();
    assert WriteVarInt(776) == [0x88, 0x06] && WriteVarInt(9) == [9] && WriteVarInt(1) == [1];
    hide WriteVarInt, EncodeBE;
  }
}
