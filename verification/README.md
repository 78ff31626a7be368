# Pyrite, modelled and proved in Dafny

Pyrite is a server that speaks the Minecraft network protocol. This project models its byte-level core and
proves what that core is for:

- **NBT** (`crates/nbt`): a recursive-descent reader with a depth guard split over two functions, a node
  budget, length limits and a duplicate-name scan, and the mirror-image writer. They are proved to be exact
  inverses of each other, with exact limits.
- **Framing and compression** (`crates/protocol/src/codec.rs`, `varint.rs`): an incremental decoder over
  fragmented input and an encoder with three frame forms.
- **Packets** (`buf.rs`, `packets/`): field codecs with caps.
- **Connections** (`crates/net/src/connection.rs`, `state.rs`): the state machine with its mid-stream format
  switch, driven by events, by raw bytes in arbitrary reads, and against a client over two byte streams.
- **The accept loop** (`crates/net/src/server.rs`): permits under every interleaving.

## How it is laid out

Each source file that works by mutation has methods here that mutate the same things in the same order
(`NbtReader`, `NbtWriter`, the loops in `VarInt` and `Packets`, the classes in `Codec`, `Service` and
`NbtTree`, the two phases of `AcceptLoop.Serve`). Each method is proved equal to a pure function of its input, and the theorems
are about those functions.

| file | holds |
|---|---|
| `Bytes.dfy`, `Utf8.dfy`, `Wire.dfy` | bytes, big-endian integers, buffers; UTF-8; protocol errors |
| `Names.dfy` | the byte order of names, sorting, the duplicate scan |
| `NbtTree.dfy` | the value tree and its construction API |
| `NbtFormat.dfy` | the wire layout, the measures the limits speak of, the reader as a parser |
| `NbtTheorems.dfy` | round trips, canonical bytes, exact limits, prefix freedom |
| `NbtReader.dfy`, `NbtWriter.dfy` | reader and writer as they run; writer against layout and reader |
| `NbtLimits.dfy` | the limits with the repository's numbers, and what every refusal says |
| `VarInt.dfy`, `Packets.dfy`, `Codec.dfy` | VarInts, packets, frames and streams |
| `Connection.dfy`, `Answers.dfy` | one connection and what every run of it keeps; what each packet is answered with |
| `Replies.dfy`, `Service.dfy` | replies as bytes and a client's reading of them; a connection driven by bytes |
| `TwoParty.dfy`, `PatientLogin.dfy` | server and client together; a login run to its end |
| `AcceptLoop.dfy` | admission and draining |
| `Layouts.dfy`, `Vectors.dfy` | where every byte of a layout stands; byte layouts pinned by the repository's tests |

## Modelling choices

- `usize` is an unbounded natural (the source's own note says its one overflow branch is unreachable on 64
  bits). `as i32` casts wrap explicitly (`CastI32`). Shifts and masks are stated as division and remainder.
- Floats are their bit patterns, so NaN payloads count. Strings are byte sequences with a UTF-8 predicate
  (section 4 of RFC 3629); `Valid` collects what Rust's types and constructors
  guarantee of a tree (`NbtTree.NewList`, `NbtTree.InsertsValid`).
- The NBT reader takes its limits as a parameter; `PYRITE` holds 512 and 65 536. That is what lets the
  theorems say the format is unambiguous for trees of any size.
- zlib (RFC 1950) is a pair of function parameters. `Sound` assumes only that inflating a deflated input
  gives it back, cut off at the read limit, and that deflating at most doubles a packet plus 64 bytes
  (used only to know that an outer length does not wrap, and that small packets fit a frame).
- The offline identity is an arbitrary function of the name; the status document is opaque bytes. The
  transport is a number of sends it accepts before failing, so every run may be cut at any send. A send that
  fails leaves nothing on the modelled wire; a real transport may have taken part of that last frame, after
  which the connection ends and sends no more.
- The two-party client may send any packets its receiver's frame bound allows, except that after a login
  start it sends nothing until it has read a login success.

## Where the code differs from its documentation, or from what one might expect

- `read_string` is documented to reject anything longer than `max_chars` characters. It bounds bytes at three
  times that number. `Packets.CharacterCapNotEnforced` says for which caps a longer string is read, and
  `Packets.CharacterCapEnforcedIff` for which strings the promise holds.
- `write_string` casts the length to 32 bits. `Packets.LengthWraps` is a string that comes back empty;
  `Packets.StringExact` says exactly which strings survive. No packet field admits one that long.
- The encoder bounds the packet, the decoder bounds the frame around it. `Codec.LargestPacketLost` is a packet
  the encoder accepts and its own decoder refuses; `Codec.FrameExact` says exactly which survive.
- Reading a VarInt and writing it back is not the identity; `VarInt.VarIntRewrite` says exactly when it is.
- Reaching configuration does not mean that a login success was sent. `Connection.AcknowledgementUnchecked` is
  such a run; `Connection.ConfigurationExact` says exactly when one was sent.
- `ServeOutcome::abandoned` is documented as connections still running. It counts the join set.
  `AcceptLoop.AbandonedFinished` is a run that reports one while none is running; `AcceptLoop.OutcomeMeans` says
  exactly when the two agree.

## Model

| member | source | states |
|---|---|---|
| NbtTheorems.NetworkRoundTrip | crates/nbt/src/read.rs:19-25 | every valid document within depth and node limits reads back from its bytes followed by anything, which is left untouched, with the node count exactly the tags below the root |
| NbtTheorems.NamedRoundTrip | crates/nbt/src/read.rs:28-36 | the same for the named form, name included |
| NbtTheorems.NetworkCanonical | crates/nbt/src/read.rs:133-286 | any accepted input is byte for byte the layout of the tree returned; that tree is valid and within the limits; the node counter is its tag count, within the budget and below the bytes consumed |
| NbtTheorems.NamedCanonical | crates/nbt/src/read.rs:28-36 | the same for the named form |
| NbtTheorems.NetworkAccepts | crates/nbt/src/read.rs:19-25 | the accepted inputs are exactly the layouts of documents within the limits, followed by anything |
| NbtTheorems.Unambiguous | crates/nbt/src/write.rs:63-129 | one tree per byte sequence and one split from what follows, for trees of any depth and size |
| NbtTheorems.LimitsExact | crates/nbt/src/read.rs:199-214 | on layouts of valid documents the two depth guards and the node budget reject exactly those beyond the limits |
| NbtTheorems.NamedLimitsExact | crates/nbt/src/read.rs:28-36 | the same for the named form |
| NbtTheorems.NamedAccepts | crates/nbt/src/read.rs:28-36 | the inputs the named reader accepts are exactly the named layouts of documents within the limits, followed by anything |
| NbtTheorems.NamedUnambiguous | crates/nbt/src/write.rs:18-26 | one name, one tree and one split per byte sequence |
| NbtTheorems.ChainsExact | crates/nbt/src/read.rs:117-132 | a chain of n lists below the root is read iff n is at most the depth limit, a chain of n compounds iff n + 1 is |
| NbtTheorems.NetworkExtends | crates/nbt/src/read.rs:19-25 | a successful read gives the same tree and consumption on every longer input |
| NbtTheorems.NamedExtends | crates/nbt/src/read.rs:28-36 | the same for the named form |
| NbtTheorems.TruncationRejected | crates/nbt/src/read.rs:562-575 | every proper prefix of a document is rejected, under any limits |
| NbtTheorems.NamedTruncationRejected | crates/nbt/src/read.rs:28-36 | the same for the named form |
| NbtTheorems.OptionalRootExact | crates/nbt/src/read.rs:42-49 | a lone End reads as absent, a document as present, each leaving what follows |
| NbtTheorems.OptionalIsNetwork | crates/nbt/src/read.rs:38-49 | on every input the optional reader is the network reader, errors included, except that a leading End is an absent document |
| NbtTheorems.OptionalAccepts | crates/nbt/src/read.rs:38-49 | it accepts exactly a lone End or the layout of a document within the limits, followed by anything |
| NbtTheorems.OptionalExtends | crates/nbt/src/read.rs:38-49 | a successful read is unchanged on every longer input |
| NbtTheorems.OptionalTruncationRejected | crates/nbt/src/read.rs:38-49 | every proper prefix of a document is refused |
| NbtTheorems.NamedReadAsNetwork | crates/nbt/src/read.rs:15-25 | a named document read as a network one gives an empty compound iff the name is shorter than 256 bytes; from 13 * 256 bytes on it fails on the name's high length byte; in between it never gives an empty compound |
| NbtTheorems.DecodedGetConsistent | crates/nbt/src/read.rs:143-189 | in every compound of a decoded tree, from any of the three readers, lookup agrees with the map built by iterating |
| NbtTheorems.CountBelowBytes | crates/nbt/src/error.rs:16-36 | no tree has more tags than payload bytes |
| NbtTheorems.ItemsAreLongEnough | crates/nbt/src/read.rs:241-260 | the least element sizes are true lower bounds, so the length limit never refuses a real list |
| NbtReader.ReadNetworkRoot | crates/nbt/src/read.rs:19-25 | the mutating reader terminates on every input, never reads past the end, and returns exactly what the parser does, errors included |
| NbtReader.ReadNamedRoot | crates/nbt/src/read.rs:28-36 | the same for the named form |
| NbtReader.ReadOptionalNetworkRoot | crates/nbt/src/read.rs:42-49 | the same for the optional form |
| NbtReader.ReadCompoundBody | crates/nbt/src/read.rs:133-159 | the entry loop with its guard and closing duplicate scan follows the parser, node counter included |
| NbtReader.ReadPayload | crates/nbt/src/read.rs:199-286 | the payload reader follows the parser for every tag type |
| NbtReader.ReadItems | crates/nbt/src/read.rs:262-266 | the list-element loop follows the parser |
| NbtReader.GetInts | crates/nbt/src/read.rs:269-284 | the array loops, which do not test for input, stay in bounds because the length was paid for, and decode every element in order |
| NbtReader.ReadLength | crates/nbt/src/read.rs:87-115 | negative counts and counts that cannot fit are refused with the figures the source reports |
| NbtReader.ReadNbtString | crates/nbt/src/read.rs:63-79 | short, overlong and non-UTF-8 strings are refused |
| NbtWriter.NetworkRootWrites | crates/nbt/src/write.rs:12-15 | the writer succeeds iff every length fits its prefix and nesting is within the limit, then emits exactly the layout; on refusal it has emitted a prefix of it |
| NbtWriter.NamedRootWrites | crates/nbt/src/write.rs:18-26 | the same for the named form |
| NbtWriter.PayloadWrites | crates/nbt/src/write.rs:88-129 | the same for one payload at any depth |
| NbtWriter.ReadsBackWhatWasWritten | crates/nbt/src/write.rs:12-129 | what the writer accepted is read back unchanged iff it is within the node budget the writer does not test |
| NbtWriter.ReadsBackNamed | crates/nbt/src/write.rs:18-26 | the same for the named form, again iff within the node budget |
| NbtWriter.WritesBackWhatWasRead | crates/nbt/src/read.rs:335-348 | whatever the reader accepts the writer accepts, and emits exactly the bytes that were read |
| NbtWriter.WritesBackNamed | crates/nbt/src/read.rs:28-36 | the same for the named form |
| NbtWriter.DepthAgreement | crates/nbt/src/write.rs:53-79 | writer and reader draw the depth limit at the same place, in both root forms |
| NbtWriter.WriteNetworkRoot | crates/nbt/src/write.rs:12-15 | the mutating writer appends exactly what its specification says, also when it fails half way |
| NbtWriter.WriteNamedRoot | crates/nbt/src/write.rs:18-26 | the same for the named form |
| NbtWriter.WriteCompoundBody | crates/nbt/src/write.rs:63-79 | the same for the entry loop |
| NbtWriter.WritePayload | crates/nbt/src/write.rs:88-129 | the same for payloads and the list loop |
| NbtLimits.ReaderLimits | crates/nbt/src/error.rs:6-36 | a document is read iff it nests at most 512 levels and has at most 65 536 tags below its root; otherwise the error names a limit it does exceed |
| NbtLimits.DepthLimitExact | crates/nbt/src/read.rs:117-140 | below the root 511 nested compounds or 512 nested lists are read, and written, and no more |
| NbtLimits.NodeLimitExact | crates/nbt/src/error.rs:18-36 | a list of n bytes below the root is read iff n is at most 65 535, else there are too many nodes |
| NbtLimits.WriterLimits | crates/nbt/src/write.rs:63-129 | the writer refuses only for a depth above 512, a string above 65 535 or an array above 2^31 - 1, and what fits for its depth alone |
| NbtLimits.StringCaps | crates/nbt/src/write.rs:34-40 | a name or text is written iff it has at most 65 535 bytes, else refused by its length |
| NbtLimits.ArrayCaps | crates/nbt/src/write.rs:49-51 | arrays and lists are refused above 2^31 - 1 elements, by their number |
| NbtLimits.RefusedOutput | crates/nbt/src/write.rs:34-79 | what a refused field has left in the buffer |
| NbtLimits.RefusedPayloadOutput | crates/nbt/src/write.rs:88-129 | a refused length leaves nothing of its payload, but for a list's element type |
| NbtLimits.ArrayRefused | crates/nbt/src/read.rs:87-115 | an array's count is refused when negative or when its elements could not follow, with the figures; otherwise all of them are taken |
| NbtLimits.ListRefused | crates/nbt/src/read.rs:241-262 | the same for a list with the least size of its element type; a list of End must be empty |
| NbtLimits.StringRefused | crates/nbt/src/read.rs:63-79 | a string cut short or not UTF-8 is refused as such, and read otherwise |
| NbtLimits.EndedRefused | crates/nbt/src/read.rs:199-286 | input that ends inside a number or a length is reported as ended |
| NbtLimits.FieldRefused | crates/nbt/src/read.rs:133-159 | a document with a refused field is refused for that reason |
| NbtLimits.RootRefused | crates/nbt/src/read.rs:19-49 | a root that is no compound, an unknown root type and an empty input, by all three readers |
| NbtLimits.EntryTypeRefused | crates/nbt/src/read.rs:52-57 | an unknown type byte of an entry is named |
| NbtLimits.RepeatedNameRefused | crates/nbt/src/read.rs:161-189 | a compound that repeats a name, at whatever depth, is refused with the least name it repeats |
| NbtLimits.RepeatedRootNameRefused | crates/nbt/src/read.rs:161-189 | the same at the root |
| NbtLimits.ElementSizes | crates/nbt/src/read.rs:244-255 | the least element sizes: the payload size of each fixed-width type, one byte for all others |
| Layouts.IdNumbers | crates/nbt/src/tag.rs:101-116 | every tag carries its own type's number |
| Layouts.NumberLayout | crates/nbt/src/write.rs:94-99 | every number is big-endian at its own width, byte by byte |
| Layouts.ArrayLayout | crates/nbt/src/write.rs:100-128 | count and every element of an array, in place and byte by byte |
| Layouts.StringAndListLayout | crates/nbt/src/write.rs:34-40 | a string is its length in two bytes and its bytes; a list is its type, its count in four bytes and bare payloads |
| Layouts.CompoundLayout | crates/nbt/src/write.rs:63-79 | a compound is type, name and payload of each entry, then an End |
| Names.DuplicateNameExact | crates/nbt/src/read.rs:161-189 | sort-then-compare-neighbours reports a name iff two entries share one, and reports the least name that occurs twice |
| Names.FindDuplicate | crates/nbt/src/read.rs:172-189 | the scan computes that, and finds nothing iff all names differ pairwise |
| Names.SortedUnique | crates/nbt/src/read.rs:177-178 | a sorted permutation is unique, so the library's choice of sort does not matter |
| Names.LeqExact | crates/nbt/src/read.rs:177-178 | the order is the one strings compare by: a prefix first, else the first byte that differs |
| NbtTree.TagOf | crates/nbt/src/tag.rs:41-62 | exactly the bytes 0 to 12 name a tag, with the numbering that is written |
| NbtTree.NewList | crates/nbt/src/tag.rs:252-271 | a list is built iff its items share one type, otherwise the first offender is reported; a list built from valid items is valid |
| NbtTree.NbtCompound.Insert | crates/nbt/src/tag.rs:174-181 | replaces in place or appends |
| NbtTree.NbtCompound.Push | crates/nbt/src/tag.rs:200-202 | appends without looking |
| NbtTree.NbtCompound.Get | crates/nbt/src/tag.rs:205-210 | the first entry with the name |
| NbtTree.InsertsRefineOrderedMap | crates/nbt/src/tag.rs:163-210 | after any history of inserts names are unique, in first-insertion order, and lookup gives the last value inserted |
| NbtTree.InsertKeepsValid | crates/nbt/src/tag.rs:174-181 | inserting a valid value under a UTF-8 name keeps a compound valid |
| NbtTree.InsertsValid | crates/nbt/src/tag.rs:163-181 | whatever is built by such inserts from an empty compound is valid: what the reader's and writer's theorems ask of a document |
| NbtTree.GetAgreesWithIteration | crates/nbt/src/error.rs:101-114 | with unique names first-match lookup and last-match iteration agree |
| NbtTree.GetDisagreesOnDuplicates | crates/nbt/src/error.rs:101-114 | without them they can disagree |
| VarInt.VarIntRoundTrip | crates/protocol/src/varint.rs:31-66 | write then read is the identity for every value and leaves what follows; at most five bytes |
| VarInt.VarLongRoundTrip | crates/protocol/src/varint.rs:108-136 | the same for 64 bits, at most ten bytes |
| VarInt.VarIntLenExact | crates/protocol/src/varint.rs:94-102 | the length table is the written length |
| VarInt.VarIntRewrite | crates/protocol/src/varint.rs:48-66 | re-encoding a decoded value never takes more bytes, and gives the same bytes iff the last byte is not padding and a fifth byte drops no bits |
| VarInt.VarLongRewrite | crates/protocol/src/varint.rs:121-136 | the same for 64 bits |
| VarInt.VarIntPaddingAccepted | crates/protocol/src/varint.rs:48-66 | two bytes that read as zero, which is written as one |
| VarInt.GroupLayout | crates/protocol/src/varint.rs:21-42 | byte i holds bits 7i to 7i+6, bit 7 marks all but the last byte, nothing is left over |
| VarInt.VarIntOutcome | crates/protocol/src/varint.rs:48-66 | on every input: ended iff fewer than five bytes and all announce another, too long iff five do, else the groups' low 32 bits as a signed number |
| VarInt.VarLongOutcome | crates/protocol/src/varint.rs:121-136 | the same for ten bytes and 64 bits |
| VarInt.ReadLayout | crates/protocol/src/varint.rs:48-66 | byte i of what was read is group i of the value, padding included |
| VarInt.GetVarInt | crates/protocol/src/varint.rs:48-66 | the consuming loop follows the pure reader |
| VarInt.GetVarLong | crates/protocol/src/varint.rs:121-136 | the same for 64 bits |
| VarInt.PeekVarInt | crates/protocol/src/varint.rs:75-89 | the non-consuming reader agrees with the consuming one case by case: value and width, incomplete, too long |
| VarInt.PutVarInt | crates/protocol/src/varint.rs:31-42 | the writing loop appends the groups |
| VarInt.PutVarLong | crates/protocol/src/varint.rs:108-118 | the same for 64 bits |
| Utf8.Utf8Exact | crates/protocol/src/buf.rs:42-44 | the byte grammar that string reads test accepts exactly the encodings of sequences of Unicode scalar values (section 3 of RFC 3629), each of which has one encoding |
| Utf8.TextEncodes | crates/protocol/src/buf.rs:8-14 | such an encoding spells those scalar values, and its UTF-16 length is the one they have by section 2.1 of RFC 2781 |
| Utf8.ThreeBytesPerUnit | crates/protocol/src/buf.rs:8-14 | a string of n UTF-16 units (section 2.1 of RFC 2781) has between n and 3n UTF-8 bytes |
| Utf8.ThreeIsTight | crates/protocol/src/buf.rs:8-14 | no smaller factor would do |
| Packets.StringExact | crates/protocol/src/buf.rs:19-45 | a string of any length is read back iff its bytes are within three times the cap and do not wrap the 32-bit prefix; beyond the cap an unwrapped length is refused by name |
| Packets.StringReadExact | crates/protocol/src/buf.rs:30-45 | on every input: a string is read iff a length prefix, however padded, announces just its bytes, they are within the cap and UTF-8 |
| Packets.StringRefusals | crates/protocol/src/buf.rs:30-45 | every reason to refuse a string, with its figures, in order |
| Packets.LengthWraps | crates/protocol/src/buf.rs:19-22 | a string of 2^32 bytes is written with prefix 0 and read as an empty one |
| Packets.LegalStringFits | crates/protocol/src/buf.rs:24-45 | the cap never rejects a string of at most that many UTF-16 units |
| Packets.CharacterCapNotEnforced | crates/protocol/src/buf.rs:24-45 | some string longer than the cap is read iff the cap is positive and below the largest 32-bit length |
| Packets.CharacterCapEnforcedIff | crates/protocol/src/buf.rs:24-45 | for one string the documented rejection holds iff it is legal anyway, longer than three bytes per character, or wraps; an unwrapped length is an error iff it is beyond three bytes per character |
| Packets.NextStateOf | crates/protocol/src/packets/handshake.rs:28-39 | exactly 1, 2 and 3 are states, as written |
| Packets.HandshakeExact | crates/protocol/src/packets/handshake.rs:67-87 | a handshake followed by anything is read back iff its address has at most 765 bytes; a longer one whose length does not wrap 32 bits is refused by that length |
| Packets.LoginStartExact | crates/protocol/src/packets/login.rs:156-167 | the same for a login start and a name of at most 48 bytes |
| Packets.HandshakeReadExact | crates/protocol/src/packets/handshake.rs:75-87 | on every input: what bytes are a handshake, field by field |
| Packets.NextStateRefused | crates/protocol/src/packets/handshake.rs:28-39 | an undefined next state is refused by its value |
| Packets.LoginStartReadExact | crates/protocol/src/packets/login.rs:162-167 | on every input: what bytes are a login start |
| Packets.DecodedSuccessFits | crates/protocol/src/packets/login.rs:217-222 | whatever login success is decoded has UTF-8 strings within the caps |
| Packets.LoginSuccessExact | crates/protocol/src/packets/login.rs:211-222 | a login success is read back iff its name has at most 48 bytes, it has at most 16 properties and each is within its caps |
| Packets.PropertyExact | crates/protocol/src/packets/login.rs:84-102 | the same for one property: name 192, value 98 301, optional signature 3 072 bytes |
| Packets.PropertyArrayExact | crates/protocol/src/buf.rs:95-131 | the same for the counted array, whose count is capped too |
| Packets.OptionalExact | crates/protocol/src/buf.rs:134-169 | the same for a presence-tagged string |
| Packets.OptionalReadExact | crates/protocol/src/buf.rs:153-169 | a presence byte is 0 or 1, any other is refused by its value |
| Packets.CountRefused | crates/protocol/src/buf.rs:111-131 | a negative count and one above sixteen are refused by their value |
| Packets.WholeBodyExact | crates/protocol/src/codec.rs:50-59 | a body with bytes after its fields is refused by their number |
| Packets.I64RoundTrip | crates/protocol/src/buf.rs:61-71 | a signed 64-bit field reads back, whatever follows |
| Packets.BERoundTrip | crates/protocol/src/buf.rs:48-92 | fixed-width unsigned fields read back, whatever follows |
| Packets.GetString | crates/protocol/src/buf.rs:30-45 | the consuming string reader follows the pure one |
| Packets.GetHandshake | crates/protocol/src/packets/handshake.rs:75-87 | the consuming decoder follows the pure one |
| Packets.PutHandshake | crates/protocol/src/packets/handshake.rs:67-73 | appends the encoded fields in order |
| Packets.GetLoginStart | crates/protocol/src/packets/login.rs:162-167 | the consuming decoder follows the pure one |
| Packets.PutLoginStart | crates/protocol/src/packets/login.rs:156-160 | appends the encoded fields in order |
| Packets.GetPropertyArray | crates/protocol/src/buf.rs:111-131 | the counted loop follows the pure decoder |
| Packets.PutPropertyArray | crates/protocol/src/buf.rs:95-104 | the counted loop appends the pure encoding |
| Packets.GetOptional | crates/protocol/src/buf.rs:153-169 | a presence byte other than 0 or 1 is refused |
| Packets.GetLoginSuccess | crates/protocol/src/packets/login.rs:217-222 | the consuming decoder follows the pure one |
| Packets.PutLoginSuccess | crates/protocol/src/packets/login.rs:211-215 | appends the encoded fields in order |
| Layouts.LoginStartLayout | crates/protocol/src/packets/login.rs:156-160 | name before identity, the identity big-endian in sixteen bytes |
| Layouts.PropertyLayout | crates/protocol/src/packets/login.rs:84-90 | name, value, presence byte, signature |
| Layouts.LoginSuccessLayout | crates/protocol/src/packets/login.rs:211-215 | identity, name, counted properties, session |
| Codec.FragmentationIndependent | crates/protocol/src/codec.rs:174-220 | however a byte stream is split, packets, first error and leftover bytes are those of decoding it whole |
| Codec.FrameExtends | crates/protocol/src/codec.rs:174-220 | more input never changes a frame or an error that is already there |
| Codec.PacketBounded | crates/protocol/src/codec.rs:120-167 | every yielded packet's id and body are at most the maximum, whatever it inflated from |
| Codec.FrameExact | crates/protocol/src/codec.rs:226-274 | an encoded frame decodes to its packet iff its outer length is within the bound, in all three forms; otherwise it is refused by that length |
| Codec.ReceivableCases | crates/protocol/src/codec.rs:242-258 | plain frames always are; marked ones iff one byte is to spare |
| Codec.LargestPacketLost | crates/protocol/src/codec.rs:249-258 | a packet the encoder accepts and the decoder refuses |
| Codec.WrapRoundTrip | crates/protocol/src/codec.rs:120-167 | unwrapping recovers the packet in all three forms; the zero marker never collides with a size |
| Codec.CompressedExact | crates/protocol/src/codec.rs:120-167 | a compressed payload, whatever size is declared for it, is accepted iff that size is the true one, at least the threshold and at most the maximum; a wrong one is reported with at most one byte inflated beyond it |
| Codec.ThresholdMeans | crates/protocol/src/codec.rs:101-112 | announcing t means: below zero plain frames, otherwise a packet is compressed iff it has at least t bytes, and a compressed payload is taken iff its true size is from t to 2 097 151 |
| Codec.EncoderCap | crates/protocol/src/codec.rs:234-240 | the encoder refuses exactly the packets above 2 097 151 bytes, by their size |
| Codec.IncompleteExact | crates/protocol/src/codec.rs:174-205 | the decoder asks for more iff the length, or the frame it announces, is not all there |
| Codec.LengthRefused | crates/protocol/src/codec.rs:179-190 | a negative, too large or overlong length is refused at once |
| Codec.FrameReadExact | crates/protocol/src/codec.rs:174-220 | on every input: a packet is decoded iff a length, however padded, announces a frame that unwraps to its id and body |
| Codec.PayloadReadExact | crates/protocol/src/codec.rs:120-167 | with any zlib: a payload is taken iff it is marked uncompressed, or declares a permitted size and inflates to just that |
| Codec.PayloadRefusals | crates/protocol/src/codec.rs:120-167 | every reason to refuse a payload, in order; one that does not inflate is never taken |
| Codec.SequenceRoundTrip | crates/protocol/src/codec.rs:226-274 | decoding the concatenation of any receivable packets gives them in order with nothing left over |
| Codec.FragmentedRoundTrip | crates/protocol/src/codec.rs:170-275 | the same with the bytes cut anywhere |
| Codec.PacketCodec.SetThreshold | crates/protocol/src/codec.rs:110-112 | negative disables, zero and above enable |
| Codec.PacketCodec.Inflate | crates/protocol/src/codec.rs:120-167 | the four guards in order, then the inflated bytes |
| Codec.PacketCodec.Decode | crates/protocol/src/codec.rs:174-220 | an incomplete frame consumes nothing; a whole one is removed and yielded |
| Codec.PacketCodec.Encode | crates/protocol/src/codec.rs:226-274 | appends the frame, or refuses the packet and appends nothing |
| Connection.RunFromStartSafe | crates/net/src/connection.rs:57-190 | for every event sequence and transport failure point: states visited are a prefix of Handshaking-Status or Handshaking-Login-Configuration; the log of replies is well formed |
| Connection.StepSafe | crates/net/src/connection.rs:77-190 | every step keeps that |
| Connection.PathsExact | crates/net/src/state.rs:41-64 | moving along the permitted edges from the start is the same as keeping to one of the two paths, so a status connection never reaches login |
| Connection.LogAt | crates/net/src/connection.rs:77-190 | what a well-formed log says of each reply: right state, right content, right format, what may precede it |
| Connection.FormatSwitch | crates/net/src/connection.rs:126-148 | in every run, every reply up to and including the first announcement is plain and every later one is in the configured format |
| Connection.LastWords | crates/net/src/connection.rs:114-190 | in every run a pong or refusal is the last reply and there is at most one status document |
| Connection.ClaimedUuidIrrelevant | crates/net/src/connection.rs:114-152 | runs whose login starts differ only in the claimed uuid send the same replies and end alike |
| Connection.FullLogin | crates/net/tests/login.rs:41-87 | a proper login reaches configuration with exactly the promised replies, formats and derived identity |
| Connection.FullStatus | crates/net/src/connection.rs:162-190 | a status exchange sends the document once, echoes the payload and closes |
| Connection.LoginAnswered | crates/net/src/connection.rs:114-152 | any login start, first or repeated, from any state the format may be in: a good name earns exactly the announcement in the format in force and the success in the configured one; a bad one earns exactly the refusal and ends the connection |
| Answers.HandshakeAnswered | crates/net/src/connection.rs:90-111 | a handshake chooses the path, a transfer the login path |
| Answers.StatusAnswered | crates/net/src/connection.rs:162-176 | whatever its body, a first status request is answered with the document, a second is an error; too large a document and a failed transport fail as such |
| Answers.PingAnswered | crates/net/src/connection.rs:179-190 | a ping is echoed and closes the connection, whether or not a status request came first |
| Answers.PingWithoutRequest | crates/net/tests/server_list_ping.rs:75-90 | the run of a handshake and a ping alone |
| Answers.AcknowledgementAnswered | crates/net/src/connection.rs:154-160 | an acknowledgement moves on whatever its body holds |
| Answers.LoginRepliesAre | crates/net/src/connection.rs:126-148 | the replies to a good name spelt out: announcement, then name, derived identity twice and no properties |
| Answers.LoginCutShort | crates/net/src/connection.rs:114-152 | a login on a transport that fails at the first or second send |
| Answers.UsernameExact | crates/net/src/offline.rs:41-53 | a good name is one to sixteen of 63 listed characters |
| Answers.UnexpectedRefused | crates/net/src/connection.rs:77-86 | any other packet in any state ends the connection and is named |
| Answers.MalformedRefused | crates/net/src/connection.rs:90-190 | a body that does not decode ends the connection with the reason |
| Answers.TrailingRefused | crates/protocol/src/codec.rs:50-59 | so does anything after a handshake's, login start's or ping's fields, by how much |
| Answers.EndingsExact | crates/net/src/connection.rs:57-74 | an undecodable frame, silence, and a peer that leaves |
| Connection.ConfigurationExact | crates/net/src/connection.rs:114-160 | in every run that reaches configuration: an acknowledgement came, preceded by the handshake and login starts only; as many successes were sent as login starts; later events only end the connection; and a success was sent iff the event after the handshake is a login start |
| Connection.AcknowledgementUnchecked | crates/net/src/connection.rs:154-160 | the run `ConfigurationExact` leaves open: configuration reached with nothing sent |
| Service.ReadsIrrelevant | crates/net/src/connection.rs:57-74 | however a peer's bytes are cut into reads, the connection ends the same, even across a format switch |
| Service.ConverseSafe | crates/net/src/connection.rs:57-74 | whole-run safety for every byte input, read pattern, timeout and hangup |
| Service.ConverseIsRun | crates/net/src/connection.rs:57-74 | every conversation in bytes is a run over the events decoded from it, so every theorem about runs holds of it |
| Service.ClaimedUuidIrrelevantInBytes | crates/net/src/connection.rs:114-152 | two peers that send the same packets but for the uuids claimed, each in the format then in force and cut into any reads, leave the connection in the same state with the same replies sent |
| Service.Serve | crates/net/src/connection.rs:57-74 | the running loop ends in the specified phase with exactly the specified frames on the wire |
| Service.ConverseUnderstood | crates/net/src/connection.rs:57-74 | whatever the conversation, a client that follows the format recovers from the bytes sent exactly the replies, in order |
| Service.ConverseNext | crates/net/src/connection.rs:57-74 | what each read does: bytes, the timeout, a hangup between or inside frames |
| Replies.ReplyRead | crates/protocol/src/packets/status.rs:44-110 | the receiver's decoder recovers every reply from its packet, contents and all |
| Replies.WireUnderstood | crates/net/tests/login.rs:41-87 | the same for all that a run has sent, across the format switch |
| Replies.RefusalIsText | crates/net/src/connection.rs:117-124 | the refusal is a text of 71 characters that names the problem |
| Service.ServerConnection.SendReply | crates/net/src/connection.rs:131-148 | encodes in the format in force; a refused or failed send leaves the modelled wire as it was |
| Service.ServerConnection.Dispatch | crates/net/src/connection.rs:77-86 | dispatch on state and id |
| Service.ServerConnection.HandleHandshake | crates/net/src/connection.rs:90-111 | decodes to the end and moves state |
| Service.ServerConnection.HandleLoginStart | crates/net/src/connection.rs:114-152 | refusal, or announcement then switch then success |
| Service.ServerConnection.HandleStatusRequest | crates/net/src/connection.rs:162-176 | one document, a duplicate is an error |
| Service.ServerConnection.HandlePing | crates/net/src/connection.rs:179-190 | echo and close |
| Service.ServerConnection.HandleLoginAcknowledged | crates/net/src/connection.rs:154-160 | moves to configuration without further test |
| Service.ServerConnection.ServeBuffered | crates/net/src/connection.rs:57-74 | handles every whole frame, each in the format then in force |
| Service.ConnectionState.MoveTo | crates/net/src/state.rs:47-64 | moves along the three permitted edges, otherwise an error and no change |
| Service.ConnectionState.MarkStatusRequestSeen | crates/net/src/state.rs:67-73 | the second request is an error |
| TwoParty.FormatAgreement | crates/net/src/connection.rs:114-160 | in every interleaving and fragmentation of both streams, with repeated logins and any threshold: nothing fails to decode, and what each end decoded, formats included, is a prefix of what the other sent |
| TwoParty.Progress | crates/net/src/connection.rs:57-74 | in every reachable system bytes are in flight iff a frame is undelivered, and a read of all of them delivers the next frame sent, to a running server and to the client always |
| TwoParty.AllDelivered | crates/net/tests/login.rs:46-78 | from every reachable system the client can read every frame the server has sent, in order |
| TwoParty.NextAgrees | crates/net/src/connection.rs:114-160 | every step of either party keeps the agreement invariant |
| TwoParty.EagerAcknowledgementLost | crates/protocol/src/codec.rs:101-112 | a run of the same system with a client that sends its acknowledgement along with its login ends corrupt, for every address, name and threshold the server switches to |
| PatientLogin.LoginCompletes | crates/net/tests/login.rs:41-87 | for every configuration and good name some interleaving completes the login: both ends in the configured format, everything promised sent and read |
| AcceptLoop.AlwaysConserved | crates/net/src/server.rs:76-132 | in every interleaving held plus free permits are the cap, accepted plus refused are the successful accepts, every refusal found all permits held |
| AcceptLoop.OutcomeMeans | crates/net/src/server.rs:159-188 | drained iff none abandoned iff every admitted connection was reaped; abandoned is the number still running iff no handler has dropped its permit without being reaped |
| AcceptLoop.AbandonedFinished | crates/net/src/server.rs:175-187 | a run that reports one connection abandoned while none is running |
| AcceptLoop.AdmittedBelowCap | crates/net/src/server.rs:89-109 | a connection offered while fewer than the cap are held is admitted |
| AcceptLoop.ConnectExact | crates/net/src/server.rs:76-109 | an accept reaps every complete handler, then admits below the cap and refuses at it |
| AcceptLoop.HandlerExact | crates/net/src/server.rs:135-156 | a handler that ends returns its permit before it is complete; a failed accept changes nothing |
| AcceptLoop.ReapExact | crates/net/src/server.rs:172-177 | handlers are joined one by one only while draining |
| AcceptLoop.ShutdownExact | crates/net/src/server.rs:159-168 | the signal reaps every complete handler; with none left running or ending the server has drained at once |
| AcceptLoop.AbandonedBound | crates/net/src/server.rs:159-188 | whatever follows the signal, at most the connections running or ending then are reported abandoned |
| AcceptLoop.NothingAfterShutdown | crates/net/src/server.rs:112-123 | from the signal on nothing is accepted or refused |
| AcceptLoop.DrainingEnds | crates/net/src/server.rs:170-187 | the last join drains; the end of the grace period counts the handlers left |
| AcceptLoop.DrainCompletes | crates/net/src/server.rs:159-188 | a draining server whose handlers all end reports that it drained |
| AcceptLoop.Serve | crates/net/src/server.rs:67-132 | the accept loop, reaping on every accept, then `drain`, returns the outcome the steps determine |
| AcceptLoop.Drain | crates/net/src/server.rs:159-188 | draining reaps, stops at once when nothing is left, and otherwise waits for the last join or the end of the grace period |
| Bytes.BigEndian | crates/nbt/src/write.rs:94-99 | fixed-width values are in network byte order |
| Vectors.VarIntVectors | crates/protocol/src/varint.rs:146-158 | the documented encodings |
| Vectors.NegativeVarIntVectors | crates/protocol/src/varint.rs:146-158 | the documented encodings of negative values |
| Vectors.VarLongVectors | crates/protocol/src/varint.rs:160-176 | the documented 64-bit encodings |
| Vectors.TagNumbering | crates/nbt/src/tag.rs:41-62 | the thirteen tag numbers |
| Vectors.DocumentVector | crates/nbt/src/write.rs:160-188 | a nested compound, byte for byte |
| Vectors.ListVector | crates/nbt/src/write.rs:223-243 | a list writes its type once, then bare payloads |
| Vectors.ScalarVectors | crates/nbt/src/write.rs:188-203 | every scalar type, big-endian, two's complement |
| Vectors.LoginStartVector | crates/protocol/src/packets/login.rs:323-336 | name, then sixteen bytes with the low one last |
| Vectors.HandshakeVector | crates/protocol/src/packets/handshake.rs:119-133 | the handshake's fields in order |

## Left out

- zlib and MD5 internals: parameters only.
- Sockets, `Framed` buffering, real time and logging: a timeout or a close is an event; reads are chunks of any size. A failed decode leaves the rest of the input unspecified, since the connection then ends.
- JSON of the status document and `TextComponent`: opaque bytes, except the one fixed refusal text.
- `BytesMut` capacity and `Vec::with_capacity` sizing: growth is decided by libraries that are not part of this model.
- Command-line parsing and the bind guard in `crates/server`: single-branch logic.
- `compound!`/`list!` macros and `From` conversions: sugar over `insert` and `NbtList::new`.
- Status, pong, disconnect and Set Compression packet structs: one string or one number each; `Connection.ToRaw` writes their bodies and `Replies.ReadReply` reads them.
- `read_nbt`/`write_nbt` in `buf.rs`: one-line wrappers of the NBT entry points.
- `write_prefixed_array` and its reader are generic over closures; they are modelled at the one element type the repository uses.
- Dropping the join set aborts what is left after an expired grace period; the model stops at the returned outcome.
