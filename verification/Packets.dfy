/**
 Field codecs and the packets built from them (crates/protocol/src/buf.rs, packets/handshake.rs,
 packets/login.rs): what each writes, what each reads, and exactly which packets survive the trip.
 */
module Packets {
  import opened Bytes
  import opened Utf8
  import opened Wire
  import opened VarInt

  type i32 = v: int | IsI32(v)
  type i64 = v: int | IsI64(v)
  type u16 = v: nat | v < 0x1_0000
  type u128 = v: nat | v < 0x1_0000_0000_0000_0000_0000_0000_0000_0000

  const MAX_BYTES_PER_CHAR: nat := 3

  // ----- fields -----

  /** `n as i32`: wraps beyond the type. */
  function CastI32(n: nat): (v: i32)
    ensures n < TWO_31 ==> v == n
  {
    Signed(n % TWO_32, TWO_32)
  }

  function WriteString(s: bytes): bytes {
    WriteVarInt(CastI32(|s|)) + s
  }

  /** Whatever is read is UTF-8, within the byte cap. */
  function ReadString(s: bytes, maxChars: nat): (r: Field<bytes>)
    ensures r.Ok? ==> StringFits(r.value, maxChars) && |r.value| < TWO_31 && IsUtf8(r.value)
  {
    match ReadVarInt(s)
    case Err(e) => Err(e)
    case Ok(len, s1) =>
      if len < 0 then Err(NegativeLength(len))
      else if len > maxChars * MAX_BYTES_PER_CHAR then Err(StringTooLong(len, maxChars * MAX_BYTES_PER_CHAR))
      else if |s1| < len then Err(UnexpectedEof)
      else if !IsUtf8(s1[..len]) then Err(InvalidUtf8)
      else Ok(s1[..len], s1[len..])
  }

  /** The largest byte length a string field of `maxChars` characters may have. */
  predicate StringFits(s: bytes, maxChars: nat) {
    |s| <= maxChars * MAX_BYTES_PER_CHAR
  }

  /**
   A string is read back exactly when its byte length is within three times the cap and does not wrap in
   its 32-bit prefix; beyond the cap a length that does not wrap is refused by name.
   */
  lemma StringExact(v: bytes, maxChars: nat, s: bytes)
    requires IsUtf8(v)
    ensures ReadString(WriteString(v) + s, maxChars) == Ok(v, s) <==> StringFits(v, maxChars) && |v| < TWO_31
    ensures !StringFits(v, maxChars) && |v| < TWO_31 ==>
              ReadString(WriteString(v) + s, maxChars) == Err(StringTooLong(|v|, maxChars * MAX_BYTES_PER_CHAR))
  {
    hide ReadVarInt, WriteVarInt, IsUtf8, CastI32;
    VarIntRoundTrip(CastI32(|v|), v + s);
    Assoc(WriteVarInt(CastI32(|v|)), v, s);
    Split(v, s);
  }

  /** What a wrapped length does: a string of 2^32 bytes is written with prefix 0 and read as an empty one. */
  lemma LengthWraps(v: bytes, maxChars: nat, s: bytes)
    requires |v| == TWO_32
    ensures ReadString(WriteString(v) + s, maxChars) == Ok([], v + s)
  {
    assert CastI32(|v|) == 0;
    hide ReadVarInt, WriteVarInt, CastI32;
    VarIntRoundTrip(0, v + s);
    Assoc(WriteVarInt(0), v, s);
    assert (v + s)[..0] == [] && (v + s)[0..] == v + s;
  }

  /** The cap never rejects a string of at most `maxChars` UTF-16 units. */
  lemma LegalStringFits(v: bytes, maxChars: nat)
    requires IsUtf8(v) && Utf16Units(v) <= maxChars
    ensures StringFits(v, maxChars)
  {
    ThreeBytesPerUnit(v);
  }

  /**
   The documented promise to reject anything longer than `maxChars` characters does not hold: there is a
   longer string that is read, for every cap but zero and those no 32-bit length can exceed.
   */
  lemma CharacterCapNotEnforced(maxChars: nat, s: bytes)
    ensures (exists v: bytes ::
               IsUtf8(v) && Utf16Units(v) > maxChars && ReadString(WriteString(v) + s, maxChars) == Ok(v, s))
            <==> 0 < maxChars < TWO_31 - 1
  {
    hide ReadString, WriteString;
    if 0 < maxChars < TWO_31 - 1 {
      var v: bytes := seq(maxChars + 1, _ => 0x61);
      AsciiIsUtf8(v);
      StringExact(v, maxChars, s);
    }
    forall v: bytes | IsUtf8(v) && Utf16Units(v) > maxChars && ReadString(WriteString(v) + s, maxChars) == Ok(v, s)
      ensures 0 < maxChars < TWO_31 - 1
    {
      ThreeBytesPerUnit(v);
      StringExact(v, maxChars, s);
    }
  }

  /**
   For one string the promise holds exactly when the string is short enough to be legal anyway, or has more
   than three bytes per allowed character, or a length that wraps; in the second case it is an error.
   */
  lemma CharacterCapEnforcedIff(v: bytes, maxChars: nat, s: bytes)
    requires IsUtf8(v)
    ensures (Utf16Units(v) > maxChars ==> ReadString(WriteString(v) + s, maxChars) != Ok(v, s))
            <==> Utf16Units(v) <= maxChars || |v| > 3 * maxChars || |v| >= TWO_31
    ensures |v| < TWO_31 ==> (ReadString(WriteString(v) + s, maxChars).Err? <==> |v| > 3 * maxChars)
  {
    StringExact(v, maxChars, s);
  }

  function ReadBE(s: bytes, width: nat): (r: Field<nat>)
    ensures r.Ok? ==> r.value < Pow256(width)
  {
    if |s| < width then Err(UnexpectedEof) else Ok(DecodeBE(s[..width]), s[width..])
  }

  lemma BERoundTrip(width: nat, v: nat, s: bytes)
    requires v < Pow256(width)
    ensures ReadBE(EncodeBE(width, v) + s, width) == Ok(v, s)
  {
    DecodeEncodeBE(width, v);
    Split(EncodeBE(width, v), s);
  }

  function ReadI64(s: bytes): (r: Field<int>)
    ensures r.Ok? ==> IsI64(r.value)
  {
    Pow256Values();
    if |s| < 8 then Err(UnexpectedEof) else Ok(DecodeInt(s[..8]), s[8..])
  }

  lemma I64RoundTrip(v: i64, s: bytes)
    ensures ReadI64(EncodeBE(8, v) + s) == Ok(v, s)
  {
    Pow256Values();
    assert IsI64(v);
    DecodeEncodeInt(8, v);
    Split(EncodeBE(8, v), s);
  }

  // ----- handshake -----

  const MAX_SERVER_ADDRESS_CHARS: nat := 255

  datatype NextState = ToStatus | ToLogin | ToTransfer

  datatype Handshake = Handshake(protocolVersion: i32, serverAddress: bytes, serverPort: u16, nextState: NextState)

  function NextStateValue(n: NextState): i32 {
    match n case ToStatus => 1 case ToLogin => 2 case ToTransfer => 3
  }

  /** Exactly 1, 2 and 3 are states, numbered as they are written. */
  function NextStateOf(v: int): (r: Option<NextState>)
    ensures r.Some? <==> 1 <= v <= 3
    ensures r.Some? ==> NextStateValue(r.value) == v
  {
    if v == 1 then Some(ToStatus) else if v == 2 then Some(ToLogin) else if v == 3 then Some(ToTransfer) else None
  }

  function EncodeHandshake(h: Handshake): bytes {
    WriteVarInt(h.protocolVersion)
    + (WriteString(h.serverAddress) + (EncodeBE(2, h.serverPort) + WriteVarInt(NextStateValue(h.nextState))))
  }

  function DecodeHandshake(s: bytes): (r: Field<Handshake>)
    ensures r.Ok? ==> |r.value.serverAddress| <= 765 && IsUtf8(r.value.serverAddress)
  {
    match ReadVarInt(s)
    case Err(e) => Err(e)
    case Ok(version, s1) =>
      match ReadString(s1, MAX_SERVER_ADDRESS_CHARS)
      case Err(e) => Err(e)
      case Ok(address, s2) =>
        match ReadBE(s2, 2)
        case Err(e) => Err(e)
        case Ok(port, s3) =>
          match ReadVarInt(s3)
          case Err(e) => Err(e)
          case Ok(value, s4) =>
            match NextStateOf(value)
            case None => Err(InvalidNextState(value))
            case Some(next) => Pow256Values(); Ok(Handshake(version, address, port, next), s4)
  }

  /** A handshake is read back, whatever follows it, exactly when its address is within the cap. */
  lemma HandshakeExact(h: Handshake, s: bytes)
    requires IsUtf8(h.serverAddress)
    ensures DecodeHandshake(EncodeHandshake(h) + s) == Ok(h, s) <==> |h.serverAddress| <= 765
    ensures 765 < |h.serverAddress| < TWO_31 ==>
              DecodeHandshake(EncodeHandshake(h) + s) == Err(StringTooLong(|h.serverAddress|, 765))
  {
    Pow256Values();
    hide ReadVarInt, WriteVarInt, ReadString, WriteString, ReadBE, EncodeBE, IsUtf8, Pow256;
    var a, b, c, d := WriteVarInt(h.protocolVersion), WriteString(h.serverAddress), EncodeBE(2, h.serverPort),
                      WriteVarInt(NextStateValue(h.nextState));
    Assoc(a, b + (c + d), s);
    Assoc(b, c + d, s);
    Assoc(c, d, s);
    VarIntRoundTrip(h.protocolVersion, b + (c + (d + s)));
    StringExact(h.serverAddress, MAX_SERVER_ADDRESS_CHARS, c + (d + s));
    BERoundTrip(2, h.serverPort, d + s);
    VarIntRoundTrip(NextStateValue(h.nextState), s);
  }

  // ----- login start -----

  const MAX_USERNAME_CHARS: nat := 16

  datatype LoginStart = LoginStart(name: bytes, uuid: u128)

  function EncodeLoginStart(p: LoginStart): bytes {
    WriteString(p.name) + EncodeBE(16, p.uuid)
  }

  function DecodeLoginStart(s: bytes): (r: Field<LoginStart>)
    ensures r.Ok? ==> |r.value.name| <= 48 && IsUtf8(r.value.name)
  {
    match ReadString(s, MAX_USERNAME_CHARS)
    case Err(e) => Err(e)
    case Ok(name, s1) =>
      match ReadBE(s1, 16)
      case Err(e) => Err(e)
      case Ok(uuid, s2) => Pow256Values(); Ok(LoginStart(name, uuid), s2)
  }

  lemma LoginStartExact(p: LoginStart, s: bytes)
    requires IsUtf8(p.name)
    ensures DecodeLoginStart(EncodeLoginStart(p) + s) == Ok(p, s) <==> |p.name| <= 48
    ensures 48 < |p.name| < TWO_31 ==> DecodeLoginStart(EncodeLoginStart(p) + s) == Err(StringTooLong(|p.name|, 48))
  {
    Pow256Values();
    hide ReadString, WriteString, ReadBE, EncodeBE, IsUtf8, Pow256;
    Assoc(WriteString(p.name), EncodeBE(16, p.uuid), s);
    StringExact(p.name, MAX_USERNAME_CHARS, EncodeBE(16, p.uuid) + s);
    BERoundTrip(16, p.uuid, s);
  }

  // ----- login success -----

  const MAX_PROPERTY_NAME_CHARS: nat := 64
  const MAX_PROPERTY_VALUE_CHARS: nat := 32767
  const MAX_SIGNATURE_CHARS: nat := 1024
  const MAX_PROFILE_PROPERTIES: nat := 16

  datatype ProfileProperty = ProfileProperty(name: bytes, value: bytes, signature: Option<bytes>)
  datatype GameProfile = GameProfile(uuid: u128, username: bytes, properties: seq<ProfileProperty>)
  datatype LoginSuccess = LoginSuccess(profile: GameProfile, sessionId: u128)

  function WriteOptional(v: Option<bytes>): bytes {
    match v case None => [0] case Some(s) => [1] + WriteString(s)
  }

  /** A presence byte other than 0 or 1 is refused, not coerced. */
  function ReadOptional(s: bytes, maxChars: nat): (r: Field<Option<bytes>>)
    ensures r.Ok? && r.value.Some? ==> StringFits(r.value.value, maxChars) && IsUtf8(r.value.value)
  {
    if s == [] then Err(UnexpectedEof)
    else if s[0] == 0 then Ok(None, s[1..])
    else if s[0] == 1 then
      match ReadString(s[1..], maxChars)
      case Err(e) => Err(e)
      case Ok(v, s1) => Ok(Some(v), s1)
    else Err(InvalidBoolean(s[0]))
  }

  function EncodeProperty(p: ProfileProperty): bytes {
    WriteString(p.name) + (WriteString(p.value) + WriteOptional(p.signature))
  }

  function DecodeProperty(s: bytes): (r: Field<ProfileProperty>)
    ensures r.Ok? ==> PropertyFits(r.value) && Typed(r.value)
  {
    match ReadString(s, MAX_PROPERTY_NAME_CHARS)
    case Err(e) => Err(e)
    case Ok(name, s1) =>
      match ReadString(s1, MAX_PROPERTY_VALUE_CHARS)
      case Err(e) => Err(e)
      case Ok(value, s2) =>
        match ReadOptional(s2, MAX_SIGNATURE_CHARS)
        case Err(e) => Err(e)
        case Ok(signature, s3) => Ok(ProfileProperty(name, value, signature), s3)
  }

  function EncodeProperties(ps: seq<ProfileProperty>): bytes {
    if ps == [] then [] else EncodeProperty(ps[0]) + EncodeProperties(ps[1..])
  }

  function DecodeProperties(s: bytes, n: nat): (r: Field<seq<ProfileProperty>>)
    decreases n
  {
    if n == 0 then Ok([], s)
    else match DecodeProperty(s)
      case Err(e) => Err(e)
      case Ok(p, s1) => Prepend([p], DecodeProperties(s1, n - 1))
  }

  function Prepend<T>(acc: seq<T>, r: Field<seq<T>>): (q: Field<seq<T>>)
    ensures acc == [] ==> q == r
    ensures r.Ok? && r.value == [] ==> q == Ok(acc, r.rest)
  {
    match r case Err(e) => Err(e) case Ok(v, s) => assert [] + v == v && acc + [] == acc; Ok(acc + v, s)
  }

  function EncodePropertyArray(ps: seq<ProfileProperty>): bytes {
    WriteVarInt(CastI32(|ps|)) + EncodeProperties(ps)
  }

  function DecodePropertyArray(s: bytes): (r: Field<seq<ProfileProperty>>) {
    match ReadVarInt(s)
    case Err(e) => Err(e)
    case Ok(len, s1) =>
      if len < 0 then Err(NegativeLength(len))
      else if len > MAX_PROFILE_PROPERTIES then Err(ArrayTooLong(len, MAX_PROFILE_PROPERTIES))
      else DecodeProperties(s1, len)
  }

  function EncodeLoginSuccess(p: LoginSuccess): bytes {
    EncodeBE(16, p.profile.uuid)
    + (WriteString(p.profile.username) + (EncodePropertyArray(p.profile.properties) + EncodeBE(16, p.sessionId)))
  }

  function DecodeLoginSuccess(s: bytes): (r: Field<LoginSuccess>) {
    match ReadBE(s, 16)
    case Err(e) => Err(e)
    case Ok(uuid, s1) =>
      match ReadString(s1, MAX_USERNAME_CHARS)
      case Err(e) => Err(e)
      case Ok(username, s2) =>
        match DecodePropertyArray(s2)
        case Err(e) => Err(e)
        case Ok(properties, s3) =>
          match ReadBE(s3, 16)
          case Err(e) => Err(e)
          case Ok(session, s4) => Pow256Values(); Ok(LoginSuccess(GameProfile(uuid, username, properties), session), s4)
  }

  /** Every string is UTF-8, as Rust's `String` guarantees. */
  predicate Typed(p: ProfileProperty) {
    IsUtf8(p.name) && IsUtf8(p.value) && (p.signature.Some? ==> IsUtf8(p.signature.value))
  }

  predicate AllTyped(ps: seq<ProfileProperty>) {
    forall i :: 0 <= i < |ps| ==> Typed(ps[i])
  }

  /** No length wraps in its 32-bit prefix. */
  predicate Prefixable(p: ProfileProperty) {
    |p.name| < TWO_31 && |p.value| < TWO_31 && (p.signature.Some? ==> |p.signature.value| < TWO_31)
  }

  predicate AllPrefixable(ps: seq<ProfileProperty>) {
    |ps| < TWO_31 && forall i :: 0 <= i < |ps| ==> Prefixable(ps[i])
  }

  /** The byte caps of a property's strings: three bytes a character. */
  predicate PropertyFits(p: ProfileProperty) {
    |p.name| <= 192 && |p.value| <= 98_301 && (p.signature.Some? ==> |p.signature.value| <= 3_072)
  }

  predicate AllFit(ps: seq<ProfileProperty>) {
    forall i :: 0 <= i < |ps| ==> PropertyFits(ps[i])
  }

  predicate SuccessFits(p: LoginSuccess) {
    |p.profile.username| <= 48 && |p.profile.properties| <= 16 && AllFit(p.profile.properties)
  }

  lemma OptionalExact(v: Option<bytes>, maxChars: nat, s: bytes)
    requires v.Some? ==> IsUtf8(v.value)
    ensures var r := ReadOptional(WriteOptional(v) + s, maxChars);
            && (r == Ok(v, s) <==> v.Some? ==> StringFits(v.value, maxChars) && |v.value| < TWO_31)
            && (r != Ok(v, s) && v.Some? && |v.value| < TWO_31 ==> r.Err?)
  {
    hide ReadString, WriteString, IsUtf8;
    if v.Some? {
      Assoc([1], WriteString(v.value), s);
      Split([1], WriteString(v.value) + s);
      StringExact(v.value, maxChars, s);
    } else {
      Split([0], s);
    }
  }

  /** A property is read back exactly when its strings are within their caps; too long for them is an error. */
  lemma PropertyExact(p: ProfileProperty, s: bytes)
    requires Typed(p)
    ensures var r := DecodeProperty(EncodeProperty(p) + s);
            (r == Ok(p, s) <==> PropertyFits(p)) && (!PropertyFits(p) && Prefixable(p) ==> r.Err?)
  {
    hide ReadString, WriteString, IsUtf8, ReadOptional, WriteOptional;
    var b, c := WriteString(p.value), WriteOptional(p.signature);
    Assoc(WriteString(p.name), b + c, s);
    Assoc(b, c, s);
    StringExact(p.name, MAX_PROPERTY_NAME_CHARS, b + (c + s));
    StringExact(p.value, MAX_PROPERTY_VALUE_CHARS, c + s);
    OptionalExact(p.signature, MAX_SIGNATURE_CHARS, s);
  }

  lemma {:induction false} PropertiesExact(ps: seq<ProfileProperty>, s: bytes)
    requires AllTyped(ps)
    ensures var r := DecodeProperties(EncodeProperties(ps) + s, |ps|);
            (r == Ok(ps, s) <==> AllFit(ps)) && (!AllFit(ps) && AllPrefixable(ps) ==> r.Err?)
  {
    hide DecodeProperty, EncodeProperty, Typed, PropertyFits, Prefixable;
    if ps == [] {
      assert EncodeProperties(ps) + s == s;
    } else {
      var tail := EncodeProperties(ps[1..]) + s;
      Assoc(EncodeProperty(ps[0]), EncodeProperties(ps[1..]), s);
      PropertyExact(ps[0], tail);
      PropertiesExact(ps[1..], s);
      assert ps == [ps[0]] + ps[1..];
      assert AllFit(ps) <==> PropertyFits(ps[0]) && AllFit(ps[1..]);
      if DecodeProperties(EncodeProperties(ps) + s, |ps|).Ok? { DecodedPropertiesFit(EncodeProperties(ps) + s, |ps|); }
    }
  }

  /** Whatever is decoded is within the caps. */
  lemma {:induction false} DecodedPropertiesFit(s: bytes, n: nat)
    requires DecodeProperties(s, n).Ok?
    ensures var ps := DecodeProperties(s, n).value; |ps| == n && AllFit(ps) && AllTyped(ps)
    decreases n
  {
    hide DecodeProperty, PropertyFits, Typed;
    if n > 0 { DecodedPropertiesFit(DecodeProperty(s).rest, n - 1); }
  }

  lemma DecodedArrayFits(s: bytes)
    ensures var r := DecodePropertyArray(s); r.Ok? ==> |r.value| <= 16 && AllFit(r.value) && AllTyped(r.value)
  {
    hide DecodeProperties, AllFit, AllTyped, ReadVarInt;
    var r := ReadVarInt(s);
    if DecodePropertyArray(s).Ok? { DecodedPropertiesFit(r.rest, r.value); }
  }

  lemma DecodedSuccessFits(s: bytes)
    ensures DecodeLoginSuccess(s).Ok? ==>
              var p := DecodeLoginSuccess(s).value;
              SuccessFits(p) && IsUtf8(p.profile.username) && AllTyped(p.profile.properties)
  {
    Pow256Values();
    hide DecodePropertyArray, AllFit, AllTyped, ReadBE, ReadString, Pow256, IsUtf8;
    if ReadBE(s, 16).Ok? && ReadString(ReadBE(s, 16).rest, MAX_USERNAME_CHARS).Ok? {
      DecodedArrayFits(ReadString(ReadBE(s, 16).rest, MAX_USERNAME_CHARS).rest);
    }
  }

  lemma PropertyArrayExact(ps: seq<ProfileProperty>, s: bytes)
    requires AllTyped(ps)
    ensures var r := DecodePropertyArray(EncodePropertyArray(ps) + s);
            && (r == Ok(ps, s) <==> |ps| <= 16 && AllFit(ps))
            && (r != Ok(ps, s) && AllPrefixable(ps) ==> r.Err?)
            && (16 < |ps| < TWO_31 ==> r == Err(ArrayTooLong(|ps|, 16)))
  {
    hide DecodeProperties, EncodeProperties, ReadVarInt, WriteVarInt, CastI32;
    Assoc(WriteVarInt(CastI32(|ps|)), EncodeProperties(ps), s);
    VarIntRoundTrip(CastI32(|ps|), EncodeProperties(ps) + s);
    PropertiesExact(ps, s);
    DecodedArrayFits(EncodePropertyArray(ps) + s);
  }

  /** A login success is read back exactly when every string and the property array are within their caps. */
  lemma LoginSuccessExact(p: LoginSuccess, s: bytes)
    requires IsUtf8(p.profile.username) && AllTyped(p.profile.properties)
    ensures var r := DecodeLoginSuccess(EncodeLoginSuccess(p) + s);
            && (r == Ok(p, s) <==> SuccessFits(p))
            && (!SuccessFits(p) && |p.profile.username| < TWO_31 && AllPrefixable(p.profile.properties) ==> r.Err?)
  {
    Pow256Values();
    hide ReadString, WriteString, ReadBE, EncodeBE, IsUtf8, Pow256, DecodePropertyArray, EncodePropertyArray, AllFit,
         AllTyped, AllPrefixable;
    var a, b, c, d := EncodeBE(16, p.profile.uuid), WriteString(p.profile.username),
                      EncodePropertyArray(p.profile.properties), EncodeBE(16, p.sessionId);
    Assoc(a, b + (c + d), s);
    Assoc(b, c + d, s);
    Assoc(c, d, s);
    BERoundTrip(16, p.profile.uuid, b + (c + (d + s)));
    StringExact(p.profile.username, MAX_USERNAME_CHARS, c + (d + s));
    PropertyArrayExact(p.profile.properties, d + s);
    BERoundTrip(16, p.sessionId, s);
    DecodedSuccessFits(EncodeLoginSuccess(p) + s);
  }

  // ----- whole bodies -----

  /** `RawPacket::decode_as`: a body must be consumed to the end. */
  function WholeBody<T>(r: Field<T>): Field<T> {
    match r case Err(e) => Err(e) case Ok(v, s) => if s == [] then r else Err(TrailingBytes(|s|))
  }

  /** Trailing bytes are refused by their number, and nothing else is changed. */
  lemma WholeBodyExact<T>(r: Field<T>)
    ensures r.Ok? ==> WholeBody(r) == if |r.rest| == 0 then r else Err(TrailingBytes(|r.rest|))
    ensures r.Err? ==> WholeBody(r) == r
  {}

  // ----- what reading says of every input -----

  /** A string is read exactly when a length prefix, however padded, announces just its bytes and they are allowed. */
  lemma StringReadExact(s: bytes, maxChars: nat, v: bytes, rest: bytes)
    ensures ReadString(s, maxChars) == Ok(v, rest) <==>
            ReadVarInt(s) == Ok(|v|, v + rest) && |v| <= 3 * maxChars && IsUtf8(v)
  {
    hide ReadVarInt, IsUtf8;
    Split(v, rest);
    if ReadVarInt(s).Ok? {
      var n, s1 := ReadVarInt(s).value, ReadVarInt(s).rest;
      if 0 <= n <= |s1| { assert s1 == s1[..n] + s1[n..]; }
    }
  }

  /** Every reason to refuse a string, in the order they are tried. */
  lemma StringRefusals(s: bytes, maxChars: nat)
    ensures var p, r := ReadVarInt(s), ReadString(s, maxChars);
            && (p.Err? ==> r == Err(p.error))
            && (p.Ok? && p.value < 0 ==> r == Err(NegativeLength(p.value)))
            && (p.Ok? && p.value > 3 * maxChars ==> r == Err(StringTooLong(p.value, 3 * maxChars)))
            && (p.Ok? && |p.rest| < p.value <= 3 * maxChars ==> r == Err(UnexpectedEof))
            && (p.Ok? && 0 <= p.value <= 3 * maxChars && p.value <= |p.rest| && !IsUtf8(p.rest[..p.value]) ==>
                  r == Err(InvalidUtf8))
  {
    hide ReadVarInt, IsUtf8;
  }

  lemma BEReadExact(s: bytes, width: nat, v: nat, rest: bytes)
    ensures ReadBE(s, width) == Ok(v, rest) <==> v < Pow256(width) && s == EncodeBE(width, v) + rest
    ensures ReadBE(s, width).Err? ==> ReadBE(s, width) == Err(UnexpectedEof) && |s| < width
  {
    if v < Pow256(width) { BERoundTrip(width, v, rest); }
    if |s| >= width {
      EncodeDecodeBE(s[..width]);
      assert s == s[..width] + s[width..];
    }
  }

  /** What bytes are a handshake: four fields, one after the other. */
  lemma HandshakeReadExact(s: bytes, h: Handshake, rest: bytes)
    ensures DecodeHandshake(s) == Ok(h, rest) <==>
            exists a: bytes, b: bytes ::
              && ReadVarInt(s) == Ok(h.protocolVersion, a)
              && ReadString(a, 255) == Ok(h.serverAddress, EncodeBE(2, h.serverPort) + b)
              && ReadVarInt(b) == Ok(match h.nextState case ToStatus => 1 case ToLogin => 2 case ToTransfer => 3, rest)
  {
    Pow256Values();
    hide ReadVarInt, ReadString, ReadBE, EncodeBE, IsUtf8, Pow256;
    if DecodeHandshake(s) == Ok(h, rest) {
      var a := ReadVarInt(s).rest;
      var c := ReadString(a, 255).rest;
      BEReadExact(c, 2, h.serverPort, ReadBE(c, 2).rest);
    }
    forall a: bytes, b: bytes |
      && ReadVarInt(s) == Ok(h.protocolVersion, a)
      && ReadString(a, 255) == Ok(h.serverAddress, EncodeBE(2, h.serverPort) + b)
      && ReadVarInt(b) == Ok(match h.nextState case ToStatus => 1 case ToLogin => 2 case ToTransfer => 3, rest)
      ensures DecodeHandshake(s) == Ok(h, rest)
    {
      BEReadExact(EncodeBE(2, h.serverPort) + b, 2, h.serverPort, b);
    }
  }

  /** An undefined next state is refused by its value. */
  lemma NextStateRefused(version: i32, address: bytes, port: u16, value: i32, s: bytes)
    requires IsUtf8(address) && |address| <= 765 && !(1 <= value <= 3)
    ensures DecodeHandshake(WriteVarInt(version)
                            + (WriteString(address) + (EncodeBE(2, port) + (WriteVarInt(value) + s))))
            == Err(InvalidNextState(value))
  {
    Pow256Values();
    hide ReadVarInt, WriteVarInt, ReadString, WriteString, ReadBE, EncodeBE, IsUtf8, Pow256;
    var c := EncodeBE(2, port) + (WriteVarInt(value) + s);
    VarIntRoundTrip(version, WriteString(address) + c);
    StringExact(address, 255, c);
    BERoundTrip(2, port, WriteVarInt(value) + s);
    VarIntRoundTrip(value, s);
  }

  lemma LoginStartReadExact(s: bytes, p: LoginStart, rest: bytes)
    ensures DecodeLoginStart(s) == Ok(p, rest) <==> ReadString(s, 16) == Ok(p.name, EncodeBE(16, p.uuid) + rest)
  {
    Pow256Values();
    hide ReadString, ReadBE, EncodeBE, IsUtf8, Pow256;
    BEReadExact(EncodeBE(16, p.uuid) + rest, 16, p.uuid, rest);
    if ReadString(s, 16).Ok? {
      BEReadExact(ReadString(s, 16).rest, 16, p.uuid, rest);
    }
  }

  /** A presence byte is 0, or 1 and then the string; any other is refused by its value. */
  lemma OptionalReadExact(b: byte, s: bytes, maxChars: nat)
    ensures ReadOptional([b] + s, maxChars) ==
            (if b == 0 then Ok(None, s)
             else if b != 1 then Err(InvalidBoolean(b))
             else if ReadString(s, maxChars).Err? then Err(ReadString(s, maxChars).error)
             else Ok(Some(ReadString(s, maxChars).value), ReadString(s, maxChars).rest))
    ensures ReadOptional([], maxChars) == Err(UnexpectedEof)
  {
    hide ReadString;
    assert ([b] + s)[1..] == s;
  }

  /** A property count that is negative, or above sixteen, is refused by its value. */
  lemma CountRefused(n: i32, s: bytes)
    ensures n < 0 ==> DecodePropertyArray(WriteVarInt(n) + s) == Err(NegativeLength(n))
    ensures n > 16 ==> DecodePropertyArray(WriteVarInt(n) + s) == Err(ArrayTooLong(n, 16))
  {
    hide ReadVarInt, WriteVarInt, DecodeProperties;
    VarIntRoundTrip(n, s);
  }

  // ----- the codecs as the source runs them -----

  method PutString(dst: Sink, s: bytes)
    modifies dst
    ensures dst.data == old(dst.data) + WriteString(s)
  {
    PutVarInt(dst, CastI32(|s|));
    dst.Put(s);
  }

  method GetString(src: Source, maxChars: nat) returns (r: Outcome<bytes>)
    modifies src
    ensures Follows(r, src.rest, ReadString(old(src.rest), maxChars))
  {
    hide ReadVarInt;
    var declared :- GetVarInt(src);
    if declared < 0 {
      return Failure(NegativeLength(declared));
    }
    var max := maxChars * MAX_BYTES_PER_CHAR;
    if declared > max {
      return Failure(StringTooLong(declared, max));
    }
    if |src.rest| < declared {
      return Failure(UnexpectedEof);
    }
    var text := src.rest[..declared];
    src.rest := src.rest[declared..];
    if !IsUtf8(text) {
      return Failure(InvalidUtf8);
    }
    return Success(text);
  }

  method GetBE(src: Source, width: nat) returns (r: Outcome<nat>)
    modifies src
    ensures Follows(r, src.rest, ReadBE(old(src.rest), width))
    ensures r.Success? ==> r.value < Pow256(width)
  {
    if |src.rest| < width {
      return Failure(UnexpectedEof);
    }
    r := Success(DecodeBE(src.rest[..width]));
    src.rest := src.rest[width..];
  }

  method PutHandshake(dst: Sink, h: Handshake)
    modifies dst
    ensures dst.data == old(dst.data) + EncodeHandshake(h)
  {
    hide WriteVarInt, WriteString, EncodeBE;
    PutVarInt(dst, h.protocolVersion);
    PutString(dst, h.serverAddress);
    dst.Put(EncodeBE(2, h.serverPort));
    PutVarInt(dst, NextStateValue(h.nextState));
  }

  method GetHandshake(src: Source) returns (r: Outcome<Handshake>)
    modifies src
    ensures Follows(r, src.rest, DecodeHandshake(old(src.rest)))
  {
    hide ReadVarInt, ReadString, ReadBE;
    Pow256Values();
    var version :- GetVarInt(src);
    var address :- GetString(src, MAX_SERVER_ADDRESS_CHARS);
    var port :- GetBE(src, 2);
    var value :- GetVarInt(src);
    match NextStateOf(value)
    case None => return Failure(InvalidNextState(value));
    case Some(next) => return Success(Handshake(version, address, port, next));
  }

  method PutLoginStart(dst: Sink, p: LoginStart)
    modifies dst
    ensures dst.data == old(dst.data) + EncodeLoginStart(p)
  {
    hide WriteString, EncodeBE;
    PutString(dst, p.name);
    dst.Put(EncodeBE(16, p.uuid));
  }

  method GetLoginStart(src: Source) returns (r: Outcome<LoginStart>)
    modifies src
    ensures Follows(r, src.rest, DecodeLoginStart(old(src.rest)))
  {
    hide ReadString, ReadBE;
    Pow256Values();
    var name :- GetString(src, MAX_USERNAME_CHARS);
    var uuid :- GetBE(src, 16);
    return Success(LoginStart(name, uuid));
  }

  method PutOptional(dst: Sink, v: Option<bytes>)
    modifies dst
    ensures dst.data == old(dst.data) + WriteOptional(v)
  {
    match v
    case None => dst.Put([0]);
    case Some(s) =>
      dst.Put([1]);
      PutString(dst, s);
  }

  method GetOptional(src: Source, maxChars: nat) returns (r: Outcome<Option<bytes>>)
    modifies src
    ensures Follows(r, src.rest, ReadOptional(old(src.rest), maxChars))
  {
    hide ReadString;
    if src.rest == [] {
      return Failure(UnexpectedEof);
    }
    var tag := src.rest[0];
    src.rest := src.rest[1..];
    if tag == 0 {
      return Success(None);
    } else if tag == 1 {
      var s :- GetString(src, maxChars);
      return Success(Some(s));
    }
    return Failure(InvalidBoolean(tag));
  }

  method PutProperty(dst: Sink, p: ProfileProperty)
    modifies dst
    ensures dst.data == old(dst.data) + EncodeProperty(p)
  {
    hide WriteString, WriteOptional;
    PutString(dst, p.name);
    PutString(dst, p.value);
    PutOptional(dst, p.signature);
  }

  method GetProperty(src: Source) returns (r: Outcome<ProfileProperty>)
    modifies src
    ensures Follows(r, src.rest, DecodeProperty(old(src.rest)))
  {
    hide ReadString, ReadOptional;
    var name :- GetString(src, MAX_PROPERTY_NAME_CHARS);
    var value :- GetString(src, MAX_PROPERTY_VALUE_CHARS);
    var signature :- GetOptional(src, MAX_SIGNATURE_CHARS);
    return Success(ProfileProperty(name, value, signature));
  }

  method PutPropertyArray(dst: Sink, ps: seq<ProfileProperty>)
    modifies dst
    ensures dst.data == old(dst.data) + EncodePropertyArray(ps)
  {
    hide EncodeProperty, WriteVarInt, CastI32;
    PutVarInt(dst, CastI32(|ps|));
    for i := 0 to |ps|
      invariant old(dst.data) + EncodePropertyArray(ps) == dst.data + EncodeProperties(ps[i..])
    {
      assert ps[i..][1..] == ps[i + 1..];
      PutProperty(dst, ps[i]);
    }
  }

  method GetPropertyArray(src: Source) returns (r: Outcome<seq<ProfileProperty>>)
    modifies src
    ensures Follows(r, src.rest, DecodePropertyArray(old(src.rest)))
  {
    hide ReadVarInt, DecodeProperty;
    var len :- GetVarInt(src);
    if len < 0 {
      return Failure(NegativeLength(len));
    }
    if len > MAX_PROFILE_PROPERTIES {
      return Failure(ArrayTooLong(len, MAX_PROFILE_PROPERTIES));
    }
    var items: seq<ProfileProperty> := [];
    ghost var all := DecodeProperties(src.rest, len);
    for i := 0 to len
      invariant all == Prepend(items, DecodeProperties(src.rest, len - i))
    {
      ghost var before := items;
      var item :- GetProperty(src);
      items := items + [item];
      PrependTwice(before, item, DecodeProperties(src.rest, len - i - 1));
    }
    return Success(items);
  }

  lemma PrependTwice<T>(acc: seq<T>, x: T, q: Field<seq<T>>)
    ensures Prepend(acc, Prepend([x], q)) == Prepend(acc + [x], q)
  {
    if q.Ok? {
      assert acc + ([x] + q.value) == (acc + [x]) + q.value;
    }
  }

  method PutLoginSuccess(dst: Sink, p: LoginSuccess)
    modifies dst
    ensures dst.data == old(dst.data) + EncodeLoginSuccess(p)
  {
    hide WriteString, EncodeBE, EncodePropertyArray;
    dst.Put(EncodeBE(16, p.profile.uuid));
    PutString(dst, p.profile.username);
    PutPropertyArray(dst, p.profile.properties);
    dst.Put(EncodeBE(16, p.sessionId));
  }

  method GetLoginSuccess(src: Source) returns (r: Outcome<LoginSuccess>)
    modifies src
    ensures Follows(r, src.rest, DecodeLoginSuccess(old(src.rest)))
  {
    hide ReadString, ReadBE, DecodePropertyArray;
    Pow256Values();
    var uuid :- GetBE(src, 16);
    var username :- GetString(src, MAX_USERNAME_CHARS);
    var properties :- GetPropertyArray(src);
    var session :- GetBE(src, 16);
    return Success(LoginSuccess(GameProfile(uuid, username, properties), session));
  }
}
