/** Well-formed UTF-8 (section 4 of RFC 3629) and its length in UTF-16 code units. */
module Utf8 {
  import opened Bytes

  predicate Tail(b: byte) {
    0x80 <= b <= 0xBF
  }

  /** The length of the well-formed character at the front of `s`, or 0 when there is none. */
  function CharLen(s: bytes): (n: nat)
    ensures n <= 4 && n <= |s|
  {
    if s == [] then 0
    else if s[0] <= 0x7F then 1
    else if 0xC2 <= s[0] <= 0xDF && |s| >= 2 && Tail(s[1]) then 2
    else if |s| >= 3 && Tail(s[1]) && Tail(s[2])
            && ((s[0] == 0xE0 && s[1] >= 0xA0) || 0xE1 <= s[0] <= 0xEC
                || (s[0] == 0xED && s[1] <= 0x9F) || 0xEE <= s[0] <= 0xEF) then 3
    else if |s| >= 4 && Tail(s[1]) && Tail(s[2]) && Tail(s[3])
            && ((s[0] == 0xF0 && s[1] >= 0x90) || 0xF1 <= s[0] <= 0xF3
                || (s[0] == 0xF4 && s[1] <= 0x8F)) then 4
    else 0
  }

  predicate IsUtf8(s: bytes)
    decreases |s|
  {
    s == [] || (CharLen(s) > 0 && IsUtf8(s[CharLen(s)..]))
  }

  /** Characters outside the basic plane (four bytes) are surrogate pairs, section 2.1 of RFC 2781. */
  function Utf16Units(s: bytes): (n: nat)
    requires IsUtf8(s)
    decreases |s|
  {
    if s == [] then 0
    else (if CharLen(s) == 4 then 2 else 1) + Utf16Units(s[CharLen(s)..])
  }

  // ----- against the definition by code points -----

  /** A Unicode scalar value: a code point that is not a surrogate. */
  type scalar = c: int | 0 <= c < 0xD800 || 0xDFFF < c <= 0x10FFFF

  /** A continuation byte: the low six bits of `c`. */
  function Low(c: nat): (b: byte)
    ensures Tail(b)
  {
    0x80 + c % 64
  }

  /** The bit distribution of section 3 of RFC 3629: the high bits in the first byte, then six to a byte. */
  function EncodeScalar(c: scalar): (r: bytes)
    ensures 1 <= |r| <= 4
  {
    if c < 0x80 then [c as byte]
    else if c < 0x800 then [Lead(0xC0, c / 64), Low(c)]
    else if c < 0x1_0000 then [Lead(0xE0, c / 64 / 64), Low(c / 64), Low(c)]
    else [Lead(0xF0, c / 64 / 64 / 64), Low(c / 64 / 64), Low(c / 64), Low(c)]
  }

  function Lead(mark: byte, high: nat): byte
    requires mark + high < 0x100
  {
    mark + high
  }

  function EncodeText(cs: seq<scalar>): bytes {
    if cs == [] then [] else EncodeScalar(cs[0]) + EncodeText(cs[1..])
  }

  /** The scalar values `s` spells. */
  function DecodeText(s: bytes): seq<scalar>
    requires IsUtf8(s)
    decreases |s|
  {
    if s == [] then [] else [DecodeScalar(s)] + DecodeText(s[CharLen(s)..])
  }

  /** Appends the six bits of a continuation byte. */
  function Shift(high: nat, b: byte): nat
    requires Tail(b)
  {
    high * 64 + (b - 0x80)
  }

  function DecodeScalar(s: bytes): (c: scalar)
    requires CharLen(s) > 0
  {
    match CharLen(s)
    case 1 => s[0] as int
    case 2 => Shift(s[0] - 0xC0, s[1])
    case 3 => Shift(Shift(s[0] - 0xE0, s[1]), s[2])
    case _ => Shift(Shift(Shift(s[0] - 0xF0, s[1]), s[2]), s[3])
  }

  /** Section 2.1 of RFC 2781: scalar values from U+10000 up take a surrogate pair. */
  function TextUnits(cs: seq<scalar>): nat {
    if cs == [] then 0 else (if cs[0] >= 0x1_0000 then 2 else 1) + TextUnits(cs[1..])
  }

  lemma LowShift(c: nat, high: nat, b: byte)
    ensures Shift(c / 64, Low(c)) == c
    ensures Tail(b) ==> Shift(high, b) / 64 == high && Low(Shift(high, b)) == b
  {}

  lemma ScalarFound(c: scalar, t: bytes)
    ensures var s := EncodeScalar(c) + t;
            CharLen(s) == |EncodeScalar(c)| && DecodeScalar(s) == c && s[CharLen(s)..] == t
    ensures |EncodeScalar(c)| == 4 <==> c >= 0x1_0000
  {
    var e := EncodeScalar(c);
    var s := e + t;
    assert s[|e|..] == t;
    assert forall i :: 0 <= i < |e| ==> s[i] == e[i];
    LowShift(c, 0, 0);
    LowShift(c / 64, 0, 0);
    LowShift(c / 64 / 64, 0, 0);
    hide Low, Shift;
  }

  lemma CharacterSpelt(s: bytes)
    requires CharLen(s) > 0
    ensures EncodeScalar(DecodeScalar(s)) + s[CharLen(s)..] == s
  {
    hide Low;
    var n, e := CharLen(s), EncodeScalar(DecodeScalar(s));
    if n == 2 {
      LowShift(0, s[0] - 0xC0, s[1]);
    } else if n == 3 {
      LowShift(0, s[0] - 0xE0, s[1]);
      LowShift(0, Shift(s[0] - 0xE0, s[1]), s[2]);
    } else if n == 4 {
      LowShift(0, s[0] - 0xF0, s[1]);
      LowShift(0, Shift(s[0] - 0xF0, s[1]), s[2]);
      LowShift(0, Shift(Shift(s[0] - 0xF0, s[1]), s[2]), s[3]);
    }
    assert |e| == n;
    assert e == s[..n];
  }

  /** What encodes scalar values is well formed, spells them, and has their length in UTF-16 units. */
  lemma {:induction false} TextEncodes(cs: seq<scalar>)
    ensures IsUtf8(EncodeText(cs)) && DecodeText(EncodeText(cs)) == cs && Utf16Units(EncodeText(cs)) == TextUnits(cs)
  {
    hide CharLen, EncodeScalar, DecodeScalar;
    if cs != [] {
      TextEncodes(cs[1..]);
      ScalarFound(cs[0], EncodeText(cs[1..]));
    }
  }

  lemma {:induction false} TextDecodes(s: bytes)
    requires IsUtf8(s)
    ensures EncodeText(DecodeText(s)) == s
    decreases |s|
  {
    hide CharLen, EncodeScalar, DecodeScalar;
    if s != [] {
      TextDecodes(s[CharLen(s)..]);
      CharacterSpelt(s);
    }
  }

  /** The byte grammar accepts exactly the encodings of sequences of scalar values, and each has only one. */
  lemma Utf8Exact(s: bytes)
    ensures IsUtf8(s) <==> exists cs: seq<scalar> :: EncodeText(cs) == s
    ensures forall cs: seq<scalar>, ds: seq<scalar> :: EncodeText(cs) == s && EncodeText(ds) == s ==> cs == ds
  {
    if IsUtf8(s) {
      TextDecodes(s);
    }
    forall cs: seq<scalar> | EncodeText(cs) == s
      ensures IsUtf8(s) && DecodeText(s) == cs
    {
      TextEncodes(cs);
    }
  }

  // ----- bytes per unit -----

  /** Three bytes per declared UTF-16 unit are always enough. */
  lemma {:induction false} ThreeBytesPerUnit(s: bytes)
    requires IsUtf8(s)
    ensures Utf16Units(s) <= |s| <= 3 * Utf16Units(s)
    decreases |s|
  {
    if s != [] {
      ThreeBytesPerUnit(s[CharLen(s)..]);
    }
  }

  /** Three is also the least such factor: U+FFFD repeated `n` times takes `3 * n` bytes for `n` units. */
  lemma {:induction false} ThreeIsTight(n: nat)
    ensures exists s: bytes :: IsUtf8(s) && Utf16Units(s) == n && |s| == 3 * n
  {
    if n == 0 {
      assert IsUtf8([]) && Utf16Units([]) == 0;
    } else {
      ThreeIsTight(n - 1);
      var t: bytes :| IsUtf8(t) && Utf16Units(t) == n - 1 && |t| == 3 * (n - 1);
      var s: bytes := [0xEF, 0xBF, 0xBD] + t;
      assert CharLen(s) == 3 && s[3..] == t;
      assert IsUtf8(s) && Utf16Units(s) == n && |s| == 3 * n;
    }
  }

  lemma {:induction false} AsciiIsUtf8(s: bytes)
    requires forall i :: 0 <= i < |s| ==> s[i] < 0x80
    ensures IsUtf8(s) && Utf16Units(s) == |s|
    decreases |s|
  {
    if s != [] {
      assert CharLen(s) == 1;
      AsciiIsUtf8(s[1..]);
    }
  }
}
