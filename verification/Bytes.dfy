/**
 Bytes, big-endian integers, and the two byte buffers every codec works on: a `Source` that reads
 consume from the front, and a `Sink` that writes append to.
 */
module Bytes {

  type byte = x: int | 0 <= x < 256
  type bytes = seq<byte>

  datatype Option<+T> = None | Some(value: T)

  /** What a parser takes off the front of an input. */
  datatype Parse<+T, +E> = Ok(value: T, rest: bytes) | Err(error: E)

  /** What a method that may fail returns. */
  datatype Result<+T, +E> = Success(value: T) | Failure(error: E) {
    predicate IsFailure() { Failure? }
    function PropagateFailure<U>(): Result<U, E> requires Failure? { Failure(error) }
    function Extract(): T requires Success? { value }
  }

  /** The method's result and the input it left behind are what the parser gives. */
  ghost predicate Follows<T, E>(r: Result<T, E>, rest: bytes, p: Parse<T, E>) {
    match p case Ok(v, s) => r == Success(v) && rest == s case Err(e) => r == Failure(e)
  }

  /** The unread part of an input; every read removes what it consumed from the front. */
  class Source {
    var rest: bytes

    constructor (s: bytes)
      ensures rest == s
    {
      rest := s;
    }
  }

  /** An output buffer; every write appends. */
  class Sink {
    var data: bytes

    constructor ()
      ensures data == []
    {
      data := [];
    }

    method Put(s: bytes)
      modifies this
      ensures data == old(data) + s
    {
      data := data + s;
    }
  }

  lemma Split(a: bytes, b: bytes)
    ensures (a + b)[..|a|] == a && (a + b)[|a|..] == b
  {}

  lemma Assoc(a: bytes, b: bytes, c: bytes)
    ensures (a + b) + c == a + (b + c)
  {}

  // ----- big-endian integers -----

  function Pow256(n: nat): (p: nat)
    ensures p >= 1
    ensures n >= 1 ==> p % 256 == 0
  {
    if n == 0 then 1 else 256 * Pow256(n - 1)
  }

  lemma Pow256Values()
    ensures Pow256(1) == 0x100 && Pow256(2) == 0x1_0000 && Pow256(4) == 0x1_0000_0000
    ensures Pow256(8) == 0x1_0000_0000_0000_0000
    ensures Pow256(16) == 0x1_0000_0000_0000_0000_0000_0000_0000_0000
  {
    assert Pow256(3) == 0x100_0000;
    assert Pow256(5) == 0x100_0000_0000 && Pow256(6) == 0x1_0000_0000_0000 && Pow256(7) == 0x100_0000_0000_0000;
    assert Pow256(9) == 256 * Pow256(8) && Pow256(10) == 256 * Pow256(9) && Pow256(11) == 256 * Pow256(10);
    assert Pow256(12) == 256 * Pow256(11) && Pow256(13) == 256 * Pow256(12) && Pow256(14) == 256 * Pow256(13);
    assert Pow256(15) == 256 * Pow256(14);
  }

  /** The low `width` bytes of `v` in two's complement, most significant first. */
  function EncodeBE(width: nat, v: int): (r: bytes)
    ensures |r| == width
  {
    if width == 0 then [] else EncodeBE(width - 1, v / 256) + [v % 256]
  }

  function ShiftBytes(v: int, k: nat): int
    decreases k
  {
    if k == 0 then v else ShiftBytes(v / 256, k - 1)
  }

  /** Network byte order: byte `i` holds the bits above those of all later bytes. */
  lemma {:induction false} BigEndian(width: nat, v: int, i: nat)
    requires i < width
    ensures EncodeBE(width, v)[i] == ShiftBytes(v, width - 1 - i) % 256
  {
    if i < width - 1 {
      BigEndian(width - 1, v / 256, i);
    }
  }

  function DecodeBE(s: bytes): (v: nat)
    ensures v < Pow256(|s|)
  {
    if s == [] then 0 else 256 * DecodeBE(s[..|s| - 1]) + s[|s| - 1]
  }

  lemma {:induction false} DecodeEncodeBE(width: nat, v: nat)
    requires v < Pow256(width)
    ensures DecodeBE(EncodeBE(width, v)) == v
  {
    if width > 0 {
      DecodeEncodeBE(width - 1, v / 256);
      var r := EncodeBE(width, v);
      assert r[..|r| - 1] == EncodeBE(width - 1, v / 256);
    }
  }

  lemma {:induction false} EncodeDecodeBE(s: bytes)
    ensures EncodeBE(|s|, DecodeBE(s)) == s
  {
    if s != [] {
      var init, last := s[..|s| - 1], s[|s| - 1];
      EncodeDecodeBE(init);
      assert DecodeBE(s) / 256 == DecodeBE(init) && DecodeBE(s) % 256 == last;
      assert s == init + [last];
    }
  }

  // ----- two's complement -----

  /** Whether `v` is a value of the signed type of `width` bytes. */
  predicate InRange(width: nat, v: int) {
    0 <= 2 * v + Pow256(width) && 2 * v < Pow256(width)
  }

  function DecodeInt(s: bytes): (v: int)
    requires s != []
    ensures InRange(|s|, v)
  {
    var u := DecodeBE(s);
    if 2 * u >= Pow256(|s|) then u - Pow256(|s|) else u
  }

  lemma {:induction false} EncodeBEWraps(width: nat, v: int)
    ensures EncodeBE(width, v) == EncodeBE(width, v + Pow256(width))
  {
    if width > 0 {
      EncodeBEWraps(width - 1, v / 256);
      assert (v + 256 * Pow256(width - 1)) / 256 == v / 256 + Pow256(width - 1);
    }
  }

  lemma DecodeEncodeInt(width: nat, v: int)
    requires width > 0 && InRange(width, v)
    ensures DecodeInt(EncodeBE(width, v)) == v
  {
    var u := if v < 0 then v + Pow256(width) else v;
    EncodeBEWraps(width, v);
    DecodeEncodeBE(width, u);
    hide EncodeBE, DecodeBE, Pow256;
  }

  lemma EncodeDecodeInt(s: bytes)
    requires s != []
    ensures EncodeBE(|s|, DecodeInt(s)) == s
  {
    EncodeDecodeBE(s);
    EncodeBEWraps(|s|, DecodeInt(s));
  }

  // ----- arrays of integers -----

  predicate AllInRange(width: nat, vs: seq<int>) {
    forall i :: 0 <= i < |vs| ==> InRange(width, vs[i])
  }

  function EncodeInts(width: nat, vs: seq<int>): (r: bytes)
    ensures |r| == width * |vs|
  {
    if vs == [] then [] else
      assert width * |vs| == width + width * |vs[1..]|;
      EncodeBE(width, vs[0]) + EncodeInts(width, vs[1..])
  }

  function DecodeInts(width: nat, s: bytes, n: nat): (vs: seq<int>)
    requires width > 0 && width * n <= |s|
    ensures |vs| == n && AllInRange(width, vs)
    decreases n
  {
    if n == 0 then [] else
      assert width * n == width + width * (n - 1) && width * (n - 1) >= 0;
      [DecodeInt(s[..width])] + DecodeInts(width, s[width..], n - 1)
  }

  lemma {:induction false} DecodeEncodeInts(width: nat, vs: seq<int>, s: bytes)
    requires width > 0 && AllInRange(width, vs)
    ensures DecodeInts(width, EncodeInts(width, vs) + s, |vs|) == vs
    decreases |vs|
  {
    if vs != [] {
      var all := EncodeInts(width, vs) + s;
      var tail := EncodeInts(width, vs[1..]);
      assert width * |vs| == width + width * |vs[1..]|;
      assert all == EncodeBE(width, vs[0]) + (tail + s);
      assert all[..width] == EncodeBE(width, vs[0]) && all[width..] == tail + s;
      DecodeEncodeInt(width, vs[0]);
      DecodeEncodeInts(width, vs[1..], s);
    }
  }

  lemma {:induction false} EncodeDecodeInts(width: nat, s: bytes, n: nat)
    requires width > 0 && width * n <= |s|
    ensures EncodeInts(width, DecodeInts(width, s, n)) == s[..width * n]
    decreases n
  {
    hide EncodeInts, DecodeInts, DecodeInt, EncodeBE;
    if n == 0 {
      NoInts(width, s);
    } else {
      var head, tail := s[..width], s[width..];
      NextInt(width, s, n);
      EncodeDecodeInts(width, tail, n - 1);
      EncodeIntsCons(width, DecodeInt(head), DecodeInts(width, tail, n - 1));
      EncodeDecodeInt(head);
    }
  }

  lemma NoInts(width: nat, s: bytes)
    requires width > 0
    ensures EncodeInts(width, DecodeInts(width, s, 0)) == s[..width * 0]
  {}

  lemma NextInt(width: nat, s: bytes, k: nat)
    requires width > 0 && k > 0 && width * k <= |s|
    ensures 0 <= width * (k - 1) && width <= |s| && width * (k - 1) <= |s[width..]|
    ensures DecodeInts(width, s, k) == [DecodeInt(s[..width])] + DecodeInts(width, s[width..], k - 1)
    ensures s[..width * k] == s[..width] + s[width..][..width * (k - 1)]
  {
    assert width * k == width + width * (k - 1);
  }

  lemma EncodeIntsCons(width: nat, v: int, vs: seq<int>)
    ensures EncodeInts(width, [v] + vs) == EncodeBE(width, v) + EncodeInts(width, vs)
  {
    hide EncodeBE;
    assert ([v] + vs)[1..] == vs;
  }
}
