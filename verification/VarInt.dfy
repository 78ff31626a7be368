/**
 VarInt and VarLong (crates/protocol/src/varint.rs): little-endian groups of seven bits, bit 7 meaning
 "another byte follows". Shifts and masks are stated as division and remainder by powers of 128.
 */
module VarInt {
  import opened Bytes
  import opened Wire

  const MAX_VARINT_LEN: nat := 5
  const MAX_VARLONG_LEN: nat := 10
  const TWO_31: nat := 0x8000_0000
  const TWO_32: nat := 0x1_0000_0000
  const TWO_63: nat := 0x8000_0000_0000_0000
  const TWO_64: nat := 0x1_0000_0000_0000_0000

  predicate IsI32(v: int) { 0 <= v + TWO_31 && v < TWO_31 }

  predicate IsI64(v: int) { 0 <= v + TWO_63 && v < TWO_63 }

  /** Reinterpretation of a signed value modulo `m` as unsigned, and back. */
  function Unsigned(v: int, m: nat): nat
    requires 0 <= 2 * v + m && 2 * v < m
  {
    if v < 0 then v + m else v
  }

  function Signed(u: nat, m: nat): (v: int)
    requires u < m
    ensures 0 <= 2 * v + m && 2 * v < m
  {
    if 2 * u >= m then u - m else u
  }

  /** The low bits that fit an integer type of modulus `m`. */
  function Trunc(u: nat, m: nat): (r: nat)
    requires m > 0
    ensures r < m
  {
    u % m
  }

  function Pow128(n: nat): (p: nat)
    ensures p >= 1
  {
    if n == 0 then 1 else 128 * Pow128(n - 1)
  }

  lemma Pow128Values()
    ensures Pow128(1) == 128 && Pow128(2) == 0x4000 && Pow128(3) == 0x20_0000 && Pow128(4) == 0x1000_0000
    ensures 16 * Pow128(4) == TWO_32 <= Pow128(5) && 2 * Pow128(9) == TWO_64 <= Pow128(10)
  {
    assert Pow128(5) == 0x8_0000_0000 && Pow128(6) == 0x400_0000_0000 && Pow128(7) == 0x2_0000_0000_0000;
    assert Pow128(8) == 0x100_0000_0000_0000;
  }

  /** A group's seven bits shifted into place. */
  function Term(x: nat, index: nat): nat {
    x * Pow128(index)
  }

  // ----- groups -----

  function WriteGroups(u: nat): (r: bytes)
    ensures |r| >= 1
  {
    if u < 128 then [u] else [u % 128 + 128] + WriteGroups(u / 128)
  }

  function ShiftGroups(u: nat, k: nat): nat
    decreases k
  {
    if k == 0 then u else ShiftGroups(u / 128, k - 1)
  }

  /** Little-endian base 128: byte `i` holds group `i`, bit 7 is set on all but the last, and nothing is left over. */
  lemma {:induction false} GroupLayout(u: nat, i: nat)
    requires i < |WriteGroups(u)|
    ensures WriteGroups(u)[i] == ShiftGroups(u, i) % 128 + (if i < |WriteGroups(u)| - 1 then 128 else 0)
    ensures i == |WriteGroups(u)| - 1 ==> ShiftGroups(u, i) < 128 && (i > 0 ==> ShiftGroups(u, i) > 0)
  {
    if i > 0 {
      GroupLayout(u / 128, i - 1);
    }
  }

  datatype Groups = Got(u: nat, width: nat) | Eof | TooLong

  /** At most `n` groups, without reducing the value to any integer width. */
  function ReadGroups(s: bytes, n: nat): (g: Groups)
    ensures g.Got? ==> 1 <= g.width <= n && g.width <= |s|
    ensures g.Eof? ==> |s| < n
    decreases n
  {
    if n == 0 then TooLong
    else if s == [] then Eof
    else if s[0] < 128 then Got(s[0], 1)
    else match ReadGroups(s[1..], n - 1)
      case Got(u, w) => Got(s[0] - 128 + 128 * u, w + 1)
      case other => other
  }

  lemma {:induction false} GroupsRoundTrip(u: nat, n: nat, s: bytes)
    requires n > 0 && u < Pow128(n)
    ensures ReadGroups(WriteGroups(u) + s, n) == Got(u, |WriteGroups(u)|)
  {
    var all := WriteGroups(u) + s;
    if u >= 128 {
      assert Pow128(n) == 128 * Pow128(n - 1);
      GroupsRoundTrip(u / 128, n - 1, s);
      assert all[1..] == WriteGroups(u / 128) + s;
    }
  }

  lemma {:induction false} WriteGroupsShort(u: nat, n: nat)
    requires n > 0 && u < Pow128(n)
    ensures |WriteGroups(u)| <= n
  {
    if u >= 128 {
      WriteGroupsShort(u / 128, n - 1);
    }
  }

  /** What was read depends only on the bytes read; a longer input gives the same answer. */
  lemma {:induction false} GroupsExtend(s: bytes, t: bytes, n: nat)
    requires !ReadGroups(s, n).Eof?
    ensures ReadGroups(s + t, n) == ReadGroups(s, n)
    decreases n
  {
    if n > 0 && s[0] >= 128 {
      GroupsExtend(s[1..], t, n - 1);
      assert (s + t)[1..] == s[1..] + t;
    }
  }

  lemma {:induction false} GroupsLocal(s: bytes, n: nat)
    requires ReadGroups(s, n).Got?
    ensures ReadGroups(s[..ReadGroups(s, n).width], n) == ReadGroups(s, n)
    decreases n
  {
    var w := ReadGroups(s, n).width;
    if s[0] >= 128 {
      GroupsLocal(s[1..], n - 1);
      assert s[..w][1..] == s[1..][..w - 1];
    }
  }

  /** The last byte read is the value's top group. */
  lemma {:induction false} GroupsTop(s: bytes, n: nat)
    requires ReadGroups(s, n).Got?
    ensures var g := ReadGroups(s, n);
            var top, p := s[g.width - 1], Pow128(g.width - 1);
            top < 128 && top * p <= g.u < top * p + p && g.u < Pow128(g.width)
    decreases n
  {
    hide Pow128;
    PowZero();
    PowNext(0);
    if s[0] >= 128 {
      GroupsTop(s[1..], n - 1);
      var g, g1 := ReadGroups(s, n), ReadGroups(s[1..], n - 1);
      var top, p := s[g.width - 1], Pow128(g1.width - 1);
      PowNext(g1.width - 1);
      PowNext(g1.width);
      assert s[1..][g1.width - 1] == top;
      TopProduct(s[0] - 128, g1.u, top, p);
    }
  }

  lemma TopProduct(x: nat, u: nat, top: nat, p: nat)
    requires x < 128 && top * p <= u < top * p + p
    ensures top * (128 * p) <= x + 128 * u < top * (128 * p) + 128 * p
  {
    assert top * (128 * p) == 128 * (top * p);
  }

  /** Writing the unreduced value gives the bytes that were read unless the last one is padding. */
  lemma {:induction false} GroupsRewrite(s: bytes, n: nat)
    requires ReadGroups(s, n).Got?
    ensures var g := ReadGroups(s, n); WriteGroups(g.u) == s[..g.width] <==> g.width == 1 || s[g.width - 1] != 0
    decreases n
  {
    if s[0] >= 128 {
      GroupsRewrite(s[1..], n - 1);
      GroupsTop(s, n);
      GroupsTop(s[1..], n - 1);
      var g, g1 := ReadGroups(s, n), ReadGroups(s[1..], n - 1);
      var top := s[g.width - 1];
      assert s[1..][g1.width - 1] == top;
      assert s[..g.width] == [s[0]] + s[1..][..g1.width];
      if g.u < 128 {
        assert g1.u == 0;
      } else {
        assert g.u / 128 == g1.u && g.u % 128 + 128 == s[0];
        assert WriteGroups(g.u)[1..] == WriteGroups(g1.u);
        assert s[..g.width][1..] == s[1..][..g1.width];
        assert g1.width == 1 ==> Pow128(0) == 1;
      }
    }
  }

  // ----- the two integer types -----

  function WriteVarInt(v: int): (r: bytes)
    requires IsI32(v)
    ensures |r| >= 1
  {
    WriteGroups(Unsigned(v, TWO_32))
  }

  function WriteVarLong(v: int): (r: bytes)
    requires IsI64(v)
    ensures |r| >= 1
  {
    WriteGroups(Unsigned(v, TWO_64))
  }

  function ReadVar(s: bytes, n: nat, m: nat): (r: Field<int>)
    requires m > 0
    ensures r.Ok? ==> |r.rest| < |s| <= |r.rest| + n
  {
    match ReadGroups(s, n)
    case Got(u, w) => Ok(Signed(Trunc(u, m), m), s[w..])
    case Eof => Err(UnexpectedEof)
    case TooLong => Err(VarIntTooLong(n))
  }

  /** Bits above the integer's width are discarded, as the last byte of a negative value needs. */
  function ReadVarInt(s: bytes): (r: Field<int>)
    ensures r.Ok? ==> IsI32(r.value) && |r.rest| < |s|
  {
    ReadVar(s, MAX_VARINT_LEN, TWO_32)
  }

  function ReadVarLong(s: bytes): (r: Field<int>)
    ensures r.Ok? ==> IsI64(r.value) && |r.rest| < |s|
  {
    ReadVar(s, MAX_VARLONG_LEN, TWO_64)
  }

  /** Write then read is the identity, and nothing after the value is touched. */
  lemma VarIntRoundTrip(v: int, s: bytes)
    requires IsI32(v)
    ensures ReadVarInt(WriteVarInt(v) + s) == Ok(v, s)
    ensures |WriteVarInt(v)| <= MAX_VARINT_LEN
  {
    Pow128Values();
    hide ReadGroups, WriteGroups, Pow128;
    ReducedBelow(Unsigned(v, TWO_32), TWO_32);
    Split(WriteVarInt(v), s);
    GroupsRoundTrip(Unsigned(v, TWO_32), MAX_VARINT_LEN, s);
    WriteGroupsShort(Unsigned(v, TWO_32), MAX_VARINT_LEN);
  }

  lemma VarLongRoundTrip(v: int, s: bytes)
    requires IsI64(v)
    ensures ReadVarLong(WriteVarLong(v) + s) == Ok(v, s)
    ensures |WriteVarLong(v)| <= MAX_VARLONG_LEN
  {
    Pow128Values();
    hide ReadGroups, WriteGroups, Pow128;
    ReducedBelow(Unsigned(v, TWO_64), TWO_64);
    Split(WriteVarLong(v), s);
    GroupsRoundTrip(Unsigned(v, TWO_64), MAX_VARLONG_LEN, s);
    WriteGroupsShort(Unsigned(v, TWO_64), MAX_VARLONG_LEN);
  }

  function VarIntLen(v: int): nat
    requires IsI32(v)
  {
    var u := Unsigned(v, TWO_32);
    if u <= 0x7f then 1 else if u <= 0x3fff then 2 else if u <= 0x1f_ffff then 3 else if u <= 0xfff_ffff then 4 else 5
  }

  lemma {:induction false} GroupsWidth(u: nat, k: nat)
    requires u < Pow128(k + 1) && (k == 0 || u >= Pow128(k))
    ensures |WriteGroups(u)| == k + 1
  {
    if k > 0 {
      assert Pow128(k) >= 128;
      GroupsWidth(u / 128, k - 1);
    }
  }

  lemma VarIntLenExact(v: int)
    requires IsI32(v)
    ensures VarIntLen(v) == |WriteVarInt(v)|
  {
    Pow128Values();
    assert Pow128(5) == 128 * Pow128(4);
    GroupsWidth(Unsigned(v, TWO_32), VarIntLen(v) - 1);
  }

  // ----- arithmetic -----

  lemma MulMonotone(a: nat, b: nat, p: nat)
    requires a <= b
    ensures a * p <= b * p
  {}

  lemma RemainderUnique(d: nat, x: nat, q: nat, r: nat, m: nat)
    requires x < m && r < m && d * m + x == q * m + r
    ensures x == r
  {
    assert (d + 1) * m == d * m + m && (q + 1) * m == q * m + m;
    if q > d {
      MulMonotone(d + 1, q, m);
    } else if q < d {
      MulMonotone(q + 1, d, m);
    }
  }

  lemma ModOf(x: nat, d: nat, m: nat)
    requires x < m
    ensures (d * m + x) % m == x
  {
    var y := d * m + x;
    assert y == (y / m) * m + y % m;
    assert y / m >= 0;
    RemainderUnique(d, x, y / m, y % m, m);
  }

  lemma ModSplit(r: nat, b: nat, p: nat, q: nat)
    requires r < p && q > 0
    ensures q * p > 0 && (r + b * p) % (q * p) == r + (b * p) % (q * p)
  {
    var e, d, m := b % q, b / q, q * p;
    MulMonotone(1, q, p);
    DivideProduct(b, p, q);
    RemainderFits(e, p, q);
    ModOf(e * p, d, m);
    ModOf(r + e * p, d, m);
  }

  lemma DivideProduct(b: nat, p: nat, q: nat)
    requires q > 0
    ensures b * p == (b / q) * (q * p) + (b % q) * p
  {
    var d, e := b / q, b % q;
    assert b == d * q + e;
    SplitProduct(d, q, e, p);
  }

  lemma SplitProduct(d: nat, q: nat, e: nat, p: nat)
    ensures (d * q + e) * p == d * (q * p) + e * p
  {}

  lemma RemainderFits(e: nat, p: nat, q: nat)
    requires e < q
    ensures e * p + p <= q * p
  {
    MulMonotone(e + 1, q, p);
    assert (e + 1) * p == e * p + p;
  }

  lemma {:induction false} PowSplit(a: nat, b: nat)
    ensures Pow128(a + b) == Pow128(a) * Pow128(b)
  {
    if a > 0 { PowSplit(a - 1, b); }
  }

  // ----- what reading accepts beyond what writing makes -----

  /** Which encodings of up to `n` groups, reduced modulo `k * 128^(n-1)`, are the ones a writer makes. */
  lemma CanonicalMod(s: bytes, n: nat, k: nat, m: nat)
    requires n > 0 && k > 0 && m == k * Pow128(n - 1) && ReadGroups(s, n).Got?
    ensures var g := ReadGroups(s, n);
            && |WriteGroups(g.u % m)| <= g.width
            && (WriteGroups(g.u % m) == s[..g.width] <==>
                (g.width == 1 || s[g.width - 1] != 0) && (g.width == n ==> s[n - 1] < k))
  {
    hide ReadGroups, WriteGroups, Pow128;
    var g := ReadGroups(s, n);
    GroupsTop(s, n);
    GroupsRewrite(s, n);
    var top, p := s[g.width - 1], Pow128(n - 1);
    MulMonotone(1, k, p);
    ReducedBelow(g.u, m);
    WriteGroupsShort(g.u % m, g.width);
    if g.width < n {
      PowMonotone(g.width, n - 1);
    } else if top < k {
      MulMonotone(top + 1, k, p);
      assert (top + 1) * p == top * p + p;
    } else {
      MulMonotone(k, top, p);
      PowMonotone(g.width, n);
      GroupsRoundTrip(g.u % m, n, []);
      GroupsLocal(s, n);
      assert WriteGroups(g.u % m) + [] == WriteGroups(g.u % m);
    }
  }

  lemma ReducedBelow(u: nat, m: nat)
    requires m > 0
    ensures u % m <= u && u % m < m && (u < m ==> u % m == u)
  {
    if u < m { ModOf(u, 0, m); }
  }

  lemma {:induction false} PowMonotone(a: nat, b: nat)
    requires a <= b
    ensures Pow128(a) <= Pow128(b)
  {
    if a < b { PowMonotone(a, b - 1); }
  }

  /**
   Read-then-write is not the identity: reading accepts padding and drops the top bits of a fifth byte.
   It reproduces the bytes exactly when the last byte is not padding and drops nothing; and it never
   takes more bytes than were read.
   */
  lemma VarIntRewrite(s: bytes)
    requires ReadVarInt(s).Ok?
    ensures var r := ReadVarInt(s); var w := |s| - |r.rest|;
            && |WriteVarInt(r.value)| <= w
            && (WriteVarInt(r.value) == s[..w] <==>
                (w == 1 || s[w - 1] != 0) && (w == MAX_VARINT_LEN ==> s[w - 1] < 16))
  {
    Pow128Values();
    hide ReadGroups, WriteGroups, Pow128;
    CanonicalMod(s, MAX_VARINT_LEN, 16, TWO_32);
  }

  lemma VarLongRewrite(s: bytes)
    requires ReadVarLong(s).Ok?
    ensures var r := ReadVarLong(s); var w := |s| - |r.rest|;
            && |WriteVarLong(r.value)| <= w
            && (WriteVarLong(r.value) == s[..w] <==>
                (w == 1 || s[w - 1] != 0) && (w == MAX_VARLONG_LEN ==> s[w - 1] < 2))
  {
    Pow128Values();
    hide ReadGroups, WriteGroups, Pow128;
    CanonicalMod(s, MAX_VARLONG_LEN, 2, TWO_64);
  }

  /** Two bytes that read as zero, which is written as one. */
  lemma VarIntPaddingAccepted()
    ensures ReadVarInt([0x80, 0x00]) == Ok(0, []) && WriteVarInt(0) == [0x00]
  {
    var s: bytes := [0x80, 0x00];
    assert s[1..] == [0x00];
    assert ReadGroups(s[1..], 4) == Got(0, 1);
    assert ReadGroups(s, 5) == Got(0, 2);
  }

  lemma VarIntExtends(s: bytes, t: bytes)
    requires ReadVarInt(s) != Err(UnexpectedEof)
    ensures ReadVarInt(s + t) == (match ReadVarInt(s) case Ok(v, rest) => Ok(v, rest + t) case Err(e) => Err(e))
  {
    hide ReadGroups;
    GroupsExtend(s, t, MAX_VARINT_LEN);
    if ReadVarInt(s).Ok? {
      var w := ReadGroups(s, MAX_VARINT_LEN).width;
      assert (s + t)[w..] == s[w..] + t;
    }
  }

  // ----- what reading says of every input -----

  /** The first `k` bytes all announce another. */
  predicate AllContinue(s: bytes, k: nat)
    requires k <= |s|
  {
    forall i :: 0 <= i < k ==> s[i] >= 128
  }

  lemma {:induction false} GroupsOutcome(s: bytes, n: nat)
    ensures ReadGroups(s, n).Eof? <==> |s| < n && AllContinue(s, |s|)
    ensures ReadGroups(s, n).TooLong? <==> |s| >= n && AllContinue(s, n)
    ensures ReadGroups(s, n).Got? ==>
              var w := ReadGroups(s, n).width; AllContinue(s, w - 1) && s[w - 1] < 128
    decreases n
  {
    if n > 0 && s != [] && s[0] >= 128 {
      GroupsOutcome(s[1..], n - 1);
      assert s == [s[0]] + s[1..];
    }
  }

  /** Byte `i` of what was read is group `i` of the value, padding and discarded bits included. */
  lemma {:induction false} ReadLayout(s: bytes, n: nat, i: nat)
    requires ReadGroups(s, n).Got? && i < ReadGroups(s, n).width
    ensures ShiftGroups(ReadGroups(s, n).u, i) % 128 == s[i] % 128
    ensures i == ReadGroups(s, n).width - 1 ==> ShiftGroups(ReadGroups(s, n).u, i) < 128
    decreases n
  {
    if s[0] >= 128 && i > 0 {
      ReadLayout(s[1..], n - 1, i - 1);
      assert ReadGroups(s, n).u / 128 == ReadGroups(s[1..], n - 1).u;
    }
  }

  /**
   Every input, case by case: it ends too soon exactly when fewer than five bytes are there and all announce
   another; it is too long exactly when the first five all do; otherwise the value is what those groups
   spell, its low 32 bits taken as a signed number.
   */
  lemma VarIntOutcome(s: bytes)
    ensures ReadVarInt(s) == Err(UnexpectedEof) <==> |s| < 5 && AllContinue(s, |s|)
    ensures ReadVarInt(s) == Err(VarIntTooLong(5)) <==> |s| >= 5 && AllContinue(s, 5)
    ensures ReadVarInt(s).Err? ==> ReadVarInt(s).error in {UnexpectedEof, VarIntTooLong(5)}
    ensures ReadVarInt(s).Ok? ==>
              var w, u := |s| - |ReadVarInt(s).rest|, ReadGroups(s, 5).u;
              && 1 <= w <= 5 && AllContinue(s, w - 1) && s[w - 1] < 128 && ReadVarInt(s).rest == s[w..]
              && w == ReadGroups(s, 5).width
              && (ReadVarInt(s).value - u) % 0x1_0000_0000 == 0 && -0x8000_0000 <= ReadVarInt(s).value < 0x8000_0000
  {
    hide ReadGroups, AllContinue;
    GroupsOutcome(s, 5);
  }

  lemma VarLongOutcome(s: bytes)
    ensures ReadVarLong(s) == Err(UnexpectedEof) <==> |s| < 10 && AllContinue(s, |s|)
    ensures ReadVarLong(s) == Err(VarIntTooLong(10)) <==> |s| >= 10 && AllContinue(s, 10)
    ensures ReadVarLong(s).Err? ==> ReadVarLong(s).error in {UnexpectedEof, VarIntTooLong(10)}
    ensures ReadVarLong(s).Ok? ==>
              var w, u := |s| - |ReadVarLong(s).rest|, ReadGroups(s, 10).u;
              && 1 <= w <= 10 && AllContinue(s, w - 1) && s[w - 1] < 128 && ReadVarLong(s).rest == s[w..]
              && w == ReadGroups(s, 10).width
              && (ReadVarLong(s).value - u) % 0x1_0000_0000_0000_0000 == 0
              && -0x8000_0000_0000_0000 <= ReadVarLong(s).value < 0x8000_0000_0000_0000
  {
    hide ReadGroups, AllContinue;
    GroupsOutcome(s, 10);
  }

  // ----- the loops as the source runs them -----

  method PutGroups(dst: Sink, u: nat)
    modifies dst
    ensures dst.data == old(dst.data) + WriteGroups(u)
  {
    var remaining := u;
    while true
      invariant dst.data + WriteGroups(remaining) == old(dst.data) + WriteGroups(u)
      decreases remaining
    {
      if remaining < 128 {
        dst.Put([remaining]);
        return;
      }
      dst.Put([remaining % 128 + 128]);
      remaining := remaining / 128;
    }
  }

  method PutVarInt(dst: Sink, v: int)
    requires IsI32(v)
    modifies dst
    ensures dst.data == old(dst.data) + WriteVarInt(v)
  {
    PutGroups(dst, Unsigned(v, TWO_32));
  }

  method PutVarLong(dst: Sink, v: int)
    requires IsI64(v)
    modifies dst
    ensures dst.data == old(dst.data) + WriteVarLong(v)
  {
    PutGroups(dst, Unsigned(v, TWO_64));
  }

  /** `index` groups with value `acc` were read before `g`. */
  ghost function Shifted(g: Groups, index: nat, acc: nat): Groups {
    match g case Got(u, w) => Got(acc + Term(u, index), w + index) case other => other
  }

  /** One more group: `b` is the byte read at `index`, with `acc` accumulated before it. */
  lemma GroupStep(index: nat, acc: nat, b: byte, rest: bytes, n: nat, k: nat, m: nat)
    requires index < n && k > 0 && m == k * Pow128(n - 1) && acc < Pow128(index)
    ensures m > 0
    ensures var term := Term(b % 128, index);
            && Trunc(acc + term, m) == acc + Trunc(term, m)
            && (index + 1 < n ==> Trunc(term, m) == term && acc + term < Pow128(index + 1))
            && Shifted(ReadGroups([b] + rest, n - index), index, acc)
               == (if b < 128 then Got(acc + term, index + 1)
                   else Shifted(ReadGroups(rest, n - index - 1), index + 1, acc + term))
  {
    StepArithmetic(index, acc, b % 128, n, k, m);
    hide Trunc, Term, ReadGroups, Shifted, Pow128;
    ShiftedStep(index, acc, b, rest, n - index);
  }

  lemma ShiftedStep(index: nat, acc: nat, b: byte, rest: bytes, n: nat)
    requires n > 0
    ensures Shifted(ReadGroups([b] + rest, n), index, acc)
            == (if b < 128 then Got(acc + Term(b % 128, index), index + 1)
                else Shifted(ReadGroups(rest, n - 1), index + 1, acc + Term(b % 128, index)))
  {
    hide Term;
    assert ([b] + rest)[1..] == rest;
    var g := ReadGroups(rest, n - 1);
    if b >= 128 && g.Got? {
      TermStep(index, b - 128, g.u);
    }
  }

  lemma TermStep(index: nat, x: nat, u: nat)
    ensures Term(x + 128 * u, index) == Term(x, index) + Term(u, index + 1)
  {
    var p := Pow128(index);
    assert (x + 128 * u) * p == x * p + u * (128 * p);
  }

  lemma PowNext(n: nat)
    ensures Pow128(n + 1) == 128 * Pow128(n)
  {}

  lemma TermBound(index: nat, acc: nat, x: nat)
    requires acc < Pow128(index) && x < 128
    ensures acc + Term(x, index) < Pow128(index + 1)
  {
    var p := Pow128(index);
    MulMonotone(x + 1, 128, p);
    assert (x + 1) * p == x * p + p;
  }

  lemma Factor(index: nat, n: nat, k: nat)
    requires index < n && k > 0
    ensures k * Pow128(n - 1 - index) > 0
    ensures k * Pow128(n - 1) == (k * Pow128(n - 1 - index)) * Pow128(index)
  {
    PowSplit(index, n - 1 - index);
    hide Pow128;
    MulAssoc(k, Pow128(n - 1 - index), Pow128(index));
    MulMonotone(1, k, Pow128(n - 1 - index));
  }

  lemma MulAssoc(a: nat, b: nat, c: nat)
    ensures (a * b) * c == a * (c * b)
  {}

  lemma StepArithmetic(index: nat, acc: nat, x: nat, n: nat, k: nat, m: nat)
    requires index < n && k > 0 && m == k * Pow128(n - 1) && acc < Pow128(index) && x < 128
    ensures m > 0
    ensures var term := Term(x, index);
            && Trunc(acc + term, m) == acc + Trunc(term, m)
            && (index + 1 < n ==> Trunc(term, m) == term && acc + term < Pow128(index + 1))
  {
    hide Pow128;
    Factor(index, n, k);
    ModSplit(acc, x, Pow128(index), k * Pow128(n - 1 - index));
    TermBound(index, acc, x);
    if index + 1 < n {
      PowMonotone(index + 1, n - 1);
      MulMonotone(1, k, Pow128(n - 1));
      hide Term;
      ReducedBelow(Term(x, index), m);
    }
  }

  /** The consuming reader, for either width: `m` is `k * 128^(n-1)`, the modulus of the integer type. */
  method GetVar(src: Source, n: nat, k: nat, m: nat) returns (r: Outcome<int>)
    requires n > 0 && k > 0 && m == k * Pow128(n - 1)
    modifies src
    ensures Follows(r, src.rest, ReadVar(old(src.rest), n, m))
  {
    hide ReadGroups, Pow128, Trunc, Term, Shifted;
    var result: nat := 0;
    ghost var acc: nat := 0;
    PowZero();
    for index := 0 to n
      invariant index <= |old(src.rest)| && src.rest == old(src.rest)[index..]
      invariant ReadGroups(old(src.rest), n) == Shifted(ReadGroups(src.rest, n - index), index, acc)
      invariant index < n ==> result == acc < Pow128(index)
    {
      GroupsEnd(src.rest, n - index, index, acc);
      if src.rest == [] {
        return Failure(UnexpectedEof);
      }
      var b := src.rest[0];
      assert src.rest == [b] + src.rest[1..];
      GroupStep(index, acc, b, src.rest[1..], n, k, m);
      src.rest := src.rest[1..];
      result := result + Trunc(Term(b % 128, index), m);
      acc := acc + Term(b % 128, index);
      if b < 128 {
        return Success(Signed(result, m));
      }
    }
    GroupsEnd(src.rest, 0, n, acc);
    return Failure(VarIntTooLong(n));
  }

  lemma PowZero()
    ensures Pow128(0) == 1
    ensures forall g: Groups :: Shifted(g, 0, 0) == g
  {}

  lemma GroupsEnd(s: bytes, n: nat, index: nat, acc: nat)
    ensures n == 0 ==> Shifted(ReadGroups(s, n), index, acc) == TooLong
    ensures n > 0 && s == [] ==> Shifted(ReadGroups(s, n), index, acc) == Eof
  {}

  method GetVarInt(src: Source) returns (r: Outcome<int>)
    modifies src
    ensures Follows(r, src.rest, ReadVarInt(old(src.rest)))
  {
    Pow128Values();
    r := GetVar(src, MAX_VARINT_LEN, 16, TWO_32);
  }

  method GetVarLong(src: Source) returns (r: Outcome<int>)
    modifies src
    ensures Follows(r, src.rest, ReadVarLong(old(src.rest)))
  {
    Pow128Values();
    r := GetVar(src, MAX_VARLONG_LEN, 2, TWO_64);
  }

  /** A value with its width, "not yet complete", or too long. */
  datatype Peeked = Value(v: int, width: nat) | Partial | Overlong

  /**
   The reader that consumes nothing agrees with the consuming one case by case: same value and width,
   incomplete exactly where that one reports the end of input, too long exactly where that one does.
   */
  method PeekVarInt(s: bytes) returns (r: Peeked)
    ensures match ReadVarInt(s)
            case Ok(v, rest) => r == Value(v, |s| - |rest|)
            case Err(e) => r == if e == UnexpectedEof then Partial else Overlong
  {
    hide ReadGroups, Pow128, Trunc, Term, Shifted;
    var result: nat := 0;
    ghost var acc: nat := 0;
    Pow128Values();
    PowZero();
    for index := 0 to MAX_VARINT_LEN
      invariant index <= |s|
      invariant ReadGroups(s, 5) == Shifted(ReadGroups(s[index..], 5 - index), index, acc)
      invariant index < 5 ==> result == acc < Pow128(index)
    {
      GroupsEnd(s[index..], 5 - index, index, acc);
      if index >= |s| {
        return Partial;
      }
      var b := s[index];
      assert s[index..] == [b] + s[index + 1..];
      GroupStep(index, acc, b, s[index + 1..], 5, 16, TWO_32);
      result := result + Trunc(Term(b % 128, index), TWO_32);
      acc := acc + Term(b % 128, index);
      if b < 128 {
        return Value(Signed(result, TWO_32), index + 1);
      }
    }
    GroupsEnd(s[5..], 0, 5, acc);
    return Overlong;
  }
}
