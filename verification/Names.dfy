/**
 The duplicate-name check a decoded compound goes through: sort the names, then compare neighbours
 (crates/nbt/src/read.rs, `reject_duplicate_keys`), against the pairwise definition.
 */
module Names {
  import opened Bytes

  // ----- the byte order `str` sorts by -----

  predicate Leq(a: bytes, b: bytes)
    decreases |a|
  {
    if a == [] then true
    else if b == [] then false
    else if a[0] != b[0] then a[0] < b[0]
    else Leq(a[1..], b[1..])
  }

  lemma {:induction false} LeqTotal(a: bytes, b: bytes)
    ensures Leq(a, b) || Leq(b, a)
    decreases |a|
  {
    if a != [] && b != [] && a[0] == b[0] {
      LeqTotal(a[1..], b[1..]);
    }
  }

  lemma {:induction false} LeqAntisymmetric(a: bytes, b: bytes)
    requires Leq(a, b) && Leq(b, a)
    ensures a == b
    decreases |a|
  {
    if a != [] && b != [] {
      LeqAntisymmetric(a[1..], b[1..]);
      assert a == [a[0]] + a[1..] && b == [b[0]] + b[1..];
    }
  }

  lemma {:induction false} LeqTransitive(a: bytes, b: bytes, c: bytes)
    requires Leq(a, b) && Leq(b, c)
    ensures Leq(a, c)
    decreases |a|
  {
    if a != [] && b != [] && c != [] && a[0] == b[0] == c[0] {
      LeqTransitive(a[1..], b[1..], c[1..]);
    }
  }

  /** `b` follows `a` in the order strings compare by, decided at byte `i`. */
  predicate Below(a: bytes, b: bytes, i: nat) {
    i < |a| && i < |b| && a[..i] == b[..i] && a[i] < b[i]
  }

  lemma BelowTail(a: bytes, b: bytes, i: nat)
    requires a != [] && b != [] && a[0] == b[0]
    ensures !Below(a, b, 0) && (Below(a[1..], b[1..], i) <==> Below(a, b, i + 1))
    ensures a <= b <==> a[1..] <= b[1..]
  {
    assert a == [a[0]] + a[1..] && b == [b[0]] + b[1..];
    if i + 1 <= |a| && i + 1 <= |b| {
      assert a[..i + 1] == [a[0]] + a[1..][..i] && b[..i + 1] == [b[0]] + b[1..][..i];
      assert a[..i + 1][1..] == a[1..][..i] && b[..i + 1][1..] == b[1..][..i];
    }
  }

  /** The order is the one strings compare by: a prefix comes first, otherwise the first byte that differs decides. */
  lemma {:induction false} LeqExact(a: bytes, b: bytes)
    ensures Leq(a, b) <==> a <= b || exists i: nat :: Below(a, b, i)
    decreases |a|
  {
    if a != [] && b != [] {
      forall i: nat | i > 0 && Below(a, b, i) ensures a[0] == b[0] {
        assert a[..i][0] == b[..i][0];
      }
      if a[0] == b[0] {
        LeqExact(a[1..], b[1..]);
        forall i: nat ensures !Below(a, b, 0) && (Below(a[1..], b[1..], i) <==> Below(a, b, i + 1)) {
          BelowTail(a, b, i);
        }
        BelowTail(a, b, 0);
        hide Below;
        if i: nat :| Below(a, b, i) {
          assert i > 0 && Below(a[1..], b[1..], i - 1);
        }
        if i: nat :| Below(a[1..], b[1..], i) {
          assert Below(a, b, i + 1);
        }
      } else {
        assert Below(a, b, 0) <==> a[0] < b[0];
      }
    }
  }

  // ----- sorting -----

  predicate Sorted(s: seq<bytes>) {
    forall i, j :: 0 <= i < j < |s| ==> Leq(s[i], s[j])
  }

  function Insert(x: bytes, s: seq<bytes>): (r: seq<bytes>)
    ensures multiset(r) == multiset(s) + multiset{x}
  {
    if s == [] then [x]
    else if Leq(x, s[0]) then [x] + s
    else
      assert s == [s[0]] + s[1..];
      [s[0]] + Insert(x, s[1..])
  }

  function Sort(s: seq<bytes>): (r: seq<bytes>)
    ensures multiset(r) == multiset(s)
  {
    if s == [] then [] else
      assert s == [s[0]] + s[1..];
      Insert(s[0], Sort(s[1..]))
  }

  lemma SortedCons(x: bytes, s: seq<bytes>)
    requires Sorted(s) && forall y :: y in s ==> Leq(x, y)
    ensures Sorted([x] + s)
  {
    hide Leq;
    var r := [x] + s;
    forall i, j | 0 <= i < j < |r| ensures Leq(r[i], r[j]) {
      assert r[j] == s[j - 1];
      if i > 0 { assert r[i] == s[i - 1]; }
    }
  }

  lemma {:induction false} InsertSorted(x: bytes, s: seq<bytes>)
    requires Sorted(s)
    ensures Sorted(Insert(x, s))
  {
    hide Leq;
    if s == [] {
    } else if Leq(x, s[0]) {
      forall y | y in s ensures Leq(x, y) {
        if y != s[0] { LeqTransitive(x, s[0], y); }
      }
      SortedCons(x, s);
    } else {
      LeqTotal(x, s[0]);
      InsertSorted(x, s[1..]);
      var t := Insert(x, s[1..]);
      forall y | y in t ensures Leq(s[0], y) {
        assert y in multiset(t);
        assert y == x || y in s[1..];
      }
      SortedCons(s[0], t);
    }
  }

  lemma {:induction false} SortSorted(s: seq<bytes>)
    ensures Sorted(Sort(s))
  {
    if s != [] {
      SortSorted(s[1..]);
      InsertSorted(s[0], Sort(s[1..]));
    }
  }

  /** The head of a sorted sequence is below everything that occurs in it. */
  lemma SortedHead(s: seq<bytes>, x: bytes)
    requires Sorted(s) && x in multiset(s)
    ensures s != [] && Leq(s[0], x)
  {
    LeqTotal(x, x);
    assert x in s;
  }

  lemma TailOf(s: seq<bytes>)
    requires s != []
    ensures s == [s[0]] + s[1..] && multiset(s[1..]) == multiset(s) - multiset{s[0]}
    ensures Sorted(s) ==> Sorted(s[1..])
  {
    hide Leq;
    assert s == [s[0]] + s[1..];
  }

  /** A sorted permutation is unique, so which sorting algorithm the library uses does not matter. */
  lemma {:induction false} SortedUnique(a: seq<bytes>, b: seq<bytes>)
    requires Sorted(a) && Sorted(b) && multiset(a) == multiset(b)
    ensures a == b
  {
    hide Leq;
    assert |a| == |multiset(a)| == |multiset(b)| == |b|;
    if a != [] {
      assert b[0] in multiset(b) && a[0] in multiset(a);
      SortedHead(a, b[0]);
      SortedHead(b, a[0]);
      LeqAntisymmetric(a[0], b[0]);
      TailOf(a);
      TailOf(b);
      SortedUnique(a[1..], b[1..]);
    }
  }

  // ----- finding a duplicate -----

  predicate Distinct(names: seq<bytes>) {
    forall i, j :: 0 <= i < j < |names| ==> names[i] != names[j]
  }

  /** The first neighbour pair that is equal. */
  function FirstAdjacent(s: seq<bytes>): (r: Option<bytes>)
  {
    if |s| < 2 then None
    else if s[0] == s[1] then Some(s[0])
    else FirstAdjacent(s[1..])
  }

  function DuplicateName(names: seq<bytes>): (r: Option<bytes>)
  {
    FirstAdjacent(Sort(names))
  }

  /** What a duplicate scan should report: nothing when every name occurs once, else the least that occurs twice. */
  ghost predicate LeastRepeated(s: seq<bytes>, r: Option<bytes>) {
    match r
    case None => forall x :: x in s ==> multiset(s)[x] == 1
    case Some(d) => multiset(s)[d] >= 2 && forall x :: multiset(s)[x] >= 2 ==> Leq(d, x)
  }

  /** On a sorted sequence the scan finds the least name that occurs twice, and misses none. */
  lemma {:induction false} FirstAdjacentSorted(s: seq<bytes>)
    requires Sorted(s)
    ensures LeastRepeated(s, FirstAdjacent(s))
  {
    hide Leq, LeastRepeated, Sorted;
    if |s| < 2 {
      ShortHasNone(s);
    } else if s[0] == s[1] {
      HeadRepeats(s);
    } else {
      TailOf(s);
      FirstAdjacentSorted(s[1..]);
      HeadOnce(s);
      TailDecides(s, FirstAdjacent(s[1..]));
    }
  }

  lemma ShortHasNone(s: seq<bytes>)
    requires |s| < 2
    ensures LeastRepeated(s, None)
  {
    if s != [] { assert s == [s[0]]; }
  }

  lemma HeadRepeats(s: seq<bytes>)
    requires Sorted(s) && |s| >= 2 && s[0] == s[1]
    ensures LeastRepeated(s, Some(s[0]))
  {
    hide Leq;
    Multiplicities(s);
    assert s[1..][0] == s[0];
    forall x | multiset(s)[x] >= 2 ensures Leq(s[0], x) {
      SortedHead(s, x);
    }
  }

  lemma TailDecides(s: seq<bytes>, r: Option<bytes>)
    requires s != [] && s[0] !in s[1..] && LeastRepeated(s[1..], r)
    ensures LeastRepeated(s, r)
  {
    hide Leq;
    Multiplicities(s);
    forall x | x in s ensures x == s[0] || x in s[1..] {
      var i :| 0 <= i < |s| && s[i] == x;
      if i > 0 { assert s[1..][i - 1] == x; }
    }
  }

  /** How often a name occurs, from how often it occurs in the tail. */
  lemma Multiplicities(s: seq<bytes>)
    requires s != []
    ensures forall x :: multiset(s)[x] == multiset(s[1..])[x] + (if x == s[0] then 1 else 0)
    ensures forall x :: x in s[1..] <==> multiset(s[1..])[x] > 0
  {
    assert s == [s[0]] + s[1..];
  }

  /** In a sorted sequence a head that differs from its neighbour does not occur again. */
  lemma HeadOnce(s: seq<bytes>)
    requires Sorted(s) && |s| >= 2 && s[0] != s[1]
    ensures s[0] !in s[1..]
  {
    hide Leq;
    var t := s[1..];
    if s[0] in t {
      var j :| 0 <= j < |t| && t[j] == s[0];
      assert s[j + 1] == s[0];
      LeqAntisymmetric(s[0], s[1]);
    }
  }

  lemma {:induction false} DistinctIsMultiplicityOne(names: seq<bytes>)
    ensures Distinct(names) <==> forall x :: x in names ==> multiset(names)[x] == 1
  {
    if names != [] {
      var t := names[1..];
      assert names == [names[0]] + t;
      DistinctIsMultiplicityOne(t);
      assert Distinct(names) <==> Distinct(t) && names[0] !in t by {
        if Distinct(t) && names[0] !in t {
          forall i, j | 0 <= i < j < |names| ensures names[i] != names[j] {
            assert names[j] == t[j - 1];
            if i > 0 { assert names[i] == t[i - 1]; }
          }
        }
        if Distinct(names) {
          forall i, j | 0 <= i < j < |t| ensures t[i] != t[j] {
            assert names[i + 1] != names[j + 1];
          }
        }
      }
      Multiplicities(names);
    }
  }

  /**
   The sort-and-compare check fails exactly when two entries share a name, and the name it reports is
   the least one that occurs at least twice.
   */
  lemma DuplicateNameExact(names: seq<bytes>)
    ensures DuplicateName(names).None? <==> Distinct(names)
    ensures DuplicateName(names).Some? ==>
              && multiset(names)[DuplicateName(names).value] >= 2
              && forall x :: multiset(names)[x] >= 2 ==> Leq(DuplicateName(names).value, x)
  {
    var s := Sort(names);
    SortSorted(names);
    FirstAdjacentSorted(s);
    DistinctIsMultiplicityOne(names);
    forall x ensures x in s <==> x in names {
      assert x in s <==> x in multiset(s);
      assert x in names <==> x in multiset(names);
    }
    if DuplicateName(names).Some? {
      var d := DuplicateName(names).value;
      assert d in multiset(names);
      assert d in names;
    }
  }

  /** crates/nbt/src/read.rs `reject_duplicate_keys`: the name to report, or none. */
  method FindDuplicate(names: seq<bytes>) returns (r: Option<bytes>)
    ensures r == DuplicateName(names)
    ensures r.None? <==> Distinct(names)
  {
    DuplicateNameExact(names);
    if |names| < 2 {
      return None;
    }
    var sorted := Sort(names);
    assert |sorted| == |names| by { assert |multiset(sorted)| == |multiset(names)|; }
    for i := 0 to |sorted| - 1
      invariant FirstAdjacent(sorted) == FirstAdjacent(sorted[i..])
    {
      if sorted[i] == sorted[i + 1] {
        return Some(sorted[i]);
      }
      assert sorted[i..][1..] == sorted[i + 1..];
    }
    return None;
  }
}
