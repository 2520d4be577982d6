/** Sequences of data points ordered by sort key, and the standard algorithms
    (lower_bound, upper_bound, inplace_merge, sort) that the container calls. */
module SortedSeq {
  // A double: a number or NaN.
  datatype Num = NaN | Val(v: real)

  // What a plottable's data type reports about one point.
  datatype Point = Point(sortKey: real, mainKey: real, mainValue: Num, low: Num, high: Num)

  const DEFAULT: Point := Point(0.0, 0.0, Val(0.0), Val(0.0), Val(0.0))

  ghost predicate Sorted(s: seq<Point>) { forall i, j :: 0 <= i < j < |s| ==> s[i].sortKey <= s[j].sortKey }

  // std::lower_bound: the first position whose key is not below `key`.
  function LowerBoundIn(s: seq<Point>, lo: nat, hi: nat, key: real): (i: nat)
    requires Sorted(s) && lo <= hi <= |s|
    requires forall j :: 0 <= j < lo ==> s[j].sortKey < key
    requires forall j :: hi <= j < |s| ==> key <= s[j].sortKey
    ensures lo <= i <= hi
    ensures forall j :: 0 <= j < i ==> s[j].sortKey < key
    ensures forall j :: i <= j < |s| ==> key <= s[j].sortKey
    decreases hi - lo
  {
    if lo == hi then lo
    else
      var mid := lo + (hi - lo) / 2;
      if s[mid].sortKey < key then LowerBoundIn(s, mid + 1, hi, key) else LowerBoundIn(s, lo, mid, key)
  }

  // std::upper_bound: the first position whose key is above `key`.
  function UpperBoundIn(s: seq<Point>, lo: nat, hi: nat, key: real): (i: nat)
    requires Sorted(s) && lo <= hi <= |s|
    requires forall j :: 0 <= j < lo ==> s[j].sortKey <= key
    requires forall j :: hi <= j < |s| ==> key < s[j].sortKey
    ensures lo <= i <= hi
    ensures forall j :: 0 <= j < i ==> s[j].sortKey <= key
    ensures forall j :: i <= j < |s| ==> key < s[j].sortKey
    decreases hi - lo
  {
    if lo == hi then lo
    else
      var mid := lo + (hi - lo) / 2;
      if key < s[mid].sortKey then UpperBoundIn(s, lo, mid, key) else UpperBoundIn(s, mid + 1, hi, key)
  }

  function LowerBound(s: seq<Point>, key: real): (i: nat)
    requires Sorted(s)
    ensures i <= |s|
    ensures forall j :: 0 <= j < i ==> s[j].sortKey < key
    ensures forall j :: i <= j < |s| ==> key <= s[j].sortKey
  {
    LowerBoundIn(s, 0, |s|, key)
  }

  function UpperBound(s: seq<Point>, key: real): (i: nat)
    requires Sorted(s)
    ensures i <= |s|
    ensures forall j :: 0 <= j < i ==> s[j].sortKey <= key
    ensures forall j :: i <= j < |s| ==> key < s[j].sortKey
  {
    UpperBoundIn(s, 0, |s|, key)
  }

  // The plain model of removal: keep the points that satisfy p, in order.
  function Where(s: seq<Point>, p: Point -> bool): seq<Point> {
    if s == [] then [] else (if p(s[0]) then [s[0]] else []) + Where(s[1..], p)
  }

  // As a plain multiset: the points that satisfy p keep their number, the others are gone.
  lemma {:induction false} WhereCounts(s: seq<Point>, p: Point -> bool, x: Point)
    ensures multiset(Where(s, p))[x] == if p(x) then multiset(s)[x] else 0
  {
    if s != [] {
      assert s == [s[0]] + s[1..];
      WhereCounts(s[1..], p, x);
    }
  }

  // Points for which p holds on exactly the positions i..j form that slice.
  lemma {:induction false} WhereSlice(s: seq<Point>, i: nat, j: nat, p: Point -> bool)
    requires i <= j <= |s|
    requires forall k :: 0 <= k < |s| ==> (p(s[k]) <==> i <= k < j)
    ensures Where(s, p) == s[i..j]
  {
    if s != [] {
      WhereSlice(s[1..], if i > 0 then i - 1 else 0, if j > 0 then j - 1 else 0, p);
      DropSlice(s, i, j);
    }
  }

  lemma DropSlice<T>(s: seq<T>, i: nat, j: nat)
    requires i <= j <= |s| && s != []
    ensures i > 0 ==> s[1..][i - 1..j - 1] == s[i..j]
    ensures i == 0 < j ==> [s[0]] + s[1..][0..j - 1] == s[i..j]
  {}

  // ... and dropping exactly those positions leaves the two outer parts.
  lemma {:induction false} WhereOutside(s: seq<Point>, i: nat, j: nat, p: Point -> bool)
    requires i <= j <= |s|
    requires forall k :: 0 <= k < |s| ==> (p(s[k]) <==> !(i <= k < j))
    ensures Where(s, p) == s[..i] + s[j..]
  {
    if s != [] {
      WhereOutside(s[1..], if i > 0 then i - 1 else 0, if j > 0 then j - 1 else 0, p);
      DropOutside(s, i, j);
    }
  }

  lemma DropOutside<T>(s: seq<T>, i: nat, j: nat)
    requires i <= j <= |s| && s != []
    ensures i > 0 ==> [s[0]] + (s[1..][..i - 1] + s[1..][j - 1..]) == s[..i] + s[j..]
    ensures i == 0 < j ==> s[1..][..0] + s[1..][j - 1..] == s[..i] + s[j..]
    ensures j == 0 ==> [s[0]] + (s[1..][..0] + s[1..][0..]) == s[..i] + s[j..]
  {}

  // std::inplace_merge: stable, the left part first among equal keys.
  function Merge(a: seq<Point>, b: seq<Point>): seq<Point> {
    if a == [] then b
    else if b == [] then a
    else if b[0].sortKey < a[0].sortKey then [b[0]] + Merge(a, b[1..])
    else [a[0]] + Merge(a[1..], b)
  }

  ghost predicate AtLeast(s: seq<Point>, key: real) { forall i :: 0 <= i < |s| ==> key <= s[i].sortKey }

  lemma {:induction false} MergeAtLeast(a: seq<Point>, b: seq<Point>, key: real)
    requires AtLeast(a, key) && AtLeast(b, key)
    ensures AtLeast(Merge(a, b), key)
  {
    if a != [] && b != [] {
      if b[0].sortKey < a[0].sortKey { MergeAtLeast(a, b[1..], key); } else { MergeAtLeast(a[1..], b, key); }
    }
  }

  lemma {:induction false} MergePermutes(a: seq<Point>, b: seq<Point>)
    ensures multiset(Merge(a, b)) == multiset(a) + multiset(b)
  {
    if a != [] && b != [] {
      if b[0].sortKey < a[0].sortKey {
        MergePermutes(a, b[1..]);
        FirstCounts(b);
      } else {
        MergePermutes(a[1..], b);
        FirstCounts(a);
      }
    }
  }

  lemma FirstCounts<T>(s: seq<T>)
    requires s != []
    ensures multiset(s) == multiset{s[0]} + multiset(s[1..])
  {
    assert s == [s[0]] + s[1..];
  }

  lemma {:induction false} MergeSorted(a: seq<Point>, b: seq<Point>)
    requires Sorted(a) && Sorted(b)
    ensures Sorted(Merge(a, b))
  {
    if a != [] && b != [] {
      if b[0].sortKey < a[0].sortKey {
        MergeSorted(a, b[1..]);
        MergeAtLeast(a, b[1..], b[0].sortKey);
      } else {
        MergeSorted(a[1..], b);
        MergeAtLeast(a[1..], b, a[0].sortKey);
      }
    }
  }

  function WithKey(key: real): Point -> bool { (p: Point) => p.sortKey == key }

  lemma {:induction false} NoneWith(s: seq<Point>, key: real)
    requires forall i :: 0 <= i < |s| ==> s[i].sortKey != key
    ensures Where(s, WithKey(key)) == []
  {
    if s != [] { NoneWith(s[1..], key); }
  }

  // The merge is stable: among the points of one key, those of the left part come first, and both
  // keep their order.
  lemma {:induction false} MergeIsStable(a: seq<Point>, b: seq<Point>, key: real)
    requires Sorted(a) && Sorted(b)
    ensures Where(Merge(a, b), WithKey(key)) == Where(a, WithKey(key)) + Where(b, WithKey(key))
  {
    MergeCases(a, b);
    Tails(a, b);
    hide Merge; hide Where; hide Sorted; hide WithKey;
    var p := WithKey(key);
    if a == [] || b == [] {
      NothingWhere(p);
    } else if b[0].sortKey < a[0].sortKey {
      MergeIsStable(a, b[1..], key);
      FirstOfMerge(b, Merge(a, b[1..]), p);
      if p(b[0]) { NoneAbove(a, b[0], key); }
      Exchange(if p(b[0]) then [b[0]] else [], Where(a, p), Where(b[1..], p));
    } else {
      MergeIsStable(a[1..], b, key);
      FirstOfMerge(a, Merge(a[1..], b), p);
      Associate(if p(a[0]) then [a[0]] else [], Where(a[1..], p), Where(b, p));
    }
  }

  lemma Exchange<T>(f: seq<T>, x: seq<T>, y: seq<T>)
    requires f == [] || x == []
    ensures f + (x + y) == x + (f + y)
  {}

  lemma Associate<T>(f: seq<T>, x: seq<T>, y: seq<T>)
    ensures f + (x + y) == (f + x) + y
  {}

  lemma MergeCases(a: seq<Point>, b: seq<Point>)
    ensures a == [] ==> Merge(a, b) == b
    ensures b == [] ==> Merge(a, b) == a
    ensures a != [] && b != [] ==>
              Merge(a, b)
              == if b[0].sortKey < a[0].sortKey then [b[0]] + Merge(a, b[1..]) else [a[0]] + Merge(a[1..], b)
  {}

  lemma Tails(a: seq<Point>, b: seq<Point>)
    requires Sorted(a) && Sorted(b)
    ensures a != [] ==> Sorted(a[1..])
    ensures b != [] ==> Sorted(b[1..])
  {}

  lemma NothingWhere(p: Point -> bool)
    ensures Where([], p) == []
  {}

  lemma FirstOfMerge(s: seq<Point>, rest: seq<Point>, p: Point -> bool)
    requires s != []
    ensures Where(s, p) == (if p(s[0]) then [s[0]] else []) + Where(s[1..], p)
    ensures Where([s[0]] + rest, p) == (if p(s[0]) then [s[0]] else []) + Where(rest, p)
  {
    WhereFirst(s, p);
    WhereFirst([s[0]] + rest, p);
    assert ([s[0]] + rest)[1..] == rest;
  }

  lemma NoneAbove(a: seq<Point>, x: Point, key: real)
    requires Sorted(a) && a != [] && x.sortKey < a[0].sortKey && WithKey(key)(x)
    ensures Where(a, WithKey(key)) == []
  {
    forall i | 0 <= i < |a| ensures a[i].sortKey != key { assert a[0].sortKey <= a[i].sortKey; }
    NoneWith(a, key);
  }

  lemma WhereFirst(s: seq<Point>, p: Point -> bool)
    requires s != []
    ensures Where(s, p) == (if p(s[0]) then [s[0]] else []) + Where(s[1..], p)
  {}

  // Nothing moves when the left part already ends at or before the start of the right one.
  lemma {:induction false} MergeAppends(a: seq<Point>, b: seq<Point>)
    requires Sorted(a) && Sorted(b)
    requires a != [] && b != [] ==> a[|a| - 1].sortKey <= b[0].sortKey
    ensures Merge(a, b) == a + b
  {
    if a != [] && b != [] {
      var rest := a[1..];
      assert Sorted(rest) && (rest != [] ==> rest[|rest| - 1].sortKey <= b[0].sortKey) && a[0].sortKey <= b[0].sortKey;
      hide Sorted;
      MergeAppends(rest, b);
      assert a + b == [a[0]] + (rest + b);
    }
  }

  // std::sort promises an order and a permutation; which one among equal keys is left open.
  method Sort(s: seq<Point>) returns (r: seq<Point>)
    ensures Sorted(r) && multiset(r) == multiset(s)
  {
    hide Merge;
    r := [];
    for i := 0 to |s|
      invariant Sorted(r) && multiset(r) == multiset(s[..i])
    {
      MergeSorted(r, [s[i]]);
      MergePermutes(r, [s[i]]);
      assert s[..i + 1] == s[..i] + [s[i]];
      r := Merge(r, [s[i]]);
    }
    assert s[..|s|] == s;
  }

  lemma SortedConcat(a: seq<Point>, b: seq<Point>)
    requires Sorted(a) && Sorted(b)
    requires a != [] && b != [] ==> a[|a| - 1].sortKey <= b[0].sortKey
    ensures Sorted(a + b)
  {
    if a != [] && b != [] {
      forall i | 0 <= i < |a| ensures a[i].sortKey <= a[|a| - 1].sortKey {}
      forall j | 0 <= j < |b| ensures b[0].sortKey <= b[j].sortKey {}
    }
  }
}
