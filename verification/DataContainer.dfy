/** QCPDataContainer: a sorted vector whose first mPreallocSize elements are unused
    room for cheap prepends. Only the rest is visible to its clients. */
module DataContainer {
  import opened SortedSeq

  // What adding the sorted points `more` to the visible points `was` leaves visible: all of
  // them in front when none is above the first old key, otherwise the stable merge.
  function Added(was: seq<Point>, more: seq<Point>): seq<Point> {
    if more == [] then was
    else if was != [] && more[|more| - 1].sortKey <= was[0].sortKey then more + was
    else Merge(was, more)
  }

  // In which order points of one key end up: the new ones first when all of them go in front,
  // otherwise behind the old ones.
  lemma AddedOrder(was: seq<Point>, more: seq<Point>, key: real)
    requires Sorted(was) && Sorted(more)
    ensures var olds, news := Where(was, WithKey(key)), Where(more, WithKey(key));
            Where(Added(was, more), WithKey(key))
            == if was != [] && forall i, j :: 0 <= i < |more| && 0 <= j < |was| ==> more[i].sortKey <= was[j].sortKey
               then news + olds else olds + news
  {
    MergeIsStable(was, more, key);
    WhereConcat(more, was, WithKey(key));
    if more != [] && was != [] {
      if more[|more| - 1].sortKey <= was[0].sortKey {
        forall i, j | 0 <= i < |more| && 0 <= j < |was| ensures more[i].sortKey <= was[j].sortKey {
          assert more[i].sortKey <= more[|more| - 1].sortKey && was[0].sortKey <= was[j].sortKey;
        }
      }
    }
  }

  lemma {:induction false} WhereConcat(a: seq<Point>, b: seq<Point>, p: Point -> bool)
    ensures Where(a + b, p) == Where(a, p) + Where(b, p)
  {
    if a == [] {
      assert a + b == b;
    } else {
      assert (a + b)[0] == a[0] && (a + b)[1..] == a[1..] + b;
      WhereFirst(a, p);
      WhereFirst(a + b, p);
      hide Where;
      WhereConcat(a[1..], b, p);
      Associate(if p(a[0]) then [a[0]] else [], Where(a[1..], p), Where(b, p));
    }
  }

  lemma AddedIsSortedUnion(was: seq<Point>, more: seq<Point>)
    requires Sorted(was) && Sorted(more)
    ensures Sorted(Added(was, more)) && multiset(Added(was, more)) == multiset(was) + multiset(more)
  {
    MergeSorted(was, more);
    MergePermutes(was, more);
    if more != [] && was != [] && more[|more| - 1].sortKey <= was[0].sortKey { SortedConcat(more, was); }
  }

  // Where a single point goes: behind all others when none is above it, else before the
  // first one that is not below it.
  function InsertAt(s: seq<Point>, p: Point): (i: nat)
    requires Sorted(s)
    ensures i <= |s|
    ensures i > 0 ==> s[i - 1].sortKey <= p.sortKey
    ensures i < |s| ==> p.sortKey <= s[i].sortKey
  {
    if s == [] || s[|s| - 1].sortKey <= p.sortKey then |s| else LowerBound(s, p.sortKey)
  }

  ghost predicate PlaceFor(s: seq<Point>, key: real, at: nat) {
    && at <= |s|
    && if forall i :: 0 <= i < |s| ==> s[i].sortKey <= key then at == |s|
       else (forall i :: 0 <= i < at ==> s[i].sortKey < key) && (forall i :: at <= i < |s| ==> key <= s[i].sortKey)
  }

  lemma PlaceOfInsert(s: seq<Point>, p: Point)
    requires Sorted(s)
    ensures PlaceFor(s, p.sortKey, InsertAt(s, p))
    ensures Inserted(s, p) == s[..InsertAt(s, p)] + [p] + s[InsertAt(s, p)..]
  {
    if s != [] && s[|s| - 1].sortKey <= p.sortKey {
      forall i | 0 <= i < |s| ensures s[i].sortKey <= p.sortKey {}
    }
  }

  function Inserted(s: seq<Point>, p: Point): seq<Point>
    requires Sorted(s)
  {
    s[..InsertAt(s, p)] + [p] + s[InsertAt(s, p)..]
  }

  lemma AtEnd(s: seq<Point>, p: Point)
    requires Sorted(s) && (s == [] || s[|s| - 1].sortKey <= p.sortKey)
    ensures Inserted(s, p) == s + [p]
  {
    assert s[..|s|] + [p] + s[|s|..] == s + [p];
  }

  lemma InMiddle(s: seq<Point>, p: Point)
    requires Sorted(s) && s != [] && p.sortKey < s[|s| - 1].sortKey
    ensures var at := LowerBound(s, p.sortKey); Inserted(s, p) == s[..at] + [p] + s[at..]
  {}

  lemma AtFront(s: seq<Point>, p: Point)
    requires Sorted(s) && s != [] && p.sortKey < s[0].sortKey
    ensures Inserted(s, p) == [p] + s
  {
    assert s[..0] + [p] + s[0..] == [p] + s;
  }

  // 1u << n for the small exponents of preallocateGrow.
  function Shifted(n: nat): nat {
    if n == 0 then 1 else 2 * Shifted(n - 1)
  }

  function Bound(lo: int, v: int, hi: int): (r: int)
    requires lo <= hi
    ensures lo <= r <= hi && (lo <= v <= hi ==> r == v)
  {
    if v < lo then lo else if v > hi then hi else v
  }

  // When the unused room in front of `used` points is given back: never for small vectors, from
  // more than half as much again as is used, and for very large ones from a tenth on.
  predicate TooMuchRoom(capacity: nat, room: nat, used: nat) {
    capacity > 1000 && if capacity > 650000 then 10 * room > used else 2 * room > 3 * used
  }

  function AtOrAbove(key: real): Point -> bool { (p: Point) => key <= p.sortKey }

  function AtOrBelow(key: real): Point -> bool { (p: Point) => p.sortKey <= key }

  function Within(lo: real, hi: real): Point -> bool { (p: Point) => lo <= p.sortKey <= hi }

  function Outside(lo: real, hi: real): Point -> bool { (p: Point) => !(lo <= p.sortKey <= hi) }

  class Container {
    var mData: seq<Point>
    var mPreallocSize: nat
    var mPreallocIteration: nat
    var mAutoSqueeze: bool

    ghost predicate Valid()
      reads this
    {
      mPreallocSize <= |mData| && Sorted(mData[mPreallocSize..])
    }

    // The points between constBegin() and constEnd().
    function Visible(): seq<Point>
      reads this
      requires mPreallocSize <= |mData|
    {
      mData[mPreallocSize..]
    }

    constructor ()
      ensures Valid() && Visible() == [] && mAutoSqueeze
    {
      mData, mPreallocSize, mPreallocIteration, mAutoSqueeze := [], 0, 0, true;
    }

    // ----- the unused room

    method PreallocateGrow(minimumPreallocSize: nat)
      requires Valid()
      modifies this`mData, this`mPreallocSize, this`mPreallocIteration
      ensures Valid() && Visible() == old(Visible())
      ensures mPreallocSize >= minimumPreallocSize
      ensures minimumPreallocSize <= old(mPreallocSize) ==> mPreallocSize == old(mPreallocSize)
      ensures minimumPreallocSize > old(mPreallocSize) ==>
                && mPreallocIteration == old(mPreallocIteration) + 1
                && mPreallocSize == minimumPreallocSize + Shifted(Bound(4, mPreallocIteration + 3, 15)) - 12
                && minimumPreallocSize + 4 <= mPreallocSize <= minimumPreallocSize + 32756
    {
      if minimumPreallocSize <= mPreallocSize {
        return;
      }
      var newPreallocSize := minimumPreallocSize;
      ShiftedBounds(Bound(4, mPreallocIteration + 4, 15));
      newPreallocSize := newPreallocSize + Shifted(Bound(4, mPreallocIteration + 4, 15)) - 12;
      mPreallocIteration := mPreallocIteration + 1;
      var sizeDifference := newPreallocSize - mPreallocSize;
      // resize, then copy_backward of the visible part to the new end
      var resized := mData + seq(sizeDifference, _ => DEFAULT);
      mData := resized[..newPreallocSize] + mData[mPreallocSize..];
      mPreallocSize := newPreallocSize;
    }

    method Squeeze(preAllocation: bool, postAllocation: bool)
      requires Valid()
      modifies this`mData, this`mPreallocSize, this`mPreallocIteration
      ensures Valid() && Visible() == old(Visible())
      ensures preAllocation ==> mPreallocSize == 0 && mPreallocIteration == 0 && mData == old(Visible())
      ensures !preAllocation ==>
                && mPreallocSize == old(mPreallocSize) && mPreallocIteration == old(mPreallocIteration)
                && mData == old(mData)
    {
      if preAllocation {
        if mPreallocSize > 0 {
          // copy the visible part to the front, then cut the vector there
          mData := mData[mPreallocSize..] + mData[|mData| - mPreallocSize..];
          mData := mData[..|mData| - mPreallocSize];
          mPreallocSize := 0;
        }
        mPreallocIteration := 0;
      }
    }

    // `capacity` is what the vector reports, and may be anything.
    method PerformAutoSqueeze(capacity: nat)
      requires Valid()
      modifies this`mData, this`mPreallocSize, this`mPreallocIteration
      ensures Valid() && Visible() == old(Visible())
      ensures mPreallocSize == if TooMuchRoom(capacity, old(mPreallocSize), |Visible()|) then 0 else old(mPreallocSize)
    {
      var postAllocSize, usedSize := capacity - |mData|, |mData| - mPreallocSize;
      var shrinkPostAllocation, shrinkPreAllocation := false, false;
      if capacity > 650000 {
        shrinkPostAllocation := postAllocSize as real > usedSize as real * 1.5;
        shrinkPreAllocation := mPreallocSize * 10 > usedSize;
      } else if capacity > 1000 {
        shrinkPostAllocation := postAllocSize > usedSize * 5;
        shrinkPreAllocation := mPreallocSize as real > usedSize as real * 1.5;
      }
      if shrinkPreAllocation || shrinkPostAllocation {
        Squeeze(shrinkPreAllocation, shrinkPostAllocation);
      }
    }

    method SetAutoSqueeze(enabled: bool, capacity: nat)
      requires Valid()
      modifies this
      ensures Valid() && Visible() == old(Visible()) && mAutoSqueeze == enabled
      ensures mPreallocSize
              == if enabled && !old(mAutoSqueeze) && TooMuchRoom(capacity, old(mPreallocSize), |Visible()|) then 0
                 else old(mPreallocSize)
    {
      if mAutoSqueeze != enabled {
        mAutoSqueeze := enabled;
        if mAutoSqueeze {
          PerformAutoSqueeze(capacity);
        }
      }
    }

    // ----- setting and adding

    method Clear()
      modifies this`mData, this`mPreallocSize, this`mPreallocIteration
      ensures Valid() && Visible() == []
    {
      mData, mPreallocIteration, mPreallocSize := [], 0, 0;
    }

    method SetVector(data: seq<Point>, alreadySorted: bool)
      requires alreadySorted ==> Sorted(data)
      modifies this`mData, this`mPreallocSize, this`mPreallocIteration
      ensures Valid() && multiset(Visible()) == multiset(data)
      ensures alreadySorted ==> Visible() == data
    {
      mData, mPreallocSize, mPreallocIteration := data, 0, 0;
      if !alreadySorted {
        mData := Sort(mData);
      }
    }

    // sort(): to be called after the points have been changed through the iterators.
    method Resort()
      requires mPreallocSize <= |mData|
      modifies this`mData
      ensures Valid() && multiset(Visible()) == multiset(old(Visible())) && mPreallocSize == old(mPreallocSize)
    {
      var sorted := Sort(mData[mPreallocSize..]);
      assert |multiset(sorted)| == |sorted| == |Visible()|;
      mData := mData[..mPreallocSize] + sorted;
      assert mData[mPreallocSize..] == sorted;
    }

    // The prepend path: `data` goes in front of the visible points.
    method Prepend(data: seq<Point>)
      requires Valid() && Sorted(data)
      requires data != [] && Visible() != [] ==> data[|data| - 1].sortKey <= Visible()[0].sortKey
      modifies this`mData, this`mPreallocSize, this`mPreallocIteration
      ensures Valid() && Visible() == data + old(Visible())
    {
      var n := |data|;
      SortedConcat(data, Visible());
      if mPreallocSize < n {
        PreallocateGrow(n);
      }
      ghost var visible := Visible();
      var room := mPreallocSize - n;
      var front := mData[..room];
      assert mData[mPreallocSize..] == visible;
      mData, mPreallocSize := front + (data + mData[mPreallocSize..]), room;
      assert mData[mPreallocSize..] == data + visible;
    }

    // The append path: `data` goes behind the visible points and is merged in if it must be.
    method AppendAndMerge(data: seq<Point>)
      requires Valid() && Sorted(data) && data != []
      modifies this`mData
      ensures Valid() && Visible() == Merge(old(Visible()), data)
    {
      ghost var visible := Visible();
      MergeSorted(visible, data);
      var oldSize := |mData| - mPreallocSize;
      mData := mData + data;
      assert Visible() == visible + data;
      var e := |mData| - |data|;
      if oldSize > 0 && mData[e].sortKey <= mData[e - 1].sortKey {
        mData := mData[..mPreallocSize] + Merge(mData[mPreallocSize..e], mData[e..]);
      } else {
        MergeAppends(visible, data);
      }
    }

    method AddContainer(data: Container)
      requires Valid() && data.Valid() && data != this
      modifies this`mData, this`mPreallocSize, this`mPreallocIteration
      ensures Valid() && Visible() == Added(old(Visible()), data.Visible())
    {
      var more := data.mData[data.mPreallocSize..];
      if more == [] {
        return;
      }
      if |mData| - mPreallocSize > 0 && more[|more| - 1].sortKey <= mData[mPreallocSize].sortKey {
        Prepend(more);
      } else {
        AppendAndMerge(more);
      }
    }

    method SetContainer(data: Container)
      requires Valid() && data.Valid() && data != this
      modifies this`mData, this`mPreallocSize, this`mPreallocIteration
      ensures Valid() && Visible() == data.Visible()
    {
      Clear();
      AddContainer(data);
    }

    method AddVector(data: seq<Point>, alreadySorted: bool)
      requires Valid() && (alreadySorted ==> Sorted(data))
      modifies this`mData, this`mPreallocSize, this`mPreallocIteration
      ensures Valid() && multiset(Visible()) == multiset(old(Visible())) + multiset(data)
      ensures alreadySorted ==> Visible() == Added(old(Visible()), data)
    {
      if data == [] {
        return;
      }
      if |mData| - mPreallocSize == 0 {
        SetVector(data, alreadySorted);
        return;
      }
      if alreadySorted {
        AddedIsSortedUnion(Visible(), data);
      }
      if alreadySorted && data[|data| - 1].sortKey <= mData[mPreallocSize].sortKey {
        Prepend(data);
      } else {
        var more := data;
        if !alreadySorted {
          more := Sort(more);
          assert |multiset(more)| == |more|;
        }
        MergePermutes(Visible(), more);
        AppendAndMerge(more);
      }
    }

    method AppendPoint(data: Point)
      requires mPreallocSize <= |mData|
      modifies this`mData
      ensures mPreallocSize <= |mData| && Visible() == old(Visible()) + [data]
    {
      VisibleAppend(mData, mPreallocSize, [data]);
      mData := mData + [data];
    }

    method PrependPoint(data: Point)
      requires Valid()
      modifies this`mData, this`mPreallocSize, this`mPreallocIteration
      ensures mPreallocSize <= |mData| && Visible() == [data] + old(Visible())
    {
      if mPreallocSize < 1 {
        PreallocateGrow(1);
      }
      VisibleFront(mData, mPreallocSize - 1, data);
      mPreallocSize := mPreallocSize - 1;
      mData := mData[mPreallocSize := data];
    }

    // The insertion proper, at std::lower_bound.
    method InsertPoint(data: Point)
      requires Valid() && Visible() != [] && data.sortKey < Visible()[|Visible()| - 1].sortKey
      modifies this`mData
      ensures mPreallocSize <= |mData| && Visible() == Inserted(old(Visible()), data)
    {
      var at := LowerBound(mData[mPreallocSize..], data.sortKey);
      InMiddle(Visible(), data);
      VisibleInsert(mData, mPreallocSize, at, data);
      mData := mData[..mPreallocSize + at] + [data] + mData[mPreallocSize + at..];
    }

    method PlacePoint(data: Point)
      requires Valid()
      modifies this`mData, this`mPreallocSize, this`mPreallocIteration
      ensures Valid() && Visible() == Inserted(old(Visible()), data)
      ensures multiset(Visible()) == multiset(old(Visible())) + multiset{data}
    {
      hide Inserted; hide InsertAt; hide Sorted;
      ghost var visible := Visible();
      InsertedSorted(visible, data);
      assert visible != [] ==> visible[0] == mData[mPreallocSize] && visible[|visible| - 1] == mData[|mData| - 1];
      if |mData| - mPreallocSize == 0 || mData[|mData| - 1].sortKey <= data.sortKey {
        AtEnd(visible, data);
        AppendPoint(data);
      } else if data.sortKey < mData[mPreallocSize].sortKey {
        AtFront(visible, data);
        PrependPoint(data);
      } else {
        InsertPoint(data);
      }
    }

    // add(const DataType &), with the place of the point.
    method AddPoint(data: Point)
      requires Valid()
      modifies this`mData, this`mPreallocSize, this`mPreallocIteration
      ensures Valid() && Visible() == Inserted(old(Visible()), data)
      ensures multiset(Visible()) == multiset(old(Visible())) + multiset{data}
      // behind all points when none is above it, else in front of the first that is not below it
      ensures exists at: nat :: PlaceFor(old(Visible()), data.sortKey, at)
                && Visible() == old(Visible())[..at] + [data] + old(Visible())[at..]
    {
      PlaceOfInsert(Visible(), data);
      hide PlaceFor; hide Inserted; hide InsertAt; hide Sorted;
      PlacePoint(data);
    }

    // ----- removing

    method RemoveBefore(sortKey: real, capacity: nat)
      requires Valid()
      modifies this`mData, this`mPreallocSize, this`mPreallocIteration
      ensures Valid() && Visible() == Where(old(Visible()), AtOrAbove(sortKey))
    {
      ghost var visible := Visible();
      var n := LowerBound(mData[mPreallocSize..], sortKey);
      WhereSlice(visible, n, |visible|, AtOrAbove(sortKey));
      mPreallocSize := mPreallocSize + n;
      assert Visible() == visible[n..|visible|];
      if mAutoSqueeze {
        PerformAutoSqueeze(capacity);
      }
    }

    method RemoveAfter(sortKey: real, capacity: nat)
      requires Valid()
      modifies this`mData, this`mPreallocSize, this`mPreallocIteration
      ensures Valid() && Visible() == Where(old(Visible()), AtOrBelow(sortKey))
    {
      ghost var visible := Visible();
      var n := UpperBound(mData[mPreallocSize..], sortKey);
      WhereSlice(visible, 0, n, AtOrBelow(sortKey));
      mData := mData[..mPreallocSize + n];
      assert Visible() == visible[0..n];
      if mAutoSqueeze {
        PerformAutoSqueeze(capacity);
      }
    }

    // mData.erase(it, itEnd), for visible positions i and j.
    method CutVisible(i: nat, j: nat)
      requires i <= j && mPreallocSize + j <= |mData|
      modifies this`mData
      ensures mPreallocSize <= |mData| && Visible() == old(Visible())[..i] + old(Visible())[j..]
    {
      VisibleCut(mData, mPreallocSize, i, j);
      mData := mData[..mPreallocSize + i] + mData[mPreallocSize + j..];
    }

    method RemoveRange(sortKeyFrom: real, sortKeyTo: real, capacity: nat)
      requires Valid()
      modifies this`mData, this`mPreallocSize, this`mPreallocIteration
      ensures Valid()
      ensures sortKeyFrom >= sortKeyTo ==> Visible() == old(Visible())
      ensures sortKeyFrom < sortKeyTo ==> Visible() == Where(old(Visible()), Outside(sortKeyFrom, sortKeyTo))
    {
      if sortKeyFrom >= sortKeyTo || |mData| - mPreallocSize == 0 {
        return;
      }
      ghost var visible := Visible();
      var i := LowerBound(mData[mPreallocSize..], sortKeyFrom);
      var j := UpperBound(mData[mPreallocSize..], sortKeyTo);
      hide Sorted; hide Where; hide Outside; hide LowerBound; hide UpperBound;
      RangeCut(visible, sortKeyFrom, sortKeyTo);
      CutVisible(i, j);
      if mAutoSqueeze {
        PerformAutoSqueeze(capacity);
      }
    }

    // Removes the first point with exactly this key, if there is one.
    method RemoveKey(sortKey: real, capacity: nat)
      requires Valid()
      modifies this`mData, this`mPreallocSize, this`mPreallocIteration
      ensures Valid()
      ensures Visible() == WithoutKey(old(Visible()), sortKey)
    {
      WithoutKeyLosesOne(Visible(), sortKey);
      var n := LowerBound(mData[mPreallocSize..], sortKey);
      var it := mPreallocSize + n;
      if it != |mData| && mData[it].sortKey == sortKey {
        ErasePoint(n);
      }
      if mAutoSqueeze {
        PerformAutoSqueeze(capacity);
      }
    }

    // Erases visible point n; the first one just joins the unused room.
    method ErasePoint(n: nat)
      requires mPreallocSize + n < |mData|
      modifies this`mData, this`mPreallocSize
      ensures mPreallocSize <= |mData| && Visible() == old(Visible())[..n] + old(Visible())[n + 1..]
    {
      VisibleCut(mData, mPreallocSize, n, n + 1);
      if n == 0 {
        mPreallocSize := mPreallocSize + 1;
        assert Visible() == old(Visible())[..0] + old(Visible())[1..];
      } else {
        mData := mData[..mPreallocSize + n] + mData[mPreallocSize + n + 1..];
      }
    }

    // ----- finding

    // findBegin and findEnd, as positions among the visible points.
    method FindBegin(sortKey: real, expandedRange: bool) returns (it: nat)
      requires Valid()
      ensures it == Begin(Visible(), sortKey, expandedRange)
    {
      var data := mData[mPreallocSize..];
      if data == [] {
        return |data|;
      }
      it := LowerBound(data, sortKey);
      if expandedRange && it != 0 {
        it := it - 1;
      }
    }

    method FindEnd(sortKey: real, expandedRange: bool) returns (it: nat)
      requires Valid()
      ensures it == End(Visible(), sortKey, expandedRange)
    {
      var data := mData[mPreallocSize..];
      if data == [] {
        return |data|;
      }
      it := UpperBound(data, sortKey);
      if expandedRange && it != |data| {
        it := it + 1;
      }
    }
  }

  function Begin(s: seq<Point>, key: real, expanded: bool): (i: nat)
    requires Sorted(s)
    ensures i <= |s|
  {
    var n := LowerBound(s, key);
    if expanded && n != 0 then n - 1 else n
  }

  function End(s: seq<Point>, key: real, expanded: bool): (i: nat)
    requires Sorted(s)
    ensures i <= |s|
  {
    var n := UpperBound(s, key);
    if expanded && n != |s| then n + 1 else n
  }

  lemma BoundsOrdered(s: seq<Point>, lo: real, hi: real)
    requires Sorted(s) && lo <= hi
    ensures LowerBound(s, lo) <= UpperBound(s, hi)
  {
    var j := UpperBound(s, hi);
    if j < |s| { assert lo <= s[j].sortKey; }
  }

  // Cutting between the bounds of a closed key range leaves the points outside it.
  lemma RangeCut(s: seq<Point>, lo: real, hi: real)
    requires Sorted(s) && lo <= hi
    ensures LowerBound(s, lo) <= UpperBound(s, hi)
    ensures s[..LowerBound(s, lo)] + s[UpperBound(s, hi)..] == Where(s, Outside(lo, hi))
    ensures Sorted(Where(s, Outside(lo, hi)))
  {
    var i, j := LowerBound(s, lo), UpperBound(s, hi);
    BoundsOrdered(s, lo, hi);
    WhereOutside(s, i, j, Outside(lo, hi));
    SortedConcat(s[..i], s[j..]);
  }

  ghost predicate Has(s: seq<Point>, key: real) { exists i :: 0 <= i < |s| && s[i].sortKey == key }

  predicate Hit(s: seq<Point>, key: real)
    requires Sorted(s)
  {
    LowerBound(s, key) < |s| && s[LowerBound(s, key)].sortKey == key
  }

  lemma HitExactlyWhen(s: seq<Point>, key: real)
    requires Sorted(s)
    ensures Hit(s, key) <==> Has(s, key)
  {
    if Has(s, key) {
      var k :| 0 <= k < |s| && s[k].sortKey == key;
      if LowerBound(s, key) != k { assert s[LowerBound(s, key)].sortKey <= s[k].sortKey; }
    }
  }

  // The first point with this key is taken out.
  function WithoutKey(s: seq<Point>, key: real): seq<Point>
    requires Sorted(s)
  {
    if Hit(s, key) then s[..LowerBound(s, key)] + s[LowerBound(s, key) + 1..] else s
  }

  // One point with the key is lost if there is any, and nothing otherwise.
  lemma WithoutKeyLosesOne(s: seq<Point>, key: real)
    requires Sorted(s)
    ensures Sorted(WithoutKey(s, key))
    ensures Has(s, key) ==> Hit(s, key) && multiset(WithoutKey(s, key)) == multiset(s) - multiset{s[LowerBound(s, key)]}
    ensures !Has(s, key) ==> WithoutKey(s, key) == s
  {
    HitExactlyWhen(s, key);
    hide Has; hide Sorted;
    if Hit(s, key) { RemoveOne(s, LowerBound(s, key)); }
  }

  lemma RemoveOne(s: seq<Point>, i: nat)
    requires Sorted(s) && i < |s|
    ensures Sorted(s[..i] + s[i + 1..]) && multiset(s[..i] + s[i + 1..]) == multiset(s) - multiset{s[i]}
  {
    var a, b := s[..i], s[i + 1..];
    assert a != [] && b != [] ==> a[|a| - 1].sortKey <= b[0].sortKey;
    SortedConcat(a, b);
    RemoveCounts(s, i);
  }

  lemma RemoveCounts<T>(s: seq<T>, i: nat)
    requires i < |s|
    ensures multiset(s[..i] + s[i + 1..]) == multiset(s) - multiset{s[i]}
  {
    assert s == s[..i] + ([s[i]] + s[i + 1..]);
  }

  // The exact range holds exactly the points with lo <= key <= hi; the expanded one adds
  // the nearest neighbour on each side and nothing else.
  lemma FoundRange(s: seq<Point>, lo: real, hi: real)
    requires Sorted(s) && lo <= hi
    ensures var b, e := Begin(s, lo, false), End(s, hi, false);
            && b <= e && s[b..e] == Where(s, Within(lo, hi))
            && Begin(s, lo, true) == (if b > 0 then b - 1 else b)
            && End(s, hi, true) == (if e < |s| then e + 1 else e)
            && (forall i :: 0 <= i < b ==> s[i].sortKey < lo) && (forall i :: e <= i < |s| ==> hi < s[i].sortKey)
  {
    BoundsOrdered(s, lo, hi);
    WhereSlice(s, Begin(s, lo, false), End(s, hi, false), Within(lo, hi));
  }

  lemma ShiftedBounds(n: nat)
    requires 4 <= n <= 15
    ensures 16 <= Shifted(n) <= 32768
  {
    assert Shifted(15) == 32768;
    ShiftedMonotone(n, 15);
  }

  lemma {:induction false} ShiftedMonotone(n: nat, m: nat)
    requires n <= m
    ensures Shifted(n) <= Shifted(m)
  {
    if n < m { ShiftedMonotone(n, m - 1); }
  }

  lemma InsertedSorted(s: seq<Point>, p: Point)
    requires Sorted(s)
    ensures Sorted(Inserted(s, p)) && multiset(Inserted(s, p)) == multiset(s) + multiset{p}
  {
    InsertSorted(s, InsertAt(s, p), p);
  }

  lemma InsertSorted(s: seq<Point>, i: nat, p: Point)
    requires Sorted(s) && i <= |s|
    requires i > 0 ==> s[i - 1].sortKey <= p.sortKey
    requires i < |s| ==> p.sortKey <= s[i].sortKey
    ensures Sorted(s[..i] + [p] + s[i..])
    ensures multiset(s[..i] + [p] + s[i..]) == multiset(s) + multiset{p}
  {
    var a, m, b := s[..i], [p], s[i..];
    assert Sorted(a) && Sorted(m) && Sorted(b);
    InsertCounts(s, i, p);
    hide Sorted;
    SortedConcat(a, m);
    assert (a + m)[|a + m| - 1] == p;
    SortedConcat(a + m, b);
  }

  lemma InsertCounts<T>(s: seq<T>, i: nat, x: T)
    requires i <= |s|
    ensures multiset(s[..i] + [x] + s[i..]) == multiset(s) + multiset{x}
  {
    assert s == s[..i] + s[i..];
  }

  // ----- the visible part of an updated vector

  lemma VisibleAppend<T>(m: seq<T>, from: nat, x: seq<T>)
    requires from <= |m|
    ensures (m + x)[from..] == m[from..] + x
  {}

  lemma VisibleInsert<T>(m: seq<T>, from: nat, i: nat, x: T)
    requires from + i <= |m|
    ensures (m[..from + i] + [x] + m[from + i..])[from..] == m[from..][..i] + [x] + m[from..][i..]
  {}

  lemma VisibleFront<T>(m: seq<T>, room: nat, x: T)
    requires room < |m|
    ensures m[room := x][room..] == [x] + m[room + 1..]
  {}

  lemma VisibleCut<T>(m: seq<T>, from: nat, i: nat, j: nat)
    requires i <= j && from + j <= |m|
    ensures (m[..from + i] + m[from + j..])[from..] == m[from..][..i] + m[from..][j..]
  {}
}
