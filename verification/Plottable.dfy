/** Two algorithms of QCPAbstractPlottable1D: selecting the points in a rectangle
    as index ranges, and drawing a line with gaps. */
module Plottable {
  import opened SortedSeq
  import opened DataContainer
  import opened DataRanges

  // ----- selectTestRect

  datatype DataRange = DataRange(begin: nat, end: nat)

  predicate Contains(r: Range, n: Num) { n.Val? && n.v >= r.lower && n.v <= r.upper }

  predicate InRect(p: Point, keys: Range, values: Range) {
    Contains(values, p.mainValue) && Contains(keys, Val(p.mainKey))
  }

  // The plain definition: test every point.
  function Selected(s: seq<Point>, keys: Range, values: Range): seq<bool> {
    seq(|s|, i requires 0 <= i < |s| => InRect(s[i], keys, values))
  }

  ghost predicate Covered(runs: seq<DataRange>, k: int) {
    exists i :: 0 <= i < |runs| && runs[i].begin <= k < runs[i].end
  }

  // Ordered, not empty, and with a gap between any two of them.
  ghost predicate Spaced(runs: seq<DataRange>) {
    && (forall i :: 0 <= i < |runs| ==> runs[i].begin < runs[i].end)
    && (forall i, j :: 0 <= i < j < |runs| ==> runs[i].end < runs[j].begin)
  }

  // The maximal runs of true flags: spaced, and their union is exactly the flagged positions.
  ghost predicate RunsOf(runs: seq<DataRange>, flags: seq<bool>) {
    Spaced(runs) && forall k :: Covered(runs, k) <==> 0 <= k < |flags| && flags[k]
  }

  // No run can be made longer ...
  lemma RunsAreMaximal(runs: seq<DataRange>, flags: seq<bool>, i: nat)
    requires RunsOf(runs, flags) && i < |runs|
    ensures runs[i].end <= |flags|
    ensures forall k :: runs[i].begin <= k < runs[i].end ==> flags[k]
    ensures runs[i].end < |flags| ==> !flags[runs[i].end]
    ensures runs[i].begin > 0 ==> !flags[runs[i].begin - 1]
  {
    var r := runs[i];
    forall k | r.begin <= k < r.end ensures 0 <= k < |flags| && flags[k] { assert Covered(runs, k); }
    assert Covered(runs, r.end - 1);
    forall j | 0 <= j < |runs|
      ensures !(runs[j].begin <= r.end < runs[j].end) && !(runs[j].begin <= r.begin - 1 < runs[j].end)
    {
      assert j < i || j == i || i < j;
    }
    assert !Covered(runs, r.end) && !Covered(runs, r.begin - 1);
  }

  // ... so two lists of runs for the same flags have the same members,
  lemma RunsAreShared(runs: seq<DataRange>, others: seq<DataRange>, flags: seq<bool>, i: nat) returns (j: nat)
    requires RunsOf(runs, flags) && RunsOf(others, flags) && i < |runs|
    ensures j < |others| && others[j] == runs[i]
  {
    RunsAreMaximal(runs, flags, i);
    var r := runs[i];
    assert Covered(others, r.begin);
    j :| 0 <= j < |others| && others[j].begin <= r.begin < others[j].end;
    RunsAreMaximal(others, flags, j);
    assert others[j].begin == r.begin;
    assert others[j].end == r.end;
  }

  // in the same order and at the same places: the flags leave no choice.
  lemma {:induction false} RunsAgreeUpTo(runs: seq<DataRange>, others: seq<DataRange>, flags: seq<bool>, n: nat)
    requires RunsOf(runs, flags) && RunsOf(others, flags) && n <= |runs|
    ensures n <= |others| && runs[..n] == others[..n]
    decreases n
  {
    if n > 0 {
      RunsAgreeUpTo(runs, others, flags, n - 1);
      var j := RunsAreShared(runs, others, flags, n - 1);
      assert j >= n - 1 by {
        forall i | 0 <= i < n - 1 ensures others[i] == runs[i] { assert others[..n - 1][i] == runs[..n - 1][i]; }
      }
      var k := RunsAreShared(others, runs, flags, n - 1);
      assert k >= n - 1 by {
        forall i | 0 <= i < n - 1 ensures others[i] == runs[i] { assert others[..n - 1][i] == runs[..n - 1][i]; }
      }
      assert j == n - 1;
    }
  }

  lemma RunsAreUnique(runs: seq<DataRange>, others: seq<DataRange>, flags: seq<bool>)
    requires RunsOf(runs, flags) && RunsOf(others, flags)
    ensures runs == others
  {
    RunsAgreeUpTo(runs, others, flags, |runs|);
    RunsAgreeUpTo(others, runs, flags, |others|);
    assert runs[..|runs|] == runs && others[..|others|] == others;
  }

  // What the loop has done: the runs before position m are finished.
  ghost predicate Finished(runs: seq<DataRange>, flags: seq<bool>, m: int) {
    && Spaced(runs) && 0 <= m <= |flags|
    && (forall i :: 0 <= i < |runs| ==> runs[i].end < m)
    && (forall k :: Covered(runs, k) <==> 0 <= k < m && flags[k])
  }

  lemma SkipOne(runs: seq<DataRange>, flags: seq<bool>, m: int)
    requires Finished(runs, flags, m) && m < |flags| && !flags[m]
    ensures Finished(runs, flags, m + 1)
  {}

  lemma CoveredByOneMore(runs: seq<DataRange>, r: DataRange)
    ensures forall k :: Covered(runs + [r], k) <==> Covered(runs, k) || r.begin <= k < r.end
  {
    forall k ensures Covered(runs + [r], k) <==> Covered(runs, k) || r.begin <= k < r.end {
      if Covered(runs, k) {
        var i :| 0 <= i < |runs| && runs[i].begin <= k < runs[i].end;
        assert (runs + [r])[i] == runs[i];
      }
      if r.begin <= k < r.end { assert (runs + [r])[|runs|] == r; }
    }
  }

  // A run that ends at position n < |flags| ...
  lemma CloseRun(runs: seq<DataRange>, flags: seq<bool>, cur: nat, n: nat)
    requires Finished(runs, flags, cur) && cur < n < |flags| && !flags[n]
    requires forall k :: cur <= k < n ==> flags[k]
    ensures Finished(runs + [DataRange(cur, n)], flags, n + 1)
  {
    CoveredByOneMore(runs, DataRange(cur, n));
  }

  // ... and one that ends with the last flag that can be set.
  lemma CloseLastRun(runs: seq<DataRange>, flags: seq<bool>, cur: nat, n: nat)
    requires Finished(runs, flags, cur) && cur < n <= |flags|
    requires forall k :: cur <= k < n ==> flags[k]
    requires forall k :: n <= k < |flags| ==> !flags[k]
    ensures RunsOf(runs + [DataRange(cur, n)], flags)
  {
    CoveredByOneMore(runs, DataRange(cur, n));
  }

  lemma {:induction false} NothingBefore(flags: seq<bool>, m: nat)
    requires m <= |flags| && forall k :: 0 <= k < m ==> !flags[k]
    ensures Finished([], flags, m)
  {}

  // The selection before simplify(); `selectable` stands for the checks on axes and settings.
  method SelectTestRect(c: Container, sortKeyIsMainKey: bool, selectable: bool, keyRange: Range, valueRange: Range)
    returns (result: seq<DataRange>)
    requires c.Valid() && (sortKeyIsMainKey ==> MainKeysSorted(c.Visible()))
    requires keyRange.lower <= keyRange.upper
    ensures !selectable ==> result == []
    ensures selectable ==> RunsOf(result, Selected(c.Visible(), keyRange, valueRange))
    ensures selectable ==> (forall k: nat :: k < |c.Visible()| ==>
              ((exists i :: 0 <= i < |result| && result[i].begin <= k < result[i].end)
               <==> InsideRect(c.Visible()[k], keyRange, valueRange)))
    ensures forall i :: 0 <= i < |result| ==> result[i].begin < result[i].end <= |c.Visible()|
    ensures forall i, j :: 0 <= i < j < |result| ==> result[i].end < result[j].begin
  {
    hide InsideRect;
    result := [];
    NothingSelected(c.Visible(), keyRange, valueRange);
    var data := c.mData[c.mPreallocSize..];
    ghost var flags := Selected(data, keyRange, valueRange);
    if !selectable || data == [] {
      return;
    }
    var begin, end := 0, |data|;
    if sortKeyIsMainKey {
      begin := c.FindBegin(keyRange.lower, false);
      end := c.FindEnd(keyRange.upper, false);
      OutsideIsUnselected(data, keyRange, valueRange);
    }
    result := CollectRuns(data, begin, end, keyRange, valueRange);
    SelectedMeans(result, data, keyRange, valueRange);
  }

  // The words in which the selection is promised; the loop does not use them.
  predicate InsideRect(p: Point, keys: Range, values: Range) {
    && p.mainValue.Val? && keys.lower <= p.mainKey && p.mainKey <= keys.upper
    && values.lower <= p.mainValue.v && p.mainValue.v <= values.upper
  }

  lemma SelectedMeans(runs: seq<DataRange>, s: seq<Point>, keys: Range, values: Range)
    requires RunsOf(runs, Selected(s, keys, values))
    ensures forall k: nat :: k < |s| ==>
              ((exists i :: 0 <= i < |runs| && runs[i].begin <= k < runs[i].end) <==> InsideRect(s[k], keys, values))
    ensures forall i :: 0 <= i < |runs| ==> runs[i].begin < runs[i].end <= |s|
    ensures forall i, j :: 0 <= i < j < |runs| ==> runs[i].end < runs[j].begin
  {
    forall i | 0 <= i < |runs| ensures runs[i].end <= |s| { RunsAreMaximal(runs, Selected(s, keys, values), i); }
    var flags := Selected(s, keys, values);
    forall k: nat | k < |s|
      ensures (exists i :: 0 <= i < |runs| && runs[i].begin <= k < runs[i].end) <==> InsideRect(s[k], keys, values)
    {
      assert flags[k] <==> InsideRect(s[k], keys, values);
      assert Covered(runs, k) <==> 0 <= k < |flags| && flags[k];
    }
  }

  lemma NothingSelected(s: seq<Point>, keys: Range, values: Range)
    ensures s == [] ==> RunsOf([], Selected(s, keys, values))
  {}

  method CollectRuns(data: seq<Point>, begin: nat, end: nat, keyRange: Range, valueRange: Range)
    returns (result: seq<DataRange>)
    requires begin <= end <= |data|
    requires forall k :: 0 <= k < |data| && !(begin <= k < end) ==> !Selected(data, keyRange, valueRange)[k]
    ensures RunsOf(result, Selected(data, keyRange, valueRange))
  {
    ghost var flags := Selected(data, keyRange, valueRange);
    result := [];
    NothingBefore(flags, begin);
    var currentSegmentBegin := -1;
    var it := begin;
    while it != end
      invariant begin <= it <= end && -1 <= currentSegmentBegin < it + (if currentSegmentBegin == -1 then 1 else 0)
      invariant Finished(result, flags, if currentSegmentBegin == -1 then it else currentSegmentBegin)
      invariant currentSegmentBegin != -1 ==> forall k :: currentSegmentBegin <= k < it ==> flags[k]
    {
      hide Finished;
      if currentSegmentBegin == -1 {
        if Contains(valueRange, data[it].mainValue) && Contains(keyRange, Val(data[it].mainKey)) {
          currentSegmentBegin := it;
        } else {
          SkipOne(result, flags, it);
        }
      } else if !Contains(valueRange, data[it].mainValue) || !Contains(keyRange, Val(data[it].mainKey)) {
        CloseRun(result, flags, currentSegmentBegin, it);
        result := result + [DataRange(currentSegmentBegin, it)];
        currentSegmentBegin := -1;
      }
      it := it + 1;
    }
    if currentSegmentBegin != -1 {
      CloseLastRun(result, flags, currentSegmentBegin, end);
      result := result + [DataRange(currentSegmentBegin, end)];
    }
  }

  lemma OutsideIsUnselected(s: seq<Point>, keys: Range, values: Range)
    requires Sorted(s) && MainKeysSorted(s) && keys.lower <= keys.upper
    ensures var b, e := Begin(s, keys.lower, false), End(s, keys.upper, false);
            b <= e && forall k :: 0 <= k < |s| && !(b <= k < e) ==> !Selected(s, keys, values)[k]
  {
    BoundsOrdered(s, keys.lower, keys.upper);
  }

  // ----- drawPolyline

  datatype Coord = NotANumber | Infinite | Finite(v: real)

  datatype Pixel = Pixel(x: Coord, y: Coord)

  type Edge = (Pixel, Pixel)

  predicate HasNaN(p: Pixel) { p.y.NotANumber? || p.x.NotANumber? }

  function NotNaN(): Pixel -> bool { (p: Pixel) => !HasNaN(p) }

  function Drawable(): Pixel -> bool { (p: Pixel) => !HasNaN(p) && !p.y.Infinite? }

  // The plain definition: all edges between neighbours among the first n points that are both fit.
  function EdgesUpTo(pts: seq<Pixel>, n: nat, fit: Pixel -> bool): seq<Edge>
    requires n <= |pts|
  {
    if n < 2 then []
    else EdgesUpTo(pts, n - 1, fit) + if fit(pts[n - 2]) && fit(pts[n - 1]) then [(pts[n - 2], pts[n - 1])] else []
  }

  // The edges of one polyline, and of several.
  function LineEdges(line: seq<Pixel>): seq<Edge> {
    if |line| < 2 then [] else LineEdges(line[..|line| - 1]) + [(line[|line| - 2], line[|line| - 1])]
  }

  function AllEdges(lines: seq<seq<Pixel>>): seq<Edge> {
    if lines == [] then [] else AllEdges(lines[..|lines| - 1]) + LineEdges(lines[|lines| - 1])
  }

  // The fast path: single lines. Returns the calls of QCPPainter::drawLine.
  method DrawSingleLines(lineData: seq<Pixel>) returns (drawn: seq<Edge>)
    ensures drawn == EdgesUpTo(lineData, |lineData|, NotNaN())
  {
    drawn := [];
    var i: nat := 0;
    var lastIsNan := false;
    while i < |lineData| && HasNaN(lineData[i])
      invariant i <= |lineData| && (forall k :: 0 <= k < i ==> HasNaN(lineData[k]))
      invariant EdgesUpTo(lineData, i, NotNaN()) == []
    {
      i := i + 1;
    }
    if i == |lineData| {
      return;
    }
    i := i + 1;
    while i < |lineData|
      invariant 1 <= i <= |lineData| && (lastIsNan <==> HasNaN(lineData[i - 1]))
      invariant drawn == EdgesUpTo(lineData, i, NotNaN())
    {
      if !HasNaN(lineData[i]) {
        if !lastIsNan {
          drawn := drawn + [(lineData[i - 1], lineData[i])];
        } else {
          lastIsNan := false;
        }
      } else {
        lastIsNan := true;
      }
      i := i + 1;
    }
  }

  // The words in which the drawn edges are promised; the loops do not use them.
  predicate IsPoint(p: Pixel) { !p.x.NotANumber? && !p.y.NotANumber? }

  // Edge i joins point at[i] with the next one; the edges come in the order of the points.
  ghost predicate EdgesAt(drawn: seq<Edge>, pts: seq<Pixel>, at: seq<nat>) {
    && |at| == |drawn| && (forall i, j :: 0 <= i < j < |at| ==> at[i] < at[j])
    && (forall i :: 0 <= i < |at| ==> at[i] + 1 < |pts| && drawn[i] == (pts[at[i]], pts[at[i] + 1]))
  }

  predicate BothFit(pts: seq<Pixel>, k: nat, n: nat, fit: Pixel -> bool)
    requires n <= |pts|
  {
    k + 1 < n && fit(pts[k]) && fit(pts[k + 1])
  }

  // The edges among the first n points start at the points that are fit and have a fit successor.
  ghost predicate Starts(at: seq<nat>, pts: seq<Pixel>, n: nat, fit: Pixel -> bool)
    requires n <= |pts|
  {
    forall k: nat :: k in at <==> BothFit(pts, k, n, fit)
  }

  lemma {:induction false} EdgesAre(pts: seq<Pixel>, n: nat, fit: Pixel -> bool) returns (at: seq<nat>)
    requires n <= |pts|
    ensures EdgesAt(EdgesUpTo(pts, n, fit), pts, at) && Starts(at, pts, n, fit)
    decreases n
  {
    if n < 2 {
      at := [];
    } else {
      var edges := EdgesUpTo(pts, n - 1, fit);
      assert EdgesUpTo(pts, n, fit)
          == if BothFit(pts, n - 2, n, fit) then edges + [(pts[n - 2], pts[n - 2 + 1])] else edges;
      hide EdgesUpTo; hide EdgesAt; hide Starts; hide BothFit;
      at := EdgesAre(pts, n - 1, fit);
      OneMoreStart(at, pts, n, fit);
      if BothFit(pts, n - 2, n, fit) {
        OneMoreEdge(edges, pts, at, n - 2);
        at := at + [n - 2];
      }
    }
  }

  lemma OneMoreStart(at: seq<nat>, pts: seq<Pixel>, n: nat, fit: Pixel -> bool)
    requires 2 <= n <= |pts| && Starts(at, pts, n - 1, fit)
    ensures Starts(if BothFit(pts, n - 2, n, fit) then at + [n - 2] else at, pts, n, fit)
    ensures forall i :: 0 <= i < |at| ==> at[i] < n - 2
  {
    forall i | 0 <= i < |at| ensures at[i] < n - 2 { assert at[i] in at && BothFit(pts, at[i], n - 1, fit); }
    forall k: nat
      ensures BothFit(pts, k, n, fit) <==> BothFit(pts, k, n - 1, fit) || (k == n - 2 && BothFit(pts, k, n, fit))
    {}
  }

  lemma OneMoreEdge(drawn: seq<Edge>, pts: seq<Pixel>, at: seq<nat>, k: nat)
    requires EdgesAt(drawn, pts, at) && k + 1 < |pts| && forall i :: 0 <= i < |at| ==> at[i] < k
    ensures EdgesAt(drawn + [(pts[k], pts[k + 1])], pts, at + [k])
  {}

  // The fast path and what it draws.
  method DrawLines(lineData: seq<Pixel>) returns (drawn: seq<Edge>)
    ensures drawn == EdgesUpTo(lineData, |lineData|, NotNaN())
    ensures exists at ::
              && EdgesAt(drawn, lineData, at)
              && forall k: nat :: k in at <==>
                    k + 1 < |lineData| && IsPoint(lineData[k]) && IsPoint(lineData[k + 1])
  {
    ghost var at := EdgesAre(lineData, |lineData|, NotNaN());
    forall k: nat
      ensures k in at <==> k + 1 < |lineData| && IsPoint(lineData[k]) && IsPoint(lineData[k + 1])
    {
      assert k in at <==> BothFit(lineData, k, |lineData|, NotNaN());
    }
    hide EdgesAt; hide IsPoint; hide Starts; hide EdgesUpTo;
    drawn := DrawSingleLines(lineData);
  }

  // The other path: polylines. Returns the calls of QPainter::drawPolyline.
  method DrawSegments(lineData: seq<Pixel>) returns (drawn: seq<seq<Pixel>>)
    ensures AllEdges(drawn) == EdgesUpTo(lineData, |lineData|, Drawable())
  {
    hide Drawable; hide AllEdges; hide LineEdges; hide EdgesUpTo;
    drawn := [];
    var segmentStart: nat, i: nat := 0, 0;
    NoEdges(lineData);
    while i < |lineData|
      invariant segmentStart <= i <= |lineData|
      invariant forall k :: segmentStart <= k < i ==> Drawable()(lineData[k])
      invariant segmentStart > 0 ==> !Drawable()(lineData[segmentStart - 1])
      invariant AllEdges(drawn) + LineEdges(lineData[segmentStart..i]) == EdgesUpTo(lineData, i, Drawable())
    {
      OneMorePoint(lineData, drawn, segmentStart, i);
      if HasNaN(lineData[i]) || lineData[i].y.Infinite? {
        drawn := drawn + [lineData[segmentStart..i]];
        segmentStart := i + 1;
      }
      i := i + 1;
    }
    assert lineData[segmentStart..] == lineData[segmentStart..i];
    OneMoreLine(drawn, lineData[segmentStart..]);
    drawn := drawn + [lineData[segmentStart..]];
  }

  method DrawPolylines(lineData: seq<Pixel>) returns (drawn: seq<seq<Pixel>>)
    ensures AllEdges(drawn) == EdgesUpTo(lineData, |lineData|, Drawable())
    ensures exists at ::
              && EdgesAt(AllEdges(drawn), lineData, at)
              && forall k: nat :: k in at <==>
                    && k + 1 < |lineData| && IsPoint(lineData[k]) && IsPoint(lineData[k + 1])
                    && !lineData[k].y.Infinite? && !lineData[k + 1].y.Infinite?
  {
    ghost var at := EdgesAre(lineData, |lineData|, Drawable());
    forall k: nat
      ensures k in at <==>
                    && k + 1 < |lineData| && IsPoint(lineData[k]) && IsPoint(lineData[k + 1])
                    && !lineData[k].y.Infinite? && !lineData[k + 1].y.Infinite?
    {
      assert k in at <==> BothFit(lineData, k, |lineData|, Drawable());
    }
    hide EdgesAt; hide IsPoint; hide Starts; hide EdgesUpTo; hide AllEdges;
    drawn := DrawSegments(lineData);
  }

  lemma NoEdges(pts: seq<Pixel>)
    ensures AllEdges([]) + LineEdges(pts[0..0]) == EdgesUpTo(pts, 0, Drawable())
  {}

  lemma OneMoreLine(lines: seq<seq<Pixel>>, line: seq<Pixel>)
    ensures AllEdges(lines + [line]) == AllEdges(lines) + LineEdges(line)
  {
    assert (lines + [line])[..|lines|] == lines;
  }

  // A point that is fit goes on with the open segment; one that is not closes it.
  lemma OneMorePoint(pts: seq<Pixel>, drawn: seq<seq<Pixel>>, from: nat, i: nat)
    requires from <= i < |pts| && forall k :: from <= k < i ==> Drawable()(pts[k])
    requires from > 0 ==> !Drawable()(pts[from - 1])
    requires AllEdges(drawn) + LineEdges(pts[from..i]) == EdgesUpTo(pts, i, Drawable())
    ensures Drawable()(pts[i]) <==> !(HasNaN(pts[i]) || pts[i].y.Infinite?)
    ensures Drawable()(pts[i]) ==> AllEdges(drawn) + LineEdges(pts[from..i + 1]) == EdgesUpTo(pts, i + 1, Drawable())
    ensures !Drawable()(pts[i]) ==>
              AllEdges(drawn + [pts[from..i]]) + LineEdges(pts[i + 1..i + 1]) == EdgesUpTo(pts, i + 1, Drawable())
  {
    ExtendSegment(pts, from, i);
    OneMoreLine(drawn, pts[from..i]);
    var more := if i > 0 && Drawable()(pts[i - 1]) && Drawable()(pts[i]) then [(pts[i - 1], pts[i])] else [];
    assert EdgesUpTo(pts, i + 1, Drawable()) == EdgesUpTo(pts, i, Drawable()) + more;
    assert LineEdges(pts[i + 1..i + 1]) == [];
    hide AllEdges; hide LineEdges; hide EdgesUpTo;
    assert more == if Drawable()(pts[i]) && from < i then [(pts[i - 1], pts[i])] else [];
  }

  lemma ExtendSegment(pts: seq<Pixel>, from: nat, i: nat)
    requires from <= i < |pts|
    ensures LineEdges(pts[from..i + 1]) == LineEdges(pts[from..i]) + if from < i then [(pts[i - 1], pts[i])] else []
  {
    var s := pts[from..i + 1];
    assert s[..|s| - 1] == pts[from..i];
  }

  // If the fast path draws the edge that ends at point i, neither end has an infinite y.
  predicate Clean(pts: seq<Pixel>, i: nat)
    requires 0 < i < |pts|
  {
    !HasNaN(pts[i - 1]) && !HasNaN(pts[i]) ==> !pts[i - 1].y.Infinite? && !pts[i].y.Infinite?
  }

  // Both paths draw the same edges exactly when every edge is clean.
  lemma {:induction false} PathsAgreeExactlyWhen(pts: seq<Pixel>, n: nat)
    requires n <= |pts|
    ensures |EdgesUpTo(pts, n, Drawable())| <= |EdgesUpTo(pts, n, NotNaN())|
    ensures EdgesUpTo(pts, n, Drawable()) == EdgesUpTo(pts, n, NotNaN())
            <==> forall i: nat :: 0 < i < n ==> Clean(pts, i)
  {
    if n >= 2 {
      PathsAgreeExactlyWhen(pts, n - 1);
      var slow, fast := EdgesUpTo(pts, n - 1, Drawable()), EdgesUpTo(pts, n - 1, NotNaN());
      SameTail(slow, fast, (pts[n - 2], pts[n - 1]));
      assert (forall i: nat :: 0 < i < n ==> Clean(pts, i))
             <==> (forall i: nat :: 0 < i < n - 1 ==> Clean(pts, i)) && Clean(pts, n - 1);
    }
  }

  // Two points, the second of infinite y: the fast path draws an edge and the other one none.
  lemma InfiniteEndSeparatesPaths(x0: real, y0: real, x1: real)
    ensures var pts := [Pixel(Finite(x0), Finite(y0)), Pixel(Finite(x1), Infinite)];
            && EdgesUpTo(pts, 2, NotNaN()) == [(pts[0], pts[1])]
            && EdgesUpTo(pts, 2, Drawable()) == []
  {
    var pts := [Pixel(Finite(x0), Finite(y0)), Pixel(Finite(x1), Infinite)];
    assert EdgesUpTo(pts, 1, NotNaN()) == [] && EdgesUpTo(pts, 1, Drawable()) == [];
  }

  lemma SameTail<T>(a: seq<T>, b: seq<T>, e: T)
    ensures a + [e] == b + [e] <==> a == b
    ensures |a| <= |b| ==> a != b + [e]
    ensures a + [] == a && b + [] == b
  {
    if a + [e] == b + [e] { assert a == (a + [e])[..|a|] == (b + [e])[..|b|] == b; }
  }
}
