/** keyRange and valueRange of QCPDataContainer: the fast scans against the plain
    definition, the least and the greatest of all numbers that count. */
module DataRanges {
  import opened SortedSeq
  import opened DataContainer
  import opened Wrappers

  datatype SignDomain = Both | Negative | Positive

  datatype Range = Range(lower: real, upper: real)

  const EMPTY_RANGE: Range := Range(0.0, 0.0)

  predicate InDomain(v: real, dom: SignDomain) {
    match dom
    case Both => true
    case Negative => v < 0.0
    case Positive => v > 0.0
  }

  // The words in which the two ranges are promised; the loops do not use them.
  predicate IsOf(n: Num, dom: SignDomain) {
    n.Val? && (dom.Negative? ==> n.v < 0.0) && (dom.Positive? ==> 0.0 < n.v)
  }

  predicate Allowed(key: real, r: Range) { (r.lower == 0.0 && r.upper == 0.0) || (r.lower <= key && key <= r.upper) }

  // A number counts when it is not NaN and has the right sign.
  predicate Counts(n: Num, dom: SignDomain) { n.Val? && InDomain(n.v, dom) }

  // The least and the greatest number that counts.
  function Least(s: seq<Num>, dom: SignDomain): Option<real> {
    if s == [] then None else Lower(Least(s[..|s| - 1], dom), s[|s| - 1], dom)
  }

  function Lower(r: Option<real>, n: Num, dom: SignDomain): Option<real> {
    if Counts(n, dom) && (r.None? || n.v < r.value) then Some(n.v) else r
  }

  function Greatest(s: seq<Num>, dom: SignDomain): Option<real> {
    if s == [] then None else Higher(Greatest(s[..|s| - 1], dom), s[|s| - 1], dom)
  }

  function Higher(r: Option<real>, n: Num, dom: SignDomain): Option<real> {
    if Counts(n, dom) && (r.None? || n.v > r.value) then Some(n.v) else r
  }

  lemma {:induction false} LeastIsLeast(s: seq<Num>, dom: SignDomain)
    ensures Least(s, dom).None? <==> forall i :: 0 <= i < |s| ==> !Counts(s[i], dom)
    ensures Least(s, dom).Some? ==> exists i :: 0 <= i < |s| && Counts(s[i], dom) && s[i].v == Least(s, dom).value
    ensures forall i :: 0 <= i < |s| && Counts(s[i], dom) ==> Least(s, dom).value <= s[i].v
  {
    if s != [] {
      LeastIsLeast(s[..|s| - 1], dom);
      if Least(s, dom) == Least(s[..|s| - 1], dom) && Least(s, dom).Some? {
        var i :| 0 <= i < |s| - 1 && Counts(s[..|s| - 1][i], dom) && s[..|s| - 1][i].v == Least(s, dom).value;
        assert Counts(s[i], dom);
      }
    }
  }

  lemma {:induction false} GreatestIsGreatest(s: seq<Num>, dom: SignDomain)
    ensures Greatest(s, dom).None? <==> forall i :: 0 <= i < |s| ==> !Counts(s[i], dom)
    ensures Greatest(s, dom).Some? ==> exists i :: 0 <= i < |s| && Counts(s[i], dom) && s[i].v == Greatest(s, dom).value
    ensures forall i :: 0 <= i < |s| && Counts(s[i], dom) ==> s[i].v <= Greatest(s, dom).value
  {
    if s != [] {
      GreatestIsGreatest(s[..|s| - 1], dom);
      if Greatest(s, dom) == Greatest(s[..|s| - 1], dom) && Greatest(s, dom).Some? {
        var i :| 0 <= i < |s| - 1 && Counts(s[..|s| - 1][i], dom) && s[..|s| - 1][i].v == Greatest(s, dom).value;
        assert Counts(s[i], dom);
      }
    }
  }

  lemma LeastIs(s: seq<Num>, dom: SignDomain, i: nat)
    requires i < |s| && Counts(s[i], dom)
    requires forall j :: 0 <= j < |s| && Counts(s[j], dom) ==> s[i].v <= s[j].v
    ensures Least(s, dom) == Some(s[i].v)
  {
    LeastIsLeast(s, dom);
  }

  lemma GreatestIs(s: seq<Num>, dom: SignDomain, i: nat)
    requires i < |s| && Counts(s[i], dom)
    requires forall j :: 0 <= j < |s| && Counts(s[j], dom) ==> s[j].v <= s[i].v
    ensures Greatest(s, dom) == Some(s[i].v)
  {
    GreatestIsGreatest(s, dom);
  }

  // Leaving out numbers at both ends that do not count changes nothing.
  lemma {:induction false} Trim(s: seq<Num>, dom: SignDomain, b: nat, e: nat)
    requires b <= e <= |s|
    requires forall i :: 0 <= i < |s| && !(b <= i < e) ==> !Counts(s[i], dom)
    ensures Least(s[b..e], dom) == Least(s, dom) && Greatest(s[b..e], dom) == Greatest(s, dom)
    decreases |s|
  {
    var n := |s| - 1;
    if e <= n {
      TakeSlice(s, n, b, e);
      Trim(s[..n], dom, b, e);
    } else if b <= n {
      TakeSlice(s, n, b, n);
      assert s[b..e][..n - b] == s[b..n];
      Trim(s[..n], dom, b, n);
    } else {
      assert s[b..e] == [];
      NoneCount(s, dom);
    }
  }

  lemma TakeSlice<T>(s: seq<T>, n: nat, b: nat, e: nat)
    requires b <= e <= n <= |s|
    ensures s[..n][b..e] == s[b..e]
  {}

  lemma NoneCount(s: seq<Num>, dom: SignDomain)
    requires forall i :: 0 <= i < |s| ==> !Counts(s[i], dom)
    ensures Least(s, dom) == None && Greatest(s, dom) == None
  {
    LeastIsLeast(s, dom);
    GreatestIsGreatest(s, dom);
  }

  lemma Step(s: seq<Num>, dom: SignDomain, b: nat, i: nat)
    requires b <= i < |s|
    ensures Least(s[b..i + 1], dom) == Lower(Least(s[b..i], dom), s[i], dom)
    ensures Greatest(s[b..i + 1], dom) == Higher(Greatest(s[b..i], dom), s[i], dom)
  {
    assert s[b..i + 1][..i - b] == s[b..i];
  }

  // ----- keyRange

  // The key of a point; a point without a value has none.
  function Key(p: Point): Num { if p.mainValue.NaN? then NaN else Val(p.mainKey) }

  function Keys(s: seq<Point>): seq<Num> { seq(|s|, i requires 0 <= i < |s| => Key(s[i])) }

  function ValueOr0(r: Option<real>): real { if r.Some? then r.value else 0.0 }

  ghost predicate MainKeysSorted(s: seq<Point>) { forall i :: 0 <= i < |s| ==> s[i].sortKey == s[i].mainKey }

  // sortKeyIsMainKey is the promise of the data type that the two keys agree.
  method KeyRange(c: Container, sortKeyIsMainKey: bool, dom: SignDomain) returns (range: Range, foundRange: bool)
    requires c.Valid() && (sortKeyIsMainKey ==> MainKeysSorted(c.Visible()))
    ensures (range, foundRange) == Found(Least(Keys(c.Visible()), dom), Greatest(Keys(c.Visible()), dom))
    ensures foundRange <==>
              (exists i :: 0 <= i < |c.Visible()| && c.Visible()[i].mainValue.Val?
                           && IsOf(Val(c.Visible()[i].mainKey), dom))
    ensures foundRange ==>
              && IsOf(Val(range.lower), dom) && IsOf(Val(range.upper), dom)
              && (exists i :: 0 <= i < |c.Visible()| && c.Visible()[i].mainValue.Val?
                              && c.Visible()[i].mainKey == range.lower)
              && (exists i :: 0 <= i < |c.Visible()| && c.Visible()[i].mainValue.Val?
                              && c.Visible()[i].mainKey == range.upper)
              && (forall i :: 0 <= i < |c.Visible()| && c.Visible()[i].mainValue.Val?
                              && IsOf(Val(c.Visible()[i].mainKey), dom)
                              ==> range.lower <= c.Visible()[i].mainKey <= range.upper)
  {
    KeyRangeMeans(c.Visible(), dom);
    hide Least; hide Greatest; hide Keys; hide Sorted; hide Found; hide IsOf;
    var data := c.mData[c.mPreallocSize..];
    if data == [] {
      NoKeys(data, dom);
      return EMPTY_RANGE, false;
    }
    if dom.Both? && sortKeyIsMainKey {
      range, foundRange := KeyRangeFromEnds(data);
    } else {
      range, foundRange := KeyRangeByScan(data, dom);
    }
  }

  // What both methods return: 0 stands in for a bound that was not found.
  function Found(l: Option<real>, u: Option<real>): (Range, bool) {
    (Range(ValueOr0(l), ValueOr0(u)), l.Some? && u.Some?)
  }

  lemma NoKeys(s: seq<Point>, dom: SignDomain)
    requires s == []
    ensures Found(Least(Keys(s), dom), Greatest(Keys(s), dom)) == (EMPTY_RANGE, false)
  {}

  // What the two bounds and the flag mean, with every comparison written out.
  lemma FoundMeans(lows: seq<Num>, highs: seq<Num>, dom: SignDomain)
    ensures var (range, found) := Found(Least(lows, dom), Greatest(highs, dom));
            && (found <==>
                  && (exists i :: 0 <= i < |lows| && IsOf(lows[i], dom))
                  && (exists i :: 0 <= i < |highs| && IsOf(highs[i], dom)))
            && (found ==>
                  && (exists i :: 0 <= i < |lows| && lows[i] == Val(range.lower))
                  && (exists i :: 0 <= i < |highs| && highs[i] == Val(range.upper))
                  && IsOf(Val(range.lower), dom) && IsOf(Val(range.upper), dom)
                  && (forall i :: 0 <= i < |lows| && IsOf(lows[i], dom) ==> range.lower <= lows[i].v)
                  && (forall i :: 0 <= i < |highs| && IsOf(highs[i], dom) ==> highs[i].v <= range.upper))
  {
    LeastIsLeast(lows, dom);
    GreatestIsGreatest(highs, dom);
    hide Least; hide Greatest;
    if Least(lows, dom).Some? {
      var i :| 0 <= i < |lows| && Counts(lows[i], dom) && lows[i].v == Least(lows, dom).value;
      assert lows[i] == Val(Least(lows, dom).value);
    }
    if Greatest(highs, dom).Some? {
      var i :| 0 <= i < |highs| && Counts(highs[i], dom) && highs[i].v == Greatest(highs, dom).value;
      assert highs[i] == Val(Greatest(highs, dom).value);
    }
  }

  lemma KeyRangeMeans(s: seq<Point>, dom: SignDomain)
    ensures var (range, found) := Found(Least(Keys(s), dom), Greatest(Keys(s), dom));
            && (found <==> exists i :: 0 <= i < |s| && s[i].mainValue.Val? && IsOf(Val(s[i].mainKey), dom))
            && (found ==>
                  && IsOf(Val(range.lower), dom) && IsOf(Val(range.upper), dom)
                  && (exists i :: 0 <= i < |s| && s[i].mainValue.Val? && s[i].mainKey == range.lower)
                  && (exists i :: 0 <= i < |s| && s[i].mainValue.Val? && s[i].mainKey == range.upper)
                  && (forall i :: 0 <= i < |s| && s[i].mainValue.Val? && IsOf(Val(s[i].mainKey), dom)
                        ==> range.lower <= s[i].mainKey <= range.upper))
  {
    var keys := Keys(s);
    FoundMeans(keys, keys, dom);
    assert forall i :: 0 <= i < |s| ==> keys[i] == if s[i].mainValue.NaN? then NaN else Val(s[i].mainKey);
    hide Least; hide Greatest; hide Keys;
    var (range, found) := Found(Least(keys, dom), Greatest(keys, dom));
    if found {
      var i :| 0 <= i < |keys| && keys[i] == Val(range.lower);
      var j :| 0 <= j < |keys| && keys[j] == Val(range.upper);
      assert s[i].mainKey == range.lower && s[j].mainKey == range.upper;
    }
    if i :| 0 <= i < |s| && s[i].mainValue.Val? && IsOf(Val(s[i].mainKey), dom) {
      assert keys[i] == Val(s[i].mainKey);
    }
  }

  // The fast form for both signs: the first and the last key with a value.
  method KeyRangeFromEnds(data: seq<Point>) returns (range: Range, foundRange: bool)
    requires Sorted(data) && MainKeysSorted(data)
    ensures (range, foundRange) == Found(Least(Keys(data), Both), Greatest(Keys(data), Both))
  {
    ghost var keys := Keys(data);
    var haveLower, haveUpper := false, false;
    range := EMPTY_RANGE;
    var it: nat := 0;
    while it < |data|
      invariant it <= |data| && forall j :: 0 <= j < it ==> keys[j] == NaN
    {
      if !data[it].mainValue.NaN? {
        range := range.(lower := data[it].mainKey);
        haveLower := true;
        FirstIsLeast(data, it);
        break;
      }
      it := it + 1;
    }
    if !haveLower { NoneCount(keys, Both); }
    it := |data|;
    ghost var lower := range.lower;
    while it != 0
      invariant it <= |data| && forall j :: it <= j < |data| ==> keys[j] == NaN
    {
      it := it - 1;
      if !data[it].mainValue.NaN? {
        range := range.(upper := data[it].mainKey);
        haveUpper := true;
        LastIsGreatest(data, it);
        break;
      }
    }
    if !haveUpper { NoneCount(keys, Both); }
    foundRange := haveLower && haveUpper;
  }

  method KeyRangeByScan(data: seq<Point>, dom: SignDomain) returns (range: Range, foundRange: bool)
    ensures (range, foundRange) == Found(Least(Keys(data), dom), Greatest(Keys(data), dom))
  {
    ghost var keys := Keys(data);
    var haveLower, haveUpper := false, false;
    range := EMPTY_RANGE;
    var it := 0;
    while it < |data|
      invariant it <= |data|
      invariant Tracks(Least(keys[0..it], dom), haveLower, range.lower)
      invariant Tracks(Greatest(keys[0..it], dom), haveUpper, range.upper)
    {
      Step(keys, dom, 0, it);
      if !data[it].mainValue.NaN? {
        var current := data[it].mainKey;
        if (current < range.lower || !haveLower) && InDomain(current, dom) {
          range := range.(lower := current);
          haveLower := true;
        }
        if (current > range.upper || !haveUpper) && InDomain(current, dom) {
          range := range.(upper := current);
          haveUpper := true;
        }
      }
      it := it + 1;
    }
    assert keys[0..|data|] == keys;
    foundRange := haveLower && haveUpper;
  }

  // A bound and its flag, as the loops keep them.
  predicate Tracks(r: Option<real>, have: bool, bound: real) { have == r.Some? && bound == ValueOr0(r) }

  lemma FirstIsLeast(s: seq<Point>, i: nat)
    requires Sorted(s) && MainKeysSorted(s) && i < |s| && !s[i].mainValue.NaN?
    requires forall j :: 0 <= j < i ==> Keys(s)[j] == NaN
    ensures Least(Keys(s), Both) == Some(s[i].mainKey)
  {
    forall j | 0 <= j < |s| && Counts(Keys(s)[j], Both) ensures s[i].mainKey <= Keys(s)[j].v {
      assert i <= j;
      assert s[i].sortKey <= s[j].sortKey;
    }
    LeastIs(Keys(s), Both, i);
  }

  lemma LastIsGreatest(s: seq<Point>, i: nat)
    requires Sorted(s) && MainKeysSorted(s) && i < |s| && !s[i].mainValue.NaN?
    requires forall j :: i < j < |s| ==> Keys(s)[j] == NaN
    ensures Greatest(Keys(s), Both) == Some(s[i].mainKey)
  {
    forall j | 0 <= j < |s| && Counts(Keys(s)[j], Both) ensures Keys(s)[j].v <= s[i].mainKey {
      assert j <= i;
      assert s[j].sortKey <= s[i].sortKey;
    }
    GreatestIs(Keys(s), Both, i);
  }

  // ----- valueRange

  // Points outside the key range contribute nothing; the empty range means no restriction.
  predicate KeyAllowed(p: Point, inKeyRange: Range) {
    inKeyRange == EMPTY_RANGE || inKeyRange.lower <= p.mainKey <= inKeyRange.upper
  }

  function Lows(s: seq<Point>, r: Range): seq<Num> {
    seq(|s|, i requires 0 <= i < |s| => if KeyAllowed(s[i], r) then s[i].low else NaN)
  }

  function Highs(s: seq<Point>, r: Range): seq<Num> {
    seq(|s|, i requires 0 <= i < |s| => if KeyAllowed(s[i], r) then s[i].high else NaN)
  }

  lemma NoLowsOrHighs(s: seq<Point>, r: Range, dom: SignDomain)
    requires s == []
    ensures Found(Least(Lows(s, r), dom), Greatest(Highs(s, r), dom)) == (EMPTY_RANGE, false)
  {}

  lemma ValueRangeMeans(s: seq<Point>, r: Range, dom: SignDomain)
    ensures var (range, found) := Found(Least(Lows(s, r), dom), Greatest(Highs(s, r), dom));
            && (found <==>
                  && (exists i :: 0 <= i < |s| && Allowed(s[i].mainKey, r) && IsOf(s[i].low, dom))
                  && (exists i :: 0 <= i < |s| && Allowed(s[i].mainKey, r) && IsOf(s[i].high, dom)))
            && (found ==>
                  && IsOf(Val(range.lower), dom) && IsOf(Val(range.upper), dom)
                  && (exists i :: 0 <= i < |s| && Allowed(s[i].mainKey, r) && s[i].low == Val(range.lower))
                  && (exists i :: 0 <= i < |s| && Allowed(s[i].mainKey, r) && s[i].high == Val(range.upper))
                  && (forall i :: 0 <= i < |s| && Allowed(s[i].mainKey, r) ==>
                        && (IsOf(s[i].low, dom) ==> range.lower <= s[i].low.v)
                        && (IsOf(s[i].high, dom) ==> s[i].high.v <= range.upper)))
  {
    var lows, highs := Lows(s, r), Highs(s, r);
    FoundMeans(lows, highs, dom);
    AllowedOnes(s, r, lows, highs);
    hide Least; hide Greatest; hide Lows; hide Highs; hide Allowed; hide Found;
    var (range, found) := Found(Least(lows, dom), Greatest(highs, dom));
    if found {
      var i :| 0 <= i < |lows| && lows[i] == Val(range.lower);
      var j :| 0 <= j < |highs| && highs[j] == Val(range.upper);
      assert s[i].low == Val(range.lower) && s[j].high == Val(range.upper);
    }
    if i, j :| 0 <= i < |s| && Allowed(s[i].mainKey, r) && IsOf(s[i].low, dom)
             && 0 <= j < |s| && Allowed(s[j].mainKey, r) && IsOf(s[j].high, dom) {
      assert IsOf(lows[i], dom) && IsOf(highs[j], dom);
    }
  }

  lemma AllowedOnes(s: seq<Point>, r: Range, lows: seq<Num>, highs: seq<Num>)
    requires lows == Lows(s, r) && highs == Highs(s, r)
    ensures forall i :: 0 <= i < |s| ==> lows[i] == if Allowed(s[i].mainKey, r) then s[i].low else NaN
    ensures forall i :: 0 <= i < |s| ==> highs[i] == if Allowed(s[i].mainKey, r) then s[i].high else NaN
  {}

  // The scan of the points that the binary search leaves, or of all of them.
  method NarrowedRange(c: Container, sortKeyIsMainKey: bool, dom: SignDomain, inKeyRange: Range)
    returns (range: Range, foundRange: bool)
    requires c.Valid() && (sortKeyIsMainKey ==> MainKeysSorted(c.Visible()))
    requires inKeyRange.lower <= inKeyRange.upper
    ensures (range, foundRange)
            == Found(Least(Lows(c.Visible(), inKeyRange), dom), Greatest(Highs(c.Visible(), inKeyRange), dom))
  {
    var data := c.mData[c.mPreallocSize..];
    if data == [] {
      NoLowsOrHighs(data, inKeyRange, dom);
      return EMPTY_RANGE, false;
    }
    var itBegin, itEnd := 0, |data|;
    if sortKeyIsMainKey && inKeyRange != EMPTY_RANGE {
      itBegin := c.FindBegin(inKeyRange.lower, false);
      itEnd := c.FindEnd(inKeyRange.upper, false);
      NarrowingLosesNothing(data, inKeyRange);
    }
    Trim(Lows(data, inKeyRange), dom, itBegin, itEnd);
    Trim(Highs(data, inKeyRange), dom, itBegin, itEnd);
    range, foundRange := ValueRangeByScan(data, itBegin, itEnd, dom, inKeyRange);
  }

  method ValueRange(c: Container, sortKeyIsMainKey: bool, dom: SignDomain, inKeyRange: Range)
    returns (range: Range, foundRange: bool)
    requires c.Valid() && (sortKeyIsMainKey ==> MainKeysSorted(c.Visible()))
    requires inKeyRange.lower <= inKeyRange.upper
    ensures (range, foundRange)
            == Found(Least(Lows(c.Visible(), inKeyRange), dom), Greatest(Highs(c.Visible(), inKeyRange), dom))
    ensures foundRange <==>
              && (exists i :: 0 <= i < |c.Visible()| && Allowed(c.Visible()[i].mainKey, inKeyRange)
                    && IsOf(c.Visible()[i].low, dom))
              && (exists i :: 0 <= i < |c.Visible()| && Allowed(c.Visible()[i].mainKey, inKeyRange)
                    && IsOf(c.Visible()[i].high, dom))
    ensures foundRange ==>
              && IsOf(Val(range.lower), dom) && IsOf(Val(range.upper), dom)
              && (exists i :: 0 <= i < |c.Visible()| && Allowed(c.Visible()[i].mainKey, inKeyRange)
                    && c.Visible()[i].low == Val(range.lower))
              && (exists i :: 0 <= i < |c.Visible()| && Allowed(c.Visible()[i].mainKey, inKeyRange)
                    && c.Visible()[i].high == Val(range.upper))
    ensures foundRange ==> forall i :: 0 <= i < |c.Visible()| && Allowed(c.Visible()[i].mainKey, inKeyRange) ==>
              && (IsOf(c.Visible()[i].low, dom) ==> range.lower <= c.Visible()[i].low.v)
              && (IsOf(c.Visible()[i].high, dom) ==> c.Visible()[i].high.v <= range.upper)
  {
    ValueRangeMeans(c.Visible(), inKeyRange, dom);
    hide *;
    range, foundRange := NarrowedRange(c, sortKeyIsMainKey, dom, inKeyRange);
  }

  method ValueRangeByScan(data: seq<Point>, itBegin: nat, itEnd: nat, dom: SignDomain, inKeyRange: Range)
    returns (range: Range, foundRange: bool)
    requires itBegin <= itEnd <= |data|
    ensures (range, foundRange) == Found(Least(Lows(data, inKeyRange)[itBegin..itEnd], dom),
                                         Greatest(Highs(data, inKeyRange)[itBegin..itEnd], dom))
  {
    ghost var lows, highs := Lows(data, inKeyRange), Highs(data, inKeyRange);
    var restrictKeyRange := inKeyRange != EMPTY_RANGE;
    var haveLower, haveUpper := false, false;
    range := EMPTY_RANGE;
    var it := itBegin;
    while it != itEnd
      invariant itBegin <= it <= itEnd
      invariant Tracks(Least(lows[itBegin..it], dom), haveLower, range.lower)
      invariant Tracks(Greatest(highs[itBegin..it], dom), haveUpper, range.upper)
    {
      Step(lows, dom, itBegin, it);
      Step(highs, dom, itBegin, it);
      if !(restrictKeyRange && (data[it].mainKey < inKeyRange.lower || data[it].mainKey > inKeyRange.upper)) {
        var low, high := data[it].low, data[it].high;
        if low.Val? && (low.v < range.lower || !haveLower) && InDomain(low.v, dom) {
          range := range.(lower := low.v);
          haveLower := true;
        }
        if high.Val? && (high.v > range.upper || !haveUpper) && InDomain(high.v, dom) {
          range := range.(upper := high.v);
          haveUpper := true;
        }
      }
      it := it + 1;
    }
    foundRange := haveLower && haveUpper;
  }

  // The points that the binary search leaves out are outside the key range.
  lemma NarrowingLosesNothing(s: seq<Point>, r: Range)
    requires Sorted(s) && MainKeysSorted(s) && r.lower <= r.upper && r != EMPTY_RANGE
    ensures var b, e := Begin(s, r.lower, false), End(s, r.upper, false);
            b <= e && forall i :: 0 <= i < |s| && !(b <= i < e) ==> Lows(s, r)[i] == NaN && Highs(s, r)[i] == NaN
  {
    BoundsOrdered(s, r.lower, r.upper);
  }
}
