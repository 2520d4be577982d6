/** Whole runs of the data container against a plain multiset of points. */
module ContainerModel {
  import opened SortedSeq
  import opened DataContainer

  // Every operation that clients have. `capacity` is what the vector reports when the operation
  // thinks about squeezing, and may be anything.
  datatype Op =
    | SetPoints(points: seq<Point>, alreadySorted: bool)
    | SetOther(other: Container)
    | AddPoints(points: seq<Point>, alreadySorted: bool)
    | AddOther(other: Container)
    | AddOne(p: Point)
    | Before(key: real, capacity: nat)
    | After(key: real, capacity: nat)
    | Between(lo: real, hi: real, capacity: nat)
    | One(at: real, capacity: nat)
    | Clear
    | Squeeze(pre: bool, post: bool)
    | AutoSqueeze(enabled: bool, capacity: nat)
    | Rework(points: seq<Point>)  // overwrites the points through the iterators, then calls sort()

  ghost function Others(op: Op): set<Container> { if op.SetOther? || op.AddOther? then {op.other} else {} }

  // What the clients owe.
  ghost predicate Legal(c: Container, op: Op)
    reads Others(op)
  {
    match op
    case SetPoints(points, alreadySorted) => alreadySorted ==> Sorted(points)
    case AddPoints(points, alreadySorted) => alreadySorted ==> Sorted(points)
    case SetOther(other) => other != c && other.Valid()
    case AddOther(other) => other != c && other.Valid()
    case _ => true
  }

  ghost predicate Kept(m: multiset<Point>, m': multiset<Point>, p: Point -> bool) {
    forall x :: m'[x] == if p(x) then m[x] else 0
  }

  ghost predicate OneLost(m: multiset<Point>, m': multiset<Point>, key: real) {
    if exists p :: p in m && p.sortKey == key then exists p :: p in m && p.sortKey == key && m' == m - multiset{p}
    else m' == m
  }

  // The same operations on a plain multiset, without any order and without any hidden room.
  ghost predicate Plain(m: multiset<Point>, op: Op, m': multiset<Point>)
    reads Others(op)
  {
    match op
    case SetPoints(points, _) => m' == multiset(points)
    case SetOther(other) => other.Valid() && m' == multiset(other.Visible())
    case AddPoints(points, _) => m' == m + multiset(points)
    case AddOther(other) => other.Valid() && m' == m + multiset(other.Visible())
    case AddOne(p) => m' == m + multiset{p}
    case Before(key, _) => Kept(m, m', AtOrAbove(key))
    case After(key, _) => Kept(m, m', AtOrBelow(key))
    case Between(lo, hi, _) => if lo < hi then Kept(m, m', Outside(lo, hi)) else m' == m
    case One(at, _) => OneLost(m, m', at)
    case Clear => m' == multiset{}
    case Squeeze(_, _) => m' == m
    case AutoSqueeze(_, _) => m' == m
    case Rework(points) => m' == if |points| == |m| then multiset(points) else m
  }

  lemma KeepAgrees(s: seq<Point>, p: Point -> bool)
    ensures Kept(multiset(s), multiset(Where(s, p)), p)
  {
    forall x ensures multiset(Where(s, p))[x] == if p(x) then multiset(s)[x] else 0 { WhereCounts(s, p, x); }
  }

  lemma OneAgrees(s: seq<Point>, key: real)
    requires Sorted(s)
    ensures OneLost(multiset(s), multiset(WithoutKey(s, key)), key)
  {
    WithoutKeyLosesOne(s, key);
    if Has(s, key) {
      var p := s[LowerBound(s, key)];
      assert p in multiset(s) && p.sortKey == key;
    } else {
      forall p | p in multiset(s) ensures p.sortKey != key {
        assert p in s;
        var i :| 0 <= i < |s| && s[i] == p;
        assert s[i].sortKey != key;
      }
    }
  }

  predicate Removes(op: Op) { op.Before? || op.After? || op.Between? || op.One? }

  // What a removal leaves visible.
  function Left(s: seq<Point>, op: Op): seq<Point>
    requires Sorted(s) && Removes(op)
  {
    match op
    case Before(key, _) => Where(s, AtOrAbove(key))
    case After(key, _) => Where(s, AtOrBelow(key))
    case Between(lo, hi, _) => if lo < hi then Where(s, Outside(lo, hi)) else s
    case One(at, _) => WithoutKey(s, at)
  }

  lemma RemovalAgrees(s: seq<Point>, op: Op)
    requires Sorted(s) && Removes(op)
    ensures Plain(multiset(s), op, multiset(Left(s, op)))
  {
    match op
    case Before(key, _) => KeepAgrees(s, AtOrAbove(key));
    case After(key, _) => KeepAgrees(s, AtOrBelow(key));
    case Between(lo, hi, _) => KeepAgrees(s, Outside(lo, hi));
    case One(at, _) => OneAgrees(s, at);
  }

  method Remove(c: Container, op: Op)
    requires c.Valid() && Removes(op)
    modifies c
    ensures c.Valid() && c.Visible() == Left(old(c.Visible()), op)
  {
    hide Sorted; hide Where; hide WithoutKey; hide Outside; hide AtOrAbove; hide AtOrBelow;
    match op {
      case Before(key, capacity) => c.RemoveBefore(key, capacity);
      case After(key, capacity) => c.RemoveAfter(key, capacity);
      case Between(lo, hi, capacity) => c.RemoveRange(lo, hi, capacity);
      case One(at, capacity) => c.RemoveKey(at, capacity);
    }
  }

  // The points overwritten in place, as many as there are, then sorted again.
  method Overwrite(c: Container, points: seq<Point>)
    requires c.Valid()
    modifies c
    ensures c.Valid()
    ensures multiset(c.Visible())
            == if |points| == |old(c.Visible())| then multiset(points) else multiset(old(c.Visible()))
  {
    if |points| == |c.mData| - c.mPreallocSize {
      c.mData := c.mData[..c.mPreallocSize] + points;
      assert c.Visible() == points;
      c.Resort();
    }
  }

  // One operation on the container is the operation on the multiset.
  method Apply(c: Container, op: Op)
    requires c.Valid() && Legal(c, op)
    modifies c
    ensures c.Valid() && Plain(multiset(old(c.Visible())), op, multiset(c.Visible()))
  {
    ghost var was := c.Visible();
    hide Sorted; hide Kept; hide OneLost; hide Inserted; hide Added; hide Left;
    match op {
      case SetPoints(points, alreadySorted) => c.SetVector(points, alreadySorted);
      case SetOther(other) => c.SetContainer(other);
      case AddPoints(points, alreadySorted) => c.AddVector(points, alreadySorted);
      case AddOther(other) =>
        AddedIsSortedUnion(was, other.Visible());
        c.AddContainer(other);
      case AddOne(p) => c.AddPoint(p);
      case Clear => c.Clear();
      case Squeeze(pre, post) => c.Squeeze(pre, post);
      case AutoSqueeze(enabled, capacity) => c.SetAutoSqueeze(enabled, capacity);
      case Rework(points) => Overwrite(c, points);
      case _ =>
        RemovalAgrees(was, op);
        Remove(c, op);
    }
  }

  // Over any run the container stays valid: its hidden room is no larger than its vector and its
  // visible points are sorted; and before and after every operation they are the points of a plain
  // multiset that makes the same run.
  method RunScript(c: Container, script: seq<Op>) returns (ghost ms: seq<multiset<Point>>)
    requires c.Valid() && forall k :: 0 <= k < |script| ==> Legal(c, script[k])
    modifies c
    ensures c.Valid() && |ms| == |script| + 1
    ensures ms[0] == multiset(old(c.Visible())) && ms[|script|] == multiset(c.Visible())
    ensures forall k :: 0 <= k < |script| ==> Plain(ms[k], script[k], ms[k + 1])
  {
    assert forall k :: 0 <= k < |script| ==> c !in Others(script[k]);
    hide Sorted; hide Plain; hide Legal; hide Others;
    ms := [multiset(c.Visible())];
    for i := 0 to |script|
      invariant c.Valid() && |ms| == i + 1
      invariant forall k :: 0 <= k < |script| ==> Legal(c, script[k])
      invariant ms[0] == multiset(old(c.Visible())) && ms[i] == multiset(c.Visible())
      invariant forall k :: 0 <= k < i ==> Plain(ms[k], script[k], ms[k + 1])
    {
      Apply(c, script[i]);
      ms := ms + [multiset(c.Visible())];
    }
  }
}
