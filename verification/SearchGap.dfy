/** A run in which the allocator refuses a request although there is room: the search start has
    moved to word 1, and the room straddles it. It exists in every heap of at least two status
    words, so in both memory maps of the firmware (1024 and 7168 lines). */
module SearchGap {
  import opened Wrappers
  import opened Bitmap

  function Empty(total: nat): State { State(seq(total, _ => false), 0, {}) }

  // Requests that the 16-bit size of the allocator can ask for, in bytes.
  ghost predicate Small(ops: seq<Op>) {
    forall k :: 0 <= k < |ops| && ops[k].Alloc? ==> 32 * ops[k].size < 0x1_0000
  }

  // `ops` leads from one state to the other.
  ghost predicate Leads(st: State, ops: seq<Op>, st': State) { Run(st, ops, st') && Small(ops) }

  lemma {:induction false} RunConcat(a: State, ops: seq<Op>, b: State, more: seq<Op>, c: State)
    requires Run(a, ops, b) && Run(b, more, c)
    ensures Run(a, ops + more, c)
    decreases |ops|
  {
    hide Steps;
    if ops == [] {
      assert ops + more == more;
    } else {
      var mid :| Steps(a, ops[0], mid) && Run(mid, ops[1..], b);
      RunConcat(mid, ops[1..], b, more, c);
      assert (ops + more)[0] == ops[0] && (ops + more)[1..] == ops[1..] + more;
    }
  }

  lemma Join(a: State, ops: seq<Op>, b: State, more: seq<Op>, c: State)
    requires Leads(a, ops, b) && Leads(b, more, c)
    ensures Leads(a, ops + more, c)
  {
    RunConcat(a, ops, b, more, c);
  }

  lemma One(st: State, op: Op, st': State)
    requires Steps(st, op, st') && (op.Alloc? ==> 32 * op.size < 0x1_0000)
    ensures Leads(st, [op], st')
  {
    hide Steps;
    assert [op][1..] == [];
    assert Run(st', [], st');
  }

  // An allocation for which position p is the first fit at or above the search start.
  lemma AllocAt(st: State, size: nat, p: nat, st': State)
    requires 2 <= size && 32 * size < 0x1_0000 && 32 * st.searchPos <= p && Fits(st.bits, p, size)
    requires forall q: nat :: 32 * st.searchPos <= q < p ==> !Fits(st.bits, q, size)
    requires |st'.bits| == |st.bits|
    requires forall k :: 0 <= k < |st.bits| ==> st'.bits[k] == (st.bits[k] || p + 1 <= k < p + size)
    requires st'.searchPos == (p + size) / 32 && st'.live == st.live + {Block(p + 1, size)}
    ensures Leads(st, [Alloc(size)], st')
  {
    var first := FirstRun(st.bits, 32 * st.searchPos, |st.bits|, size + 1);
    assert ClearRun(st.bits, p, size + 1);
    assert first.Some? && Fits(st.bits, first.value, size);
    assert first == Some(p);
    assert st'.bits == Fill(st.bits, p + 1, size - 1, true);
    One(st, Alloc(size), st');
  }

  lemma FreeAt(st: State, b: Block) returns (st': State)
    requires b in st.live && 1 <= b.lines && b.start + b.lines <= |st.bits|
    requires forall k :: b.start <= k < b.start + b.lines - 1 ==> st.bits[k]
    requires !st.bits[b.start + b.lines - 1]
    ensures Leads(st, [Free(b.start)], st') && st'.searchPos == 0 && |st'.bits| == |st.bits|
    ensures forall k :: 0 <= k < |st.bits| ==> st'.bits[k] == (st.bits[k] && !Marks(b, k))
    ensures forall c :: c in st.live && !Marks(c, b.start) ==> c in st'.live
  {
    RunLengthUnique(st.bits, b.start, b.lines - 1);
    st' := FreeStep(st, b.start);
    forall c | c in st.live && !Marks(c, b.start) ensures c in st'.live { assert c in Cut(c, b.start); }
    One(st, Free(b.start), st');
  }

  // ----- the first four blocks, of 30, 2, 20 and 5 lines

  predicate Low(k: int) { 1 <= k < 30 || k == 31 || 33 <= k < 52 || 53 <= k < 57 }

  // Those blocks that lie below a limit.
  function Stage(total: nat, limit: nat, searchPos: nat, live: set<Block>): State {
    State(seq(total, k => k < limit && Low(k)), searchPos, live)
  }

  function Four(total: nat): State {
    Stage(total, 57, 1, {Block(1, 30), Block(31, 2), Block(33, 20), Block(53, 5)})
  }

  lemma FourBlocks(total: nat)
    requires total >= 64
    ensures Leads(Empty(total), [Alloc(30)] + [Alloc(2)] + [Alloc(20)] + [Alloc(5)], Four(total))
  {
    var s1 := Stage(total, 30, 0, {Block(1, 30)});
    var s2 := Stage(total, 32, 1, {Block(1, 30), Block(31, 2)});
    var s3 := Stage(total, 52, 1, {Block(1, 30), Block(31, 2), Block(33, 20)});
    forall q: nat | q < 30 ensures !Fits(s1.bits, q, 2) { assert s1.bits[if q == 0 then 1 else q]; }
    forall q: nat | 32 <= q < 52 ensures !Fits(s3.bits, q, 5) { assert s3.bits[if q == 32 then 33 else q]; }
    hide Leads;
    AllocAt(Empty(total), 30, 0, s1);
    AllocAt(s1, 2, 30, s2);
    AllocAt(s2, 20, 32, s3);
    AllocAt(s3, 5, 52, Four(total));
    hide *;
    Join(Empty(total), [Alloc(30)], s1, [Alloc(2)], s2);
    Join(Empty(total), [Alloc(30)] + [Alloc(2)], s2, [Alloc(20)], s3);
    Join(Empty(total), [Alloc(30)] + [Alloc(2)] + [Alloc(20)], s3, [Alloc(5)], Four(total));
  }

  // ----- the rest of the heap, up to two lines

  // Behind the first four blocks the lines up to p are in use, without two clear bits side by side.
  ghost predicate Packed(st: State, total: nat, p: nat) {
    && |st.bits| == total && 57 <= p < total && 1 <= st.searchPos && 32 * st.searchPos <= p
    && (forall k :: 0 <= k < 57 ==> (st.bits[k] <==> Low(k)))
    && !st.bits[57] && st.bits[p - 1]
    && (forall k :: 57 <= k < p ==> st.bits[k - 1] || st.bits[k])
    && (forall k :: p <= k < total ==> !st.bits[k])
    && Block(31, 2) in st.live && Block(53, 5) in st.live
  }

  lemma NoFitBefore(st: State, total: nat, p: nat, q: nat)
    requires Packed(st, total, p) && 32 <= q < p
    ensures st.bits[q] || (q + 1 < p && st.bits[q + 1])
  {
    if 57 <= q < p - 1 { assert st.bits[q + 1 - 1] || st.bits[q + 1]; }
  }

  lemma PackMore(st: State, total: nat, p: nat, n: nat) returns (st': State)
    requires Packed(st, total, p) && 2 <= n && 32 * n < 0x1_0000 && p + n < total
    ensures Leads(st, [Alloc(n)], st') && Packed(st', total, p + n)
  {
    st' := State(Fill(st.bits, p + 1, n - 1, true), (p + n) / 32, st.live + {Block(p + 1, n)});
    forall q: nat | 32 * st.searchPos <= q < p ensures !Fits(st.bits, q, n) {
      NoFitBefore(st, total, p, q);
    }
    AllocAt(st, n, p, st');
  }

  lemma {:induction false} PackAll(st: State, total: nat, p: nat) returns (ops: seq<Op>, st': State, p': nat)
    requires Packed(st, total, p) && 64 <= total
    ensures Leads(st, ops, st') && Packed(st', total, p') && total <= p' + 2 && 57 < p'
    decreases total - p
  {
    if total <= p + 2 {
      ops, st', p' := [], st, p;
    } else {
      var n := if total - p - 1 < 2000 then total - p - 1 else 2000;
      var mid := PackMore(st, total, p, n);
      hide Packed; hide Leads;
      ops, st', p' := PackAll(mid, total, p + n);
      Join(st, [Alloc(n)], mid, ops, st');
      ops := [Alloc(n)] + ops;
    }
  }

  // ----- two blocks freed, and one of them taken again

  // There is room at p, and the request is refused.
  ghost predicate Refuses(st: State, p: nat, size: nat) {
    1 <= size && 32 * st.searchPos <= |st.bits| && Fits(st.bits, p, size) && AllocStep(st, size).1.None?
  }

  // The heap without the blocks at 31 and 53, or with the second of them back.
  ghost predicate Gaps(st: State, total: nat, p: nat, retaken: bool) {
    && |st.bits| == total && 57 <= p < total <= p + 2
    && (forall k :: 0 <= k < 57 ==> (st.bits[k] <==> Low(k) && k != 31 && (retaken || k < 53)))
    && !st.bits[57] && st.bits[p - 1]
    && (forall k :: 58 <= k < p ==> st.bits[k - 1] || st.bits[k])
    && (forall k :: p <= k < total ==> !st.bits[k])
  }

  lemma FreeTwo(st: State, total: nat, p: nat) returns (ops: seq<Op>, st': State)
    requires Packed(st, total, p) && total <= p + 2 && 57 < p
    ensures Leads(st, ops, st') && Gaps(st', total, p, false) && st'.searchPos == 0
  {
    hide Leads;
    var st1 := FreeAt(st, Block(31, 2));
    st' := FreeAt(st1, Block(53, 5));
    Join(st, [Free(31)], st1, [Free(53)], st');
    ops := [Free(31)] + [Free(53)];
  }

  lemma Retake(st: State, total: nat, p: nat) returns (st': State)
    requires Gaps(st, total, p, false) && st.searchPos == 0
    ensures Leads(st, [Alloc(5)], st') && Gaps(st', total, p, true) && st'.searchPos == 1
  {
    hide Leads;
    st' := State(Fill(st.bits, 53, 4, true), 1, st.live + {Block(53, 5)});
    forall q: nat | q < 52 ensures !Fits(st.bits, q, 5) {
      assert st.bits[if q == 0 then 1 else if 30 <= q < 33 then 33 else q];
    }
    AllocAt(st, 5, 52, st');
  }

  lemma Refused(st: State, total: nat, p: nat)
    requires Gaps(st, total, p, true) && st.searchPos == 1
    ensures Refuses(st, 30, 2)
  {
    forall q: nat | 32 <= q && q + 3 <= total ensures !ClearRun(st.bits, q, 3) {
      assert st.bits[q] || st.bits[q + 1] by {
        if 57 <= q < p - 1 { assert st.bits[q + 1 - 1] || st.bits[q + 1]; }
      }
    }
    forall q: nat | q + 3 <= 32 ensures !ClearRun(st.bits, q, 3) { assert st.bits[if q == 0 then 1 else q]; }
    assert NoRun(st.bits, 32, total, 3) && NoRun(st.bits, 0, 32, 3);
  }

  lemma PackedFour(total: nat)
    requires total >= 64
    ensures Packed(Four(total), total, 57)
  {}

  // From the empty heap: a request for two lines is refused although lines 30 to 32 are clear.
  lemma RoomIsRefused(total: nat)
    requires total >= 64
    ensures exists ops, st :: Leads(Empty(total), ops, st) && Refuses(st, 30, 2)
  {
    hide *;
    var ops, st := RefusingRun(total);
  }

  lemma RefusingRun(total: nat) returns (ops: seq<Op>, st: State)
    requires total >= 64
    ensures Leads(Empty(total), ops, st) && Refuses(st, 30, 2)
  {
    hide *;
    FourBlocks(total);
    PackedFour(total);
    var first := [Alloc(30)] + [Alloc(2)] + [Alloc(20)] + [Alloc(5)];
    var fill, full, p := PackAll(Four(total), total, 57);
    var free, gaps := FreeTwo(full, total, p);
    st := Retake(gaps, total, p);
    Refused(st, total, p);
    Join(Empty(total), first, Four(total), fill, full);
    Join(Empty(total), first + fill, full, free, gaps);
    Join(Empty(total), first + fill + free, gaps, [Alloc(5)], st);
    ops := first + fill + free + [Alloc(5)];
  }
}
