/** Freeing a block twice with error detection on: harmless when nothing has happened in between,
    and what it does to the in-use list when something has. */
module SecondFree {
  import opened Wrappers
  import opened Bitmap
  import opened BlockList
  import opened DmaBuffer
  import opened DmaClients

  // One free too many has been counted.
  predicate Ahead(frees: nat, n: nat, allocs: nat) { (frees + n) % U32 == (allocs + 1) % U32 }

  lemma CountFree(frees: nat, n: nat, allocs: nat)
    requires (frees + n) % U32 == allocs && frees < U32
    ensures Ahead((frees + 1) % U32, n, allocs)
  {
    CountUp(frees, n, allocs);
    if frees + 1 == U32 { assert (frees + 1) % U32 == 0; } else { assert (frees + 1) % U32 == frees + 1; }
  }

  lemma CountSecond(m: BufferManager)
    requires m.Valid() && m.checks
    ensures Ahead((m.freeCnt + 1) % U32, |m.live|, m.allocCnt)
  {
    CountFree(m.freeCnt, |m.live|, m.allocCnt);
  }

  lemma LooseHandle(m: BufferManager, buffer: nat, r: Rec, older: nat, newer: nat)
    requires m.Valid() && m.Ready() && m.checks && buffer == Payload(m.heapBase, r)
    requires Loose(m.ram[..], m.heapBase, m.live, r, older, newer)
    ensures m.IsLoose(buffer) && m.Freeable(buffer) && buffer < U32
    ensures older == m.LinkOf(buffer, 2) && newer == m.LinkOf(buffer, 3)
  {
    LooseIsElsewhere(m.ram[..], m.heapBase, m.live, r);
    OwnLines(r, |m.ram[..]| / 8);
    LooseHeader(m.ram[..], m.heapBase, m.live, r, older, newer);
    assert (buffer - HEADER_BYTES - m.heapBase) / 4 == Word(r);
    assert m.LinkOf(buffer, 2) == Get(m.ram[..], Word(r) + 2) && m.LinkOf(buffer, 3) == Get(m.ram[..], Word(r) + 3);
    hide Loose; hide Linked; hide Placed; hide Sound;
    assert m.LooseAt(r);
  }

  lemma LooseHeader(mem: seq<nat>, base: nat, live: seq<Rec>, r: Rec, older: nat, newer: nat)
    requires Loose(mem, base, live, r, older, newer)
    ensures Header(mem, r, older, newer)
  {}

  // A free of a block that is no longer live.
  method FreeLoose(m: BufferManager, buffer: nat, ghost r: Rec, ghost older: nat, ghost newer: nat)
    returns (retVal: int)
    requires m.Valid() && m.Ready() && m.checks && buffer == Payload(m.heapBase, r)
    requires Loose(m.ram[..], m.heapBase, m.live, r, older, newer)
    modifies m, m.usedStatus, m.ram
    ensures retVal == 0 && m.Ready() && m.usedStatus == old(m.usedStatus)
    ensures m.live == old(m.live) && m.St() == old(m.St()).(searchPos := 0) && m.inUseList == old(m.inUseList)
    ensures m.ram[..] == Unlinked(old(m.ram[..]), m.heapBase, older, newer)
    ensures Linked(m.ram[..], m.heapBase, m.live, m.inUseList) <==> LinksAgree(m.heapBase, m.live, older, newer)
    ensures Ahead(m.freeCnt, |m.live|, m.allocCnt)
  {
    hide Linked; hide Loose; hide LinksAgree; hide Intact; hide FreeStep; hide Dropped; hide Signed; hide Without;
    hide Stale; hide Payload; hide Unlinked; hide Ahead;
    hide BufferManager.Ready; hide BufferManager.Valid; hide BufferManager.Listed; hide BufferManager.Geometry;
    hide BufferManager.Idle; hide BufferManager.IsLoose; hide BufferManager.IsLive; hide BufferManager.Freeable;
    hide BufferManager.LineOf; hide BufferManager.LinkOf;
    LooseHandle(m, buffer, r, older, newer);
    CountSecond(m);
    retVal := m.Free(buffer);
  }

  // Freeing a block twice in a row: the second call succeeds and changes neither the bits nor the
  // memory nor the list, but it is counted, and the free counter is one too high.
  method FreeTwice(m: BufferManager, buffer: nat, ghost i: nat) returns (again: int)
    requires m.Valid() && m.Ready() && m.checks && i < |m.live| && buffer == Payload(m.heapBase, m.live[i])
    modifies m, m.usedStatus, m.ram
    ensures again == 0 && m.Ready() && Took(m, old(m.ram[..]), old(m.St()), old(m.live), i)
    ensures Linked(m.ram[..], m.heapBase, m.live, m.inUseList) && Ahead(m.freeCnt, |m.live|, m.allocCnt)
  {
    hide Ahead; hide BufferManager.Idle;
    hide Linked; hide Stale; hide Dropped; hide Fill; hide Without; hide Sound; hide Placed; hide Loose;
    hide LinksAgree; hide Unlinked; hide AddrAt;
    FreeLive(m, buffer, i);
    ghost var r := old(m.live)[i];
    ghost var older, newer := AddrAt(m.heapBase, m.live, i), AddrAt(m.heapBase, m.live, i - 1);
    StaleIsLoose(m.ram[..], m.heapBase, m.live, r, i);
    UnlinkingAgain(m.ram[..], m.heapBase, m.live, m.inUseList, r, i);
    again := FreeLoose(m, buffer, r, older, newer);
  }

  // A block is freed, and then its newer neighbour: now the links of the first one are out of date.
  lemma OutOfDate(mem: seq<nat>, mem': seq<nat>, base: nat, live: seq<Rec>, r: Rec, i: nat)
    requires Stale(mem, base, live, r, i) && 0 < base && 0 < i < |live| && Dropped(mem, mem', base, live, i - 1)
    ensures Loose(mem', base, Without(live, i - 1), r, Addr(base, live[i]), Addr(base, live[i - 1]))
    ensures !LinksAgree(base, Without(live, i - 1), Addr(base, live[i]), Addr(base, live[i - 1]))
  {
    StaleIsLoose(mem, base, live, r, i);
    PlacedDrop([r] + live, |mem| / 8, i);
    assert Without([r] + live, i) == [r] + Without(live, i - 1);
    OutOfDateHeader(mem, mem', base, live, r, i);
    OutOfDateLinks(base, live, r, |mem| / 8, i);
    hide LinksAgree; hide Stale; hide Placed; hide Header; hide Without;
  }

  lemma OutOfDateLinks(base: nat, live: seq<Rec>, r: Rec, total: nat, i: nat)
    requires Placed([r] + live, total) && 0 < base && 0 < i < |live|
    ensures !LinksAgree(base, Without(live, i - 1), Addr(base, live[i]), Addr(base, live[i - 1]))
  {
    var rest := Without(live, i - 1);
    assert rest[i - 1] == live[i];
    AddrAtWithout(base, live, i - 1, i - 2);
    if i > 1 {
      assert Apart(([r] + live)[i - 1].block, ([r] + live)[i].block);
      assert InHeap(([r] + live)[i - 1].block, total) && InHeap(([r] + live)[i].block, total);
    }
    assert AddrAt(base, rest, i - 2) != Addr(base, live[i - 1]);
  }

  lemma OutOfDateHeader(mem: seq<nat>, mem': seq<nat>, base: nat, live: seq<Rec>, r: Rec, i: nat)
    requires Stale(mem, base, live, r, i) && 0 < i < |live| && Dropped(mem, mem', base, live, i - 1)
    ensures Header(mem', r, Addr(base, live[i]), Addr(base, live[i - 1]))
  {
    var w := Word(r);
    LooseIsElsewhere(mem, base, live, r);
    assert !DropTouches(live, i - 1, w + 1) && !DropTouches(live, i - 1, w + 2) && !DropTouches(live, i - 1, w + 3);
  }

  // A block with neighbours on both sides is freed, then its newer neighbour, then the block again:
  // the list is broken, and the older neighbour now names a freed block as its newer one.
  method LateSecondFree(m: BufferManager, buffer: nat, neighbour: nat, ghost i: nat) returns (again: int)
    requires m.Valid() && m.Ready() && m.checks && 0 < i && i + 1 < |m.live|
    requires buffer == Payload(m.heapBase, m.live[i]) && neighbour == Payload(m.heapBase, m.live[i - 1])
    modifies m, m.usedStatus, m.ram
    ensures again == 0 && m.Ready() && m.live == Without(Without(old(m.live), i), i - 1)
    ensures !Linked(m.ram[..], m.heapBase, m.live, m.inUseList)
  {
    hide Ahead; hide BufferManager.Idle;
    hide Linked; hide Stale; hide Dropped; hide Fill; hide Sound; hide Placed; hide Loose;
    hide LinksAgree; hide Unlinked; hide AddrAt; hide Intact; hide Signed;
    ghost var r := m.live[i];
    FreeLive(m, buffer, i);
    ghost var mem, live := m.ram[..], m.live;
    FreeLive(m, neighbour, i - 1);
    OutOfDate(mem, m.ram[..], m.heapBase, live, r, i);
    again := FreeLoose(m, buffer, r, Addr(m.heapBase, live[i]), Addr(m.heapBase, live[i - 1]));
  }

  // ----- such a run from the empty heap

  // Only bits below t are set, and the search starts at the bottom.
  ghost predicate Low(st: State, t: nat) {
    Sound(st) && st.searchPos == 0 && 32 <= |st.bits| && forall k :: t <= k < |st.bits| ==> !st.bits[k]
  }

  lemma LowAlloc(st: State, t: nat)
    requires Low(st, t) && t + 3 <= 32
    ensures AllocStep(st, 2).1.Some? && Low(AllocStep(st, 2).0, t + 3)
  {
    FirstFitFromTheBottom(st, 2);
    AllocStepSound(st, 2);
    assert Fits(st.bits, t, 2);
  }

  lemma EmptyIsLow(m: BufferManager)
    requires m.Valid() && m.Ready() && m.live == [] && m.searchPos == 0
    ensures Low(m.St(), 0)
  {
    assert Blocks(m.live) == {};
    forall k: nat | k < |m.St().bits| ensures !m.St().bits[k] { BitIsMarked(m.St().bits, {}, k); }
  }

  // Three small blocks are taken from the empty heap; the second is freed, the third, the second again.
  method FailingRun(m: BufferManager) returns (again: int)
    requires m.Valid() && m.Ready() && m.checks && m.live == [] && m.searchPos == 0
    modifies m, m.usedStatus, m.ram
    ensures again == 0 && !Linked(m.ram[..], m.heapBase, m.live, m.inUseList) && |m.live| == 1
  {
    EmptyIsLow(m);
    var first := TakeSmall(m, 0);
    var second := TakeSmall(m, 3);
    var third := TakeSmall(m, 6);
    again := LateSecondFree(m, second, third, 1);
  }

  // One more block of four bytes.
  method TakeSmall(m: BufferManager, ghost t: nat) returns (ptr: nat)
    requires m.Valid() && m.Ready() && m.checks && Low(m.St(), t) && t + 3 <= 32
    modifies m, m.usedStatus, m.ram
    ensures m.Valid() && m.Ready() && m.checks && m.usedStatus == old(m.usedStatus) && Low(m.St(), t + 3)
    ensures |m.live| == |old(m.live)| + 1 && m.live[1..] == old(m.live) && ptr == Payload(m.heapBase, m.live[0])
  {
    LowAlloc(m.St(), t);
    assert LinesFor(BlockBytes(4, true)) == 2;
    hide Low; hide AllocStep; hide Linked; hide Sound; hide Placed; hide Pushed; hide Signed; hide Intact;
    ptr := m.Alloc(4);
  }
}
