/** The buffer manager as it is by default, with error detection off; and what an allocation and a
    free of its pointer do together, with and without it. */
module DmaPlain {
  import opened Wrappers
  import opened Bitmap
  import opened BlockList
  import opened DmaBuffer
  import opened DmaClients

  // With checks off or on: freeing the pointer of an allocation gives back bits and live blocks.
  method AllocThenFreePointer(m: BufferManager, size: nat) returns (ptr: nat, retVal: int)
    requires m.Valid() && m.Ready() && size < 0x1_0000
    modifies m, m.usedStatus, m.ram
    ensures m.Valid() && m.Ready() && m.live == old(m.live) && m.St().bits == old(m.St()).bits
    ensures ptr != 0 ==> retVal == 0 && m.searchPos == 0
    ensures ptr != 0 ==> m.heapBase + 32 <= ptr && ptr + size <= m.heapBase + m.heapSize
  {
    hide Linked; hide Placed; hide Inv; hide Pushed; hide Signed; hide Intact; hide Stale; hide Dropped;
    ghost var st, lines := m.St(), LinesFor(BlockBytes(size, m.checks));
    AllocStepSound(st, lines);
    retVal := -1;
    ptr := m.Alloc(size);
    if ptr != 0 {
      AllocThenFree(st, lines);
      assert m.live[0].block == AllocStep(st, lines).1.value;
      assert Without(m.live, 0) == old(m.live);
      hide AllocStep;
      if m.checks {
        FreeLive(m, ptr, 0);
        retVal := 0;
      } else {
        retVal := FreePlain(m, ptr, 0);
      }
    }
  }

  // ----- runs with checks off

  // A client's pointer is the address of its block's first line, and its bytes are the block's own.
  ghost predicate HasLines(base: nat, r: Rec, h: Held) {
    h.ptr == base + 32 * r.block.start && h.ptr + h.size <= base + 32 * (r.block.start + r.block.lines)
  }

  ghost predicate Matches(base: nat, live: seq<Rec>, held: seq<Held>) {
    |held| == |live| && forall i :: 0 <= i < |held| ==> HasLines(base, live[i], held[i])
  }

  ghost predicate Plain(m: BufferManager, held: seq<Held>)
    reads m, m.usedStatus, m.ram
  {
    m.Valid() && m.Ready() && !m.checks && Matches(m.heapBase, m.live, held)
  }

  lemma MatchesApart(base: nat, live: seq<Rec>, held: seq<Held>, lines: nat)
    requires Placed(live, lines) && Matches(base, live, held)
    ensures Separated(base, 32 * lines, held)
  {
    forall i: nat | i < |held|
      ensures base + 32 <= held[i].ptr && held[i].ptr + held[i].size <= base + 32 * lines
    {
      assert HasLines(base, live[i], held[i]) && InHeap(live[i].block, lines);
    }
    forall i: nat, j: nat | i < j < |held|
      ensures held[i].ptr + held[i].size <= held[j].ptr || held[j].ptr + held[j].size <= held[i].ptr
    {
      assert HasLines(base, live[i], held[i]) && HasLines(base, live[j], held[j]);
      assert Apart(live[i].block, live[j].block);
    }
  }

  // A free of the i-th newest block, by the address of its first line.
  method FreePlain(m: BufferManager, ptr: nat, ghost i: nat) returns (retVal: int)
    requires m.Valid() && m.Ready() && !m.checks && i < |m.live| && ptr == m.heapBase + 32 * m.live[i].block.start
    modifies m, m.usedStatus, m.ram
    ensures m.Valid() && m.Ready() && !m.checks && m.usedStatus == old(m.usedStatus)
    ensures retVal == 0 && m.live == Without(old(m.live), i) && m.ram[..] == old(m.ram[..])
    ensures m.St() == FreeStep(old(m.St()), old(m.live)[i].block.start)
  {
    assert InHeap(m.live[i].block, m.heapSize / 32);
    assert m.LineOf(ptr) == m.live[i].block.start;
    assert !m.IsLoose(ptr);
    hide Linked; hide Placed; hide Sound; hide Intact; hide FreeStep; hide Signed; hide Stale;
    hide Dropped; hide Without;
    retVal := m.Free(ptr);
  }

  method TakePlain(m: BufferManager, held: seq<Held>, size: nat) returns (now: seq<Held>)
    requires Plain(m, held) && size < 0x1_0000
    modifies m, m.usedStatus, m.ram
    ensures Plain(m, now) && m.usedStatus == old(m.usedStatus) && m.ram[..] == old(m.ram[..])
    ensures now == held || (|now| == |held| + 1 && now[1..] == held && now[0].size == size)
    ensures m.live == if now == held then old(m.live) else [m.live[0]] + old(m.live)
  {
    hide Linked; hide Placed; hide Sound; hide Intact; hide AllocStep; hide Pushed; hide Signed;
    var ptr := m.Alloc(size);
    now := held;
    if ptr != 0 { now := [Held(ptr, size)] + held; }
  }

  method GivePlain(m: BufferManager, held: seq<Held>, i: nat) returns (now: seq<Held>)
    requires Plain(m, held) && i < |held|
    modifies m, m.usedStatus, m.ram
    ensures Plain(m, now) && m.usedStatus == old(m.usedStatus) && m.ram[..] == old(m.ram[..])
    ensures now == held[..i] + held[i + 1..] && m.live == Without(old(m.live), i)
  {
    assert HasLines(m.heapBase, m.live[i], held[i]);
    now := held[..i] + held[i + 1..];
    assert Matches(m.heapBase, Without(m.live, i), now);
    hide Matches; hide Without;
    var retVal := FreePlain(m, held[i].ptr, i);
  }

  // Over any script of allocations and releases with checks off: the buffers held are apart and in
  // the heap, the manager's live blocks are exactly those behind them, no word of the heap is
  // written, and once everything is given back every bit is clear.
  method RunPlain(m: BufferManager, script: seq<Request>) returns (held: seq<Held>)
    requires Plain(m, [])
    requires forall k :: 0 <= k < |script| && script[k].Allocate? ==> script[k].size < 0x1_0000
    modifies m, m.usedStatus, m.ram
    ensures Plain(m, held) && Separated(m.heapBase, m.heapSize, held) && m.ram[..] == old(m.ram[..])
    ensures held == [] ==> forall k :: 0 <= k < |m.St().bits| ==> !m.St().bits[k]
  {
    held := [];
    for k := 0 to |script|
      invariant Plain(m, held) && m.usedStatus == old(m.usedStatus) && m.ram[..] == old(m.ram[..])
    {
      match script[k] {
        case Allocate(size) => held := TakePlain(m, held, size);
        case Release(i) => if i < |held| { held := GivePlain(m, held, i); }
        case Write(_, _, _) =>
      }
    }
    MatchesApart(m.heapBase, m.live, held, m.heapSize / 32);
    NothingLive(m);
  }

  lemma NothingLive(m: BufferManager)
    requires m.Valid() && m.Ready()
    ensures m.live == [] ==> forall k :: 0 <= k < |m.St().bits| ==> !m.St().bits[k]
  {
    if m.live == [] {
      assert Blocks(m.live) == {};
      forall k: nat | k < |m.St().bits| ensures !m.St().bits[k] { BitIsMarked(m.St().bits, {}, k); }
    }
  }
}
