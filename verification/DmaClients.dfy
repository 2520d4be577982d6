/** Whole runs of the buffer manager with error detection on: clients allocate, free
    what they hold, and write wherever they like inside what they hold. */
module DmaClients {
  import opened Wrappers
  import opened Bitmap
  import opened BlockList
  import opened DmaBuffer

  // `i` counts the blocks held, newest first; `offset` counts words of the payload.
  datatype Request = Allocate(size: nat) | Release(i: nat) | Write(i: nat, offset: nat, v: nat)

  datatype Held = Held(ptr: nat, size: nat)

  // What the clients hold is what the manager has handed out.
  ghost predicate Agree(base: nat, live: seq<Rec>, held: seq<Held>) {
    |held| == |live| && forall i :: 0 <= i < |held| ==>
      held[i].ptr == Payload(base, live[i]) && live[i].bytes == BlockBytes(held[i].size, true)
  }

  lemma AgreeWith(base: nat, live: seq<Rec>, held: seq<Held>, r: Rec, h: Held)
    requires Agree(base, live, held) && h.ptr == Payload(base, r) && r.bytes == BlockBytes(h.size, true)
    ensures Agree(base, [r] + live, [h] + held)
  {}

  lemma AgreeWithout(base: nat, live: seq<Rec>, held: seq<Held>, i: nat)
    requires Agree(base, live, held) && i < |live|
    ensures Agree(base, Without(live, i), held[..i] + held[i + 1..])
  {}

  // The bytes that the clients hold lie in the heap and belong to one buffer each.
  ghost predicate Separated(base: nat, size: nat, held: seq<Held>) {
    && (forall i :: 0 <= i < |held| ==> base + 32 <= held[i].ptr && held[i].ptr + held[i].size <= base + size)
    && (forall i, j :: 0 <= i < j < |held| ==>
          held[i].ptr + held[i].size <= held[j].ptr || held[j].ptr + held[j].size <= held[i].ptr)
  }

  lemma HeldApart(mem: seq<nat>, base: nat, live: seq<Rec>, head: nat, held: seq<Held>)
    requires Linked(mem, base, live, head) && Agree(base, live, held)
    ensures Separated(base, 4 * |mem|, held)
  {
    forall i: nat | i < |held|
      ensures base + 32 <= held[i].ptr && held[i].ptr + held[i].size <= base + 4 * |mem|
      ensures base + 4 * Word(live[i]) <= held[i].ptr
      ensures held[i].ptr + held[i].size <= base + 4 * (Word(live[i]) + 8 * live[i].block.lines)
    {
      OwnLines(live[i], |mem| / 8);
    }
    forall i: nat, j: nat | i < j < |held|
      ensures held[i].ptr + held[i].size <= held[j].ptr || held[j].ptr + held[j].size <= held[i].ptr
    {
      Separate(live, |mem| / 8, i, j);
    }
  }

  ghost predicate Running(m: BufferManager, held: seq<Held>)
    reads m, m.usedStatus, m.ram
  {
    m.Valid() && m.Ready() && m.checks && Intact(m.ram[..], m.live) && Agree(m.heapBase, m.live, held)
  }

  method Serve(m: BufferManager, held: seq<Held>, size: nat) returns (now: seq<Held>)
    requires Running(m, held) && size < 0x1_0000
    modifies m, m.usedStatus, m.ram
    ensures Running(m, now) && m.usedStatus == old(m.usedStatus) && m.reports == old(m.reports)
  {
    hide Linked; hide Placed; hide Sound; hide Intact; hide AllocStep; hide Pushed; hide Signed; hide Agree;
    var ptr := m.Alloc(size);
    if ptr == 0 {
      now := held;
    } else {
      AgreeWith(m.heapBase, old(m.live), held, m.live[0], Held(ptr, size));
      now := [Held(ptr, size)] + held;
    }
  }

  // The block that was the i-th newest has been freed.
  ghost predicate Took(m: BufferManager, mem: seq<nat>, st: State, live: seq<Rec>, i: nat)
    requires m.usedStatus != null
    reads m, m.usedStatus, m.ram
  {
    && i < |live| && m.live == Without(live, i)
    && live[i].block.start < |st.bits| && m.St() == FreeStep(st, live[i].block.start)
    && Dropped(mem, m.ram[..], m.heapBase, live, i) && Stale(m.ram[..], m.heapBase, m.live, live[i], i)
  }

  lemma LiveHandle(m: BufferManager, buffer: nat, i: nat)
    requires m.Valid() && m.Ready() && m.checks && i < |m.live| && buffer == Payload(m.heapBase, m.live[i])
    ensures m.IsLive(buffer) && !m.IsLoose(buffer) && m.Freeable(buffer) && buffer < U32
    ensures m.heapBase < buffer < m.heapBase + m.heapSize
    ensures m.LineOf(buffer) == m.live[i].block.start < |m.St().bits|
  {
    HandleFacts(m.ram[..], m.heapBase, m.live, m.inUseList, i);
    OwnLines(m.live[i], |m.ram[..]| / 8);
    LiveOnly(m, i);
    hide Linked; hide Placed; hide Sound; hide Stale;
  }

  // A free of the i-th newest block.
  method FreeLive(m: BufferManager, buffer: nat, ghost i: nat)
    requires m.Valid() && m.Ready() && m.checks && i < |m.live| && buffer == Payload(m.heapBase, m.live[i])
    modifies m, m.usedStatus, m.ram
    ensures m.Valid() && m.Ready() && m.checks && m.usedStatus == old(m.usedStatus)
    ensures Took(m, old(m.ram[..]), old(m.St()), old(m.live), i)
    ensures old(Signed(m.ram[..], m.live[i])) ==> m.reports == old(m.reports)
    ensures old(Intact(m.ram[..], m.live)) ==> Intact(m.ram[..], m.live)
  {
    hide Linked; hide Stale; hide Intact; hide FreeStep; hide Dropped; hide Signed; hide Without; hide Payload;
    hide BufferManager.Ready; hide BufferManager.Valid; hide BufferManager.Listed; hide BufferManager.Geometry;
    hide BufferManager.Idle; hide BufferManager.IsLoose; hide BufferManager.IsLive; hide BufferManager.Freeable;
    hide BufferManager.LineOf;
    LiveHandle(m, buffer, i);
    var retVal := m.Free(buffer);
  }

  method GiveBack(m: BufferManager, held: seq<Held>, i: nat) returns (now: seq<Held>)
    requires Running(m, held) && i < |held|
    modifies m, m.usedStatus, m.ram
    ensures Running(m, now) && m.usedStatus == old(m.usedStatus) && m.reports == old(m.reports)
  {
    SignedAt(m.ram[..], m.live, i);
    AgreeWithout(m.heapBase, m.live, held, i);
    hide Linked; hide Placed; hide Sound; hide Intact; hide FreeStep; hide Dropped; hide Signed; hide Stale;
    assert held[i].ptr == Payload(m.heapBase, m.live[i]);
    hide Agree;
    FreeLive(m, held[i].ptr, i);
    now := held[..i] + held[i + 1..];
  }

  method WriteTo(m: BufferManager, held: seq<Held>, i: nat, offset: nat, v: nat)
    requires Running(m, held) && i < |held| && 4 * offset < held[i].size
    modifies m, m.usedStatus, m.ram
    ensures Running(m, held) && m.usedStatus == old(m.usedStatus) && m.reports == old(m.reports)
  {
    hide Linked; hide Placed; hide Sound; hide Intact; hide Signed;
    m.Store(i, m.WordOf(held[i].ptr) + offset, v);
  }

  lemma LiveOnly(m: BufferManager, i: nat)
    requires i < |m.live|
    ensures m.IsLive(Payload(m.heapBase, m.live[i])) && !m.IsLoose(Payload(m.heapBase, m.live[i]))
  {
    var buffer := Payload(m.heapBase, m.live[i]);
    if m.IsLoose(buffer) {
      var r :| buffer == Payload(m.heapBase, r) && m.LooseAt(r);
      LooseIsElsewhere(m.ram[..], m.heapBase, m.live, r);
    }
  }

  lemma SignedAt(mem: seq<nat>, live: seq<Rec>, i: nat)
    requires Intact(mem, live) && i < |live|
    ensures Signed(mem, live[i])
  {}

  // Whatever the clients do within what they hold, the manager keeps its invariants, never
  // reports damage, and the final corruption check succeeds.
  method RunScript(m: BufferManager, script: seq<Request>) returns (held: seq<Held>, stat: Status)
    requires Running(m, [])
    requires forall k :: 0 <= k < |script| && script[k].Allocate? ==> script[k].size < 0x1_0000
    modifies m, m.usedStatus, m.ram
    ensures Running(m, held) && stat == Success && m.reports == old(m.reports)
    ensures Separated(m.heapBase, m.heapSize, held)
  {
    held := [];
    for k := 0 to |script|
      invariant Running(m, held) && m.usedStatus == old(m.usedStatus) && m.reports == old(m.reports)
    {
      match script[k] {
        case Allocate(size) => held := Serve(m, held, size);
        case Release(i) => if i < |held| { held := GiveBack(m, held, i); }
        case Write(i, offset, v) => if i < |held| && 4 * offset < held[i].size { WriteTo(m, held, i, offset, v); }
      }
    }
    HeldApart(m.ram[..], m.heapBase, m.live, m.inUseList, held);
    ghost var bad;
    stat, bad := m.CorruptionCheck();
  }
}
