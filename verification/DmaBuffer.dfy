/** The DMA buffer manager: a heap of 32-byte cache lines, its bitmap, and the
    optional error detection with its in-use list inside the heap. */
module DmaBuffer {
  import opened Words
  import opened Wrappers
  import opened Bitmap
  import opened StatusWords
  import opened BlockList

  datatype Status = Success | Failure | AlreadyStarted

  // Cache lines for a number of bytes; two at the least.
  function LinesFor(bytes: nat): (n: nat)
    ensures 2 <= n && bytes <= 32 * n && (n == 2 || 32 * (n - 1) < bytes)
  {
    if bytes <= 32 then 2 else (bytes + 31) / 32
  }

  // Bytes taken from the heap for a request: with checks on, the request is
  // rounded up to whole words and gets a header and a footer.
  function BlockBytes(size: nat, checks: bool): (bytes: nat)
    ensures !checks ==> bytes == size
    ensures checks ==> bytes < size + HEADER_BYTES + FOOTER_BYTES + 4
    ensures size <= bytes
    ensures checks ==> size + HEADER_BYTES + FOOTER_BYTES <= bytes && bytes % 4 == 0
  {
    if checks then (size + 3) / 4 * 4 + HEADER_BYTES + FOOTER_BYTES else size
  }

  // The word that initialisation writes for a last word with only r lines behind it.
  function TailWord(r: nat): bv32
    requires 0 < r < 32
  {
    AndNot(0xFFFF_FFFF, LowMask(32 - r))
  }

  lemma TailWordBits(r: nat)
    requires 0 < r < 32
    ensures forall k: nat :: k < 32 ==> (Bit(TailWord(r), k) <==> 32 - r <= k)
  {
    LowMaskValue(32);
    forall k: nat | k < 32 ensures Bit(TailWord(r), k) <==> 32 - r <= k {
      AndNotBit(0xFFFF_FFFF, LowMask(32 - r), k);
      LowMaskBit(32, k);
      LowMaskBit(32 - r, k);
    }
  }

  // It should mark the lines from r on, which do not exist.
  ghost predicate MarksTail(w: bv32, r: nat) { forall k: nat :: k < 32 ==> (Bit(w, k) <==> r <= k) }

  // It does so only for r == 16.
  lemma TailWordRightExactlyWhen(r: nat)
    requires 0 < r < 32
    ensures MarksTail(TailWord(r), r) <==> r == 16
  {
    TailWordBits(r);
    var w, low := TailWord(r), if r < 16 then r else 32 - r;
    assert Bit(w, low) <==> 32 - r <= low;
  }

  class BufferManager {
    const heapBase: nat
    const heapSize: nat
    const ram: array<nat>  // the heap memory, as 32-bit words

    var usedStatus: array?<bv32>
    var startAddr: nat
    var regionSize: nat
    var searchPos: nat
    var checks: bool
    var allocCnt: nat
    var freeCnt: nat
    var inUseList: nat
    var hasCallback: bool
    var reports: seq<nat>  // pointers passed to the corruption callback

    ghost var live: seq<Rec>  // newest first

    // The memory map: both maps of the source have a heap of whole kilobytes.
    ghost predicate Geometry() {
      0 < heapBase && 0 < heapSize && heapSize % 1024 == 0 && heapBase + heapSize <= U32 && 4 * ram.Length == heapSize
    }

    ghost predicate Idle()
      reads this
    {
      && usedStatus == null && startAddr == 0 && regionSize == 0 && live == []
      && inUseList == 0 && allocCnt == 0 && freeCnt == 0
    }

    ghost function St(): State
      reads this, usedStatus
      requires usedStatus != null
    {
      State(Bits(usedStatus[..]), searchPos, Blocks(live))
    }

    ghost predicate Ready()
      reads this, usedStatus
    {
      && usedStatus != null && startAddr == heapBase && regionSize == heapSize
      && 1024 * usedStatus.Length == heapSize && searchPos < usedStatus.Length
      && Sound(St()) && Placed(live, heapSize / 32)
    }

    // The in-use list as the error detection maintains it.
    ghost predicate Listed()
      reads this, ram
    {
      if checks then
        && Linked(ram[..], heapBase, live, inUseList)
        && (freeCnt + |live|) % U32 == allocCnt && freeCnt < U32
      else inUseList == 0
    }

    ghost predicate Valid()
      reads this, usedStatus, ram
    {
      Geometry() && (Idle() || Ready()) && Listed()
    }

    constructor (base: nat, size: nat, memory: array<nat>)
      requires 0 < base && 0 < size && size % 1024 == 0 && base + size <= U32 && 4 * memory.Length == size
      ensures Valid() && Idle() && !checks && !hasCallback && reports == []
      ensures heapBase == base && heapSize == size && ram == memory
    {
      heapBase, heapSize, ram, hasCallback := base, size, memory, false;
      usedStatus, startAddr, regionSize, searchPos := null, 0, 0, 0;
      checks, allocCnt, freeCnt, inUseList, reports := false, 0, 0, 0, [];
      live := [];
    }

    // CyU3PBufEnableChecks; `callback` says whether a callback is given.
    method EnableChecks(enable: bool, callback: bool) returns (stat: Status)
      requires Valid()
      modifies this`checks, this`hasCallback
      ensures Valid()
      ensures stat == if usedStatus == null then Success else AlreadyStarted
      ensures checks == if usedStatus == null then enable else old(checks)
      ensures hasCallback == if usedStatus == null then callback else old(hasCallback)
    {
      stat := AlreadyStarted;
      if usedStatus == null {
        checks := enable;
        hasCallback := callback;
        stat := Success;
      }
    }

    // CyU3PDmaBufferInit; `fits` says whether the memory for the bitmap could be had.
    method Init(fits: bool)
      requires Valid()
      modifies this
      ensures Valid() && checks == old(checks) && hasCallback == old(hasCallback) && reports == old(reports)
      ensures old(Ready()) ==> usedStatus == old(usedStatus) && searchPos == old(searchPos) && live == old(live)
      ensures old(Idle()) && !fits ==> Idle()
      ensures old(Idle()) && fits ==>
                Ready() && live == [] && St() == State(seq(heapSize / 32, _ => false), 0, {}) && fresh(usedStatus)
    {
      if startAddr != 0 && regionSize != 0 {
        return;
      }
      var lines := heapSize / 32;
      var size := (lines + 31) / 32;
      if !fits {
        return;
      }
      // lines % 32 == 0 for the memory maps of Geometry, so no tail word is written
      usedStatus := NewBitmap(size);
      startAddr, regionSize, searchPos := heapBase, heapSize, 0;
      assert Blocks(live) == {};
    }

    // The pointer a client gets for a block.
    function Handle(r: Rec): nat
      reads this`checks
    {
      Addr(heapBase, r) + if checks then HEADER_BYTES else 0
    }

    // Word index of the heap address p.
    function WordOf(p: nat): int { (p - heapBase) / 4 }

    // The error-detection part of CyU3PDmaBufferAlloc: header, links, footer.
    method LinkBlock(p: nat, bytes: nat, ghost r: Rec, ghost older: seq<Rec>)
      requires Geometry() && Linked(ram[..], heapBase, older, inUseList)
      requires p == Addr(heapBase, r) && r.bytes == bytes && Sized(r) && Placed([r] + older, ram.Length / 8)
      modifies ram, this`allocCnt, this`inUseList
      ensures Pushed(old(ram[..]), ram[..], heapBase, older, r) && Signed(ram[..], r)
      ensures Get(ram[..], Word(r)) == old(allocCnt)
      ensures inUseList == p && allocCnt == (old(allocCnt) + 1) % U32
      ensures Linked(ram[..], heapBase, [r] + older, inUseList)
      ensures Intact(old(ram[..]), older) ==> Intact(ram[..], [r] + older)
    {
      hide Linked; hide Placed; hide Apart;
      var w: nat := WordOf(p);
      HeadFacts(ram[..], heapBase, older, inUseList, r);
      WriteHeader(ram, w, allocCnt, bytes, inUseList, 0);
      allocCnt := (allocCnt + 1) % U32;
      if inUseList != 0 {
        WriteWord(ram, WordOf(inUseList) + 3, p);
      }
      WriteWord(ram, w + bytes / 4 - 1, END_SIG);
      PushLinked(old(ram[..]), ram[..], heapBase, older, inUseList, r);
      inUseList := p;
    }

    // The search and the marking of CyU3PDmaBufferAlloc.
    method TakeLines(lines: nat, ghost bytes: nat) returns (found: bool, start: nat)
      requires Ready() && 2 <= lines
      modifies this`searchPos, this`live, usedStatus
      ensures Ready() && usedStatus == old(usedStatus)
      ensures (St(), if found then Some(Block(start, lines)) else None) == AllocStep(old(St()), lines)
      ensures live == if found then [Rec(Block(start, lines), bytes)] + old(live) else old(live)
      ensures found ==> 1 <= start && start + lines <= heapSize / 32
    {
      hide Inv; hide Bits; hide Placed; hide FirstRun; hide Scan;
      ghost var st := St();
      AllocStepSound(st, lines);
      var wordnum;
      found, start, wordnum := FindClear(usedStatus, searchPos, lines + 1);
      if found {
        searchPos := wordnum;
        SetStatus(usedStatus, start, lines - 1, true);
        ghost var r := Rec(Block(start, lines), bytes);
        BlocksPush(live, r);
        NewBlockPlaced(st, live, r);
        live := [r] + live;
      }
    }

    // CyU3PDmaBufferAlloc.
    method Alloc(size: nat) returns (ptr: nat)
      requires Valid() && size < 0x1_0000
      modifies this`searchPos, this`allocCnt, this`inUseList, this`live, usedStatus, ram
      ensures Valid()
      ensures old(Idle()) ==> ptr == 0 && Idle() && ram[..] == old(ram[..])
      ensures old(Ready()) ==> Ready() && St() == AllocStep(old(St()), LinesFor(BlockBytes(size, checks))).0
      ensures old(Ready()) ==>
                match AllocStep(old(St()), LinesFor(BlockBytes(size, checks))).1
                case None => ptr == 0 && live == old(live) && ram[..] == old(ram[..]) && inUseList == old(inUseList)
                case Some(b) =>
                  && live == [Rec(b, BlockBytes(size, checks))] + old(live)
                  && ptr == Handle(live[0])
                  && (checks ==> && Pushed(old(ram[..]), ram[..], heapBase, old(live), live[0])
                                 && Signed(ram[..], live[0]) && Get(ram[..], Word(live[0])) == old(allocCnt))
                  && (!checks ==> ram[..] == old(ram[..]))
      ensures checks && old(Intact(ram[..], live)) ==> Intact(ram[..], live)
      ensures !checks ==> allocCnt == old(allocCnt) && inUseList == old(inUseList)
      // the bytes asked for lie in the block's own lines, with checks between header and footer
      ensures ptr != 0 ==>
                && old(Ready()) && |live| == |old(live)| + 1 && live[1..] == old(live)
                && var b := live[0].block;
                   && heapBase + 32 <= ptr && ptr + size <= heapBase + heapSize
                   && heapBase + 32 * b.start <= ptr && ptr + size <= heapBase + 32 * (b.start + b.lines)
                   && (!checks ==> ptr == heapBase + 32 * b.start)
                   && (checks ==> && ptr == heapBase + 32 * b.start + 20
                                  && ptr + size <= heapBase + 32 * b.start + live[0].bytes - 4
                                  && live[0].bytes <= 32 * b.lines)
    {
      hide Sound; hide Placed; hide Linked; hide AllocStep; hide Blocks; hide Signed; hide Intact; hide Pushed;
      hide LinesFor; hide BlockBytes;
      ptr := 0;
      if startAddr == 0 || regionSize == 0 {
        return;
      }
      var bytes := BlockBytes(size, checks);
      var lines := LinesFor(bytes);
      var found, start := TakeLines(lines, bytes);
      if found {
        ptr := startAddr + 32 * start;
        if checks {
          CountUp(freeCnt, |old(live)|, allocCnt);
          LinkBlock(ptr, bytes, live[0], old(live));
          ptr := ptr + HEADER_BYTES;
        }
        PointerFits(heapBase, heapSize, start, lines, size, checks);
      }
    }

    // The error-detection part of CyU3PDmaBufferFree, for a block r with these links in its header.
    method UnlinkBlock(buffer: nat, ghost r: Rec, ghost older: nat, ghost newer: nat)
      requires Geometry() && buffer == Payload(heapBase, r) && Sized(r) && InHeap(r.block, ram.Length / 8)
      requires Header(ram[..], r, older, newer)
      requires older != 0 ==> heapBase <= older && (older - heapBase) / 4 + 3 < ram.Length
      requires newer != 0 ==> heapBase <= newer && (newer - heapBase) / 4 + 2 < ram.Length
      modifies ram, this`freeCnt, this`inUseList, this`reports
      ensures ram[..] == Unlinked(old(ram[..]), heapBase, older, newer)
      ensures inUseList == if old(inUseList) == Addr(heapBase, r) then older else old(inUseList)
      ensures freeCnt == (old(freeCnt) + 1) % U32
      ensures reports == old(reports) + if hasCallback && !old(Signed(ram[..], r)) then [buffer] else []
    {
      OwnLines(r, ram.Length / 8);
      hide Put; hide Signed;
      var block := buffer - HEADER_BYTES;
      var w: nat := WordOf(block);
      var sig := w + ram[w + 1] / 4 - 1;
      SignedMeans(ram[..], r, w, sig);
      if ram[w + 4] != START_SIG || ram[sig] != END_SIG {
        if hasCallback {
          reports := reports + [buffer];
        }
      }
      freeCnt := (freeCnt + 1) % U32;
      var prev, next := ram[w + 2], ram[w + 3];
      PutNull(ram[..], heapBase, next, 2, prev);
      if next != 0 {
        WriteLink(ram, heapBase, next, 2, prev);
      }
      PutNull(ram[..], heapBase, prev, 3, next);
      if prev != 0 {
        WriteLink(ram, heapBase, prev, 3, next);
      }
      if inUseList == block {
        inUseList := prev;
      }
    }

    // ... and what that does to the list: a live block leaves it, and one that has left it before
    // makes the writes that its links ask for.
    method Unlist(buffer: nat, ghost r: Rec, ghost i: nat, ghost loose: bool, ghost older: nat, ghost newer: nat)
      requires Geometry() && checks && Listed() && buffer == Payload(heapBase, r)
      requires if loose then Loose(ram[..], heapBase, live, r, older, newer)
               else Listing(live, r, i, older, newer)
      modifies ram, this`freeCnt, this`inUseList, this`reports
      ensures freeCnt == (old(freeCnt) + 1) % U32
      ensures reports == old(reports) + if hasCallback && !old(Signed(ram[..], r)) then [buffer] else []
      ensures heapBase + HEADER_BYTES < buffer < heapBase + heapSize
      ensures loose ==> ram[..] == Unlinked(old(ram[..]), heapBase, older, newer) && inUseList == old(inUseList)
      ensures loose ==>
                (Linked(ram[..], heapBase, live, inUseList) <==> LinksAgree(heapBase, live, older, newer))
      ensures !loose ==> Dropped(old(ram[..]), ram[..], heapBase, live, i) && live[i].block in Blocks(live)
      ensures !loose ==> Linked(ram[..], heapBase, Without(live, i), inUseList)
      ensures !loose ==> (freeCnt + |Without(live, i)|) % U32 == allocCnt
      ensures !loose ==> Stale(ram[..], heapBase, Without(live, i), r, i)
      ensures !loose && old(Intact(ram[..], live)) ==> Intact(ram[..], Without(live, i))
    {
      hide Linked; hide Dropped; hide Stale; hide Loose; hide LinksAgree; hide Intact; hide AddrAt; hide Unlinked;
      hide Without; hide Placed; hide Signed; hide Header; hide Blocks; hide InHeap; hide Sized;
      if loose {
        LooseNeighbours(ram[..], heapBase, live, inUseList, r, older, newer);
      } else {
        Neighbours(ram[..], heapBase, live, inUseList, i);
        CountDown(freeCnt, |live|, allocCnt);
      }
      UnlinkBlock(buffer, r, older, newer);
      if !loose { Unlisted(old(ram[..]), ram[..], heapBase, live, old(inUseList), i); }
    }

    ghost predicate Listing(live: seq<Rec>, r: Rec, i: nat, older: nat, newer: nat) {
      i < |live| && live[i] == r && older == AddrAt(heapBase, live, i + 1) && newer == AddrAt(heapBase, live, i - 1)
    }

    // The bitmap part of CyU3PDmaBufferFree.
    method ClearLines(line: nat)
      requires Ready() && line < heapSize / 32
      modifies this`searchPos, this`live, usedStatus
      ensures Ready() && usedStatus == old(usedStatus) && St() == FreeStep(old(St()), line)
      ensures !old(St()).bits[line] ==> live == old(live) && St() == old(St()).(searchPos := 0)
      ensures forall i :: 0 <= i < |old(live)| && old(live)[i].block.start == line ==> live == Without(old(live), i)
      ensures forall i :: 0 <= i < |old(live)| && Marks(old(live)[i].block, line) && old(live)[i].block.start < line ==>
                live == old(live)[i := Front(old(live)[i], line)]
    {
      hide Inv; hide Bits; hide Placed; hide RunLength;
      ghost var st := St();
      FreeStepSound(st, line);
      var count := CountSet(usedStatus, line);
      SetStatus(usedStatus, line, count, false);
      searchPos := 0;
      live := CutRecs(st, live, line);
    }

    // The line of the block behind a client's pointer.
    function LineOf(buffer: nat): int
      reads this`checks
    {
      (buffer - (if checks then HEADER_BYTES else 0) - heapBase) / 32
    }

    ghost predicate IsLive(buffer: nat)
      reads this
    {
      exists i :: 0 <= i < |live| && buffer == Payload(heapBase, live[i])
    }

    // A link in the header in front of a pointer: 2 for the older block, 3 for the newer one.
    function LinkOf(buffer: nat, field: nat): nat
      reads ram
    {
      Get(ram[..], (buffer - HEADER_BYTES - heapBase) / 4 + field)
    }

    // The pointer of a block that has been freed and whose lines have not been given away again.
    ghost predicate IsLoose(buffer: nat)
      reads this, usedStatus, ram
    {
      checks && Ready() && exists r :: buffer == Payload(heapBase, r) && LooseAt(r)
    }

    ghost predicate LooseAt(r: Rec)
      reads this, ram
    {
      Loose(ram[..], heapBase, live, r, LinkOf(Payload(heapBase, r), 2), LinkOf(Payload(heapBase, r), 3))
    }

    // Pointers that may be freed. Without checks: any pointer at all. With checks on: anything below
    // the heap, the pointer of a live block, and that of a freed one whose lines are still free.
    ghost predicate Freeable(buffer: nat)
      reads this, usedStatus, ram
    {
      checks ==> buffer < heapBase || IsLive(buffer) || IsLoose(buffer)
    }

    // CyU3PDmaBufferFree. Everything holds again afterwards, except after a second free with checks
    // on: it counts although nothing is freed, and it follows the links that are left in the header.
    method Free(buffer: nat) returns (retVal: int)
      requires Valid() && buffer < U32 && Freeable(buffer)
      modifies this`searchPos, this`freeCnt, this`inUseList, this`reports, this`live, usedStatus, ram
      ensures !old(IsLoose(buffer)) ==> Valid()
      ensures retVal == if old(Ready()) && heapBase < buffer < heapBase + heapSize then 0 else -1
      ensures retVal == -1 ==> && live == old(live) && ram[..] == old(ram[..]) && reports == old(reports)
                               && searchPos == old(searchPos) && (old(Ready()) ==> St() == old(St()))
      ensures retVal == 0 ==> Ready() && St() == FreeStep(old(St()), LineOf(buffer))
      ensures retVal == 0 && !checks ==> ram[..] == old(ram[..]) && reports == old(reports)
      ensures !checks ==> freeCnt == old(freeCnt) && inUseList == old(inUseList)
      ensures forall i :: retVal == 0 && 0 <= i < |old(live)| && old(live)[i].block.start == LineOf(buffer) ==>
                && live == Without(old(live), i)
                && (checks ==> && Dropped(old(ram[..]), ram[..], heapBase, old(live), i)
                               && Stale(ram[..], heapBase, live, old(live)[i], i)
                               && reports == old(reports)
                                  + if hasCallback && !old(Signed(ram[..], live[i])) then [buffer] else [])
      ensures old(IsLoose(buffer)) ==> retVal == 0 && Again(buffer)
      ensures checks && !old(IsLoose(buffer)) && old(Intact(ram[..], live)) ==> Intact(ram[..], live)
    {
      hide Sound; hide Placed; hide Linked; hide FreeStep; hide Blocks; hide Signed; hide Dropped; hide Without;
      hide Stale; hide Loose; hide LinksAgree; hide Unlinked; hide Intact; hide Listing; hide IsLoose; hide IsLive;
      hide Freeable; hide Marks;
      LooseIsInHeap(buffer);
      retVal := -1;
      if buffer < heapBase {
        return;
      }
      var address := buffer;
      if checks {
        ghost var loose, r, i, older, newer := Freed(buffer);
        Unlist(buffer, r, i, loose, older, newer);
        address := buffer - HEADER_BYTES;
      }
      if startAddr < address < startAddr + regionSize {
        LineFits(address - heapBase, heapSize);
        ClearLines((address - startAddr) / 32);
        retVal := 0;
      }
    }

    // What a second free does: no bit and no live block changes, the links in the header are written
    // to where they lead, and the list stays intact exactly when they agree with it.
    twostate predicate Again(buffer: nat)
      reads this, usedStatus, ram
    {
      && usedStatus != null && old(usedStatus) == usedStatus
      && live == old(live) && inUseList == old(inUseList) && St() == old(St()).(searchPos := 0)
      && freeCnt == (old(freeCnt) + 1) % U32 && allocCnt == old(allocCnt)
      && var older, newer := old(LinkOf(buffer, 2)), old(LinkOf(buffer, 3));
         && ram[..] == Unlinked(old(ram[..]), heapBase, older, newer)
         && (Linked(ram[..], heapBase, live, inUseList) <==> LinksAgree(heapBase, live, older, newer))
    }

    lemma LooseIsInHeap(buffer: nat)
      ensures IsLoose(buffer) ==> checks && Ready() && heapBase <= buffer
    {}

    // The block behind a pointer that is freed with checks on.
    lemma Freed(buffer: nat) returns (loose: bool, r: Rec, i: nat, older: nat, newer: nat)
      requires Valid() && checks && heapBase <= buffer && Freeable(buffer)
      ensures loose <==> IsLoose(buffer)
      ensures buffer == Payload(heapBase, r) && LineOf(buffer) == r.block.start
      ensures loose ==> Loose(ram[..], heapBase, live, r, older, newer)
      ensures loose ==> older == LinkOf(buffer, 2) && newer == LinkOf(buffer, 3)
      ensures loose ==> r.block.start < heapSize / 32 && !St().bits[r.block.start]
      ensures loose ==> forall j :: 0 <= j < |live| ==> live[j].block.start != r.block.start
      ensures !loose ==> Listing(live, r, i, older, newer)
      ensures !loose ==> forall j :: 0 <= j < |live| && live[j].block.start == r.block.start ==> j == i
    {
      loose := IsLoose(buffer);
      if loose {
        r :| buffer == Payload(heapBase, r) && LooseAt(r);
        i, older, newer := 0, LinkOf(buffer, 2), LinkOf(buffer, 3);
        LooseIsClear(St(), live, ram[..], r);
      } else {
        i :| 0 <= i < |live| && buffer == Payload(heapBase, live[i]);
        r, older, newer := live[i], AddrAt(heapBase, live, i + 1), AddrAt(heapBase, live, i - 1);
        OneStartsAt(live, heapSize / 32, i);
      }
    }

    // CyU3PBufCorruptionCheck: success exactly when every live block still carries both
    // signatures; otherwise the newest damaged block is reported.
    method CorruptionCheck() returns (stat: Status, ghost bad: nat)
      requires Valid()
      modifies this`reports
      ensures Valid()
      ensures stat == if checks && !Intact(ram[..], live) then Failure else Success
      ensures stat == Success ==> reports == old(reports)
      ensures stat == Failure ==>
                && bad < |live| && !Signed(ram[..], live[bad])
                && (forall j :: 0 <= j < bad ==> Signed(ram[..], live[j]))
                && reports == old(reports) + if hasCallback then [Payload(heapBase, live[bad])] else []
    {
      hide Linked; hide Placed; hide Sound; hide Signed;
      stat, bad := Success, 0;
      var block := inUseList;
      ghost var mem := ram[..];
      if checks { HeadIs(mem, heapBase, live, inUseList); }
      while block != 0
        invariant checks || block == 0
        invariant checks ==> bad <= |live| && block == AddrAt(heapBase, live, bad)
        invariant checks ==> forall j :: 0 <= j < bad ==> Signed(mem, live[j])
        invariant reports == old(reports)
        decreases |live| - bad
      {
        BlockFacts(mem, heapBase, live, inUseList, bad);
        if block < heapBase || block >= heapBase + heapSize {
          stat := Failure;
          return;
        }
        var w: nat := WordOf(block);
        var sig := w + ram[w + 1] / 4 - 1;
        if ram[w + 4] != START_SIG || ram[sig] != END_SIG {
          if hasCallback {
            reports := reports + [block + HEADER_BYTES];
          }
          stat := Failure;
          return;
        }
        block := ram[w + 2];
        bad := bad + 1;
      }
    }

    // A store by a client, into the payload it was given for a live block.
    method Store(ghost i: nat, k: nat, v: nat)
      requires Valid() && checks && i < |live| && InPayload(live, i, k)
      modifies ram
      ensures Valid() && ram[..] == old(ram[..])[k := v]
      ensures Intact(ram[..], live) == old(Intact(ram[..], live))
    {
      hide Linked; hide Placed; hide Sound; hide Signed;
      InPayloadFits(ram[..], heapBase, live, inUseList, i, k);
      PayloadWrite(ram[..], heapBase, live, inUseList, i, k, v);
      ram[k] := v;
      assert ram[..] == old(ram[..])[k := v];
    }

    // CyU3PDmaBufferDeInit.
    method DeInit()
      requires Valid()
      modifies this`usedStatus, this`startAddr, this`regionSize, this`allocCnt, this`freeCnt, this`inUseList, this`live
      ensures Valid() && Idle()
    {
      usedStatus, startAddr, regionSize := null, 0, 0;
      allocCnt, freeCnt, inUseList := 0, 0, 0;
      live := [];
    }
  }

  // The bytes of a request fit into its lines, whichever way it is taken.
  lemma PointerFits(base: nat, total: nat, start: nat, lines: nat, size: nat, checks: bool)
    requires lines == LinesFor(BlockBytes(size, checks)) && 1 <= start && start + lines <= total / 32
    ensures base + 32 <= base + 32 * start + size && base + 32 * start + BlockBytes(size, checks) <= base + total
    ensures size <= BlockBytes(size, checks) <= 32 * lines
    ensures checks ==> 20 + size <= BlockBytes(size, checks) - 4
  {}

  lemma LineFits(offset: nat, size: nat)
    requires offset < size && size % 1024 == 0
    ensures offset / 32 < size / 32
  {}

  lemma HeadIs(mem: seq<nat>, base: nat, live: seq<Rec>, head: nat)
    requires Linked(mem, base, live, head)
    ensures head == AddrAt(base, live, 0)
  {}

  lemma InPayloadFits(mem: seq<nat>, base: nat, live: seq<Rec>, head: nat, i: nat, k: nat)
    requires Linked(mem, base, live, head) && i < |live| && InPayload(live, i, k)
    ensures k < |mem|
  {
    OwnLines(live[i], |mem| / 8);
  }

  lemma CountDown(frees: nat, n: nat, allocs: nat)
    requires (frees + n) % U32 == allocs && n > 0
    ensures ((frees + 1) % U32 + (n - 1)) % U32 == allocs
  {}

  lemma HandleFacts(mem: seq<nat>, base: nat, live: seq<Rec>, head: nat, i: nat)
    requires Linked(mem, base, live, head) && i < |live|
    ensures base < Addr(base, live[i]) && Payload(base, live[i]) < base + 4 * |mem|
    ensures live[i].block in Blocks(live) && |Without(live, i)| == |live| - 1
  {
    OwnLines(live[i], |mem| / 8);
  }

  // The front of a block, up to one of its lines.
  function Front(r: Rec, line: nat): Rec
    requires r.block.start <= line
  {
    Rec(Block(r.block.start, line - r.block.start + 1), r.bytes)
  }

  // The live list after a free at a line.
  ghost function CutRecs(st: State, live: seq<Rec>, line: nat): (rest: seq<Rec>)
    requires Sound(st) && st.live == Blocks(live) && Placed(live, |st.bits|) && line < |st.bits|
    ensures Placed(rest, |st.bits|) && Blocks(rest) == FreeStep(st, line).live
    ensures !st.bits[line] ==> rest == live
    ensures forall i :: 0 <= i < |live| && live[i].block.start == line ==> rest == Without(live, i)
    ensures forall i :: 0 <= i < |live| && Marks(live[i].block, line) && live[i].block.start < line ==>
              rest == live[i := Front(live[i], line)]
  {
    FreeStepSound(st, line);
    BitIsMarked(st.bits, st.live, line);
    if !st.bits[line] then
      NobodyStartsAt(st, live, line);
      assert forall i :: 0 <= i < |live| ==> live[i].block in st.live;
      live
    else
      var b :| b in st.live && Marks(b, line);
      var i :| 0 <= i < |live| && live[i].block == b;
      PlacedDrop(live, |st.bits|, i);
      OneMarkedAt(live, |st.bits|, i, line);
      if b.start == line then Without(live, i)
      else
        PlacedCut(live, |st.bits|, i, line);
        live[i := Front(live[i], line)]
  }

  lemma OneMarkedAt(live: seq<Rec>, total: nat, i: nat, line: nat)
    requires Placed(live, total) && i < |live| && Marks(live[i].block, line)
    ensures forall j :: 0 <= j < |live| && (Marks(live[j].block, line) || live[j].block.start == line) ==> j == i
  {
    forall j | 0 <= j < |live| && j != i ensures !Marks(live[j].block, line) && live[j].block.start != line {
      Separate(live, total, i, j);
      assert InHeap(live[j].block, total);
    }
  }

  lemma PlacedCut(live: seq<Rec>, total: nat, i: nat, line: nat)
    requires Placed(live, total) && i < |live| && Marks(live[i].block, line) && live[i].block.start < line
    ensures Placed(live[i := Front(live[i], line)], total)
    ensures Blocks(live[i := Front(live[i], line)]) == Blocks(live) - {live[i].block} + Cut(live[i].block, line)
  {
    var front := Front(live[i], line);
    var live' := live[i := front];
    PlacedDrop(live, total, i);
    forall j | 0 <= j < |live| && j != i ensures live[j].block != live[i].block { Separate(live, total, i, j); }
    forall b | b in Blocks(live) - {live[i].block} + {front.block} ensures b in Blocks(live') {
      if b == front.block {
        assert live'[i] == front;
      } else {
        var j :| 0 <= j < |live| && live[j].block == b;
        assert live'[j] == live[j];
      }
    }
  }

  // The first line of such a block is not marked, and no live block starts there.
  lemma LooseIsClear(st: State, live: seq<Rec>, mem: seq<nat>, r: Rec)
    requires Sound(st) && st.live == Blocks(live) && Placed([r] + live, |mem| / 8) && |mem| / 8 == |st.bits|
    ensures r.block.start < |st.bits| && !st.bits[r.block.start]
    ensures forall j :: 0 <= j < |live| ==> live[j].block.start != r.block.start
  {
    assert ([r] + live)[0] == r && InHeap(r.block, |mem| / 8);
    BitIsMarked(st.bits, st.live, r.block.start);
    forall j: nat | j < |live|
      ensures !Marks(live[j].block, r.block.start) && live[j].block.start != r.block.start
    {
      assert Apart(([r] + live)[0].block, ([r] + live)[j + 1].block) && InHeap(([r] + live)[j + 1].block, |mem| / 8);
    }
  }

  // What dropping a block leaves: the list of the others, and a stale block.
  lemma Unlisted(mem: seq<nat>, mem': seq<nat>, base: nat, live: seq<Rec>, head: nat, i: nat)
    requires Linked(mem, base, live, head) && i < |live| && Dropped(mem, mem', base, live, i)
    ensures Linked(mem', base, Without(live, i),
                   if head == Addr(base, live[i]) then AddrAt(base, live, i + 1) else head)
    ensures Stale(mem', base, Without(live, i), live[i], i)
    ensures Intact(mem, live) ==> Intact(mem', Without(live, i))
  {
    OneStartsAt(live, |mem| / 8, i);
    assert head == Addr(base, live[i]) <==> i == 0;
    hide Stale; hide Linked; hide Signed; hide Dropped; hide Placed; hide Addr; hide AddrAt;
    DropLinked(mem, mem', base, live, head, i);
    DroppedIsStale(mem, mem', base, live, head, i);
  }

  // What unlinking needs to know of a block, and what it will do: for a live one ...
  lemma Neighbours(mem: seq<nat>, base: nat, live: seq<Rec>, head: nat, i: nat)
    requires Linked(mem, base, live, head) && 0 < base && i < |live|
    ensures var r, older, newer := live[i], AddrAt(base, live, i + 1), AddrAt(base, live, i - 1);
            && Sized(r) && InHeap(r.block, |mem| / 8) && Header(mem, r, older, newer)
            && (older != 0 ==> base <= older && (older - base) / 4 + 3 < |mem|)
            && (newer != 0 ==> base <= newer && (newer - base) / 4 + 2 < |mem|)
            && Dropped(mem, Unlinked(mem, base, older, newer), base, live, i)
            && base + HEADER_BYTES < Payload(base, r) < base + 4 * |mem|
    ensures live[i].block in Blocks(live) && |Without(live, i)| == |live| - 1
  {
    LinksFit(mem, base, live, i + 1);
    LinksFit(mem, base, live, i - 1);
    UnlinkedDrops(mem, base, live, head, i);
    HandleFacts(mem, base, live, head, i);
    assert HeaderAt(mem, base, live, i);
    hide Unlinked; hide Dropped; hide Header; hide HeaderAt;
  }

  // ... and for one that is no longer live.
  lemma LooseNeighbours(mem: seq<nat>, base: nat, live: seq<Rec>, head: nat, r: Rec, older: nat, newer: nat)
    requires Linked(mem, base, live, head) && 0 < base && Loose(mem, base, live, r, older, newer)
    ensures Sized(r) && InHeap(r.block, |mem| / 8) && Header(mem, r, older, newer)
    ensures older != 0 ==> base <= older && (older - base) / 4 + 3 < |mem|
    ensures newer != 0 ==> base <= newer && (newer - base) / 4 + 2 < |mem|
    ensures base + HEADER_BYTES < Payload(base, r) < base + 4 * |mem|
    ensures head != Addr(base, r)
    ensures Linked(Unlinked(mem, base, older, newer), base, live, head) <==> LinksAgree(base, live, older, newer)
  {
    LooseIsElsewhere(mem, base, live, r);
    OwnLines(r, |mem| / 8);
    UnlinkingKeepsListExactlyWhen(mem, base, live, head, r, older, newer);
    hide Unlinked; hide LinksAgree;
  }

  // A link that is not null leads to a header inside the heap.
  lemma LinksFit(mem: seq<nat>, base: nat, live: seq<Rec>, j: int)
    requires Placed(live, |mem| / 8)
    ensures AddrAt(base, live, j) != 0 ==>
              base <= AddrAt(base, live, j) && (AddrAt(base, live, j) - base) / 4 + 3 < |mem|
  {
    if 0 <= j < |live| { assert InHeap(live[j].block, |mem| / 8); }
  }

  lemma NobodyStartsAt(st: State, live: seq<Rec>, line: nat)
    requires Sound(st) && st.live == Blocks(live) && line < |st.bits| && !st.bits[line]
    ensures forall i :: 0 <= i < |live| ==> live[i].block.start != line
  {
    forall i | 0 <= i < |live| ensures live[i].block.start != line {
      assert live[i].block in st.live;
      LiveBitIsSet(st.bits, st.live, live[i].block);
    }
  }

  lemma OneStartsAt(live: seq<Rec>, total: nat, i: nat)
    requires Placed(live, total) && i < |live|
    ensures forall j :: 0 <= j < |live| && live[j].block.start == live[i].block.start ==> j == i
  {
    forall j | 0 <= j < |live| && j != i ensures live[j].block.start != live[i].block.start {
      Separate(live, total, i, j);
      assert InHeap(live[i].block, total) && InHeap(live[j].block, total);
    }
  }

  // What the header of a live block holds, and where its neighbours are.
  lemma BlockFacts(mem: seq<nat>, base: nat, live: seq<Rec>, head: nat, i: nat)
    requires Linked(mem, base, live, head) && i < |live| && 0 < base
    ensures var w := Word(live[i]);
            && w + 4 < Footer(live[i]) < |mem|
            && mem[w + 1] == live[i].bytes
            && mem[w + 2] == AddrAt(base, live, i + 1) && mem[w + 3] == AddrAt(base, live, i - 1)
    ensures Signed(mem, live[i]) <==> mem[Word(live[i]) + 4] == START_SIG && mem[Footer(live[i])] == END_SIG
    ensures i > 0 ==> Word(live[i - 1]) + 4 < |mem|
    ensures i + 1 < |live| ==> Word(live[i + 1]) + 4 < |mem|
    ensures 0 < i && i + 1 < |live| ==>
              Word(live[i - 1]) + 8 <= Word(live[i + 1]) || Word(live[i + 1]) + 8 <= Word(live[i - 1])
    ensures head == Addr(base, live[i]) <==> i == 0
  {
    OwnLines(live[i], |mem| / 8);
    assert HeaderAt(mem, base, live, i);
    if i > 0 { OwnLines(live[i - 1], |mem| / 8); }
    if i + 1 < |live| { OwnLines(live[i + 1], |mem| / 8); }
    if 0 < i && i + 1 < |live| { Separate(live, |mem| / 8, i - 1, i + 1); }
    OneStartsAt(live, |mem| / 8, i);
  }

  lemma CountUp(frees: nat, n: nat, allocs: nat)
    requires (frees + n) % U32 == allocs
    ensures (frees + (n + 1)) % U32 == (allocs + 1) % U32
  {}

  lemma HeadFacts(mem: seq<nat>, base: nat, older: seq<Rec>, head: nat, r: Rec)
    requires Linked(mem, base, older, head) && Sized(r) && Placed([r] + older, |mem| / 8)
    ensures Word(r) + 4 < Footer(r) < Word(r) + 8 * r.block.lines <= |mem|
    ensures head == AddrAt(base, older, 0) && (0 < base ==> (head == 0 <==> older == []))
    ensures older != [] ==> Word(older[0]) + 3 < |mem|
    ensures older != [] ==> Word(older[0]) + 8 <= Word(r) || Word(r) + 8 * r.block.lines <= Word(older[0])
  {
    assert ([r] + older)[0] == r;
    OwnLines(r, |mem| / 8);
    if older != [] {
      OwnLines(older[0], |mem| / 8);
      Separate([r] + older, |mem| / 8, 0, 1);
    }
  }

  method WriteWord(ram: array<nat>, w: nat, v: nat)
    requires w < ram.Length
    modifies ram
    ensures Get(ram[..], w) == v
    ensures forall k :: k != w ==> Get(ram[..], k) == old(Get(ram[..], k))
  {
    ram[w] := v;
  }

  // A link field of the header at address p.
  method WriteLink(ram: array<nat>, base: nat, p: nat, field: nat, v: nat)
    requires 0 < p && base <= p && (p - base) / 4 + field < ram.Length
    modifies ram
    ensures ram[..] == Put(old(ram[..]), base, p, field, v)
  {
    ram[(p - base) / 4 + field] := v;
  }

  lemma PutNull(mem: seq<nat>, base: nat, p: nat, field: nat, v: nat)
    ensures p == 0 ==> Put(mem, base, p, field, v) == mem
  {}

  lemma SignedMeans(mem: seq<nat>, r: Rec, w: nat, sig: nat)
    requires w == Word(r) && sig == Footer(r) && w + 4 < sig < |mem|
    ensures Signed(mem, r) <==> mem[w + 4] == START_SIG && mem[sig] == END_SIG
  {}

  method WriteHeader(ram: array<nat>, w: nat, id: nat, bytes: nat, older: nat, newer: nat)
    requires w + 4 < ram.Length
    modifies ram
    ensures forall k :: k < w || w + 4 < k ==> Get(ram[..], k) == old(Get(ram[..], k))
    ensures Get(ram[..], w) == id && Get(ram[..], w + 1) == bytes && Get(ram[..], w + 2) == older
    ensures Get(ram[..], w + 3) == newer && Get(ram[..], w + 4) == START_SIG
  {
    ram[w] := id;
    ram[w + 1] := bytes;
    ram[w + 2] := older;
    ram[w + 3] := newer;
    ram[w + 4] := START_SIG;
  }

  lemma NewBlockPlaced(st: State, live: seq<Rec>, r: Rec)
    requires Sound(st) && st.live == Blocks(live) && Placed(live, |st.bits|) && r.block.lines >= 2
    requires AllocStep(st, r.block.lines).1 == Some(r.block)
    ensures Placed([r] + live, |st.bits|)
  {
    var st' := AllocStep(st, r.block.lines).0;
    AllocStepSound(st, r.block.lines);
    assert r.block in st'.live && InHeap(r.block, |st'.bits|);
    forall b | b in Blocks(live) ensures Apart(r.block, b) { assert b in st'.live && b != r.block; }
    PlacedPush(live, |st.bits|, r);
  }

  lemma AllClear(words: seq<bv32>)
    requires forall i :: 0 <= i < |words| ==> words[i] == 0
    ensures Bits(words) == seq(32 * |words|, _ => false)
  {
    forall b: nat | b < 32 * |words| ensures !Bits(words)[b] {
      BitsAt(words, b);
      ZeroBits(words[b / 32], b % 32);
    }
  }

  method NewBitmap(size: nat) returns (words: array<bv32>)
    ensures fresh(words) && words.Length == size && Bits(words[..]) == seq(32 * size, _ => false)
  {
    words := new bv32[size](_ => 0);
    AllClear(words[..]);
  }
}
