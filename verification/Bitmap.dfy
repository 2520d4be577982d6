/** The allocation bitmap as a sequence of bits, and the blocks it stands for.

    One bit per cache line. A block of n lines sets only its first n - 1 bits:
    the clear bit of its last line is the end marker that freeing relies on. */
module Bitmap {
  import opened Wrappers

  datatype Block = Block(start: nat, lines: nat)

  // ----- bit strings

  function Fill(bits: seq<bool>, start: nat, count: nat, value: bool): (r: seq<bool>)
    requires start + count <= |bits|
    ensures |r| == |bits|
    ensures forall k :: 0 <= k < |bits| ==> r[k] == if start <= k < start + count then value else bits[k]
  {
    seq(|bits|, k requires 0 <= k < |bits| => if start <= k < start + count then value else bits[k])
  }

  predicate ClearRun(bits: seq<bool>, p: nat, m: nat) {
    p + m <= |bits| && forall k :: p <= k < p + m ==> !bits[k]
  }

  // A block of `size` lines can start one past position p.
  predicate Fits(bits: seq<bool>, p: nat, size: nat) { ClearRun(bits, p, size + 1) }

  // No m clear bits in a row lie wholly within the positions lo..hi.
  ghost predicate NoRun(bits: seq<bool>, lo: nat, hi: nat, m: nat) {
    forall p: nat :: lo <= p && p + m <= hi ==> !ClearRun(bits, p, m)
  }

  // The leftmost run of m clear bits within lo..hi.
  function FirstRun(bits: seq<bool>, lo: nat, hi: nat, m: nat): (r: Option<nat>)
    requires hi <= |bits|
    ensures r.None? <==> NoRun(bits, lo, hi, m)
    ensures r.Some? ==> lo <= r.value && r.value + m <= hi && ClearRun(bits, r.value, m)
    ensures r.Some? ==> forall p: nat :: lo <= p < r.value ==> !ClearRun(bits, p, m)
    decreases hi - lo
  {
    if lo + m > hi then None
    else if ClearRun(bits, lo, m) then Some(lo)
    else if lo == hi then None
    else FirstRun(bits, lo + 1, hi, m)
  }

  // The scan order of the allocator: from bit `from` to the top, then from the bottom up to `from`.
  function Search(bits: seq<bool>, from: nat, m: nat): (r: Option<nat>)
    requires from <= |bits|
    ensures r.None? <==> NoRun(bits, from, |bits|, m) && NoRun(bits, 0, from, m)
    ensures r.Some? ==> ClearRun(bits, r.value, m) && (r.value >= from || r.value + m <= from)
  {
    var upper := FirstRun(bits, from, |bits|, m);
    if upper.Some? then upper else FirstRun(bits, 0, from, m)
  }

  // Number of set bits in a row from p on.
  function RunLength(bits: seq<bool>, p: nat): (n: nat)
    requires p <= |bits|
    ensures p + n <= |bits|
    ensures forall k :: p <= k < p + n ==> bits[k]
    ensures p + n < |bits| ==> !bits[p + n]
    decreases |bits| - p
  {
    if p < |bits| && bits[p] then 1 + RunLength(bits, p + 1) else 0
  }

  lemma RunLengthUnique(bits: seq<bool>, p: nat, n: nat)
    requires p + n <= |bits|
    requires forall k :: p <= k < p + n ==> bits[k]
    requires p + n < |bits| ==> !bits[p + n]
    ensures RunLength(bits, p) == n
  {
  }

  // ----- the blocks behind the bits

  predicate Marks(b: Block, k: nat) { b.start <= k < b.start + b.lines - 1 }

  predicate Owns(b: Block, k: nat) { b.start <= k < b.start + b.lines }

  predicate InHeap(b: Block, total: nat) { 1 <= b.start && 2 <= b.lines && b.start + b.lines <= total }

  predicate Apart(a: Block, b: Block) {
    a.start + a.lines <= b.start || b.start + b.lines <= a.start
  }

  ghost predicate Marked(live: set<Block>, k: nat) { exists b :: b in live && Marks(b, k) }

  // Live blocks lie in the heap, own disjoint lines, and a bit is set exactly
  // when it is one of the marked lines of a live block.
  ghost predicate Inv(bits: seq<bool>, live: set<Block>) {
    && (forall b :: b in live ==> InHeap(b, |bits|))
    && (forall a, b :: a in live && b in live && a != b ==> Apart(a, b))
    && (forall k :: 0 <= k < |bits| ==> (bits[k] <==> Marked(live, k)))
  }

  // size + 1 clear bits are enough: the lines after the first one belong to nobody,
  // not even as the unmarked last line of a block.
  lemma ClearRunIsUnowned(bits: seq<bool>, live: set<Block>, p: nat, size: nat, b: Block, k: nat)
    requires Inv(bits, live) && ClearRun(bits, p, size + 1)
    requires b in live && p + 1 <= k < p + 1 + size
    ensures !Owns(b, k)
  {
    assert !bits[k] && !bits[k - 1];
    assert !Marks(b, k) && !Marks(b, k - 1);
  }

  // ... and the extra bit cannot be dropped, for any size: with `size` clear bits alone, a block that
  // starts at the first of them can meet the last line of a live block, and one that starts behind
  // it the first line of another.
  lemma ExtraBitNeeded(size: nat)
    requires 2 <= size
    ensures exists bits, live, p: nat, a, b ::
              Inv(bits, live) && a in live && b in live && ClearRun(bits, p, size) && Owns(a, p) && Owns(b, p + size)
  {
    var a, b := Block(1, 2), Block(2 + size, 2);
    var live := {a, b};
    var bits := seq(size + 4, k => k == 1 || k == 2 + size);
    forall k: nat | k < |bits| ensures bits[k] <==> Marked(live, k) {
      assert Marks(a, k) <==> k == 1;
      assert Marks(b, k) <==> k == 2 + size;
      assert a in live && b in live;
    }
    assert Inv(bits, live) && a in live && b in live;
    assert ClearRun(bits, 2, size) && Owns(a, 2) && Owns(b, 2 + size);
  }

  lemma TakeKeepsInv(bits: seq<bool>, live: set<Block>, p: nat, size: nat)
    requires Inv(bits, live) && 2 <= size && ClearRun(bits, p, size + 1)
    ensures Block(p + 1, size) !in live
    ensures Inv(Fill(bits, p + 1, size - 1, true), live + {Block(p + 1, size)})
  {
    var n := Block(p + 1, size);
    var bits' := Fill(bits, p + 1, size - 1, true);
    var live' := live + {n};
    forall b | b in live ensures Apart(b, n) {
      ClearRunIsUnowned(bits, live, p, size, b, p + 1);
      if n.start < b.start < n.start + size { ClearRunIsUnowned(bits, live, p, size, b, b.start); }
    }
    forall k: nat | k < |bits| ensures bits'[k] <==> Marked(live', k) {
      assert bits[k] <==> Marked(live, k);
      if Marks(n, k) { assert n in live'; }
      if bits[k] { var b :| b in live && Marks(b, k); assert b in live'; }
    }
  }

  lemma LiveBitIsSet(bits: seq<bool>, live: set<Block>, b: Block)
    requires Inv(bits, live) && b in live
    ensures bits[b.start]
  {
    assert Marks(b, b.start);
  }

  // The bitmap alone tells how long a live block is.
  lemma LiveRunLength(bits: seq<bool>, live: set<Block>, b: Block)
    requires Inv(bits, live) && b in live
    ensures RunLength(bits, b.start) == b.lines - 1
  {
    var e := b.start + b.lines - 1;
    forall k | b.start <= k < e ensures bits[k] { assert Marks(b, k); }
    forall c | c in live ensures !Marks(c, e) { assert c != b ==> Apart(b, c); }
    RunLengthUnique(bits, b.start, b.lines - 1);
  }

  lemma DropKeepsInv(bits: seq<bool>, live: set<Block>, b: Block)
    requires Inv(bits, live) && b in live
    ensures Inv(Fill(bits, b.start, b.lines - 1, false), live - {b})
  {
    var bits' := Fill(bits, b.start, b.lines - 1, false);
    forall k: nat | k < |bits| ensures bits'[k] <==> Marked(live - {b}, k) {
      assert bits[k] <==> Marked(live, k);
      if Marks(b, k) {
        forall c | c in live - {b} ensures !Marks(c, k) { assert Apart(b, c); }
      } else if bits[k] {
        var c :| c in live && Marks(c, k);
        assert c in live - {b};
      }
    }
  }

  // Cutting a block short at an inner line takes its marks from there on, and no others.
  lemma CutMarks(bits: seq<bool>, live: set<Block>, b: Block, line: nat, k: nat)
    requires Inv(bits, live) && b in live && Marks(b, line) && b.start < line
    ensures Marked(live - {b} + {Block(b.start, line - b.start + 1)}, k)
            <==> Marked(live, k) && !(line <= k < b.start + b.lines - 1)
  {
    var front := Block(b.start, line - b.start + 1);
    var live' := live - {b} + {front};
    if c :| c in live' && Marks(c, k) {
      assert c != front ==> Apart(b, c);
      assert if c == front then Marks(b, k) else c in live && Marks(c, k);
    }
    if c :| c in live && Marks(c, k) && !(line <= k < b.start + b.lines - 1) {
      assert if c == b then front in live' && Marks(front, k) else c in live' && Marks(c, k);
    }
  }

  lemma CutPlaces(bits: seq<bool>, live: set<Block>, b: Block, line: nat)
    requires Inv(bits, live) && b in live && Marks(b, line) && b.start < line
    ensures var live' := live - {b} + {Block(b.start, line - b.start + 1)};
            && (forall c :: c in live' ==> InHeap(c, |bits|))
            && (forall a, c :: a in live' && c in live' && a != c ==> Apart(a, c))
  {
    var front := Block(b.start, line - b.start + 1);
    forall c | c in live - {b} ensures Apart(front, c) && Apart(c, front) { assert Apart(b, c); }
  }

  // Clearing the run from an inner line on leaves the front of the block live, up to that line.
  lemma CutKeepsInv(bits: seq<bool>, live: set<Block>, b: Block, line: nat)
    requires Inv(bits, live) && b in live && Marks(b, line) && b.start < line
    ensures RunLength(bits, line) == b.start + b.lines - 1 - line
    ensures Inv(Fill(bits, line, RunLength(bits, line), false), live - {b} + {Block(b.start, line - b.start + 1)})
  {
    var e, front := b.start + b.lines - 1, Block(b.start, line - b.start + 1);
    LiveRunLength(bits, live, b);
    RunLengthUnique(bits, line, e - line);
    CutPlaces(bits, live, b, line);
    var live' := live - {b} + {front};
    assert front.start == b.start;
    forall k: nat | k < |bits| ensures Marked(live', k) <==> bits[k] && !(line <= k < e) {
      CutMarks(bits, live, b, line, k);
      hide Marked;
    }
    hide Marked; hide Marks; hide InHeap; hide Apart; hide RunLength;
    var bits' := Fill(bits, line, e - line, false);
    assert forall k :: 0 <= k < |bits| ==> (bits'[k] <==> bits[k] && !(line <= k < e));
  }

  // The live set determines every bit ...
  lemma LiveDeterminesBits(bits: seq<bool>, bits': seq<bool>, live: set<Block>)
    requires |bits| == |bits'| && Inv(bits, live) && Inv(bits', live)
    ensures bits == bits'
  {
    forall k | 0 <= k < |bits| ensures bits[k] == bits'[k] { assert bits[k] <==> Marked(live, k); }
  }

  lemma StartsAgree(bits: seq<bool>, live: set<Block>, live': set<Block>, b: Block)
    requires Inv(bits, live) && Inv(bits, live') && b in live
    ensures b in live'
  {
    LiveBitIsSet(bits, live, b);
    assert Marked(live', b.start);
    var c :| c in live' && Marks(c, b.start);
    assert c.start == b.start by {
      forall a | a in live ensures !Marks(a, b.start - 1) { assert a == b || Apart(a, b); }
      assert bits[b.start - 1] <==> Marked(live, b.start - 1);
      assert !Marks(c, b.start - 1);
    }
    LiveRunLength(bits, live, b);
    LiveRunLength(bits, live', c);
  }

  // ... and the bits determine the live set, although no length is stored anywhere.
  lemma BitsDetermineLive(bits: seq<bool>, live: set<Block>, live': set<Block>)
    requires Inv(bits, live) && Inv(bits, live')
    ensures live == live'
  {
    forall b | b in live ensures b in live' { StartsAgree(bits, live, live', b); }
    forall b | b in live' ensures b in live { StartsAgree(bits, live', live, b); }
  }

  // ----- the allocator as a transition system

  datatype State = State(bits: seq<bool>, searchPos: nat, live: set<Block>)

  ghost predicate Sound(st: State) {
    Inv(st.bits, st.live) && 32 * st.searchPos <= |st.bits|
  }

  function AllocStep(st: State, size: nat): (r: (State, Option<Block>))
    requires 32 * st.searchPos <= |st.bits| && 1 <= size
  {
    match Search(st.bits, 32 * st.searchPos, size + 1)
    case None => (st, None)
    case Some(p) =>
      var b := Block(p + 1, size);
      (State(Fill(st.bits, b.start, size - 1, true), (p + size) / 32, st.live + {b}), Some(b))
  }

  // What a free at a line leaves of a block: all of it, nothing, or its front up to that line.
  function Cut(b: Block, line: nat): set<Block> {
    if !Marks(b, line) then {b} else if b.start == line then {} else {Block(b.start, line - b.start + 1)}
  }

  function FreeStep(st: State, line: nat): State
    requires line < |st.bits|
  {
    State(Fill(st.bits, line, RunLength(st.bits, line), false), 0, set b, c | b in st.live && c in Cut(b, line) :: c)
  }

  lemma AllocStepSound(st: State, size: nat)
    requires Sound(st) && 2 <= size
    ensures var (st', r) := AllocStep(st, size);
            && Sound(st')
            && (r.None? ==> st' == st)
            && (r.Some? ==> && r.value.lines == size && r.value !in st.live
                            && st'.live == st.live + {r.value}
                            && forall b, k: nat :: b in st.live && Owns(r.value, k) ==> !Owns(b, k))
  {
    hide Inv;
    var r := Search(st.bits, 32 * st.searchPos, size + 1);
    hide Search;
    if r.Some? {
      TakeKeepsInv(st.bits, st.live, r.value, size);
      forall b, k: nat | b in st.live && Owns(Block(r.value + 1, size), k) ensures !Owns(b, k) {
        ClearRunIsUnowned(st.bits, st.live, r.value, size, b, k);
      }
    }
  }

  // The search fails exactly when every run of size + 1 clear bits straddles its start.
  lemma AllocFailsExactlyWhen(st: State, size: nat)
    requires Sound(st) && 2 <= size
    ensures AllocStep(st, size).1.None? <==>
            forall p: nat :: Fits(st.bits, p, size) ==> p < 32 * st.searchPos < p + size + 1
  {
    var w := 32 * st.searchPos;
    if NoRun(st.bits, w, |st.bits|, size + 1) && NoRun(st.bits, 0, w, size + 1) {
      forall p: nat | Fits(st.bits, p, size) ensures p < w < p + size + 1 {}
    } else {
      var p: nat :| ClearRun(st.bits, p, size + 1) && (w <= p || p + size + 1 <= w);
      assert Fits(st.bits, p, size);
    }
  }

  // So from word 0, where every successful free puts it, it is a complete first fit.
  lemma FirstFitFromTheBottom(st: State, size: nat)
    requires Sound(st) && st.searchPos == 0 && 2 <= size
    ensures var r := AllocStep(st, size).1;
            && (r.None? <==> forall p: nat :: !Fits(st.bits, p, size))
            && (r.Some? ==> && Fits(st.bits, r.value.start - 1, size)
                            && forall p: nat :: Fits(st.bits, p, size) ==> r.value.start - 1 <= p)
  {
    AllocFailsExactlyWhen(st, size);
    var first := FirstRun(st.bits, 0, |st.bits|, size + 1);
    assert first.Some? ==> Search(st.bits, 0, size + 1) == first;
  }

  // Freeing the start of a live block removes that block and nothing else, freeing an inner line
  // leaves the front of its block, and freeing a line whose bit is clear (a second free, say)
  // changes no bit at all.
  lemma FreeStepSound(st: State, line: nat)
    requires Sound(st) && line < |st.bits|
    ensures var st' := FreeStep(st, line);
            && Sound(st') && st'.searchPos == 0
            && (!st.bits[line] ==> st'.bits == st.bits && st'.live == st.live)
            && (forall b :: b in st.live && b.start == line ==> st'.live == st.live - {b} && !st'.bits[line])
            && (forall b :: b in st.live && Marks(b, line) ==> st'.live == st.live - {b} + Cut(b, line))
  {
    var st' := FreeStep(st, line);
    BitIsMarked(st.bits, st.live, line);
    hide Inv; hide RunLength;
    if st.bits[line] {
      var b :| b in st.live && Marks(b, line);
      CutOne(st.bits, st.live, b, line);
      if b.start == line {
        LiveRunLength(st.bits, st.live, b);
        DropKeepsInv(st.bits, st.live, b);
      } else {
        CutKeepsInv(st.bits, st.live, b, line);
      }
    } else {
      forall b | b in st.live ensures Cut(b, line) == {b} { assert !Marks(b, line); }
      assert st'.live == st.live && st'.bits == st.bits;
    }
  }

  lemma BitIsMarked(bits: seq<bool>, live: set<Block>, line: nat)
    requires Inv(bits, live) && line < |bits|
    ensures bits[line] <==> Marked(live, line)
    ensures forall b :: b in live && b.start == line ==> Marks(b, line)
  {}

  // At most one block is marked at a line, so only that one is cut.
  lemma CutOne(bits: seq<bool>, live: set<Block>, b: Block, line: nat)
    requires Inv(bits, live) && b in live && Marks(b, line)
    ensures (set a, c | a in live && c in Cut(a, line) :: c) == live - {b} + Cut(b, line)
    ensures forall c :: c in live && (c.start == line || Marks(c, line)) ==> c == b
  {
    forall c | c in live && c != b ensures !Marks(c, line) && c.start != line { assert Apart(b, c); }
    var cut := set a, c | a in live && c in Cut(a, line) :: c;
    forall c | c in live - {b} ensures c in cut { assert c in Cut(c, line); }
  }

  // The two-line minimum is needed: a block of one line would leave no mark, so that two allocations
  // in a row hand out the same line to two clients, unless it is the first line of a status word.
  lemma TwoLinesNeeded(st: State)
    requires Sound(st) && AllocStep(st, 1).1.Some?
    ensures var (st', r) := AllocStep(st, 1);
            && st'.bits == st.bits && 32 * st'.searchPos <= |st'.bits|
            && (AllocStep(st', 1).1 == r <==> r.value.start % 32 != 0)
  {
    var (st', r) := AllocStep(st, 1);
    assert st'.bits == st.bits;
    var p := r.value.start - 1;
    SearchIsFirst(st.bits, 32 * st.searchPos, 2, p);
    hide Search; hide Inv;
    if r.value.start % 32 != 0 {
      SearchAgain(st.bits, 32 * st'.searchPos, 2, p);
    } else {
      assert 32 * st'.searchPos == p + 1;
      SearchBehind(st.bits, p + 1, 2);
    }
  }

  // Nothing fits between where the search starts and where it ends.
  lemma SearchIsFirst(bits: seq<bool>, from: nat, m: nat, p: nat)
    requires from <= |bits| && Search(bits, from, m) == Some(p)
    ensures ClearRun(bits, p, m)
    ensures forall q: nat :: q < p && (from <= q || p < from) ==> !ClearRun(bits, q, m)
  {
    assert forall q: nat :: from <= q && q + m <= |bits| && p < from ==> !ClearRun(bits, q, m);
  }

  lemma SearchAgain(bits: seq<bool>, from: nat, m: nat, p: nat)
    requires from <= p && ClearRun(bits, p, m) && forall q: nat :: from <= q < p ==> !ClearRun(bits, q, m)
    ensures Search(bits, from, m) == Some(p)
  {
    var first := FirstRun(bits, from, |bits|, m);
    assert first == Some(p);
  }

  lemma SearchBehind(bits: seq<bool>, from: nat, m: nat)
    requires from <= |bits| && 1 < m
    ensures Search(bits, from, m) != Some(from - 1)
  {}

  // Allocating and then freeing the same block restores every bit.
  lemma AllocThenFree(st: State, size: nat)
    requires Sound(st) && 2 <= size && AllocStep(st, size).1.Some?
    ensures var (st', r) := AllocStep(st, size);
            FreeStep(st', r.value.start).bits == st.bits && FreeStep(st', r.value.start).live == st.live
  {
    var (st', r) := AllocStep(st, size);
    AllocStepSound(st, size);
    FreeStepSound(st', r.value.start);
    LiveDeterminesBits(st.bits, FreeStep(st', r.value.start).bits, st.live);
  }

  datatype Op = Alloc(size: nat) | Free(line: nat)

  // Blocks have at least two lines; any line may be freed, at any time.
  predicate Legal(st: State, op: Op) {
    match op
    case Alloc(size) => 2 <= size
    case Free(line) => line < |st.bits|
  }

  ghost predicate Steps(st: State, op: Op, st': State) {
    && Legal(st, op)
    && st' == match op
              case Alloc(size) => if 1 <= size && 32 * st.searchPos <= |st.bits| then AllocStep(st, size).0 else st
              case Free(line) => if line < |st.bits| then FreeStep(st, line) else st
  }

  ghost predicate Run(st: State, ops: seq<Op>, st': State)
    decreases |ops|
  {
    if ops == [] then st == st' else exists mid :: Steps(st, ops[0], mid) && Run(mid, ops[1..], st')
  }

  lemma {:induction false} RunKeepsSound(st: State, ops: seq<Op>, st': State)
    requires Sound(st) && Run(st, ops, st')
    ensures Sound(st') && |st'.bits| == |st.bits|
    decreases |ops|
  {
    if ops != [] {
      var mid :| Steps(st, ops[0], mid) && Run(mid, ops[1..], st');
      match ops[0] {
        case Alloc(size) => AllocStepSound(st, size);
        case Free(line) => FreeStepSound(st, line);
      }
      RunKeepsSound(mid, ops[1..], st');
    }
  }

  // Safety over whole runs from the empty heap; the bitmap is a function of the
  // live set, so a run that ends with nothing live ends with every bit clear.
  lemma RunFromEmptyHeap(total: nat, ops: seq<Op>, st': State)
    requires Run(State(seq(total, _ => false), 0, {}), ops, st')
    ensures Inv(st'.bits, st'.live) && |st'.bits| == total
    ensures st'.live == {} ==> st'.bits == seq(total, _ => false)
  {
    var empty := State(seq(total, _ => false), 0, {});
    RunKeepsSound(empty, ops, st');
    if st'.live == {} { LiveDeterminesBits(empty.bits, st'.bits, {}); }
  }
}
