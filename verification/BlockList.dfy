/** The in-use list of the error-detection mode, as it lies in the heap itself.

    Every allocated block starts with five 32-bit fields (id, size, older block,
    newer block, start signature) and its last used word holds the end signature.
    The heap is a sequence of words; a line is eight of them. */
module BlockList {
  import opened Bitmap

  const START_SIG: nat := 0x4658334D
  const END_SIG: nat := 0x454E444D
  const HEADER_BYTES: nat := 20
  const FOOTER_BYTES: nat := 4

  // A live block and the number of bytes asked for, header and footer included.
  datatype Rec = Rec(block: Block, bytes: nat)

  function Word(r: Rec): nat { 8 * r.block.start }

  function Footer(r: Rec): int { Word(r) + r.bytes / 4 - 1 }

  function Addr(base: nat, r: Rec): nat { base + 32 * r.block.start }

  function Payload(base: nat, r: Rec): nat { Addr(base, r) + HEADER_BYTES }

  // The address of the i-th newest block; 0, the null pointer, off either end.
  function AddrAt(base: nat, live: seq<Rec>, i: int): nat {
    if 0 <= i < |live| then Addr(base, live[i]) else 0
  }

  function Blocks(live: seq<Rec>): set<Block> { set r | r in live :: r.block }

  ghost predicate Placed(live: seq<Rec>, total: nat) {
    && (forall i :: 0 <= i < |live| ==> InHeap(live[i].block, total))
    && (forall i, j :: 0 <= i < j < |live| ==> Apart(live[i].block, live[j].block))
  }

  predicate Sized(r: Rec) {
    HEADER_BYTES + FOOTER_BYTES <= r.bytes <= 32 * r.block.lines && r.bytes % 4 == 0
  }

  function Get(mem: seq<nat>, k: int): nat { if 0 <= k < |mem| then mem[k] else 0 }

  predicate Header(mem: seq<nat>, r: Rec, older: nat, newer: nat) {
    Get(mem, Word(r) + 1) == r.bytes && Get(mem, Word(r) + 2) == older && Get(mem, Word(r) + 3) == newer
  }

  predicate HeaderAt(mem: seq<nat>, base: nat, live: seq<Rec>, i: nat)
    requires i < |live|
  {
    Header(mem, live[i], AddrAt(base, live, i + 1), AddrAt(base, live, i - 1))
  }

  predicate Signed(mem: seq<nat>, r: Rec) {
    Get(mem, Word(r) + 4) == START_SIG && Get(mem, Footer(r)) == END_SIG
  }

  // Header and footer lie in the block's own lines; the links run newest first.
  ghost predicate Linked(mem: seq<nat>, base: nat, live: seq<Rec>, head: nat) {
    && Placed(live, |mem| / 8)
    && head == AddrAt(base, live, 0)
    && (forall i :: 0 <= i < |live| ==> Sized(live[i]))
    && (forall i :: 0 <= i < |live| ==> HeaderAt(mem, base, live, i))
  }

  ghost predicate Intact(mem: seq<nat>, live: seq<Rec>) { forall i :: 0 <= i < |live| ==> Signed(mem, live[i]) }

  // Header and footer do not overlap each other and stay inside the block's lines.
  lemma OwnLines(r: Rec, total: nat)
    requires Sized(r) && InHeap(r.block, total)
    ensures Word(r) + 4 < Footer(r) < Word(r) + 8 * r.block.lines <= 8 * total
  {}

  // Following the `older` links from pointer p visits exactly these addresses and then null.
  predicate Follows(mem: seq<nat>, base: nat, p: nat, addrs: seq<nat>)
    decreases |addrs|
  {
    if addrs == [] then p == 0
    else && p == addrs[0] && base <= p && Follows(mem, base, Get(mem, (p - base) / 4 + 2), addrs[1..])
  }

  function Addrs(base: nat, live: seq<Rec>): seq<nat> { seq(|live|, i requires 0 <= i < |live| => Addr(base, live[i])) }

  lemma {:induction false} FollowsFrom(mem: seq<nat>, base: nat, live: seq<Rec>, head: nat, i: nat)
    requires Linked(mem, base, live, head) && i <= |live|
    ensures Follows(mem, base, AddrAt(base, live, i), Addrs(base, live)[i..])
    decreases |live| - i
  {
    if i < |live| {
      FollowsFrom(mem, base, live, head, i + 1);
      assert HeaderAt(mem, base, live, i);
      assert Addrs(base, live)[i..][1..] == Addrs(base, live)[i + 1..];
    }
  }

  // The list is acyclic and holds exactly the live blocks, newest first.
  lemma ListIsLive(mem: seq<nat>, base: nat, live: seq<Rec>, head: nat)
    requires Linked(mem, base, live, head)
    ensures Follows(mem, base, head, Addrs(base, live))
    ensures forall i, j :: 0 <= i < j < |live| ==> Addrs(base, live)[i] != Addrs(base, live)[j]
  {
    FollowsFrom(mem, base, live, head, 0);
    assert Addrs(base, live)[0..] == Addrs(base, live);
    forall i, j | 0 <= i < j < |live| ensures Addrs(base, live)[i] != Addrs(base, live)[j] {
      assert Apart(live[i].block, live[j].block);
    }
  }

  // Two different live blocks share no word.
  lemma Separate(live: seq<Rec>, total: nat, i: nat, j: nat)
    requires Placed(live, total) && i < |live| && j < |live|
    ensures i != j ==>
              Word(live[i]) + 8 * live[i].block.lines <= Word(live[j])
              || Word(live[j]) + 8 * live[j].block.lines <= Word(live[i])
  {
    if i < j { assert Apart(live[i].block, live[j].block); }
    if j < i { assert Apart(live[j].block, live[i].block); }
  }

  // ----- pushing a block

  lemma BlocksPush(live: seq<Rec>, r: Rec)
    ensures Blocks([r] + live) == Blocks(live) + {r.block}
  {
    forall b | b in Blocks(live) + {r.block} ensures b in Blocks([r] + live) {
      if b in Blocks(live) {
        var q :| q in live && q.block == b;
        assert q in [r] + live;
      } else {
        assert ([r] + live)[0] == r;
      }
    }
  }

  lemma PlacedPush(live: seq<Rec>, total: nat, r: Rec)
    requires Placed(live, total) && InHeap(r.block, total)
    requires forall b :: b in Blocks(live) ==> Apart(r.block, b)
    ensures Placed([r] + live, total)
  {
    forall i | 0 <= i < |live| ensures Apart(r.block, live[i].block) { assert live[i].block in Blocks(live); }
  }

  // The words that pushing r may change: r's own lines and the newest block's `newer` field.
  predicate PushTouches(live: seq<Rec>, r: Rec, k: int) {
    Word(r) <= k < Word(r) + 8 * r.block.lines || (live != [] && k == Word(live[0]) + 3)
  }

  ghost predicate Pushed(mem: seq<nat>, mem': seq<nat>, base: nat, live: seq<Rec>, r: Rec) {
    && |mem'| == |mem|
    && (forall k :: !PushTouches(live, r, k) ==> Get(mem', k) == Get(mem, k))
    && Header(mem', r, AddrAt(base, live, 0), 0)
    && (live != [] ==> Get(mem', Word(live[0]) + 3) == Addr(base, r))
  }

  lemma PushLinked(mem: seq<nat>, mem': seq<nat>, base: nat, live: seq<Rec>, head: nat, r: Rec)
    requires Linked(mem, base, live, head) && Placed([r] + live, |mem| / 8) && Sized(r)
    requires Pushed(mem, mem', base, live, r)
    ensures Linked(mem', base, [r] + live, Addr(base, r))
    ensures forall i :: 0 <= i < |live| ==> Signed(mem', live[i]) == Signed(mem, live[i])
  {
    var live' := [r] + live;
    forall i: nat | i < |live'| ensures HeaderAt(mem', base, live', i) {
      if i > 0 { PushKeepsOther(mem, mem', base, live, head, r, i - 1); }
    }
    forall i: nat | i < |live| ensures Signed(mem', live[i]) == Signed(mem, live[i]) {
      PushKeepsOther(mem, mem', base, live, head, r, i);
    }
  }

  lemma PushKeepsOther(mem: seq<nat>, mem': seq<nat>, base: nat, live: seq<Rec>, head: nat, r: Rec, i: nat)
    requires Linked(mem, base, live, head) && Placed([r] + live, |mem| / 8) && Sized(r)
    requires Pushed(mem, mem', base, live, r) && i < |live|
    ensures Header(mem', live[i], AddrAt(base, live, i + 1),
                   if i == 0 then Addr(base, r) else AddrAt(base, live, i - 1))
    ensures Signed(mem', live[i]) == Signed(mem, live[i])
  {
    var o, w := live[i], Word(live[i]);
    Separate([r] + live, |mem| / 8, 0, i + 1);
    Separate(live, |mem| / 8, 0, i);
    OwnLines(o, |mem| / 8);
    OwnLines(live[0], |mem| / 8);
    assert HeaderAt(mem, base, live, i);
    assert !PushTouches(live, r, w + 1) && !PushTouches(live, r, w + 2) && !PushTouches(live, r, w + 4);
    assert !PushTouches(live, r, Footer(o));
    assert i > 0 ==> !PushTouches(live, r, w + 3);
  }

  // ----- removing a block

  function Without(live: seq<Rec>, i: nat): seq<Rec>
    requires i < |live|
  {
    live[..i] + live[i + 1..]
  }

  lemma PlacedDrop(live: seq<Rec>, total: nat, i: nat)
    requires Placed(live, total) && i < |live|
    ensures Placed(Without(live, i), total)
    ensures Blocks(Without(live, i)) == Blocks(live) - {live[i].block}
  {
    var rest := Without(live, i);
    forall j | 0 <= j < |live| && j != i ensures live[j] in rest && live[j].block != live[i].block {
      assert live[j] == if j < i then rest[j] else rest[j - 1];
      assert if j < i then Apart(live[j].block, live[i].block) else Apart(live[i].block, live[j].block);
    }
  }

  // The words that dropping live[i] may change: one link in each neighbour.
  predicate DropTouches(live: seq<Rec>, i: nat, k: int)
    requires i < |live|
  {
    (i > 0 && k == Word(live[i - 1]) + 2) || (i + 1 < |live| && k == Word(live[i + 1]) + 3)
  }

  ghost predicate Dropped(mem: seq<nat>, mem': seq<nat>, base: nat, live: seq<Rec>, i: nat)
    requires i < |live|
  {
    && |mem'| == |mem|
    && (forall k :: !DropTouches(live, i, k) ==> Get(mem', k) == Get(mem, k))
    && (i > 0 ==> Get(mem', Word(live[i - 1]) + 2) == AddrAt(base, live, i + 1))
    && (i + 1 < |live| ==> Get(mem', Word(live[i + 1]) + 3) == AddrAt(base, live, i - 1))
  }

  lemma DropLinked(mem: seq<nat>, mem': seq<nat>, base: nat, live: seq<Rec>, head: nat, i: nat)
    requires Linked(mem, base, live, head) && i < |live| && Dropped(mem, mem', base, live, i)
    ensures Linked(mem', base, Without(live, i), if i == 0 then AddrAt(base, live, 1) else head)
    ensures forall j :: 0 <= j < |live| ==> Signed(mem', live[j]) == Signed(mem, live[j])
  {
    PlacedDrop(live, |mem| / 8, i);
    forall j: nat | j < |live| - 1 ensures HeaderAt(mem', base, Without(live, i), j) {
      DropHeader(mem, mem', base, live, head, i, j);
    }
    forall j: nat | j < |live| ensures Signed(mem', live[j]) == Signed(mem, live[j]) {
      DropKeepsOther(mem, mem', base, live, head, i, j);
    }
  }

  // Closing the gap moves every address on the far side of it by one.
  lemma AddrAtWithout(base: nat, live: seq<Rec>, i: nat, j: int)
    requires i < |live|
    ensures AddrAt(base, Without(live, i), j) == AddrAt(base, live, if j < i then j else j + 1)
  {}

  lemma DropHeader(mem: seq<nat>, mem': seq<nat>, base: nat, live: seq<Rec>, head: nat, i: nat, j: nat)
    requires Linked(mem, base, live, head) && i < |live| && Dropped(mem, mem', base, live, i)
    requires j < |live| - 1
    ensures HeaderAt(mem', base, Without(live, i), j)
  {
    hide Linked; hide Dropped; hide Header; hide Signed; hide AddrAt;
    var old_j := if j < i then j else j + 1;
    DropKeepsOther(mem, mem', base, live, head, i, old_j);
    AddrAtWithout(base, live, i, j + 1);
    AddrAtWithout(base, live, i, j - 1);
    assert Without(live, i)[j] == live[old_j];
  }

  lemma DropKeepsOther(mem: seq<nat>, mem': seq<nat>, base: nat, live: seq<Rec>, head: nat, i: nat, j: nat)
    requires Linked(mem, base, live, head) && i < |live| && Dropped(mem, mem', base, live, i)
    requires j < |live|
    ensures Signed(mem', live[j]) == Signed(mem, live[j])
    ensures j != i ==> Header(mem', live[j], AddrAt(base, live, if j + 1 == i then j + 2 else j + 1),
                                             AddrAt(base, live, if j == i + 1 then j - 2 else j - 1))
  {
    var w := Word(live[j]);
    OwnLines(live[j], |mem| / 8);
    if i > 0 { Separate(live, |mem| / 8, i - 1, j); }
    if i + 1 < |live| { Separate(live, |mem| / 8, i + 1, j); }
    assert HeaderAt(mem, base, live, j);
    assert !DropTouches(live, i, w + 1) && !DropTouches(live, i, w + 4) && !DropTouches(live, i, Footer(live[j]));
    assert j + 1 != i ==> !DropTouches(live, i, w + 2);
    assert j != i + 1 ==> !DropTouches(live, i, w + 3);
  }

  // The two writes that take a block out of the list, given the links in its header.
  function Unlinked(mem: seq<nat>, base: nat, older: nat, newer: nat): (mem': seq<nat>)
    ensures |mem'| == |mem|
  {
    var m1 := Put(mem, base, newer, 2, older);
    Put(m1, base, older, 3, newer)
  }

  // Writes a field of the header at address p; nothing for the null pointer.
  function Put(mem: seq<nat>, base: nat, p: nat, field: nat, v: nat): (mem': seq<nat>)
    ensures |mem'| == |mem|
  {
    if p != 0 && base <= p && (p - base) / 4 + field < |mem| then mem[(p - base) / 4 + field := v] else mem
  }

  lemma PutLive(mem: seq<nat>, base: nat, live: seq<Rec>, j: int, field: nat, v: nat)
    requires 0 < base && Placed(live, |mem| / 8) && field < 8
    ensures Put(mem, base, AddrAt(base, live, j), field, v)
            == if 0 <= j < |live| then mem[Word(live[j]) + field := v] else mem
    ensures 0 <= j < |live| ==> Word(live[j]) + field < |mem|
  {
    if 0 <= j < |live| { assert InHeap(live[j].block, |mem| / 8); }
  }

  lemma UnlinkedDrops(mem: seq<nat>, base: nat, live: seq<Rec>, head: nat, i: nat)
    requires Linked(mem, base, live, head) && i < |live| && 0 < base
    ensures Dropped(mem, Unlinked(mem, base, AddrAt(base, live, i + 1), AddrAt(base, live, i - 1)), base, live, i)
  {
    var older, newer := AddrAt(base, live, i + 1), AddrAt(base, live, i - 1);
    PutLive(mem, base, live, i - 1, 2, older);
    var m1 := Put(mem, base, newer, 2, older);
    PutLive(m1, base, live, i + 1, 3, newer);
    var mem' := Unlinked(mem, base, older, newer);
    if 0 < i && i + 1 < |live| { Separate(live, |mem| / 8, i - 1, i + 1); }
    hide Linked; hide Placed; hide Put; hide Unlinked; hide AddrAt;
    assert forall k :: !DropTouches(live, i, k) ==> Get(mem', k) == Get(mem, k);
  }

  // ----- a block that is no longer live

  // A freed block whose header is as the free left it: it still names the two blocks between which
  // it stood, at position i of the list.
  ghost predicate Stale(mem: seq<nat>, base: nat, live: seq<Rec>, r: Rec, i: nat) {
    && i <= |live| && Sized(r) && Placed([r] + live, |mem| / 8)
    && Header(mem, r, AddrAt(base, live, i), AddrAt(base, live, i - 1))
  }

  lemma DroppedIsStale(mem: seq<nat>, mem': seq<nat>, base: nat, live: seq<Rec>, head: nat, i: nat)
    requires Linked(mem, base, live, head) && i < |live| && Dropped(mem, mem', base, live, i)
    ensures Stale(mem', base, Without(live, i), live[i], i)
  {
    var r, w := live[i], Word(live[i]);
    PlacedDrop(live, |mem| / 8, i);
    forall b | b in Blocks(Without(live, i)) ensures Apart(r.block, b) {
      var j :| 0 <= j < |live| && live[j].block == b && j != i;
      assert if j < i then Apart(live[j].block, r.block) else Apart(r.block, live[j].block);
    }
    PlacedPush(Without(live, i), |mem| / 8, r);
    OwnLines(r, |mem| / 8);
    if i > 0 { Separate(live, |mem| / 8, i - 1, i); }
    if i + 1 < |live| { Separate(live, |mem| / 8, i + 1, i); }
    assert HeaderAt(mem, base, live, i);
    assert !DropTouches(live, i, w + 1) && !DropTouches(live, i, w + 2) && !DropTouches(live, i, w + 3);
    AddrAtWithout(base, live, i, i);
    AddrAtWithout(base, live, i, i - 1);
  }

  // Its neighbours are already linked to each other, so taking it out once more changes nothing.
  lemma UnlinkingAgain(mem: seq<nat>, base: nat, live: seq<Rec>, head: nat, r: Rec, i: nat)
    requires Linked(mem, base, live, head) && Stale(mem, base, live, r, i) && 0 < base
    ensures Unlinked(mem, base, AddrAt(base, live, i), AddrAt(base, live, i - 1)) == mem && head != Addr(base, r)
  {
    var older, newer := AddrAt(base, live, i), AddrAt(base, live, i - 1);
    PutLive(mem, base, live, i - 1, 2, older);
    PutLive(mem, base, live, i, 3, newer);
    if i > 0 { assert HeaderAt(mem, base, live, i - 1); }
    if i < |live| { assert HeaderAt(mem, base, live, i); }
    if live != [] { Separate([r] + live, |mem| / 8, 0, 1); }
  }

  // ----- any block that is no longer live

  // The null pointer or the address of a line.
  predicate LineLink(base: nat, total: nat, p: nat) {
    p == 0 || (base <= p && (p - base) % 32 == 0 && (p - base) / 32 < total)
  }

  // A freed block whose lines have not been given away again, with the links that its header holds.
  // What they lead to may have been freed in the meantime, or be part of another block by now.
  ghost predicate Loose(mem: seq<nat>, base: nat, live: seq<Rec>, r: Rec, older: nat, newer: nat) {
    && Sized(r) && Placed([r] + live, |mem| / 8) && Header(mem, r, older, newer)
    && LineLink(base, |mem| / 8, older) && LineLink(base, |mem| / 8, newer)
  }

  // Where one of two links leads to a live block, the other one leads to that block's neighbour.
  ghost predicate LinksAgree(base: nat, live: seq<Rec>, older: nat, newer: nat) {
    && (forall i :: 0 <= i < |live| && older == Addr(base, live[i]) ==> newer == AddrAt(base, live, i - 1))
    && (forall i :: 0 <= i < |live| && newer == Addr(base, live[i]) ==> older == AddrAt(base, live, i + 1))
  }

  // The links of live[i] after the two writes.
  lemma LinksAfter(mem: seq<nat>, base: nat, live: seq<Rec>, older: nat, newer: nat, i: nat)
    requires 0 < base && i < |live| && Placed(live, |mem| / 8)
    requires LineLink(base, |mem| / 8, older) && LineLink(base, |mem| / 8, newer)
    ensures var mem', w, a := Unlinked(mem, base, older, newer), Word(live[i]), Addr(base, live[i]);
            && w + 3 < |mem| && mem'[w + 1] == mem[w + 1]
            && mem'[w + 2] == (if newer == a then older else mem[w + 2])
            && mem'[w + 3] == (if older == a then newer else mem[w + 3])
  {
    assert InHeap(live[i].block, |mem| / 8);
    FieldAfter(mem, base, older, newer, live[i].block.start, 1);
    FieldAfter(mem, base, older, newer, live[i].block.start, 2);
    FieldAfter(mem, base, older, newer, live[i].block.start, 3);
  }

  lemma FieldAfter(mem: seq<nat>, base: nat, older: nat, newer: nat, line: nat, k: nat)
    requires 0 < base && line < |mem| / 8 && 1 <= k <= 3
    requires LineLink(base, |mem| / 8, older) && LineLink(base, |mem| / 8, newer)
    ensures Unlinked(mem, base, older, newer)[8 * line + k]
            == if older == base + 32 * line && k == 3 then newer
               else if newer == base + 32 * line && k == 2 then older
               else mem[8 * line + k]
  {
    PutAt(mem, base, newer, 2, older, line, k);
    PutAt(Put(mem, base, newer, 2, older), base, older, 3, newer, line, k);
  }

  // A write to a header field at the address of a line, seen from the header at another line.
  lemma PutAt(mem: seq<nat>, base: nat, p: nat, field: nat, v: nat, line: nat, k: nat)
    requires 0 < base && LineLink(base, |mem| / 8, p) && field < 8 && k < 8 && line < |mem| / 8
    ensures Put(mem, base, p, field, v)[8 * line + k]
            == if p == base + 32 * line && k == field then v else mem[8 * line + k]
  {
    if p != 0 { assert (p - base) / 4 == 8 * ((p - base) / 32); }
  }

  // Taking such a block out of the list once more leaves the list intact exactly when its links agree
  // with it.
  lemma UnlinkingKeepsListExactlyWhen(mem: seq<nat>, base: nat, live: seq<Rec>, head: nat, r: Rec,
                                      older: nat, newer: nat)
    requires Linked(mem, base, live, head) && Loose(mem, base, live, r, older, newer) && 0 < base
    ensures Linked(Unlinked(mem, base, older, newer), base, live, head) <==> LinksAgree(base, live, older, newer)
  {
    var mem' := Unlinked(mem, base, older, newer);
    assert Placed(live, |mem| / 8) && head == AddrAt(base, live, 0);
    forall i: nat | i < |live|
      ensures HeaderAt(mem', base, live, i)
              <==> (older == Addr(base, live[i]) ==> newer == AddrAt(base, live, i - 1))
                   && (newer == Addr(base, live[i]) ==> older == AddrAt(base, live, i + 1))
    {
      LinksAfter(mem, base, live, older, newer, i);
      assert HeaderAt(mem, base, live, i);
    }
  }

  lemma LooseIsElsewhere(mem: seq<nat>, base: nat, live: seq<Rec>, r: Rec)
    requires Placed([r] + live, |mem| / 8)
    ensures forall j: nat :: j < |live| ==> live[j].block.start != r.block.start
    ensures InHeap(r.block, |mem| / 8)
  {
    assert ([r] + live)[0] == r;
    forall j: nat | j < |live| ensures live[j].block.start != r.block.start {
      assert Apart(([r] + live)[0].block, ([r] + live)[j + 1].block);
      assert InHeap(([r] + live)[j + 1].block, |mem| / 8) && InHeap(([r] + live)[0].block, |mem| / 8);
    }
  }

  // Right after its free the links agree.
  lemma StaleIsLoose(mem: seq<nat>, base: nat, live: seq<Rec>, r: Rec, i: nat)
    requires Stale(mem, base, live, r, i) && 0 < base
    ensures Loose(mem, base, live, r, AddrAt(base, live, i), AddrAt(base, live, i - 1))
    ensures LinksAgree(base, live, AddrAt(base, live, i), AddrAt(base, live, i - 1))
  {
    assert Placed(live, |mem| / 8) by {
      forall j: nat, k: nat | j < k < |live| ensures Apart(live[j].block, live[k].block) {
        assert Apart(([r] + live)[j + 1].block, ([r] + live)[k + 1].block);
      }
      forall j: nat | j < |live| ensures InHeap(live[j].block, |mem| / 8) { assert ([r] + live)[j + 1] == live[j]; }
    }
    forall j: nat, k: nat | j < |live| && k < |live| && Addr(base, live[j]) == Addr(base, live[k]) ensures j == k {
      Separate(live, |mem| / 8, j, k);
    }
  }

  // ----- writes by the clients

  // Word k belongs to the payload handed out for live[i].
  predicate InPayload(live: seq<Rec>, i: nat, k: nat)
    requires i < |live|
  {
    Word(live[i]) + 5 <= k < Footer(live[i])
  }

  // A client that writes only where it may breaks neither a link nor a signature.
  lemma PayloadWrite(mem: seq<nat>, base: nat, live: seq<Rec>, head: nat, i: nat, k: nat, v: nat)
    requires Linked(mem, base, live, head) && i < |live| && InPayload(live, i, k) && k < |mem|
    ensures Linked(mem[k := v], base, live, head)
    ensures forall j :: 0 <= j < |live| ==> Signed(mem[k := v], live[j]) == Signed(mem, live[j])
  {
    forall j: nat | j < |live|
      ensures HeaderAt(mem[k := v], base, live, j) && Signed(mem[k := v], live[j]) == Signed(mem, live[j])
    {
      PayloadIsPrivate(live, |mem| / 8, i, k, j);
      assert HeaderAt(mem, base, live, j);
    }
  }

  lemma PayloadIsPrivate(live: seq<Rec>, total: nat, i: nat, k: nat, j: nat)
    requires Placed(live, total) && (forall n :: 0 <= n < |live| ==> Sized(live[n]))
    requires i < |live| && j < |live| && InPayload(live, i, k)
    ensures Word(live[j]) + 4 < k < Footer(live[j]) || k < Word(live[j]) || Footer(live[j]) < k
  {
    OwnLines(live[i], total);
    OwnLines(live[j], total);
    Separate(live, total, i, j);
  }

  // A write over a signature leaves the links alone and is visible in exactly that block.
  lemma SignatureWrite(mem: seq<nat>, base: nat, live: seq<Rec>, head: nat, i: nat, k: nat, v: nat)
    requires Linked(mem, base, live, head) && i < |live|
    requires (k == Word(live[i]) + 4 && v != START_SIG) || (k == Footer(live[i]) && v != END_SIG)
    ensures k < |mem| && Linked(mem[k := v], base, live, head) && !Signed(mem[k := v], live[i])
    ensures forall j :: 0 <= j < |live| && j != i ==> Signed(mem[k := v], live[j]) == Signed(mem, live[j])
  {
    OwnLines(live[i], |mem| / 8);
    forall j: nat | j < |live|
      ensures HeaderAt(mem[k := v], base, live, j)
      ensures j != i ==> Signed(mem[k := v], live[j]) == Signed(mem, live[j])
    {
      OwnLines(live[j], |mem| / 8);
      Separate(live, |mem| / 8, i, j);
      assert HeaderAt(mem, base, live, j);
    }
  }
}
