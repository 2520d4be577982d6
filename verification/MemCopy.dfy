/** CyU3PMemCopy: an overlap-safe copy, unrolled eight bytes at a time. */
module MemCopy {
  // Byte k after the bytes lo..hi of a block have been copied from src to dest.
  function Byte<T>(was: seq<T>, dest: nat, src: nat, lo: nat, hi: nat, k: nat): T
    requires k < |was| && src + hi <= |was|
  {
    if dest + lo <= k < dest + hi then was[src + (k - dest)] else was[k]
  }

  ghost predicate Copied<T>(was: seq<T>, now: seq<T>, dest: nat, src: nat, lo: nat, hi: nat)
    requires src + hi <= |was|
  {
    |now| == |was| && forall k: nat :: k < |was| ==> now[k] == Byte(was, dest, src, lo, hi, k)
  }

  // dest[j] = src[j] in the downward copy to d: dest is `at` bytes into it, and the bytes
  // from at + j + 1 on are done.
  method MoveDown<T>(mem: array<T>, dest: nat, src: nat, j: nat,
                     ghost was: seq<T>, ghost d: nat, ghost s: nat, ghost at: nat, ghost n: nat)
    requires dest == d + at && src == s + at && s < d && at + j < n && d + n <= |was|
    requires Copied(was, mem[..], d, s, at + j + 1, n)
    modifies mem
    ensures Copied(was, mem[..], d, s, at + j, n)
  {
    mem[dest + j] := mem[src + j];
  }

  // The same in the upward copy, where the bytes below at + j are done.
  method MoveUp<T>(mem: array<T>, dest: nat, src: nat, j: nat,
                   ghost was: seq<T>, ghost d: nat, ghost s: nat, ghost at: nat)
    requires dest == d + at && src == s + at && d <= s && src + j < |was|
    requires Copied(was, mem[..], d, s, 0, at + j)
    modifies mem
    ensures Copied(was, mem[..], d, s, 0, at + j + 1)
  {
    mem[dest + j] := mem[src + j];
  }

  // The two unrolled bodies.
  method EightDown<T>(mem: array<T>, dest: nat, src: nat,
                      ghost was: seq<T>, ghost d: nat, ghost s: nat, ghost at: nat, ghost n: nat)
    requires dest == d + at && src == s + at && s < d && at + 8 <= n && d + n <= |was|
    requires Copied(was, mem[..], d, s, at + 8, n)
    modifies mem
    ensures Copied(was, mem[..], d, s, at, n)
  {
    hide Copied;
    MoveDown(mem, dest, src, 7, was, d, s, at, n);
    MoveDown(mem, dest, src, 6, was, d, s, at, n);
    MoveDown(mem, dest, src, 5, was, d, s, at, n);
    MoveDown(mem, dest, src, 4, was, d, s, at, n);
    MoveDown(mem, dest, src, 3, was, d, s, at, n);
    MoveDown(mem, dest, src, 2, was, d, s, at, n);
    MoveDown(mem, dest, src, 1, was, d, s, at, n);
    MoveDown(mem, dest, src, 0, was, d, s, at, n);
  }

  method EightUp<T>(mem: array<T>, dest: nat, src: nat, ghost was: seq<T>, ghost d: nat, ghost s: nat, ghost at: nat)
    requires dest == d + at && src == s + at && d <= s && src + 8 <= |was|
    requires Copied(was, mem[..], d, s, 0, at)
    modifies mem
    ensures Copied(was, mem[..], d, s, 0, at + 8)
  {
    hide Copied;
    MoveUp(mem, dest, src, 0, was, d, s, at);
    MoveUp(mem, dest, src, 1, was, d, s, at);
    MoveUp(mem, dest, src, 2, was, d, s, at);
    MoveUp(mem, dest, src, 3, was, d, s, at);
    MoveUp(mem, dest, src, 4, was, d, s, at);
    MoveUp(mem, dest, src, 5, was, d, s, at);
    MoveUp(mem, dest, src, 6, was, d, s, at);
    MoveUp(mem, dest, src, 7, was, d, s, at);
  }

  // From the end of the buffers back to their start.
  method CopyDown<T>(mem: array<T>, dest0: nat, src0: nat, count0: nat)
    requires src0 < dest0 && dest0 + count0 <= mem.Length
    modifies mem
    ensures Copied(old(mem[..]), mem[..], dest0, src0, 0, count0)
  {
    ghost var was := mem[..];
    NothingCopied(was, dest0, src0, count0);
    hide Copied;
    var dest: nat, src: nat, count: nat := dest0 + count0, src0 + count0, count0;
    while count >= 8
      invariant count <= count0 && dest == dest0 + count && src == src0 + count
      invariant Copied(was, mem[..], dest0, src0, count, count0)
    {
      dest, src, count := dest - 8, src - 8, count - 8;
      EightDown(mem, dest, src, was, dest0, src0, count, count0);
    }
    while count > 0
      invariant count <= count0 && dest == dest0 + count && src == src0 + count
      invariant Copied(was, mem[..], dest0, src0, count, count0)
    {
      dest, src, count := dest - 1, src - 1, count - 1;
      MoveDown(mem, dest, src, 0, was, dest0, src0, count, count0);
    }
  }

  // From the start of the buffers to their end.
  method CopyUp<T>(mem: array<T>, dest0: nat, src0: nat, count0: nat)
    requires dest0 <= src0 && src0 + count0 <= mem.Length
    modifies mem
    ensures Copied(old(mem[..]), mem[..], dest0, src0, 0, count0)
  {
    ghost var was := mem[..];
    NothingCopied(was, dest0, src0, 0);
    hide Copied;
    var dest: nat, src: nat, count: nat := dest0, src0, count0;
    ghost var done: nat := 0;
    while count >= 8
      invariant done + count == count0 && dest == dest0 + done && src == src0 + done
      invariant Copied(was, mem[..], dest0, src0, 0, done)
    {
      EightUp(mem, dest, src, was, dest0, src0, done);
      dest, src, count, done := dest + 8, src + 8, count - 8, done + 8;
    }
    while count > 0
      invariant done + count == count0 && dest == dest0 + done && src == src0 + done
      invariant Copied(was, mem[..], dest0, src0, 0, done)
    {
      MoveUp(mem, dest, src, 0, was, dest0, src0, done);
      dest, src, count, done := dest + 1, src + 1, count - 1, done + 1;
    }
  }

  // For any overlap the destination holds the old source, and nothing else changes.
  method Copy<T>(mem: array<T>, dest: nat, src: nat, count: nat)
    requires dest + count <= mem.Length && src + count <= mem.Length
    modifies mem
    ensures mem[dest..dest + count] == old(mem[src..src + count])
    ensures mem[..dest] == old(mem[..dest])
    ensures mem[dest + count..] == old(mem[dest + count..])
  {
    if dest > src {
      CopyDown(mem, dest, src, count);
    } else {
      CopyUp(mem, dest, src, count);
    }
    CopiedBlock(old(mem[..]), mem[..], dest, src, count);
  }

  lemma NothingCopied<T>(was: seq<T>, dest: nat, src: nat, lo: nat)
    requires src + lo <= |was|
    ensures Copied(was, was, dest, src, lo, lo)
  {}

  lemma CopiedBlock<T>(was: seq<T>, now: seq<T>, dest: nat, src: nat, count: nat)
    requires dest + count <= |was| && src + count <= |was| && Copied(was, now, dest, src, 0, count)
    ensures now[dest..dest + count] == was[src..src + count]
    ensures now[..dest] == was[..dest] && now[dest + count..] == was[dest + count..]
  {}
}
