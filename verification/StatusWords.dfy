/** The bitmap packed into 32-bit words, and the three loops of the buffer
    manager that work on the packed form. */
module StatusWords {
  import opened Words
  import opened Wrappers
  import opened Bitmap

  // Line number b is bit b & 31 of word b >> 5.
  predicate BitOf(words: seq<bv32>, b: nat)
    requires b < 32 * |words|
  {
    Bit(words[b / 32], b % 32)
  }

  function WordBits(w: bv32): seq<bool> { seq(32, k requires 0 <= k < 32 => Bit(w, k)) }

  // The bits of all words, lowest word first.
  function Bits(words: seq<bv32>): (r: seq<bool>)
    ensures |r| == 32 * |words|
  {
    if words == [] then [] else Bits(words[..|words| - 1]) + WordBits(words[|words| - 1])
  }

  lemma {:induction false} BitsAt(words: seq<bv32>, b: nat)
    requires b < 32 * |words|
    ensures Bits(words)[b] == BitOf(words, b)
  {
    var n := |words| - 1;
    if b < 32 * n {
      BitsAt(words[..n], b);
      assert b / 32 < n && words[..n][b / 32] == words[b / 32];
    }
  }

  // Equal bits mean equal words.
  lemma BitsDetermineWords(words: seq<bv32>, words': seq<bv32>)
    requires |words| == |words'| && Bits(words) == Bits(words')
    ensures words == words'
  {
    forall i: nat | i < |words| ensures words[i] == words'[i] {
      InsideWhole(words[i]);
      InsideWhole(words'[i]);
      forall k: nat | k < 32 ensures Bit(words[i], k) <==> Bit(words'[i], k) { SameBitOf(words, words', i, k); }
      hide *;
      SameBits(words[i], words'[i], 32);
    }
  }

  lemma SameBitOf(words: seq<bv32>, words': seq<bv32>, i: nat, k: nat)
    requires |words| == |words'| && Bits(words) == Bits(words') && i < |words| && k < 32
    ensures Bit(words[i], k) <==> Bit(words'[i], k)
  {
    hide Bit; hide Bits;
    BitsAt(words, 32 * i + k);
    BitsAt(words', 32 * i + k);
  }

  // All bits below position n, as the source writes it: shifting by 32 is avoided.
  function LowBits(n: nat): (mask: bv32)
    requires n <= 32
    ensures mask == LowMask(n)
  {
    LowMaskValue(n);
    if n == 32 then 0xFFFF_FFFF else ((1 as bv32) << n) - 1
  }

  // The mask has exactly the bits from..to.
  ghost predicate Selects(mask: bv32, from: nat, to: nat) {
    forall k: nat :: k < 32 ==> (Bit(mask, k) <==> from <= k < to)
  }

  function FirstMask(startbit: nat, endbit: nat): (mask: bv32)
    requires startbit < 32 && startbit <= endbit <= 32
    ensures Selects(mask, startbit, endbit)
  {
    SelectsRange(startbit, endbit);
    Minus(LowBits(endbit), LowBits(startbit))
  }

  lemma SelectsRange(from: nat, to: nat)
    requires from <= to <= 32
    ensures Selects(RangeMask(from, to), from, to)
  {
    forall k: nat | k < 32 ensures Bit(RangeMask(from, to), k) <==> from <= k < to { RangeMaskBit(from, to, k); }
  }

  function NextMask(numBits: nat): (mask: bv32)
    ensures Selects(mask, 0, numBits)
  {
    SelectsLow(if numBits >= 32 then 32 else numBits);
    if numBits >= 32 then LowBits(32) else LowBits(numBits)
  }

  lemma SelectsLow(n: nat)
    requires n <= 32
    ensures Selects(LowMask(n), 0, n)
  {
    forall k: nat | k < 32 ensures Bit(LowMask(n), k) <==> k < n { LowMaskBit(n, k); }
  }

  // One update of a status word: |= mask or &= ~mask.
  function Updated(w: bv32, mask: bv32, value: bool): bv32 {
    if value then Or(w, mask) else AndNot(w, mask)
  }

  lemma UpdatedBit(w: bv32, mask: bv32, value: bool, k: nat)
    ensures Bit(Updated(w, mask, value), k) == if Bit(mask, k) then value else Bit(w, k)
  {
    if value { OrBit(w, mask, k); } else { AndNotBit(w, mask, k); }
  }

  lemma UpdatedBits(w: bv32, mask: bv32, from: nat, to: nat, value: bool, w': bv32)
    requires Selects(mask, from, to) && w' == Updated(w, mask, value)
    ensures forall k: nat :: k < 32 ==> Bit(w', k) == if from <= k < to then value else Bit(w, k)
  {
    forall k: nat | k < 32 ensures Bit(w', k) == if from <= k < to then value else Bit(w, k) {
      UpdatedBit(w, mask, value, k);
    }
  }

  lemma BitsOfUpdate(words: seq<bv32>, i: nat, from: nat, to: nat, value: bool, w: bv32)
    requires i < |words| && from <= to <= 32
    requires forall k: nat :: k < 32 ==> Bit(w, k) == if from <= k < to then value else Bit(words[i], k)
    ensures Bits(words[i := w]) == Fill(Bits(words), 32 * i + from, to - from, value)
  {
    var after, filled := Bits(words[i := w]), Fill(Bits(words), 32 * i + from, to - from, value);
    forall b: nat | b < 32 * |words| ensures after[b] == filled[b] {
      BitsAt(words, b);
      BitsAt(words[i := w], b);
      assert BitOf(words[i := w], b) == if b / 32 == i then Bit(w, b % 32) else BitOf(words, b);
    }
  }

  lemma FillTwice(bits: seq<bool>, start: nat, n: nat, m: nat, value: bool)
    requires start + n + m <= |bits|
    ensures Fill(Fill(bits, start, n, value), start + n, m, value) == Fill(bits, start, n + m, value)
  {}

  // The body of the loop below, for the word that holds the lines 32 * i .. 32 * i + 32.
  method UpdateWord(words: array<bv32>, i: nat, ghost from: nat, ghost to: nat, mask: bv32, value: bool)
    requires i < words.Length && from <= to <= 32 && Selects(mask, from, to)
    modifies words
    ensures Bits(words[..]) == Fill(old(Bits(words[..])), 32 * i + from, to - from, value)
  {
    hide Bits; hide Updated; hide Bit; hide Selects;
    var w := Updated(words[i], mask, value);
    UpdatedBits(words[i], mask, from, to, value, w);
    BitsOfUpdate(words[..], i, from, to, value, w);
    words[i] := w;
    assert words[..] == old(words[..])[i := w];
  }

  // CyU3PDmaBufMgrSetStatus.
  method SetStatus(words: array<bv32>, startPos: nat, numBits: nat, value: bool)
    requires startPos + numBits <= 32 * words.Length
    modifies words
    ensures Bits(words[..]) == Fill(old(Bits(words[..])), startPos, numBits, value)
  {
    var wordnum: nat, startbit: nat := startPos / 32, startPos % 32;
    var endbit: nat := if startbit + numBits < 32 then startbit + numBits else 32;
    var mask := FirstMask(startbit, endbit);
    var left := numBits;
    ghost var was := Bits(words[..]);
    assert was == Fill(was, startPos, 0, value);
    while left > 0
      invariant left <= numBits
      invariant startbit < 32 && startbit <= endbit <= 32
      invariant Selects(mask, startbit, endbit)
      invariant left > 0 ==> startbit < endbit
      invariant endbit == if startbit + left < 32 then startbit + left else 32
      invariant left > 0 ==> 32 * wordnum + startbit == startPos + (numBits - left)
      invariant Bits(words[..]) == Fill(was, startPos, numBits - left, value)
      decreases left
    {
      FillTwice(was, startPos, numBits - left, endbit - startbit, value);
      UpdateWord(words, wordnum, startbit, endbit, mask, value);
      wordnum := wordnum + 1;
      left := left - (endbit - startbit);
      startbit := 0;
      mask := NextMask(left);
      if left >= 32 {
        endbit := 32;
      } else {
        endbit := left;
      }
    }
  }

  lemma ShiftReadsBit(w: bv32, bitnum: nat)
    requires bitnum < 32
    ensures Meets(w, (1 as bv32) << bitnum) == Bit(w, bitnum)
  {
    ShiftIsOneBit(bitnum);
    MeetsBit(w, bitnum);
  }

  // The source's test of one status bit.
  method TestBit(w: bv32, bitnum: nat) returns (value: bool)
    requires bitnum < 32
    ensures value == Bit(w, bitnum)
  {
    ShiftReadsBit(w, bitnum);
    value := w & ((1 as bv32) << bitnum) != 0;
  }

  method ReadBit(words: array<bv32>, wordnum: nat, bitnum: nat) returns (value: bool)
    requires wordnum < words.Length && bitnum < 32
    ensures value == Bits(words[..])[32 * wordnum + bitnum]
  {
    value := TestBit(words[wordnum], bitnum);
    BitsAt(words[..], 32 * wordnum + bitnum);
  }

  // count clear bits end at position pos, none earlier within lo..pos fits, and
  // the run cannot be extended to the left.
  ghost predicate Scanned(bits: seq<bool>, lo: nat, pos: nat, count: nat, m: nat) {
    && lo + count <= pos <= |bits|
    && count < m
    && ClearRun(bits, pos - count, count)
    && (lo + count < pos ==> bits[pos - count - 1])
    && NoRun(bits, lo, pos, m)
  }

  lemma ScanOneBit(bits: seq<bool>, lo: nat, pos: nat, count: nat, m: nat)
    requires Scanned(bits, lo, pos, count, m) && pos < |bits|
    ensures bits[pos] ==> Scanned(bits, lo, pos + 1, 0, m)
    ensures !bits[pos] && count + 1 < m ==> Scanned(bits, lo, pos + 1, count + 1, m)
    ensures !bits[pos] && count + 1 == m ==>
              ClearRun(bits, pos - count, m) && forall p: nat :: lo <= p < pos - count ==> !ClearRun(bits, p, m)
  {
    forall p: nat | lo <= p && p + m <= pos + 1 && ClearRun(bits, p, m)
      ensures !bits[pos] && count + 1 == m && p == pos - count
    {
      if p + m == pos + 1 {
        assert !bits[pos];
        assert pos - count <= p;
      }
    }
    forall p: nat | lo <= p < pos - count && !bits[pos] && count + 1 == m ensures !ClearRun(bits, p, m) {
      assert p + m <= pos;
    }
  }

  // The scan of the bits pos..hi, with count clear bits just before pos.
  function Scan(bits: seq<bool>, pos: nat, hi: nat, count: nat, m: nat): Option<nat>
    requires count <= pos <= hi <= |bits|
    decreases hi - pos
  {
    if pos == hi then None
    else if bits[pos] then Scan(bits, pos + 1, hi, 0, m)
    else if count + 1 == m then Some(pos - count)
    else Scan(bits, pos + 1, hi, count + 1, m)
  }

  lemma {:induction false} ScanFindsFirstRun(bits: seq<bool>, lo: nat, pos: nat, hi: nat, count: nat, m: nat)
    requires Scanned(bits, lo, pos, count, m) && pos <= hi <= |bits|
    ensures Scan(bits, pos, hi, count, m) == FirstRun(bits, lo, hi, m)
    decreases hi - pos
  {
    if pos < hi {
      ScanOneBit(bits, lo, pos, count, m);
      if bits[pos] {
        ScanFindsFirstRun(bits, lo, pos + 1, hi, 0, m);
      } else if count + 1 < m {
        ScanFindsFirstRun(bits, lo, pos + 1, hi, count + 1, m);
      }
    }
  }

  function WholeScan(bits: seq<bool>, from: nat, m: nat): Option<nat>
    requires from <= |bits|
  {
    Then(Scan(bits, from, |bits|, 0, m), Scan(bits, 0, from, 0, m))
  }

  function Then(a: Option<nat>, b: Option<nat>): Option<nat> { if a.Some? then a else b }

  lemma WholeScanIsSearch(bits: seq<bool>, from: nat, m: nat)
    requires from <= |bits| && 1 <= m
    ensures WholeScan(bits, from, m) == Search(bits, from, m)
  {
    ScanFindsFirstRun(bits, from, from, |bits|, 0, m);
    ScanFindsFirstRun(bits, 0, 0, from, 0, m);
  }

  // The search loop of CyU3PDmaBufferAlloc, for m clear bits in a row. The scan
  // still to come is pos..hi, and before the wrap also `rest`, the part below searchPos.
  method ScanWords(words: array<bv32>, searchPos: nat, m: nat)
    returns (found: bool, start: nat, wordnum: nat)
    requires searchPos < words.Length && 1 <= m
    ensures found ==> 1 <= start && wordnum == (start + m - 2) / 32
    ensures WholeScan(Bits(words[..]), 32 * searchPos, m) == if found then Some(start - 1) else None
  {
    ghost var bits, from := Bits(words[..]), 32 * searchPos;
    ghost var pos: nat, hi: nat := from, |bits|;
    ghost var goal, lower := WholeScan(bits, from, m), Scan(bits, 0, from, 0, m);
    ghost var rest := lower;
    var bitnum: nat, count: nat, tmp: nat := 0, 0, 0;
    wordnum, start, found := searchPos, 0, false;
    while tmp < words.Length
      invariant tmp <= words.Length && wordnum < words.Length && bitnum < 32
      invariant tmp == words.Length ==> bitnum == 0
      invariant tmp < words.Length - searchPos ==> wordnum == searchPos + tmp && hi == |bits| && rest == lower
      invariant tmp >= words.Length - searchPos ==>
                  wordnum == searchPos + tmp - words.Length && hi == from && rest == None
      invariant count <= pos == 32 * wordnum + bitnum <= hi
      invariant count > 0 ==> start == pos - count + 1
      invariant goal == Then(Scan(bits, pos, hi, count, m), rest)
      decreases words.Length - tmp, 32 - bitnum
    {
      var occupied := ReadBit(words, wordnum, bitnum);
      if !occupied {
        if count == 0 {
          start := 32 * wordnum + bitnum + 1;
        }
        count := count + 1;
        if count == m {
          found := true;
          break;
        }
      } else {
        count := 0;
      }
      bitnum, pos := bitnum + 1, pos + 1;
      if bitnum == 32 {
        bitnum := 0;
        wordnum := wordnum + 1;
        tmp := tmp + 1;
        if wordnum == words.Length {
          wordnum := 0;
          count := 0;
          pos, hi, rest := 0, from, None;
        }
      }
    }
  }

  // What that loop finds: the leftmost run at or above the start word, else the leftmost below it.
  method FindClear(words: array<bv32>, searchPos: nat, m: nat)
    returns (found: bool, start: nat, wordnum: nat)
    requires searchPos < words.Length && 1 <= m
    ensures found ==> 1 <= start && wordnum == (start + m - 2) / 32
    ensures Search(Bits(words[..]), 32 * searchPos, m) == if found then Some(start - 1) else None
  {
    hide *;
    WholeScanIsSearch(Bits(words[..]), 32 * searchPos, m);
    found, start, wordnum := ScanWords(words, searchPos, m);
  }

  // The loop of CyU3PDmaBufferFree that counts the set bits from a line on.
  method CountSet(words: array<bv32>, line: nat) returns (count: nat)
    requires line < 32 * words.Length
    ensures count == RunLength(Bits(words[..]), line)
  {
    ghost var bits := Bits(words[..]);
    ghost var goal, pos: nat := RunLength(bits, line), line;
    var wordnum: nat, bitnum: nat := line / 32, line % 32;
    count := 0;
    while wordnum < words.Length
      invariant wordnum <= words.Length && bitnum < 32
      invariant wordnum == words.Length ==> bitnum == 0
      invariant pos == 32 * wordnum + bitnum
      invariant goal == count + RunLength(bits, pos)
      decreases |bits| - pos
    {
      var occupied := ReadBit(words, wordnum, bitnum);
      if !occupied {
        break;
      }
      count := count + 1;
      bitnum := bitnum + 1;
      pos := pos + 1;
      if bitnum == 32 {
        bitnum := 0;
        wordnum := wordnum + 1;
      }
    }
  }
}
