/** The queue of overlapped bulk transfers in send_and_read_bulk: which slot and
    which buffer each call to the USB endpoint gets. */
module TransferRing {
  import opened TransferCalls

  // The number of transfers begun before the loop.
  function Depth(n: nat, size: nat): nat { Min(n, size) }

  // ----- the endpoint's side: what a sequence of calls does to the slots

  datatype Ring = Ring(inFlight: map<nat, nat>, begun: seq<nat>, finished: seq<nat>, legal: bool)

  // A slot holds at most one transfer; a rejected begin leaves it empty, and only a slot that holds
  // a transfer can be waited for or finished.
  function Do(r: Ring, e: Event): Ring {
    match e
    case Begin(slot, buffer, accepted) =>
      Ring(if accepted then r.inFlight[slot := buffer] else r.inFlight,
           r.begun + [buffer], r.finished, r.legal && slot !in r.inFlight)
    case Wait(slot, _) => r.(legal := r.legal && slot in r.inFlight)
    case Finish(slot, _) =>
      if slot in r.inFlight then
        Ring(r.inFlight - {slot}, r.begun, r.finished + [r.inFlight[slot]], r.legal)
      else r.(legal := false)
    case _ => r
  }

  function DoAll(r: Ring, es: seq<Event>): Ring {
    if es == [] then r else Do(DoAll(r, es[..|es| - 1]), es[|es| - 1])
  }

  const IDLE: Ring := Ring(map[], [], [], true)

  lemma {:induction false} DoConcat(r: Ring, a: seq<Event>, b: seq<Event>)
    ensures DoAll(r, a + b) == DoAll(DoAll(r, a), b)
    decreases |b|
  {
    if b == [] {
      assert a + b == a;
    } else {
      assert (a + b)[..|a + b| - 1] == a + b[..|b| - 1];
      DoConcat(r, a, b[..|b| - 1]);
    }
  }

  // The accepted transfers of the buffers lo..hi, each in the slot of its number.
  function Window(lo: nat, hi: nat, size: nat, usb: Endpoint): map<nat, nat>
    requires lo <= hi && size > 0
  {
    if lo == hi then map[]
    else
      var w := Window(lo, hi - 1, size, usb);
      if usb.begins(hi - 1) then w[(hi - 1) % size := hi - 1] else w
  }

  function UpTo(n: nat): seq<nat> { seq(n, i => i) }

  lemma ModDistinct(a: nat, b: nat, size: nat)
    requires size > 0 && a < b < a + size
    ensures a % size != b % size
  {
    if a % size == b % size {
      assert a == size * (a / size) + a % size && b == size * (b / size) + b % size;
      assert b - a == size * (b / size - a / size);
      NoMultiple(size, b / size - a / size);
    }
  }

  lemma NoMultiple(size: nat, d: int)
    requires size > 0
    ensures !(0 < size * d < size)
  {
    if d >= 1 { assert size * d >= size * 1; }
    if d <= 0 { assert size * d <= 0; }
  }

  lemma {:induction false} WindowKeys(lo: nat, hi: nat, size: nat, usb: Endpoint, b: nat)
    requires lo <= hi <= lo + size && size > 0
    requires lo <= b < lo + size
    ensures var w := Window(lo, hi, size, usb);
            if b < hi && usb.begins(b) then b % size in w && w[b % size] == b else b % size !in w
  {
    if lo < hi {
      WindowKeys(lo, hi - 1, size, usb, b);
      if b < hi - 1 { ModDistinct(b, hi - 1, size); }
      if hi - 1 < b { ModDistinct(hi - 1, b, size); }
    }
  }

  lemma {:induction false} WindowDropFirst(lo: nat, hi: nat, size: nat, usb: Endpoint)
    requires lo < hi <= lo + size && size > 0
    ensures Window(lo, hi, size, usb) - {lo % size} == Window(lo + 1, hi, size, usb)
  {
    if lo + 1 < hi {
      WindowDropFirst(lo, hi - 1, size, usb);
      ModDistinct(lo, hi - 1, size);
    }
  }

  lemma {:induction false} WindowSize(lo: nat, hi: nat, size: nat, usb: Endpoint)
    requires lo <= hi <= lo + size && size > 0
    ensures |Window(lo, hi, size, usb)| <= hi - lo
  {
    if lo < hi {
      var w, slot := Window(lo, hi - 1, size, usb), (hi - 1) % size;
      WindowSize(lo, hi - 1, size, usb);
      assert Window(lo, hi, size, usb) == if usb.begins(hi - 1) then w[slot := hi - 1] else w;
      hide Window;
      assert w[slot := hi - 1].Keys == w.Keys + {slot};
    }
  }

  // ----- the calls that the source makes

  // One turn of the loop.
  function Turn(k: nat, n: nat, size: nat, usb: Endpoint): seq<Event>
    requires k < n && size > 0
  {
    var depth := Depth(n, size);
    [Wait(k % size, usb.waits(k))] + (if usb.waits(k) then [] else [Abort])
    + [Finish(k % size, Min(k, n - depth))]
    + if k + depth < n then [Begin(k % size, k + depth, usb.begins(k + depth))] else []
  }

  function Prologue(count: nat, usb: Endpoint): seq<Event> {
    seq(count, i requires i >= 0 => Begin(i, i, usb.begins(i)))
  }

  function Turns(k: nat, n: nat, size: nat, usb: Endpoint): seq<Event>
    requires k <= n && size > 0
  {
    if k == 0 then [] else Turns(k - 1, n, size, usb) + Turn(k - 1, n, size, usb)
  }

  // The calls before the final abort, when the first transfers could be begun.
  function Calls(n: nat, size: nat, usb: Endpoint): seq<Event>
    requires size > 0
  {
    Opening(n, size, usb) + Turns(n, n, size, usb)
  }

  function Opening(n: nat, size: nat, usb: Endpoint): seq<Event> { Prologue(Depth(n, size), usb) + [Send] }

  predicate Accepted(count: nat, usb: Endpoint) { forall j: nat :: j < count ==> usb.begins(j) }

  predicate Started(n: nat, size: nat, usb: Endpoint) { Accepted(Depth(n, size), usb) }

  // All calls. When one of the first transfers is rejected, the loop is not entered.
  function AllCalls(n: nat, size: nat, usb: Endpoint): seq<Event>
    requires size > 0
  {
    (if Started(n, size, usb) then Calls(n, size, usb) else Opening(n, size, usb)) + [Abort]
  }

  // The loop that fills the queue.
  method BeginAll(transferCount: nat, queueSize: nat, usb: Endpoint)
    returns (calls: seq<Event>, status: bool, bufferCounter: nat)
    ensures bufferCounter == Depth(transferCount, queueSize) && calls == Prologue(bufferCounter, usb)
    ensures status <==> Accepted(bufferCounter, usb)
  {
    bufferCounter := 0;
    calls, status := [], true;
    var i: nat := 0;
    while i < queueSize && i < transferCount
      invariant i <= Depth(transferCount, queueSize) && bufferCounter == i
      invariant calls == Prologue(i, usb)
      invariant status <==> Accepted(i, usb)
    {
      calls := calls + [Begin(i, i, usb.begins(i))];
      bufferCounter := bufferCounter + 1;
      if !usb.begins(i) {
        status := false;
      }
      i := i + 1;
    }
  }

  // The body of the transfer loop; k numbers the outcomes of the endpoint.
  method OneTurn(k: nat, n: nat, size: nat, usb: Endpoint, qCtr: nat, counter: nat, readOffset: nat)
    returns (calls: seq<Event>, status: bool, bufferCounter: nat)
    requires k < n && size > 0 && qCtr == k % size && readOffset == Depth(n, size) && counter == Min(k + readOffset, n)
    ensures calls == Turn(k, n, size, usb) && bufferCounter == Min(k + 1 + readOffset, n)
    ensures status <==> usb.waits(k) && usb.finishes(k) && (bufferCounter > counter ==> usb.begins(counter))
  {
    bufferCounter, status := counter, true;
    calls := [Wait(qCtr, usb.waits(k))];
    if !usb.waits(k) {
      status := false;
      calls := calls + [Abort];
    }
    calls := calls + [Finish(qCtr, bufferCounter - readOffset)];
    if !usb.finishes(k) {
      status := false;
    }
    if bufferCounter < n {
      calls := calls + [Begin(qCtr, bufferCounter, usb.begins(bufferCounter))];
      if !usb.begins(bufferCounter) {
        status := false;
      }
      bufferCounter := bufferCounter + 1;
    }
  }

  // The calls of send_and_read_bulk, as sequences of begins and turns.
  method MakeCalls(transferCount: nat, queueSize: nat, usb: Endpoint) returns (calls: seq<Event>, status: bool)
    requires queueSize > 0
    ensures calls == AllCalls(transferCount, queueSize, usb)
    ensures status <==> (forall i: nat :: i < transferCount ==> usb.begins(i) && usb.waits(i) && usb.finishes(i))
  {
    hide Turn; hide Prologue;
    var transferCtr, bufferCounter := transferCount, 0;
    calls, status, bufferCounter := BeginAll(transferCount, queueSize, usb);
    calls := calls + [Send];
    var qCtr: nat, readOffset, k: nat := 0, bufferCounter, 0;
    ghost var start := calls;
    if status {
      while transferCtr > 0
        invariant k + transferCtr == transferCount
        invariant qCtr == k % queueSize && bufferCounter == Min(k + readOffset, transferCount)
        invariant calls == start + Turns(k, transferCount, queueSize, usb)
        invariant status <==> (forall j: nat :: j < bufferCounter ==> usb.begins(j))
                              && (forall j: nat :: j < k ==> usb.waits(j) && usb.finishes(j))
      {
        var turn, ok, counter := OneTurn(k, transferCount, queueSize, usb, qCtr, bufferCounter, readOffset);
        assert calls + turn == start + (Turns(k, transferCount, queueSize, usb) + turn);
        calls, status, bufferCounter := calls + turn, status && ok, counter;
        NextSlot(k, queueSize);
        qCtr := qCtr + 1;
        transferCtr := transferCtr - 1;
        if qCtr == queueSize {
          qCtr := 0;
        }
        k := k + 1;
      }
    }
    calls := calls + [Abort];
  }

  lemma NextSlot(k: nat, size: nat)
    requires size > 0
    ensures (k + 1) % size == if k % size + 1 == size then 0 else k % size + 1
  {
    var q, r := k / size, k % size;
    assert k == size * q + r;
    if r + 1 == size { ModIs(k + 1, size, q + 1, 0); } else { ModIs(k + 1, size, q, r + 1); }
  }

  lemma ModIs(x: nat, size: nat, q: nat, r: nat)
    requires size > 0 && x == size * q + r && r < size
    ensures x % size == r
  {
    assert x == size * (x / size) + x % size;
    NoMultiple(size, q - x / size);
    NoMultiple(size, x / size - q);
  }

  // ----- what the calls do to the slots

  lemma {:induction false} PrologueFills(count: nat, size: nat, usb: Endpoint)
    requires count <= size && size > 0
    ensures DoAll(IDLE, Prologue(count, usb)) == Ring(Window(0, count, size, usb), UpTo(count), [], true)
    decreases count
  {
    if count > 0 {
      var es := Prologue(count, usb);
      assert es[..count - 1] == Prologue(count - 1, usb);
      PrologueFills(count - 1, size, usb);
      WindowKeys(0, count - 1, size, usb, count - 1);
      ModIs(count - 1, size, 0, count - 1);
      assert UpTo(count) == UpTo(count - 1) + [count - 1];
    }
  }

  // The slots when the loop has made k turns, all with accepted transfers: the accepted ones among
  // the buffers k .. k + depth are in flight.
  function Expected(k: nat, n: nat, size: nat, usb: Endpoint): Ring
    requires k <= n && size > 0
  {
    var hi := Min(k + Depth(n, size), n);
    Ring(Window(k, hi, size, usb), UpTo(hi), UpTo(k), true)
  }

  lemma WaitKeeps(r: Ring, slot: nat, ok: bool)
    requires r.legal && slot in r.inFlight
    ensures DoAll(r, [Wait(slot, ok)] + if ok then [] else [Abort]) == r
  {
    DoOne(r, Wait(slot, ok));
    DoConcat(r, [Wait(slot, ok)], if ok then [] else [Abort]);
    DoOne(r, Abort);
  }

  lemma FinishMoves(k: nat, hi: nat, size: nat, usb: Endpoint, passed: nat)
    requires k < hi <= k + size && size > 0 && usb.begins(k)
    ensures Do(Ring(Window(k, hi, size, usb), UpTo(hi), UpTo(k), true), Finish(k % size, passed))
            == Ring(Window(k + 1, hi, size, usb), UpTo(hi), UpTo(k + 1), true)
  {
    WindowKeys(k, hi, size, usb, k);
    WindowDropFirst(k, hi, size, usb);
    assert UpTo(k + 1) == UpTo(k) + [k];
  }

  lemma BeginMoves(k: nat, size: nat, usb: Endpoint)
    requires size > 0
    ensures Do(Ring(Window(k + 1, k + size, size, usb), UpTo(k + size), UpTo(k + 1), true),
               Begin(k % size, k + size, usb.begins(k + size)))
            == Ring(Window(k + 1, k + 1 + size, size, usb), UpTo(k + 1 + size), UpTo(k + 1), true)
  {
    ModIs(k + size, size, k / size + 1, k % size);
    WindowKeys(k + 1, k + size, size, usb, k + size);
    assert UpTo(k + size + 1) == UpTo(k + size) + [k + size];
  }

  lemma DoThree(r: Ring, a: seq<Event>, e: Event, b: seq<Event>)
    ensures DoAll(r, a + [e] + b) == DoAll(Do(DoAll(r, a), e), b)
  {
    DoConcat(r, a + [e], b);
    DoConcat(r, a, [e]);
    DoOne(DoAll(r, a), e);
  }

  lemma DoOne(r: Ring, e: Event)
    ensures DoAll(r, [e]) == Do(r, e)
  {
    assert [e][..0] == [];
  }

  lemma TurnKeeps(k: nat, n: nat, size: nat, usb: Endpoint)
    requires k < n && size > 0 && usb.begins(k)
    ensures DoAll(Expected(k, n, size, usb), Turn(k, n, size, usb)) == Expected(k + 1, n, size, usb)
  {
    var depth := Depth(n, size);
    var hi, r0 := Min(k + depth, n), Expected(k, n, size, usb);
    var finish, refill := Finish(k % size, Min(k, n - depth)), Begin(k % size, k + depth, usb.begins(k + depth));
    WindowKeys(k, hi, size, usb, k);
    hide Do; hide Window;
    WaitKeeps(r0, k % size, usb.waits(k));
    FinishMoves(k, hi, size, usb, Min(k, n - depth));
    DoThree(r0, [Wait(k % size, usb.waits(k))] + if usb.waits(k) then [] else [Abort], finish,
            if k + depth < n then [refill] else []);
    if k + depth < n {
      BeginMoves(k, size, usb);
      DoOne(Do(r0, finish), refill);
    } else {
      assert DoAll(Do(r0, finish), []) == Do(r0, finish);
    }
  }

  lemma {:induction false} TurnsKeep(k: nat, n: nat, size: nat, usb: Endpoint)
    requires k <= n && size > 0 && Accepted(k, usb)
    ensures DoAll(Expected(0, n, size, usb), Turns(k, n, size, usb)) == Expected(k, n, size, usb)
    decreases k
  {
    hide *;
    var r := Expected(0, n, size, usb);
    TurnsUnfold(k, n, size, usb, r);
    if k > 0 {
      AcceptedBefore(k, usb);
      TurnsKeep(k - 1, n, size, usb);
      TurnKeeps(k - 1, n, size, usb);
      DoConcat(r, Turns(k - 1, n, size, usb), Turn(k - 1, n, size, usb));
    }
  }

  lemma AcceptedBefore(k: nat, usb: Endpoint)
    requires k > 0 && Accepted(k, usb)
    ensures Accepted(k - 1, usb) && usb.begins(k - 1)
  {}

  lemma TurnsUnfold(k: nat, n: nat, size: nat, usb: Endpoint, r: Ring)
    requires k <= n && size > 0
    ensures k == 0 ==> DoAll(r, Turns(k, n, size, usb)) == r
    ensures k > 0 ==> Turns(k, n, size, usb) == Turns(k - 1, n, size, usb) + Turn(k - 1, n, size, usb)
  {
    hide Turn;
  }

  lemma Opened(n: nat, size: nat, usb: Endpoint)
    requires size > 0
    ensures DoAll(IDLE, Opening(n, size, usb)) == Expected(0, n, size, usb)
  {
    var depth := Depth(n, size);
    PrologueFills(depth, size, usb);
    DoConcat(IDLE, Prologue(depth, usb), [Send]);
    DoOne(DoAll(IDLE, Prologue(depth, usb)), Send);
    assert UpTo(0) == [];
  }

  // After any number of turns whose transfers were accepted: no call was out of order, each buffer
  // so far was begun once and finished once, in order, in the slot of its number, the slots hold
  // the accepted transfers and nothing else, at most min(n, queue size) of them, and none of them
  // after the last turn.
  lemma RingIsSound(k: nat, n: nat, size: nat, usb: Endpoint)
    requires k <= n && size > 0 && Accepted(k, usb)
    ensures var r := DoAll(IDLE, Opening(n, size, usb) + Turns(k, n, size, usb));
            && r.legal && r.finished == UpTo(k) && r.begun == UpTo(Min(k + Depth(n, size), n))
            && r.inFlight == Window(k, Min(k + Depth(n, size), n), size, usb)
            && |r.inFlight| <= Depth(n, size) && (k == n ==> r.inFlight == map[])
  {
    Opened(n, size, usb);
    DoConcat(IDLE, Opening(n, size, usb), Turns(k, n, size, usb));
    TurnsKeep(k, n, size, usb);
    WindowSize(k, Min(k + Depth(n, size), n), size, usb);
    hide DoAll; hide Opening; hide Turns;
  }

  // ----- rejected transfers

  lemma {:induction false} StaysIllegal(r: Ring, es: seq<Event>)
    requires !r.legal
    ensures !DoAll(r, es).legal
    decreases |es|
  {
    if es != [] { StaysIllegal(r, es[..|es| - 1]); }
  }

  // The turn of a rejected buffer waits for an empty slot.
  lemma RejectedTurn(k: nat, n: nat, size: nat, usb: Endpoint)
    requires k < n && size > 0 && !usb.begins(k)
    ensures !DoAll(Expected(k, n, size, usb), Turn(k, n, size, usb)).legal
  {
    var r, wait := Expected(k, n, size, usb), Wait(k % size, usb.waits(k));
    WindowKeys(k, Min(k + Depth(n, size), n), size, usb, k);
    DoOne(r, wait);
    var rest := Turn(k, n, size, usb)[1..];
    assert Turn(k, n, size, usb) == [wait] + rest;
    DoConcat(r, [wait], rest);
    StaysIllegal(Do(r, wait), rest);
  }

  // The first rejected buffer below a bound, if there is one.
  function FirstRejected(from: nat, n: nat, usb: Endpoint): (k: nat)
    requires from <= n && Accepted(from, usb)
    ensures k <= n && Accepted(k, usb) && (k < n ==> !usb.begins(k))
    decreases n - from
  {
    if from == n || !usb.begins(from) then from else FirstRejected(from + 1, n, usb)
  }

  lemma {:induction false} TurnsAfter(k: nat, m: nat, n: nat, size: nat, usb: Endpoint, r: Ring)
    requires k <= m <= n && size > 0 && !DoAll(r, Turns(k, n, size, usb)).legal
    ensures !DoAll(r, Turns(m, n, size, usb)).legal
    decreases m
  {
    hide DoAll; hide Turn;
    if k < m {
      TurnsAfter(k, m - 1, n, size, usb, r);
      DoConcat(r, Turns(m - 1, n, size, usb), Turn(m - 1, n, size, usb));
      StaysIllegal(DoAll(r, Turns(m - 1, n, size, usb)), Turn(m - 1, n, size, usb));
    }
  }

  // The loop is legal exactly when no transfer is rejected in it.
  lemma LoopLegalExactlyWhen(n: nat, size: nat, usb: Endpoint)
    requires size > 0
    ensures DoAll(IDLE, Calls(n, size, usb)).legal <==> Accepted(n, usb)
  {
    hide DoAll; hide Turn; hide Opening; hide Window;
    var k := FirstRejected(0, n, usb);
    var r := Expected(0, n, size, usb);
    Opened(n, size, usb);
    DoConcat(IDLE, Opening(n, size, usb), Turns(n, n, size, usb));
    TurnsKeep(k, n, size, usb);
    if k < n {
      TurnsUnfold(k + 1, n, size, usb, r);
      RejectedTurn(k, n, size, usb);
      DoConcat(r, Turns(k, n, size, usb), Turn(k, n, size, usb));
      TurnsAfter(k + 1, n, n, size, usb, r);
    }
  }

  // All calls together wait for and finish only transfers that are in flight exactly when every
  // refill is accepted, or the loop is not entered at all.
  lemma LegalExactlyWhen(n: nat, size: nat, usb: Endpoint)
    requires size > 0
    ensures DoAll(IDLE, AllCalls(n, size, usb)).legal <==> (Started(n, size, usb) ==> Accepted(n, usb))
  {
    LoopLegalExactlyWhen(n, size, usb);
    Opened(n, size, usb);
    hide Calls; hide Opening; hide Accepted; hide Do;
    var es := if Started(n, size, usb) then Calls(n, size, usb) else Opening(n, size, usb);
    DoConcat(IDLE, es, [Abort]);
    DoOne(DoAll(IDLE, es), Abort);
    AbortKeeps(DoAll(IDLE, es));
  }

  lemma AbortKeeps(r: Ring)
    ensures Do(r, Abort) == r
  {}

  // When one of the first transfers is rejected, the accepted ones among them are aborted but none
  // is ever finished.
  lemma StoppedRunFinishesNothing(n: nat, size: nat, usb: Endpoint)
    requires size > 0 && !Started(n, size, usb)
    ensures var r := DoAll(IDLE, AllCalls(n, size, usb));
            r.finished == [] && r.inFlight == Window(0, Depth(n, size), size, usb)
  {
    Opened(n, size, usb);
    hide Opening; hide Accepted; hide Do; hide Window;
    DoConcat(IDLE, Opening(n, size, usb), [Abort]);
    DoOne(DoAll(IDLE, Opening(n, size, usb)), Abort);
    AbortKeeps(DoAll(IDLE, Opening(n, size, usb)));
    assert UpTo(0) == [];
  }

  // Three transfers in the application's queue of two, the refill rejected: its slot is waited for
  // and finished all the same.
  lemma RejectedRefillIsWaitedFor(usb: Endpoint)
    requires usb.begins(0) && usb.begins(1) && !usb.begins(2)
    ensures Started(3, 2, usb) && !DoAll(IDLE, AllCalls(3, 2, usb)).legal
  {
    LegalExactlyWhen(3, 2, usb);
    assert !Accepted(3, usb);
  }

  // ----- the buffer that is passed to FinishDataXfer

  // The buffer of the last BeginDataXfer in a slot, which made inContext[slot]; -1 before any.
  function Context(es: seq<Event>, slot: nat): int {
    if es == [] then -1
    else
      var e := es[|es| - 1];
      if e.Begin? && e.slot == slot then e.buffer else Context(es[..|es| - 1], slot)
  }

  // Every FinishDataXfer gets the buffer that the transfer of its context was begun with.
  predicate PassedRight(es: seq<Event>) {
    forall i :: 0 <= i < |es| && es[i].Finish? ==> Context(es[..i], es[i].slot) == es[i].passed
  }

  lemma OneMore(es: seq<Event>, e: Event, slot: nat)
    ensures Context(es + [e], slot) == if e.Begin? && e.slot == slot then e.buffer else Context(es, slot)
    ensures PassedRight(es + [e]) <==> PassedRight(es) && (e.Finish? ==> Context(es, e.slot) == e.passed)
  {
    var es' := es + [e];
    assert es'[..|es|] == es;
    forall i | 0 <= i < |es| ensures es'[i] == es[i] && es'[..i] == es[..i] {}
    hide Context;
    if PassedRight(es) && (e.Finish? ==> Context(es, e.slot) == e.passed) {
      forall i | 0 <= i < |es'| && es'[i].Finish? ensures Context(es'[..i], es'[i].slot) == es'[i].passed {
        if i < |es| { assert es[i].Finish?; }
      }
    }
    if PassedRight(es') {
      forall i | 0 <= i < |es| && es[i].Finish? ensures Context(es[..i], es[i].slot) == es[i].passed {
        assert es'[i].Finish?;
      }
      assert es'[|es|] == e;
    }
  }

  // The buffers lo..hi are the last ones begun, each in the slot of its number.
  ghost predicate Contexts(es: seq<Event>, lo: nat, hi: nat, size: nat)
    requires size > 0
  {
    forall b: nat :: lo <= b < hi ==> Context(es, b % size) == b
  }

  lemma {:induction false} OpeningContexts(count: nat, size: nat, usb: Endpoint)
    requires count <= size && size > 0
    ensures Contexts(Prologue(count, usb), 0, count, size) && PassedRight(Prologue(count, usb))
    decreases count
  {
    if count > 0 {
      var es, e := Prologue(count - 1, usb), Begin(count - 1, count - 1, usb.begins(count - 1));
      OpeningContexts(count - 1, size, usb);
      assert Prologue(count, usb) == es + [e];
      forall b: nat | b < count ensures Context(es + [e], b % size) == b {
        ModIs(b, size, 0, b);
        OneMore(es, e, b % size);
      }
      OneMore(es, e, 0);
    }
  }

  // What the waiting and the finish of a turn do to the contexts: nothing.
  lemma WaitAndFinish(es: seq<Event>, slot: nat, passed: nat, ok: bool)
    ensures var es' := es + [Wait(slot, ok)] + (if ok then [] else [Abort]) + [Finish(slot, passed)];
            && (forall s: nat :: Context(es', s) == Context(es, s))
            && (PassedRight(es') <==> PassedRight(es) && Context(es, slot) == passed)
  {
    var es1 := es + [Wait(slot, ok)];
    var es2 := if ok then es1 else es1 + [Abort];
    assert es1 + (if ok then [] else [Abort]) == es2;
    forall s: nat ensures Context(es2 + [Finish(slot, passed)], s) == Context(es2, s) == Context(es, s) {
      OneMore(es, Wait(slot, ok), s);
      OneMore(es1, Abort, s);
      OneMore(es2, Finish(slot, passed), s);
    }
    OneMore(es, Wait(slot, ok), slot);
    OneMore(es1, Abort, slot);
    OneMore(es2, Finish(slot, passed), slot);
  }

  // The refill of a turn gives its slot to the next buffer.
  lemma Refill(es: seq<Event>, k: nat, size: nat, accepted: bool)
    requires size > 0 && Contexts(es, k, k + size, size)
    ensures Contexts(es + [Begin(k % size, k + size, accepted)], k + 1, k + 1 + size, size)
    ensures PassedRight(es + [Begin(k % size, k + size, accepted)]) <==> PassedRight(es)
  {
    var e := Begin(k % size, k + size, accepted);
    hide PassedRight; hide Context;
    forall b: nat | k + 1 <= b < k + 1 + size ensures Context(es + [e], b % size) == b {
      OneMore(es, e, b % size);
      if b == k + size { ModIs(b, size, k / size + 1, k % size); } else { ModDistinct(k, b, size); }
    }
    OneMore(es, e, 0);
  }

  // One turn passes the right buffer exactly when it passes its own.
  lemma TurnContexts(es: seq<Event>, k: nat, n: nat, size: nat, usb: Endpoint)
    requires k < n && size > 0 && Contexts(es, k, Min(k + Depth(n, size), n), size)
    ensures Contexts(es + Turn(k, n, size, usb), k + 1, Min(k + 1 + Depth(n, size), n), size)
    ensures PassedRight(es + Turn(k, n, size, usb)) <==> PassedRight(es) && k <= n - Depth(n, size)
  {
    hide PassedRight; hide Context; hide Turn;
    var depth, slot := Depth(n, size), k % size;
    var passed := Min(k, n - depth);
    var es' := es + [Wait(slot, usb.waits(k))] + (if usb.waits(k) then [] else [Abort]) + [Finish(slot, passed)];
    WaitAndFinish(es, slot, passed, usb.waits(k));
    TurnAppended(es, k, n, size, usb);
    assert Context(es, slot) == k;
    forall b: nat | k <= b < Min(k + depth, n) ensures Context(es', b % size) == b {
      assert Context(es, b % size) == b;
    }
    if k + depth < n { Refill(es', k, size, usb.begins(k + depth)); }
  }

  lemma TurnAppended(es: seq<Event>, k: nat, n: nat, size: nat, usb: Endpoint)
    requires k < n && size > 0
    ensures var depth, slot := Depth(n, size), k % size;
            var es' := es + [Wait(slot, usb.waits(k))] + (if usb.waits(k) then [] else [Abort])
                       + [Finish(slot, Min(k, n - depth))];
            es + Turn(k, n, size, usb)
            == if k + depth < n then es' + [Begin(slot, k + depth, usb.begins(k + depth))] else es'
  {}

  // After k turns nothing wrong has been passed exactly when the queue was refilled until then, or
  // had just stopped.
  lemma {:induction false} PassedRightSoFar(k: nat, n: nat, size: nat, usb: Endpoint)
    requires k <= n && size > 0
    ensures var es := Opening(n, size, usb) + Turns(k, n, size, usb);
            && Contexts(es, k, Min(k + Depth(n, size), n), size)
            && (PassedRight(es) <==> k <= n - Depth(n, size) + 1)
    decreases k
  {
    hide Turn; hide Turns; hide Context; hide PassedRight; hide Contexts; hide Opening;
    var start := Opening(n, size, usb);
    AppendTurn(start, k, n, size, usb);
    if k == 0 {
      SentContexts(n, size, usb);
    } else {
      PassedRightSoFar(k - 1, n, size, usb);
      TurnContexts(start + Turns(k - 1, n, size, usb), k - 1, n, size, usb);
    }
  }

  lemma AppendTurn(start: seq<Event>, k: nat, n: nat, size: nat, usb: Endpoint)
    requires k <= n && size > 0
    ensures start + Turns(k, n, size, usb)
            == if k == 0 then start else (start + Turns(k - 1, n, size, usb)) + Turn(k - 1, n, size, usb)
  {
    hide Turn;
  }

  lemma SentContexts(n: nat, size: nat, usb: Endpoint)
    requires size > 0
    ensures Contexts(Opening(n, size, usb), 0, Depth(n, size), size) && PassedRight(Opening(n, size, usb))
  {
    var depth := Depth(n, size);
    var es := Prologue(depth, usb);
    OpeningContexts(depth, size, usb);
    hide PassedRight; hide Prologue; hide Context;
    forall b: nat | b < depth ensures Context(es + [Send], b % size) == b { OneMore(es, Send, b % size); }
    OneMore(es, Send, 0);
  }

  // Every FinishDataXfer of a call gets the buffer it finishes exactly when no two transfers are
  // ever in flight together, or the loop is not entered at all.
  lemma PassedBufferRightExactlyWhen(n: nat, size: nat, usb: Endpoint)
    requires size > 0
    ensures PassedRight(AllCalls(n, size, usb)) <==> (Started(n, size, usb) ==> Min(n, size) <= 1)
  {
    PassedRightSoFar(n, n, size, usb);
    SentContexts(n, size, usb);
    hide PassedRight; hide Contexts; hide Context; hide Accepted; hide Opening; hide Turns;
    OneMore(if Started(n, size, usb) then Calls(n, size, usb) else Opening(n, size, usb), Abort, 0);
  }

  // Two transfers and the queue of two that the application has: the second one gets the first buffer.
  lemma SecondTransferGetsFirstBuffer(usb: Endpoint)
    requires Started(2, 2, usb)
    ensures !PassedRight(AllCalls(2, 2, usb)) && Finish(1, 0) in AllCalls(2, 2, usb)
  {
    PassedBufferRightExactlyWhen(2, 2, usb);
    assert Finish(1, 0) in Turn(1, 2, 2, usb);
    assert Turns(2, 2, 2, usb) == Turns(1, 2, 2, usb) + Turn(1, 2, 2, usb);
  }

  // ----- the promises of a run

  // The k-th begin, wait and finish of a run, when the loop is entered.
  function Begins(n: nat, size: nat, usb: Endpoint): seq<(int, int, bool)>
    requires size > 0
  {
    seq(n, k requires 0 <= k => (k % size, k, usb.begins(k)))
  }

  function WaitsOf(n: nat, size: nat, usb: Endpoint): seq<(int, bool)>
    requires size > 0
  {
    seq(n, k requires 0 <= k => (k % size, usb.waits(k)))
  }

  function Slots(n: nat, size: nat): seq<int>
    requires size > 0
  {
    seq(n, k requires 0 <= k => k % size)
  }

  // send_and_read_bulk, with what every run of it promises. The request that makes the device answer
  // goes out once, behind the first min(n, Q) begins and before everything else; every finish is
  // waited for; a failed wait is followed by an abort, and so is the whole run. When the first begins
  // are accepted, every buffer is begun, waited for and finished once, in order, buffer k in slot
  // k mod Q; otherwise nothing is waited for or finished.
  method SendAndReadBulk(transferCount: nat, queueSize: nat, usb: Endpoint) returns (calls: seq<Event>, status: bool)
    requires queueSize > 0
    ensures calls == AllCalls(transferCount, queueSize, usb)
    ensures status <==> (forall i: nat :: i < transferCount ==> usb.begins(i) && usb.waits(i) && usb.finishes(i))
    ensures var count := if transferCount < queueSize then transferCount else queueSize;
            && RequestOnce(calls, count) && WaitedFor(calls) && RefillsOnly(calls, count)
            && AbortsAfterFailure(calls) && EndsWithAbort(calls)
            && var n := if (forall i: nat :: i < count ==> usb.begins(i)) then transferCount else 0;
               && Waits(calls) == WaitsOf(n, queueSize, usb)
               && Finished(calls) == Slots(n, queueSize)
               && Begun(calls) == Begins(if n == 0 then count else n, queueSize, usb)
  {
    RunIsOrdered(transferCount, queueSize, usb);
    hide *;
    calls, status := MakeCalls(transferCount, queueSize, usb);
  }

  lemma {:induction false} PrologueBegins(count: nat, size: nat, usb: Endpoint)
    requires count <= size && size > 0
    ensures var es := Prologue(count, usb);
            Begun(es) == Begins(count, size, usb) && Waits(es) == [] && Finished(es) == []
    decreases count
  {
    if count > 0 {
      PrologueBegins(count - 1, size, usb);
      var e := Begin(count - 1, count - 1, usb.begins(count - 1));
      assert Prologue(count, usb) == Prologue(count - 1, usb) + [e];
      AddOne(Prologue(count - 1, usb), e);
      ModIs(count - 1, size, 0, count - 1);
    }
  }

  lemma OpeningIsOrdered(n: nat, size: nat, usb: Endpoint)
    requires size > 0
    ensures var es := Opening(n, size, usb);
            && SoFar(es, Depth(n, size))
            && Begun(es) == Begins(Depth(n, size), size, usb) && Waits(es) == [] && Finished(es) == []
  {
    var es := Prologue(Depth(n, size), usb);
    PrologueBegins(Depth(n, size), size, usb);
    AddOne(es, Send);
    hide Begun; hide Waits; hide Finished; hide Begins;
    assert forall i :: 0 <= i < |es| ==> es[i] == Begin(i, i, usb.begins(i));
  }

  lemma {:induction false} TurnsAreOrdered(k: nat, n: nat, size: nat, usb: Endpoint)
    requires k <= n && size > 0
    ensures var es := Opening(n, size, usb) + Turns(k, n, size, usb);
            && SoFar(es, Depth(n, size))
            && Begun(es) == Begins(Min(k + Depth(n, size), n), size, usb)
            && Waits(es) == WaitsOf(k, size, usb) && Finished(es) == Slots(k, size)
    decreases k
  {
    hide SoFar; hide Opening; hide Turns; hide Begun; hide Waits; hide Finished; hide Turn; hide OneTurnOf;
    var depth, start := Depth(n, size), Opening(n, size, usb);
    AppendTurn(start, k, n, size, usb);
    if k == 0 {
      OpeningIsOrdered(n, size, usb);
    } else {
      var es, slot := start + Turns(k - 1, n, size, usb), (k - 1) % size;
      TurnsAreOrdered(k - 1, n, size, usb);
      TurnIs(k - 1, n, size, usb);
      NotEmpty(es, depth);
      AddTurn(es, depth, slot, usb.waits(k - 1), Min(k - 1, n - depth), k - 1 + depth < n, k - 1 + depth,
              usb.begins(k - 1 + depth));
      if k - 1 + depth < n { ModIs(k - 1 + size, size, (k - 1) / size + 1, slot); }
      MoreOf(k, Min(k - 1 + depth, n), size, usb);
      hide Begins; hide WaitsOf; hide Slots;
    }
  }

  lemma NotEmpty(es: seq<Event>, count: nat)
    requires SoFar(es, count)
    ensures es != []
  {}

  lemma TurnIs(k: nat, n: nat, size: nat, usb: Endpoint)
    requires k < n && size > 0
    ensures var depth := Depth(n, size);
            Turn(k, n, size, usb) == OneTurnOf(k % size, usb.waits(k), Min(k, n - depth), k + depth < n, k + depth,
                                               usb.begins(k + depth))
  {}

  lemma MoreOf(k: nat, hi: nat, size: nat, usb: Endpoint)
    requires size > 0 && 0 < k
    ensures WaitsOf(k, size, usb) == WaitsOf(k - 1, size, usb) + [((k - 1) % size, usb.waits(k - 1))]
    ensures Slots(k, size) == Slots(k - 1, size) + [(k - 1) % size]
    ensures Begins(hi + 1, size, usb) == Begins(hi, size, usb) + [(hi % size, hi, usb.begins(hi))]
  {}

  lemma RunIsOrdered(n: nat, size: nat, usb: Endpoint)
    requires size > 0
    ensures var calls, count := AllCalls(n, size, usb), if n < size then n else size;
            && RequestOnce(calls, count) && WaitedFor(calls) && RefillsOnly(calls, count)
            && AbortsAfterFailure(calls) && EndsWithAbort(calls)
            && var m := if (forall i: nat :: i < count ==> usb.begins(i)) then n else 0;
               && Waits(calls) == WaitsOf(m, size, usb)
               && Finished(calls) == Slots(m, size)
               && Begun(calls) == Begins(if m == 0 then count else m, size, usb)
  {
    hide SoFar; hide Opening; hide Turns; hide Begun; hide Waits; hide Finished;
    hide RequestOnce; hide WaitedFor; hide RefillsOnly; hide AbortsAfterFailure; hide EndsWithAbort;
    if Started(n, size, usb) {
      TurnsAreOrdered(n, n, size, usb);
      AddLast(Calls(n, size, usb), Depth(n, size));
    } else {
      OpeningIsOrdered(n, size, usb);
      assert WaitsOf(0, size, usb) == [] && Slots(0, size) == [];
      AddLast(Opening(n, size, usb), Depth(n, size));
    }
  }
}
