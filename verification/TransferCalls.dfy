/** The calls to the USB endpoint, and the order in which they have to come. Nothing here knows of
    the loop that makes them. */
module TransferCalls {
  // The calls to the endpoint, in order, with their outcome where one is tested.
  datatype Event =
    | Begin(slot: nat, buffer: nat, accepted: bool)  // BeginDataXfer(inBuf[buffer], .., &inOvLap[slot])
    | Send                                           // the request that makes the device answer
    | Wait(slot: nat, ok: bool)                      // WaitForXfer
    | Abort
    | Finish(slot: nat, passed: nat)                 // FinishDataXfer(inBuf[passed], .., inContext[slot])

  // What the endpoint answers: whether begin of a buffer, wait and finish of a step succeed.
  datatype Endpoint = Endpoint(begins: nat -> bool, waits: nat -> bool, finishes: nat -> bool)

  function Min(a: nat, b: nat): nat { if a < b then a else b }


  // First `count` begins, buffer i in slot i; then the one request that makes the device answer.
  ghost predicate RequestOnce(es: seq<Event>, count: nat) {
    && count < |es| && es[count] == Send
    && (forall i :: 0 <= i < count ==> es[i].Begin? && es[i].slot == i && es[i].buffer == i)
    && (forall i :: count < i < |es| ==> es[i] != Send)
  }

  // Just before every finish its slot is waited for, and if that fails the endpoint is aborted in
  // between; there is no other call between the two, so no begin either.
  ghost predicate WaitedFor(es: seq<Event>) { forall f :: 0 <= f < |es| ==> WaitedAt(es, f) }

  predicate WaitedAt(es: seq<Event>, f: int)
    requires 0 <= f < |es|
  {
    es[f].Finish? ==>
      || (1 <= f && es[f - 1] == Wait(es[f].slot, true))
      || (2 <= f && es[f - 2] == Wait(es[f].slot, false) && es[f - 1] == Abort)
  }

  // A begin after the request refills the slot that has just been finished.
  ghost predicate RefillsOnly(es: seq<Event>, count: nat) {
    forall i :: count < i < |es| && es[i].Begin? ==> es[i - 1].Finish? && es[i - 1].slot == es[i].slot
  }

  // An abort comes after a failed wait, or last.
  ghost predicate AbortsAfterFailure(es: seq<Event>) {
    forall a :: 0 <= a < |es| - 1 && es[a] == Abort ==> 1 <= a && es[a - 1].Wait? && !es[a - 1].ok
  }

  ghost predicate EndsWithAbort(es: seq<Event>) { es != [] && es[|es| - 1] == Abort }

  // All begins, with slot, buffer and outcome, and all waits, with slot and outcome, in order.
  function Begun(es: seq<Event>): seq<(int, int, bool)> {
    if es == [] then []
    else
      var e := es[|es| - 1];
      Begun(es[..|es| - 1]) + if e.Begin? then [(e.slot, e.buffer, e.accepted)] else []
  }

  function Waits(es: seq<Event>): seq<(int, bool)> {
    if es == [] then []
    else
      var e := es[|es| - 1];
      Waits(es[..|es| - 1]) + if e.Wait? then [(e.slot, e.ok)] else []
  }

  function Finished(es: seq<Event>): seq<int> {
    if es == [] then []
    else
      var e := es[|es| - 1];
      Finished(es[..|es| - 1]) + if e.Finish? then [e.slot] else []
  }

  lemma AddOne(es: seq<Event>, e: Event)
    ensures Begun(es + [e]) == Begun(es) + if e.Begin? then [(e.slot, e.buffer, e.accepted)] else []
    ensures Waits(es + [e]) == Waits(es) + if e.Wait? then [(e.slot, e.ok)] else []
    ensures Finished(es + [e]) == Finished(es) + if e.Finish? then [e.slot] else []
  {
    assert (es + [e])[..|es|] == es;
  }

  // What holds of the calls so far, while the loop runs.
  ghost predicate SoFar(es: seq<Event>, count: nat) {
    RequestOnce(es, count) && WaitedFor(es) && RefillsOnly(es, count) && EveryAbortAfterFailure(es)
  }

  ghost predicate EveryAbortAfterFailure(es: seq<Event>) {
    forall a :: 0 <= a < |es| && es[a] == Abort ==> 1 <= a && es[a - 1].Wait? && !es[a - 1].ok
  }

  // A wait, an abort if it fails, a finish of the slot, and perhaps a refill of it.
  function OneTurnOf(slot: nat, ok: bool, passed: nat, refill: bool, buffer: nat, accepted: bool): seq<Event> {
    [Wait(slot, ok)] + (if ok then [] else [Abort]) + [Finish(slot, passed)]
    + if refill then [Begin(slot, buffer, accepted)] else []
  }

  lemma TurnInSteps(es: seq<Event>, slot: nat, ok: bool, passed: nat, refill: bool, buffer: nat, accepted: bool)
    ensures var e1 := es + [Wait(slot, ok)];
            var e2 := if ok then e1 else e1 + [Abort];
            var e3 := e2 + [Finish(slot, passed)];
            es + OneTurnOf(slot, ok, passed, refill, buffer, accepted)
            == if refill then e3 + [Begin(slot, buffer, accepted)] else e3
  {}

  lemma AddTurn(es: seq<Event>, count: nat, slot: nat, ok: bool, passed: nat,
                refill: bool, buffer: nat, accepted: bool)
    requires SoFar(es, count) && es != []
    ensures var es' := es + OneTurnOf(slot, ok, passed, refill, buffer, accepted);
            && SoFar(es', count)
            && Waits(es') == Waits(es) + [(slot, ok)]
            && Finished(es') == Finished(es) + [slot]
            && Begun(es') == Begun(es) + if refill then [(slot, buffer, accepted)] else []
  {
    hide Begun; hide Waits; hide Finished; hide SoFar; hide OneTurnOf;
    var e1 := es + [Wait(slot, ok)];
    var e2 := if ok then e1 else e1 + [Abort];
    var e3 := e2 + [Finish(slot, passed)];
    TurnInSteps(es, slot, ok, passed, refill, buffer, accepted);
    AddOne(es, Wait(slot, ok));
    AddPlain(es, count, Wait(slot, ok));
    if !ok {
      AddOne(e1, Abort);
      AddPlain(e1, count, Abort);
    }
    AddOne(e2, Finish(slot, passed));
    AddPlain(e2, count, Finish(slot, passed));
    if refill {
      AddOne(e3, Begin(slot, buffer, accepted));
      AddPlain(e3, count, Begin(slot, buffer, accepted));
    }
  }

  lemma KeepsRequest(es: seq<Event>, count: nat, e: Event)
    requires RequestOnce(es, count) && e != Send
    ensures RequestOnce(es + [e], count)
  {}

  lemma KeepsWaitedFor(es: seq<Event>, e: Event)
    requires WaitedFor(es)
    requires e.Finish? ==>
               || (1 <= |es| && es[|es| - 1] == Wait(e.slot, true))
               || (2 <= |es| && es[|es| - 2] == Wait(e.slot, false) && es[|es| - 1] == Abort)
    ensures WaitedFor(es + [e])
  {
    var es' := es + [e];
    forall f | 0 <= f < |es'| ensures WaitedAt(es', f) {
      if f < |es| {
        assert WaitedAt(es, f);
        assert es'[f] == es[f] && (1 <= f ==> es'[f - 1] == es[f - 1]) && (2 <= f ==> es'[f - 2] == es[f - 2]);
      } else {
        assert es'[f] == e && (1 <= f ==> es'[f - 1] == es[f - 1]) && (2 <= f ==> es'[f - 2] == es[f - 2]);
      }
    }
  }

  lemma KeepsRefills(es: seq<Event>, count: nat, e: Event)
    requires RefillsOnly(es, count) && 1 <= |es|
    requires e.Begin? ==> es[|es| - 1].Finish? && es[|es| - 1].slot == e.slot
    ensures RefillsOnly(es + [e], count)
  {
    var es' := es + [e];
    forall i | count < i < |es'| && es'[i].Begin? ensures es'[i - 1].Finish? && es'[i - 1].slot == es'[i].slot {
      if i < |es| { assert es[i] == es'[i]; }
    }
  }

  lemma KeepsAborts(es: seq<Event>, e: Event)
    requires EveryAbortAfterFailure(es)
    requires e.Abort? ==> 1 <= |es| && es[|es| - 1].Wait? && !es[|es| - 1].ok
    ensures EveryAbortAfterFailure(es + [e])
  {
    var es' := es + [e];
    forall a | 0 <= a < |es'| && es'[a] == Abort ensures 1 <= a && es'[a - 1].Wait? && !es'[a - 1].ok {
      if a < |es| { assert es[a] == es'[a]; }
    }
  }

  // One more call that fits what comes before it.
  lemma AddPlain(es: seq<Event>, count: nat, e: Event)
    requires SoFar(es, count) && e != Send && 1 <= |es|
    requires e.Finish? ==>
               || es[|es| - 1] == Wait(e.slot, true)
               || (2 <= |es| && es[|es| - 2] == Wait(e.slot, false) && es[|es| - 1] == Abort)
    requires e.Begin? ==> es[|es| - 1].Finish? && es[|es| - 1].slot == e.slot
    requires e.Abort? ==> es[|es| - 1].Wait? && !es[|es| - 1].ok
    ensures SoFar(es + [e], count)
  {
    hide RequestOnce; hide WaitedFor; hide RefillsOnly; hide EveryAbortAfterFailure;
    KeepsRequest(es, count, e);
    KeepsWaitedFor(es, e);
    KeepsRefills(es, count, e);
    KeepsAborts(es, e);
  }

  // The last abort.
  lemma AddLast(es: seq<Event>, count: nat)
    requires SoFar(es, count)
    ensures var all := es + [Abort];
            && RequestOnce(all, count) && WaitedFor(all) && RefillsOnly(all, count)
            && AbortsAfterFailure(all) && EndsWithAbort(all)
            && Begun(all) == Begun(es) && Waits(all) == Waits(es) && Finished(all) == Finished(es)
  {
    AddOne(es, Abort);
    hide Begun; hide Waits; hide Finished;
    assert es != [];
    LastAbort(es);
    hide WaitedFor; hide RefillsOnly; hide EveryAbortAfterFailure;
    KeepsRequest(es, count, Abort);
    KeepsWaitedFor(es, Abort);
    KeepsRefills(es, count, Abort);
  }

  lemma LastAbort(es: seq<Event>)
    requires EveryAbortAfterFailure(es)
    ensures AbortsAfterFailure(es + [Abort])
  {
    var all := es + [Abort];
    forall a | 0 <= a < |all| - 1 && all[a] == Abort ensures 1 <= a && all[a - 1].Wait? && !all[a - 1].ok {
      assert es[a] == all[a];
    }
  }
}
