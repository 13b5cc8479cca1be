/**
 That the session bridge gets to agree with the native world: which events start a reconcile, and that one reconcile is
 enough from wherever a run has come.
 */
module SessionRuns {
  import opened Wrappers
  import opened SessionBridge

  // A connected peer starts one reconcile, unless one is under way on behalf of an earlier one; no other event does.
  // The buffers under way get the event in any case.
  lemma ReconnectStartsOneReconcile(b: Bridge, event: Event, t: Ticket)
    requires forall u | u in b.inFlight :: u < b.next
    requires b.resync.Some? ==> b.resync.value in b.inFlight
    ensures var after := Arrived(b, event);
            && (event.PeerConnected? ==> after.resync.Some? && after.resync.value in after.inFlight)
            && (event.PeerConnected? && b.resync.None? ==> after.resync.value !in b.inFlight)
            && (!event.PeerConnected? || b.resync.Some? ==> after.resync == b.resync)
            && (t in b.inFlight ==> t in after.inFlight && after.inFlight[t] == b.inFlight[t] + [event])
            && (t in after.inFlight && t !in b.inFlight ==>
                  event.PeerConnected? && b.resync.None? && after.resync == Some(t) && after.inFlight[t] == [])
  {
  }

  // A reconcile that ends, either way, is forgotten, so that the next reconnect can start another; the others go on.
  lemma EndedReconcileIsForgotten(b: Bridge, t: Ticket, other: Ticket)
    ensures var after := Ended(b, t);
            && t !in after.inFlight && after.resync != Some(t) && after.store == b.store
            && (b.resync != Some(t) ==> after.resync == b.resync)
            && (other != t ==> (other in after.inFlight <==> other in b.inFlight)
                               && (other in b.inFlight ==> after.inFlight[other] == b.inFlight[other]))
  {
  }

  lemma FirstStep(s: System, step: Step, rest: seq<Step>)
    requires Enabled(s, step) && Legal(Next(s, step), rest)
    ensures Legal(s, [step] + rest) && Run(s, [step] + rest) == Run(Next(s, step), rest)
  {
    assert ([step] + rest)[1..] == rest;
  }

  // Delivering what is left changes nothing native and leaves nothing to deliver.
  lemma {:induction false} DeliveringEverything(s: System) returns (steps: seq<Step>)
    requires Invariant(s)
    ensures Legal(s, steps) && |steps| == |s.undelivered|
    ensures var t := Run(s, steps);
            Invariant(t) && t.undelivered == [] && t.world == s.world && t.reconciled == s.reconciled
    decreases |s.undelivered|
  {
    if s.undelivered == [] {
      steps := [];
    } else {
      var next := Next(s, Deliver);
      DeliverKeepsTheInvariant(s);
      var rest := DeliveringEverything(next);
      steps := [Deliver] + rest;
      FirstStep(s, Deliver, rest);
    }
  }

  lemma OneReconcile(s: System) returns (t: System)
    requires Invariant(s)
    ensures Invariant(t) && t.reconciled && t.world == s.world && t.undelivered == s.undelivered
    ensures var n := s.bridge.next;
            && Enabled(s, Begin) && Enabled(Next(s, Begin), TakeSnapshot(n))
            && Enabled(Next(Next(s, Begin), TakeSnapshot(n)), Finish(n))
            && t == Next(Next(Next(s, Begin), TakeSnapshot(n)), Finish(n))
  {
    var n := s.bridge.next;
    var begun := Next(s, Begin);
    BeginKeepsTheInvariant(s);
    assert n !in s.taken && n in begun.bridge.inFlight;
    var taken := Next(begun, TakeSnapshot(n));
    TakeSnapshotKeepsTheInvariant(begun, n);
    t := Next(taken, Finish(n));
    FinishKeepsTheInvariant(taken, n);
  }

  // Main result: from wherever a run has come, one more reconcile and the events left make the store the native world.
  lemma OneReconcileIsEnough(world: World, store: World, steps: seq<Step>) returns (more: seq<Step>)
    requires Legal(Start(world, store), steps)
    ensures var s := Run(Start(world, store), steps);
            && Legal(s, more) && |more| == 3 + |s.undelivered|
            && var t := Run(s, more);
               t.world == s.world && t.undelivered == [] && t.bridge.store == s.world
  {
    var s := Run(Start(world, store), steps);
    RunKeepsTheInvariant(Start(world, store), steps);
    more := CatchUp(s);
  }

  lemma CatchUp(s: System) returns (more: seq<Step>)
    requires Invariant(s)
    ensures Legal(s, more) && |more| == 3 + |s.undelivered|
    ensures var t := Run(s, more);
            t.world == s.world && t.undelivered == [] && t.bridge.store == s.world
  {
    var n := s.bridge.next;
    var t := OneReconcile(s);
    var rest := DeliveringEverything(t);
    var begun := Next(s, Begin);
    var taken := Next(begun, TakeSnapshot(n));
    FirstStep(taken, Finish(n), rest);
    FirstStep(begun, TakeSnapshot(n), [Finish(n)] + rest);
    FirstStep(s, Begin, [TakeSnapshot(n)] + ([Finish(n)] + rest));
    more := [Begin] + ([TakeSnapshot(n)] + ([Finish(n)] + rest));
    assert Fold(Run(t, rest).bridge.store, []) == Run(t, rest).bridge.store;
  }
}
