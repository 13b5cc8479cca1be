/**
 When the log store has a flush under way, and what streams, over every run of the store.
 */
module LogTimer {
  import opened DiagnosticsLog

  // What the last of these steps turned on; nothing streams before.
  predicate IsOn(steps: seq<Step>, origin: Origin)
    decreases |steps|
  {
    steps != []
    && var last := steps[|steps| - 1];
       if last.Stream? then (if origin.Device? then last.device else last.local)
       else IsOn(steps[..|steps| - 1], origin)
  }

  lemma {:induction false} StreamingIsAsLastSet(steps: seq<Step>)
    ensures After(steps).deviceStreaming == IsOn(steps, Device) && After(steps).localStreaming == IsOn(steps, Local)
    decreases |steps|
  {
    if steps != [] {
      StreamingIsAsLastSet(steps[..|steps| - 1]);
    }
  }

  // A line that arrived while something streamed, with no flush and no clearing since.
  predicate ArrivedAt(steps: seq<Step>, i: nat) {
    && i < |steps| && steps[i].Ingest?
    && (IsOn(steps[..i], Device) || IsOn(steps[..i], Local))
    && forall j | i < j < |steps| :: !steps[j].Flush? && !steps[j].Clear?
  }

  lemma ArrivalStays(steps: seq<Step>, i: nat)
    requires steps != [] && i < |steps| - 1
    ensures ArrivedAt(steps, i) <==>
            ArrivedAt(steps[..|steps| - 1], i) && !steps[|steps| - 1].Flush? && !steps[|steps| - 1].Clear?
  {
    var early := steps[..|steps| - 1];
    assert early[..i] == steps[..i];
    assert forall j | 0 <= j < |early| :: early[j] == steps[j];
  }

  // A flush is under way exactly while a line has arrived since the last flush or clearing, also when a seed has
  // dropped it.
  lemma {:induction false} FlushIsUnderWayExactly(steps: seq<Step>)
    ensures After(steps).timer <==> exists i: nat :: ArrivedAt(steps, i)
    decreases |steps|
  {
    if steps != [] {
      var early, last := steps[..|steps| - 1], |steps| - 1;
      FlushIsUnderWayExactly(early);
      StreamingIsAsLastSet(early);
      if i: nat :| ArrivedAt(early, i) {
        ArrivalStays(steps, i);
      }
      if i: nat :| ArrivedAt(steps, i) {
        if i < last {
          ArrivalStays(steps, i);
        }
      }
      assert steps[last].Ingest? && Streaming(After(early)) ==> ArrivedAt(steps, last);
    }
  }

  // So no line waits without a flush coming for it.
  lemma {:induction false} PendingLinesAreFlushed(steps: seq<Step>, origin: Origin)
    ensures BufferOf(After(steps), origin).pending != [] ==> After(steps).timer
    decreases |steps|
  {
    if steps != [] {
      PendingLinesAreFlushed(steps[..|steps| - 1], origin);
    }
  }
}
