/**
 That the trace gets written: from wherever its producers and its worker are, what was accepted can be written and what
 was dropped reported. And which files a rotation can be stopped with.
 */
module TraceDrains {
  import opened Wrappers
  import opened TraceLog

  lemma FirstStep(s: System, step: Step, rest: seq<Step>)
    requires Enabled(s, step) && Legal(Next(s, step), rest)
    ensures Legal(s, [step] + rest) && Run(s, [step] + rest) == Run(Next(s, step), rest)
  {
    assert ([step] + rest)[1..] == rest;
  }

  lemma {:induction false} RunOfConcat(s: System, early: seq<Step>, late: seq<Step>)
    requires Legal(s, early) && Legal(Run(s, early), late)
    ensures Legal(s, early + late) && Run(s, early + late) == Run(Run(s, early), late)
    decreases |early|
  {
    if early == [] {
      assert early + late == late;
    } else {
      RunOfConcat(Next(s, early[0]), early[1..], late);
      assert (early + late)[0] == early[0] && (early + late)[1..] == early[1..] + late;
    }
  }

  predicate IsDrained(s: System) {
    s.channel == [] && s.worker.Waiting?
  }

  // What the worker does next.
  function Work(s: System): Step
    requires !IsDrained(s)
  {
    match s.worker
    case Waiting => Receive
    case Received(_) => TakeCounter
    case Counted(_, lost) => if lost > 0 then WriteNote else WriteEvent
  }

  function StepsLeft(worker: Worker): nat {
    match worker
    case Waiting => 0
    case Received(_) => 3
    case Counted(_, lost) => if lost > 0 then 2 else 1
  }

  // The worker alone writes all that was accepted; it takes the counter with every event it receives.
  lemma {:induction false} WorkerDrains(s: System) returns (steps: seq<Step>)
    ensures Legal(s, steps)
    ensures var t := Run(s, steps);
            && IsDrained(t) && t.failing == s.failing && t.produced == s.produced && t.accepted == s.accepted
            && t.dropped == if s.channel != [] || s.worker.Received? then 0 else s.dropped
    decreases |s.channel|, StepsLeft(s.worker)
  {
    if IsDrained(s) {
      steps := [];
    } else {
      var step := Work(s);
      var rest := WorkerDrains(Next(s, step));
      FirstStep(s, step, rest);
      steps := [step] + rest;
    }
  }

  // Producers whose send failed get to count it.
  lemma {:induction false} FailuresAreCounted(s: System) returns (steps: seq<Step>)
    ensures Legal(s, steps) && Run(s, steps) == s.(failing := 0, dropped := s.dropped + s.failing)
    decreases s.failing
  {
    if s.failing == 0 {
      steps := [];
    } else {
      var rest := FailuresAreCounted(Next(s, CountDrop));
      FirstStep(s, CountDrop, rest);
      steps := [CountDrop] + rest;
    }
  }

  // The next event after that is accepted and written, with a note of everything dropped before it.
  lemma OneMoreEvent(s: System, event: Bytes) returns (steps: seq<Step>)
    requires event != []
    ensures Legal(s, steps)
    ensures var t := Run(s, steps);
            && IsDrained(t) && t.failing == 0 && t.dropped == 0
            && t.produced == s.produced + 1 && t.accepted == s.accepted + [event]
  {
    var counting := FailuresAreCounted(s);
    var counted := Run(s, counting);
    var draining := WorkerDrains(counted);
    var drained := Run(counted, draining);
    RunOfConcat(s, counting, draining);
    var offered := Next(drained, Offer(event));
    assert |drained.channel| < TRACE_CHANNEL_CAP;
    var writing := WorkerDrains(offered);
    FirstStep(drained, Offer(event), writing);
    RunOfConcat(s, counting + draining, [Offer(event)] + writing);
    steps := (counting + draining) + ([Offer(event)] + writing);
  }

  // Main result: from wherever a run has come, there is a way on, with any one event more, after which every event ever
  // offered is written or reported as dropped, and those accepted are written in their order.
  lemma EverythingIsWrittenOrReported(before: seq<Bytes>, s: System, event: Bytes) returns (steps: seq<Step>)
    requires Invariant(before, s) && event != []
    ensures Legal(s, steps)
    ensures var t := Run(s, steps);
            && EventsIn(t.history) == s.accepted + [event]
            && s.produced + 1 == |EventsIn(t.history)| + Reported(t.history)
  {
    steps := OneMoreEvent(s, event);
    var t := Run(s, steps);
    RunKeepsTheInvariant(before, s, steps);
    assert EventsIn(t.history) + [] + [] == EventsIn(t.history);
  }

  // ----- what a note says

  function DigitOf(c: char): int {
    c as int - '0' as int
  }

  function ValueOf(text: string): int {
    if text == [] then 0 else ValueOf(text[..|text| - 1]) * 10 + DigitOf(text[|text| - 1])
  }

  // The count in a note reads as the number of events lost.
  lemma {:induction false} NoteNamesItsCount(count: nat)
    ensures ValueOf(Decimal(count)) == count
    ensures forall i | 0 <= i < |Decimal(count)| :: '0' <= Decimal(count)[i] <= '9'
    ensures TextOf(Lost(count)) == "[trace log: " + Decimal(count) + " events dropped under backpressure]\n"
  {
    var last := DIGITS[count % 10];
    assert DigitOf(last) == count % 10;
    if count < 10 {
      assert [last][..0] == [];
    } else {
      NoteNamesItsCount(count / 10);
      assert (Decimal(count / 10) + [last])[..|Decimal(count / 10)|] == Decimal(count / 10);
    }
  }

  // ----- where a rotation can be stopped

  // The files after the removal and after each rename of a rotation.
  function RotationStages(was: Files): (stages: seq<Files>) {
    var removed := was - {TRACE_ROTATED_KEEP};
    var second := Renamed(removed, 2, 3);
    var first := Renamed(second, 1, 2);
    [removed, second, first, Renamed(first, 0, 1)]
  }

  // A process can leave exactly the files it had, and those of each of these stages.
  lemma LeftFilesAreTheStages(was: Files, files: Files)
    requires forall n | n in was :: n <= TRACE_ROTATED_KEEP
    ensures LeftBy(was, files) <==> files == was || files in RotationStages(was)
  {
    var stages := RotationStages(was);
    assert MovedDownTo(was, stages[0], 3);
    RenameMovesOne(was, stages[0], 3);
    RenameMovesOne(was, stages[1], 2);
    RenameMovesOne(was, stages[2], 1);
    forall k: nat | k <= TRACE_ROTATED_KEEP ensures MovedDownTo(was, files, k) <==> files == stages[3 - k] {
      if MovedDownTo(was, files, k) {
        MovedFilesAreDetermined(was, files, stages[3 - k], k);
      }
    }
    if files in stages {
      var i :| 0 <= i < |stages| && stages[i] == files;
      assert MovedDownTo(was, files, 3 - i);
    }
  }

  lemma MovedFilesAreDetermined(was: Files, a: Files, b: Files, free: nat)
    requires MovedDownTo(was, a, free) && MovedDownTo(was, b, free)
    ensures a == b
  {
    forall n: nat ensures Slot(a, n) == Slot(b, n) {
      assert Slot(a, n) == MovedSlot(was, free, n) == Slot(b, n);
    }
    SlotsMakeTheFiles(a, b);
  }
}
