/**
 The log buffers of mobile/lib/diagnostics.ts: lines gather in a pending batch, batches are appended to
 a buffer that is sorted by time and capped, and two buffers are merged for display.
 */
module DiagnosticsLog {
  import opened StableSort

  const LOG_LIMIT: nat := 1000

  datatype Line = Line(id: string, ts: int, level: string, message: string)

  function ByTime(line: Line): int {
    line.ts
  }

  predicate InTimeOrder(lines: seq<Line>) {
    forall i, j | 0 <= i <= j < |lines| :: lines[i].ts <= lines[j].ts
  }

  // The last `n` lines.
  function LastLines(lines: seq<Line>, n: nat): (last: seq<Line>) {
    if |lines| > n then lines[|lines| - n..] else lines
  }

  function Capped(lines: seq<Line>): (capped: seq<Line>) {
    LastLines(lines, LOG_LIMIT)
  }

  // Some line from `from` on is earlier than the one before it.
  predicate Descends(lines: seq<Line>, from: nat) {
    exists i | from <= i < |lines| :: i > 0 && lines[i].ts < lines[i - 1].ts
  }

  function AppendedTo(held: seq<Line>, batch: seq<Line>): (lines: seq<Line>) {
    var all := held + batch;
    Capped(if Descends(all, |held|) then Sort(ByTime, all) else all)
  }

  method Appended(held: seq<Line>, batch: seq<Line>) returns (lines: seq<Line>)
    ensures lines == AppendedTo(held, batch)
  {
    var out := held + batch;
    for i := |held| to |out|
      invariant forall k | |held| <= k < i :: k == 0 || out[k].ts >= out[k - 1].ts
    {
      if i > 0 && out[i].ts < out[i - 1].ts {
        return Capped(Sort(ByTime, out));
      }
    }
    return Capped(out);
  }

  function MergedLogs(device: seq<Line>, local: seq<Line>): (lines: seq<Line>) {
    if device == [] then local
    else if local == [] then device
    else Capped(Merge(ByTime, device, local))
  }

  // The merge of what is left from two positions on.
  function MergeFrom(device: seq<Line>, d: nat, local: seq<Line>, l: nat): (lines: seq<Line>)
    requires d <= |device| && l <= |local|
    decreases |device| - d + |local| - l
  {
    if d == |device| && l == |local| then []
    else if d < |device| && (l == |local| || device[d].ts <= local[l].ts) then
      [device[d]] + MergeFrom(device, d + 1, local, l)
    else [local[l]] + MergeFrom(device, d, local, l + 1)
  }

  lemma {:induction false} MergeFromIsMerge(device: seq<Line>, d: nat, local: seq<Line>, l: nat)
    requires d <= |device| && l <= |local|
    ensures MergeFrom(device, d, local, l) == Merge(ByTime, device[d..], local[l..])
    decreases |device| - d + |local| - l
  {
    if d < |device| && (l == |local| || device[d].ts <= local[l].ts) {
      MergeFromIsMerge(device, d + 1, local, l);
      assert device[d..] == [device[d]] + device[d + 1..];
    } else if l < |local| {
      MergeFromIsMerge(device, d, local, l + 1);
      assert local[l..] == [local[l]] + local[l + 1..];
    }
  }

  // Moving the next line over from one side or the other.
  lemma NextFromDevice(device: seq<Line>, d: nat, local: seq<Line>, l: nat, out: seq<Line>, whole: seq<Line>)
    requires d < |device| && l <= |local| && (l == |local| || device[d].ts <= local[l].ts)
    requires whole == out + MergeFrom(device, d, local, l)
    ensures whole == out + [device[d]] + MergeFrom(device, d + 1, local, l)
  {
  }

  lemma NextFromLocal(device: seq<Line>, d: nat, local: seq<Line>, l: nat, out: seq<Line>, whole: seq<Line>)
    requires d <= |device| && l < |local| && (d == |device| || device[d].ts > local[l].ts)
    requires whole == out + MergeFrom(device, d, local, l)
    ensures whole == out + [local[l]] + MergeFrom(device, d, local, l + 1)
  {
  }

  lemma MergeFromTheStart(device: seq<Line>, local: seq<Line>)
    requires device != [] && local != []
    ensures MergedLogs(device, local) == Capped(MergeFrom(device, 0, local, 0))
  {
    MergeFromIsMerge(device, 0, local, 0);
    assert device[0..] == device && local[0..] == local;
  }

  method MergeLogs(device: seq<Line>, local: seq<Line>) returns (lines: seq<Line>)
    ensures lines == MergedLogs(device, local)
  {
    if device == [] { return local; }
    if local == [] { return device; }
    MergeFromTheStart(device, local);
    ghost var whole := MergeFrom(device, 0, local, 0);
    var out := [];
    var d, l := 0, 0;
    while d < |device| && l < |local|
      invariant d <= |device| && l <= |local|
      invariant whole == out + MergeFrom(device, d, local, l)
      decreases |device| - d + |local| - l
    {
      if device[d].ts <= local[l].ts {
        NextFromDevice(device, d, local, l, out, whole);
        out, d := out + [device[d]], d + 1;
      } else {
        NextFromLocal(device, d, local, l, out, whole);
        out, l := out + [local[l]], l + 1;
      }
    }
    while d < |device|
      invariant d <= |device| && l <= |local|
      invariant d == |device| || l == |local|
      invariant whole == out + MergeFrom(device, d, local, l)
    {
      NextFromDevice(device, d, local, l, out, whole);
      out, d := out + [device[d]], d + 1;
    }
    while l < |local|
      invariant d == |device| && l <= |local|
      invariant whole == out + MergeFrom(device, d, local, l)
    {
      NextFromLocal(device, d, local, l, out, whole);
      out, l := out + [local[l]], l + 1;
    }
    return Capped(out);
  }

  // ----- capping early

  lemma {:induction false} DroppingTheFirstOnTheLeft(a: seq<Line>, b: seq<Line>, n: nat)
    requires InTimeOrder(a) && |a| > n
    ensures LastLines(Merge(ByTime, a, b), n) == LastLines(Merge(ByTime, a[1..], b), n)
    decreases |b|
  {
    if b == [] || a[0].ts <= b[0].ts {
      EarlierLineIsNotAmongTheLast(a[0], Merge(ByTime, a[1..], b), n);
      assert a == [a[0]] + a[1..];
    } else {
      DroppingTheFirstOnTheLeft(a, b[1..], n);
      EarlierLineIsNotAmongTheLast(b[0], Merge(ByTime, a, b[1..]), n);
      LaterLineFirstOnTheLeft(a, b, n);
    }
  }

  // Where the right list's first line comes before the left's, dropping the left's first line leaves it there.
  lemma LaterLineFirstOnTheLeft(a: seq<Line>, b: seq<Line>, n: nat)
    requires InTimeOrder(a) && |a| > n && b != [] && a[0].ts > b[0].ts
    ensures LastLines(Merge(ByTime, a[1..], b), n) == LastLines(Merge(ByTime, a[1..], b[1..]), n)
  {
    if |a| > 1 {
      assert a[1].ts >= a[0].ts;
      EarlierLineIsNotAmongTheLast(b[0], Merge(ByTime, a[1..], b[1..]), n);
    }
  }

  lemma EarlierLineIsNotAmongTheLast(line: Line, lines: seq<Line>, n: nat)
    requires |lines| >= n
    ensures LastLines([line] + lines, n) == LastLines(lines, n)
  {
  }

  lemma {:induction false} DroppingTheFirstOnTheRight(a: seq<Line>, b: seq<Line>, n: nat)
    requires InTimeOrder(b) && |b| > n
    ensures LastLines(Merge(ByTime, a, b), n) == LastLines(Merge(ByTime, a, b[1..]), n)
    decreases |a|
  {
    if a == [] || a[0].ts > b[0].ts {
      EarlierLineIsNotAmongTheLast(b[0], Merge(ByTime, a, b[1..]), n);
      assert b == [b[0]] + b[1..];
    } else if n > 0 {
      DroppingTheFirstOnTheRight(a[1..], b, n);
      EarlierLineIsNotAmongTheLast(a[0], Merge(ByTime, a[1..], b), n);
      EarlierLineIsNotAmongTheLast(a[0], Merge(ByTime, a[1..], b[1..]), n);
    }
  }

  lemma {:induction false} CappingTheLeftFirst(a: seq<Line>, b: seq<Line>, n: nat)
    requires InTimeOrder(a)
    ensures LastLines(Merge(ByTime, LastLines(a, n), b), n) == LastLines(Merge(ByTime, a, b), n)
    decreases |a|
  {
    if |a| > n {
      DroppingTheFirstOnTheLeft(a, b, n);
      CappingTheLeftFirst(a[1..], b, n);
      assert LastLines(a[1..], n) == LastLines(a, n);
    }
  }

  lemma {:induction false} CappingTheRightFirst(a: seq<Line>, b: seq<Line>, n: nat)
    requires InTimeOrder(b)
    ensures LastLines(Merge(ByTime, a, LastLines(b, n)), n) == LastLines(Merge(ByTime, a, b), n)
    decreases |b|
  {
    if |b| > n {
      DroppingTheFirstOnTheRight(a, b, n);
      CappingTheRightFirst(a, b[1..], n);
      assert LastLines(b[1..], n) == LastLines(b, n);
    }
  }

  lemma TimeOrderIsSorted(lines: seq<Line>)
    ensures InTimeOrder(lines) <==> Sorted(ByTime, lines)
  {
  }

  lemma {:induction false} NoDescentMeansOrder(lines: seq<Line>, from: nat)
    requires from <= |lines|
    requires InTimeOrder(lines[..from]) && !Descends(lines, from)
    ensures InTimeOrder(lines)
    decreases |lines| - from
  {
    if from < |lines| {
      assert from == 0 || lines[from].ts >= lines[from - 1].ts;
      forall i | 0 <= i < from ensures lines[i].ts <= lines[from].ts {
        assert lines[..from][i].ts <= lines[..from][from - 1].ts;
      }
      assert InTimeOrder(lines[..from + 1]);
      NoDescentMeansOrder(lines, from + 1);
    }
  }

  // From a buffer in order, an append is a capped stable sort, whether or not it took the sorting branch.
  lemma AppendIsACappedSort(held: seq<Line>, batch: seq<Line>)
    requires InTimeOrder(held)
    ensures AppendedTo(held, batch) == Capped(Sort(ByTime, held + batch))
    ensures InTimeOrder(AppendedTo(held, batch))
  {
    var all := held + batch;
    if !Descends(all, |held|) {
      assert all[..|held|] == held;
      NoDescentMeansOrder(all, |held|);
      TimeOrderIsSorted(all);
      SortOfSorted(ByTime, all);
    }
    SortIsSorted(ByTime, all);
    TimeOrderIsSorted(Sort(ByTime, all));
  }

  function Fed(held: seq<Line>, batches: seq<seq<Line>>): (lines: seq<Line>)
    decreases |batches|
  {
    if batches == [] then held else Fed(AppendedTo(held, batches[0]), batches[1..])
  }

  function Everything(batches: seq<seq<Line>>): (lines: seq<Line>)
    decreases |batches|
  {
    if batches == [] then [] else batches[0] + Everything(batches[1..])
  }

  lemma OrderedIsItsOwnSort(lines: seq<Line>)
    requires InTimeOrder(lines)
    ensures Sort(ByTime, lines) == lines
  {
    TimeOrderIsSorted(lines);
    SortOfSorted(ByTime, lines);
  }

  // Capping before the next lines come in shows the same lines as capping after.
  lemma CapThenAppend(lines: seq<Line>, rest: seq<Line>)
    ensures Capped(Sort(ByTime, Capped(Sort(ByTime, lines)) + rest)) == Capped(Sort(ByTime, lines + rest))
  {
    var whole := Sort(ByTime, lines);
    SortIsSorted(ByTime, lines);
    TimeOrderIsSorted(whole);
    OrderedIsItsOwnSort(Capped(whole));
    SortOfConcat(ByTime, Capped(whole), rest);
    CappingTheLeftFirst(whole, Sort(ByTime, rest), LOG_LIMIT);
    SortOfConcat(ByTime, lines, rest);
  }

  // Main result: capping after every batch shows the same lines as sorting everything and capping once.
  lemma {:induction false} EarlyCappingLosesNothing(held: seq<Line>, batches: seq<seq<Line>>)
    requires InTimeOrder(held) && |held| <= LOG_LIMIT
    ensures Fed(held, batches) == Capped(Sort(ByTime, held + Everything(batches)))
    ensures InTimeOrder(Fed(held, batches))
    decreases |batches|
  {
    if batches == [] {
      assert held + Everything(batches) == held;
      OrderedIsItsOwnSort(held);
    } else {
      var next, rest := AppendedTo(held, batches[0]), Everything(batches[1..]);
      AppendIsACappedSort(held, batches[0]);
      EarlyCappingLosesNothing(next, batches[1..]);
      CapThenAppend(held + batches[0], rest);
      FirstBatchOfEverything(held, batches);
    }
  }

  lemma FirstBatchOfEverything(held: seq<Line>, batches: seq<seq<Line>>)
    requires batches != []
    ensures held + Everything(batches) == (held + batches[0]) + Everything(batches[1..])
  {
  }

  // The display of two capped buffers is the end of the merge of the uncapped ones.
  lemma MergingCappedBuffers(device: seq<Line>, local: seq<Line>)
    requires InTimeOrder(device) && InTimeOrder(local)
    ensures MergedLogs(Capped(device), Capped(local)) == Capped(Merge(ByTime, device, local))
  {
    CappingTheLeftFirst(device, Capped(local), LOG_LIMIT);
    CappingTheRightFirst(device, local, LOG_LIMIT);
  }

  // From the first batch to the screen: the lines shown are the last of everything fed to both buffers,
  // sorted stably by time, the device's lines first where times tie.
  lemma ScreenShowsTheLastOfEverything(device: seq<seq<Line>>, local: seq<seq<Line>>)
    ensures MergedLogs(Fed([], device), Fed([], local))
         == Capped(Sort(ByTime, Everything(device) + Everything(local)))
  {
    EarlyCappingLosesNothing([], device);
    EarlyCappingLosesNothing([], local);
    assert [] + Everything(device) == Everything(device) && [] + Everything(local) == Everything(local);
    SortOfConcat(ByTime, Everything(device), Everything(local));
    SortIsSorted(ByTime, Everything(device));
    SortIsSorted(ByTime, Everything(local));
    TimeOrderIsSorted(Sort(ByTime, Everything(device)));
    TimeOrderIsSorted(Sort(ByTime, Everything(local)));
    MergingCappedBuffers(Sort(ByTime, Everything(device)), Sort(ByTime, Everything(local)));
  }

  // ----- the pending batches and the store

  datatype Origin = Device | Local

  datatype Buffer = Buffer(pending: seq<Line>, held: seq<Line>)

  datatype Logs = Logs(device: Buffer, local: Buffer, deviceStreaming: bool, localStreaming: bool, timer: bool)

  const NO_LOGS := Logs(Buffer([], []), Buffer([], []), false, false, false)

  function BufferOf(s: Logs, origin: Origin): Buffer {
    if origin.Device? then s.device else s.local
  }

  function WithBuffer(s: Logs, origin: Origin, buffer: Buffer): Logs {
    if origin.Device? then s.(device := buffer) else s.(local := buffer)
  }

  // The pending batch keeps its last lines by arrival, not by time.
  function Ingested(s: Logs, origin: Origin, line: Line): Logs {
    if !s.deviceStreaming && !s.localStreaming then s
    else
      var buffer := BufferOf(s, origin);
      WithBuffer(s, origin, buffer.(pending := Capped(buffer.pending + [line]))).(timer := true)
  }

  function FlushedBuffer(buffer: Buffer): Buffer {
    Buffer([], AppendedTo(buffer.held, buffer.pending))
  }

  function Flushed(s: Logs): Logs {
    if s.device.pending == [] && s.local.pending == [] then s.(timer := false)
    else s.(device := FlushedBuffer(s.device), local := FlushedBuffer(s.local), timer := false)
  }

  function Seeded(s: Logs, origin: Origin, lines: seq<Line>): Logs {
    WithBuffer(s, origin, Buffer([], Capped(lines)))
  }

  function Cleared(s: Logs): Logs {
    s.(device := Buffer([], []), local := Buffer([], []), timer := false)
  }

  class LogStore {
    var pendingDevice: seq<Line>
    var pendingLocal: seq<Line>
    var heldDevice: seq<Line>
    var heldLocal: seq<Line>
    var deviceStreaming: bool
    var localStreaming: bool
    var timer: bool

    ghost function Current(): Logs
      reads this
    {
      Logs(Buffer(pendingDevice, heldDevice), Buffer(pendingLocal, heldLocal), deviceStreaming, localStreaming, timer)
    }

    constructor ()
      ensures Current() == NO_LOGS
    {
      pendingDevice, pendingLocal, heldDevice, heldLocal := [], [], [], [];
      deviceStreaming, localStreaming, timer := false, false, false;
    }

    method Ingest(origin: Origin, line: Line)
      modifies this
      ensures Current() == Ingested(old(Current()), origin, line)
    {
      if !deviceStreaming && !localStreaming {
        return;
      }
      if origin.Device? {
        pendingDevice := pendingDevice + [line];
        if |pendingDevice| > LOG_LIMIT {
          pendingDevice := pendingDevice[|pendingDevice| - LOG_LIMIT..];
        }
      } else {
        pendingLocal := pendingLocal + [line];
        if |pendingLocal| > LOG_LIMIT {
          pendingLocal := pendingLocal[|pendingLocal| - LOG_LIMIT..];
        }
      }
      timer := true;
    }

    method FlushPending()
      modifies this
      ensures Current() == Flushed(old(Current()))
    {
      timer := false;
      if |pendingDevice| == 0 && |pendingLocal| == 0 {
        return;
      }
      var device, local := pendingDevice, pendingLocal;
      pendingDevice, pendingLocal := [], [];
      heldDevice := Appended(heldDevice, device);
      heldLocal := Appended(heldLocal, local);
    }

    method SeedLogs(origin: Origin, lines: seq<Line>)
      modifies this
      ensures Current() == Seeded(old(Current()), origin, lines)
    {
      if origin.Device? {
        pendingDevice := [];
        heldDevice := Capped(lines);
      } else {
        pendingLocal := [];
        heldLocal := Capped(lines);
      }
    }

    method ClearDeviceLogs()
      modifies this
      ensures Current() == Cleared(old(Current()))
    {
      pendingDevice, pendingLocal := [], [];
      timer := false;
      heldDevice, heldLocal := [], [];
    }
  }

  datatype Step =
    | Ingest(origin: Origin, line: Line)
    | Flush
    | Seed(origin: Origin, lines: seq<Line>)
    | Clear
    | Stream(device: bool, local: bool)

  function Stepped(s: Logs, step: Step): Logs {
    match step
    case Ingest(origin, line) => Ingested(s, origin, line)
    case Flush => Flushed(s)
    case Seed(origin, lines) => Seeded(s, origin, lines)
    case Clear => Cleared(s)
    case Stream(device, local) => s.(deviceStreaming := device, localStreaming := local)
  }

  function After(steps: seq<Step>): (s: Logs)
    decreases |steps|
  {
    if steps == [] then NO_LOGS else Stepped(After(steps[..|steps| - 1]), steps[|steps| - 1])
  }

  predicate Streaming(s: Logs) {
    s.deviceStreaming || s.localStreaming
  }

  // The lines of one origin that arrived while something streamed and have not been flushed or dropped.
  function Arrived(steps: seq<Step>, origin: Origin): (lines: seq<Line>)
    decreases |steps|
  {
    if steps == [] then []
    else
      var early := steps[..|steps| - 1];
      match steps[|steps| - 1]
      case Ingest(o, line) => Arrived(early, origin) + if o == origin && Streaming(After(early)) then [line] else []
      case Flush => []
      case Seed(o, _) => if o == origin then [] else Arrived(early, origin)
      case Clear => []
      case Stream(_, _) => Arrived(early, origin)
  }

  // The lines of one origin that the store was given since it was last cleared: the last seed, and what
  // was left of every batch when it was flushed.
  function Given(steps: seq<Step>, origin: Origin): (lines: seq<Line>)
    decreases |steps|
  {
    if steps == [] then []
    else
      var early := steps[..|steps| - 1];
      match steps[|steps| - 1]
      case Ingest(_, _) => Given(early, origin)
      case Flush => Given(early, origin) + Capped(Arrived(early, origin))
      case Seed(o, lines) => if o == origin then lines else Given(early, origin)
      case Clear => []
      case Stream(_, _) => Given(early, origin)
  }

  lemma CappingAsItGrows(lines: seq<Line>, line: Line)
    ensures Capped(Capped(lines) + [line]) == Capped(lines + [line])
  {
  }

  // The pending batch holds the last lines that arrived.
  lemma {:induction false} PendingIsTheLastToArrive(steps: seq<Step>, origin: Origin)
    ensures BufferOf(After(steps), origin).pending == Capped(Arrived(steps, origin))
    decreases |steps|
  {
    if steps != [] {
      var early, last := steps[..|steps| - 1], steps[|steps| - 1];
      PendingIsTheLastToArrive(early, origin);
      if last.Ingest? {
        CappingAsItGrows(Arrived(early, origin), last.line);
        assert Arrived(early, origin) + [] == Arrived(early, origin);
      }
    }
  }

  predicate SeedsAreInOrder(steps: seq<Step>) {
    forall step | step in steps && step.Seed? :: InTimeOrder(step.lines)
  }

  lemma OrderedSortIsCapped(lines: seq<Line>)
    ensures InTimeOrder(Capped(Sort(ByTime, lines)))
  {
    SortIsSorted(ByTime, lines);
    TimeOrderIsSorted(Sort(ByTime, lines));
  }

  lemma FlushedIsTheSort(held: seq<Line>, sent: seq<Line>, pending: seq<Line>)
    requires held == Capped(Sort(ByTime, sent))
    ensures AppendedTo(held, pending) == Capped(Sort(ByTime, sent + pending))
  {
    OrderedSortIsCapped(sent);
    AppendIsACappedSort(held, pending);
    CapThenAppend(sent, pending);
  }

  lemma UnflushedIsTheSort(s: Logs, origin: Origin, sent: seq<Line>, pending: seq<Line>)
    requires BufferOf(s, origin) == Buffer(pending, Capped(Sort(ByTime, sent)))
    ensures BufferOf(Flushed(s), origin).held == Capped(Sort(ByTime, sent + pending))
  {
    if s.device.pending == [] && s.local.pending == [] {
      assert sent + pending == sent;
    } else {
      FlushedIsTheSort(BufferOf(s, origin).held, sent, pending);
    }
  }

  // Each step leaves the buffer right, but for a seed that is not what its own sort would be.
  lemma StepKeepsPace(early: seq<Step>, last: Step, origin: Origin)
    requires BufferOf(After(early), origin).held == Capped(Sort(ByTime, Given(early, origin)))
    ensures var steps := early + [last];
            BufferOf(After(steps), origin).held == Capped(Sort(ByTime, Given(steps, origin))) <==>
            (last.Seed? && last.origin == origin ==> Capped(last.lines) == Capped(Sort(ByTime, last.lines)))
  {
    assert (early + [last])[..|early|] == early;
    if last.Flush? {
      PendingIsTheLastToArrive(early, origin);
      UnflushedIsTheSort(After(early), origin, Given(early, origin), Capped(Arrived(early, origin)));
    }
  }

  // After every run whose seeds are in time order, each buffer holds the last lines of the stable sort of
  // everything it was given.
  lemma {:induction false} StoreHoldsTheLastOfTheGiven(steps: seq<Step>, origin: Origin)
    requires SeedsAreInOrder(steps)
    ensures BufferOf(After(steps), origin).held == Capped(Sort(ByTime, Given(steps, origin)))
    decreases |steps|
  {
    if steps != [] {
      var early, last := steps[..|steps| - 1], steps[|steps| - 1];
      assert last in steps && steps == early + [last];
      StoreHoldsTheLastOfTheGiven(early, origin);
      StepKeepsPace(early, last, origin);
      if last.Seed? {
        OrderedIsItsOwnSort(last.lines);
      }
    }
  }

  // From the store to the screen, for every such run.
  lemma ScreenShowsTheLastOfTheGiven(steps: seq<Step>)
    requires SeedsAreInOrder(steps)
    ensures MergedLogs(After(steps).device.held, After(steps).local.held)
         == Capped(Sort(ByTime, Given(steps, Device) + Given(steps, Local)))
  {
    var device, local := Given(steps, Device), Given(steps, Local);
    StoreHoldsTheLastOfTheGiven(steps, Device);
    StoreHoldsTheLastOfTheGiven(steps, Local);
    SortIsSorted(ByTime, device);
    SortIsSorted(ByTime, local);
    TimeOrderIsSorted(Sort(ByTime, device));
    TimeOrderIsSorted(Sort(ByTime, local));
    MergingCappedBuffers(Sort(ByTime, device), Sort(ByTime, local));
    SortOfConcat(ByTime, device, local);
  }

  // A seed is not sorted: one that is out of order stays so, also when later lines are appended to it.
  lemma UnsortedSeedStaysUnsorted(early: Line, late: Line, next: Line)
    requires early.ts < late.ts && early.ts <= next.ts
    ensures var steps := [Stream(true, false), Seed(Device, [late, early]), Ingest(Device, next), Flush];
            After(steps).device.held == [late, early, next]
  {
    var steps := [Stream(true, false), Seed(Device, [late, early]), Ingest(Device, next), Flush];
    assert steps[..3] == [Stream(true, false), Seed(Device, [late, early]), Ingest(Device, next)];
    assert steps[..3][..2] == [Stream(true, false), Seed(Device, [late, early])];
    assert steps[..3][..2][..1] == [Stream(true, false)] && [Stream(true, false)][..0] == [];
    var streaming := After([Stream(true, false)]);
    var seeded := After(steps[..3][..2]);
    assert seeded == Seeded(streaming, Device, [late, early]) && seeded.device == Buffer([], [late, early]);
    var ingested := After(steps[..3]);
    assert ingested == Ingested(seeded, Device, next) && ingested.device == Buffer([] + [next], [late, early]);
    assert [late, early] + [next] == [late, early, next] && !Descends([late, early, next], 2);
    assert AppendedTo([late, early], [next]) == [late, early, next];
    assert After(steps) == Flushed(ingested);
  }
}
