/**
 The trace file of crates/core/src/monitoring.rs: producers hand events to a bounded channel or count
 them as dropped, and one worker writes them to a capped file with rotated predecessors.
 File operations succeed here; a file is kept as the sequence of writes it is made of.
 */
module TraceLog {
  import opened Wrappers

  const TRACE_FILE_CAP_BYTES: nat := 32 * 1024 * 1024
  const TRACE_ROTATED_KEEP: nat := 3
  const TRACE_CHANNEL_CAP: nat := 65_536

  type Bytes = seq<char>

  // The bytes of a file made of these writes.
  function Content(writes: seq<Bytes>): (bytes: Bytes)
    decreases |writes|
  {
    if writes == [] then [] else Content(writes[..|writes| - 1]) + writes[|writes| - 1]
  }

  // The files of the trace directory: number 0 is the current one, number n the one rotated n times.
  type Files = map<nat, seq<Bytes>>

  function FileAt(files: Files, n: nat): seq<Bytes> {
    if n in files then files[n] else []
  }

  // The rotated files from number `n` down, then the current one.
  function SpelledFrom(files: Files, n: nat): (writes: seq<Bytes>) {
    FileAt(files, n) + if n == 0 then [] else SpelledFrom(files, n - 1)
  }

  function Spelled(files: Files): (writes: seq<Bytes>) {
    SpelledFrom(files, TRACE_ROTATED_KEEP)
  }

  predicate HasPredecessor(files: Files, n: nat) {
    n == 0 || n - 1 in files
  }

  // Every file moves up one number, the last one is gone, and the current one starts empty.
  function Rotated(files: Files): Files {
    map n: nat | n <= TRACE_ROTATED_KEEP && HasPredecessor(files, n) :: if n == 0 then [] else files[n - 1]
  }

  predicate Overflows(files: Files, bytes: Bytes) {
    |Content(FileAt(files, 0))| + |bytes| > TRACE_FILE_CAP_BYTES
  }

  function WithWrite(files: Files, bytes: Bytes): Files {
    files[0 := FileAt(files, 0) + [bytes]]
  }

  // An append rotates first when the write would take the file over the cap.
  function AppendedFiles(files: Files, bytes: Bytes): Files {
    WithWrite(if Overflows(files, bytes) then Rotated(files) else files, bytes)
  }

  function Slot(files: Files, n: nat): Option<seq<Bytes>> {
    if n in files then Some(files[n]) else None
  }

  // A number part of the way through a rotation: below `free` as it was, above it moved up by one.
  function MovedSlot(was: Files, free: nat, n: nat): Option<seq<Bytes>> {
    if n < free then Slot(was, n)
    else if n == free || n > TRACE_ROTATED_KEEP then None
    else Slot(was, n - 1)
  }

  ghost predicate MovedDownTo(was: Files, files: Files, free: nat) {
    forall n: nat :: Slot(files, n) == MovedSlot(was, free, n)
  }

  function Renamed(files: Files, from: nat, to: nat): Files {
    if from in files then (files - {from})[to := files[from]] else files
  }

  // What a process may leave: the files between two appends, or between two renames of a rotation.
  ghost predicate LeftBy(was: Files, files: Files) {
    files == was || exists free: nat | free <= TRACE_ROTATED_KEEP :: MovedDownTo(was, files, free)
  }

  // Opening keeps what is there.
  function Opened(found: Files): Files {
    found[0 := FileAt(found, 0)]
  }

  lemma RenameMovesOne(was: Files, files: Files, free: nat)
    requires 0 < free <= TRACE_ROTATED_KEEP
    requires MovedDownTo(was, files, free)
    ensures MovedDownTo(was, Renamed(files, free - 1, free), free - 1)
  {
    var below, after := free - 1, Renamed(files, free - 1, free);
    forall n: nat ensures Slot(after, n) == MovedSlot(was, below, n) {
      assert Slot(files, n) == MovedSlot(was, free, n);
      assert Slot(files, below) == MovedSlot(was, free, below);
    }
  }

  lemma MovedAllTheWay(was: Files, files: Files)
    requires MovedDownTo(was, files, 0)
    ensures files[0 := []] == Rotated(was)
  {
    var reopened, rotated := files[0 := []], Rotated(was);
    forall n: nat ensures Slot(reopened, n) == Slot(rotated, n) {
      assert Slot(files, n) == MovedSlot(was, 0, n);
      assert HasPredecessor(was, n) <==> n == 0 || n - 1 in was;
    }
    SlotsMakeTheFiles(reopened, rotated);
  }

  lemma SlotsMakeTheFiles(a: Files, b: Files)
    requires forall n: nat :: Slot(a, n) == Slot(b, n)
    ensures a == b
  {
    forall n ensures (n in a <==> n in b) && (n in a ==> a[n] == b[n]) {
      assert Slot(a, n) == Slot(b, n);
    }
  }

  class TraceFileWorker {
    var files: Files
    var written: nat

    ghost predicate Valid()
      reads this
    {
      && 0 in files
      && (forall n | n in files :: n <= TRACE_ROTATED_KEEP)
      && written == |Content(files[0])|
    }

    // Opening keeps what is there and counts its length, after a restart too.
    constructor (found: Files)
      requires forall n | n in found :: n <= TRACE_ROTATED_KEEP
      ensures Valid()
      ensures files == Opened(found)
    {
      files := found[0 := FileAt(found, 0)];
      written := |Content(FileAt(found, 0))|;
    }

    method Append(bytes: Bytes)
      requires Valid()
      modifies this
      ensures Valid()
      ensures files == AppendedFiles(old(files), bytes)
    {
      if written + |bytes| > TRACE_FILE_CAP_BYTES {
        Rotate();
      }
      ContentGrows(files[0], bytes);
      files := files[0 := files[0] + [bytes]];
      written := written + |bytes|;
    }

    method Rotate()
      requires Valid()
      modifies this
      ensures Valid() && written == 0
      ensures files == Rotated(old(files))
    {
      ghost var was := files;
      RemoveFile(TRACE_ROTATED_KEEP);
      var n := TRACE_ROTATED_KEEP;
      while n > 1
        invariant 1 <= n <= TRACE_ROTATED_KEEP
        invariant MovedDownTo(was, files, n)
      {
        n := n - 1;
        RenameMovesOne(was, files, n + 1);
        RenameFile(n, n + 1);
      }
      RenameMovesOne(was, files, 1);
      RenameFile(0, 1);
      MovedAllTheWay(was, files);
      files := files[0 := []];
      written := 0;
    }

    method RemoveFile(n: nat)
      modifies this`files
      ensures files == old(files) - {n}
    {
      files := files - {n};
    }

    // A rename of a missing file fails and changes nothing.
    method RenameFile(from: nat, to: nat)
      requires from != to
      modifies this`files
      ensures files == Renamed(old(files), from, to)
    {
      if from in files {
        files := (files - {from})[to := files[from]];
      }
    }
  }

  lemma ContentGrows(writes: seq<Bytes>, bytes: Bytes)
    ensures Content(writes + [bytes]) == Content(writes) + bytes
  {
    assert (writes + [bytes])[..|writes|] == writes;
  }

  // ----- what the files spell

  // Within the cap, or one write that is over the cap by itself.
  predicate FileFits(writes: seq<Bytes>) {
    |Content(writes)| <= TRACE_FILE_CAP_BYTES || |writes| == 1
  }

  predicate FilesHold(files: Files) {
    && 0 in files
    && (forall n | n in files :: n <= TRACE_ROTATED_KEEP && FileFits(files[n]))
  }

  predicate EndsWith(all: seq<Bytes>, tail: seq<Bytes>) {
    |tail| <= |all| && all[|all| - |tail|..] == tail
  }

  lemma {:induction false} RotationShiftsTheSpelling(files: Files, n: nat)
    requires n < TRACE_ROTATED_KEEP
    ensures SpelledFrom(Rotated(files), n + 1) == SpelledFrom(files, n)
    decreases n
  {
    assert FileAt(Rotated(files), n + 1) == FileAt(files, n);
    if n == 0 {
      assert SpelledFrom(Rotated(files), 0) == [];
    } else {
      RotationShiftsTheSpelling(files, n - 1);
    }
  }

  lemma RotationDropsOnlyTheOldest(files: Files)
    ensures Spelled(files) == FileAt(files, TRACE_ROTATED_KEEP) + Spelled(Rotated(files))
  {
    RotationShiftsTheSpelling(files, TRACE_ROTATED_KEEP - 1);
  }

  lemma {:induction false} WriteExtendsTheSpelling(files: Files, bytes: Bytes, n: nat)
    ensures SpelledFrom(WithWrite(files, bytes), n) == SpelledFrom(files, n) + [bytes]
    decreases n
  {
    if n > 0 {
      WriteExtendsTheSpelling(files, bytes, n - 1);
    }
  }

  lemma RotationKeepsTheFit(files: Files)
    requires FilesHold(files)
    ensures FilesHold(Rotated(files))
  {
    assert HasPredecessor(files, 0);
  }

  lemma AppendKeepsTheFit(files: Files, bytes: Bytes)
    requires FilesHold(files)
    ensures FilesHold(AppendedFiles(files, bytes))
  {
    RotationKeepsTheFit(files);
    ContentGrows(FileAt(files, 0), bytes);
  }

  lemma {:induction false} EndsWithExtends(all: seq<Bytes>, head: seq<Bytes>, tail: seq<Bytes>, bytes: Bytes)
    requires EndsWith(all, head + tail)
    ensures EndsWith(all + [bytes], tail + [bytes])
  {
  }

  // However often the file rotates, the files spell the end of what was appended, cut between two writes.
  lemma AppendSpellsTheEnd(all: seq<Bytes>, files: Files, bytes: Bytes)
    requires EndsWith(all, Spelled(files))
    ensures EndsWith(all + [bytes], Spelled(AppendedFiles(files, bytes)))
  {
    if Overflows(files, bytes) {
      RotationDropsOnlyTheOldest(files);
      WriteExtendsTheSpelling(Rotated(files), bytes, TRACE_ROTATED_KEEP);
      EndsWithExtends(all, FileAt(files, TRACE_ROTATED_KEEP), Spelled(Rotated(files)), bytes);
    } else {
      WriteExtendsTheSpelling(files, bytes, TRACE_ROTATED_KEEP);
      assert [] + Spelled(files) == Spelled(files);
      EndsWithExtends(all, [], Spelled(files), bytes);
    }
  }

  // ----- producers, channel and worker

  const DIGITS: seq<char> := ['0', '1', '2', '3', '4', '5', '6', '7', '8', '9']

  function Decimal(n: nat): (text: string) {
    if n < 10 then [DIGITS[n]] else Decimal(n / 10) + [DIGITS[n % 10]]
  }

  // What the worker writes: an event as its producer formatted it, or a note of events lost.
  datatype Entry = Event(bytes: Bytes) | Lost(count: nat)

  function TextOf(entry: Entry): Bytes {
    match entry
    case Event(bytes) => bytes
    case Lost(count) => "[trace log: " + Decimal(count) + " events dropped under backpressure]\n"
  }

  function Texts(entries: seq<Entry>): (writes: seq<Bytes>) {
    seq(|entries|, i requires 0 <= i < |entries| => TextOf(entries[i]))
  }

  // Where the worker is: waiting, holding a received event before or after it took the drop counter.
  datatype Worker = Waiting | Received(event: Bytes) | Counted(event: Bytes, lost: nat)

  // `failing` counts producers whose send failed and who have not counted the drop yet; `produced`,
  // `accepted` and `history` are what the producers offered, what the channel took and what was written.
  datatype System = System(
    channel: seq<Bytes>,
    dropped: nat,
    failing: nat,
    worker: Worker,
    files: Files,
    produced: nat,
    accepted: seq<Bytes>,
    history: seq<Entry>)

  datatype Step =
    | Offer(event: Bytes)   // a non-empty buffer is dropped by its producer
    | CountDrop             // the atomic increment after a failed send
    | Receive
    | TakeCounter           // the atomic swap with zero
    | WriteNote             // only if drops were counted
    | WriteEvent

  predicate Enabled(s: System, step: Step) {
    match step
    case Offer(event) => event != []
    case CountDrop => s.failing > 0
    case Receive => s.worker.Waiting? && s.channel != []
    case TakeCounter => s.worker.Received?
    case WriteNote => s.worker.Counted? && s.worker.lost > 0
    case WriteEvent => s.worker.Counted? && s.worker.lost == 0
  }

  function Wrote(s: System, entry: Entry): System {
    s.(files := AppendedFiles(s.files, TextOf(entry)), history := s.history + [entry])
  }

  function Next(s: System, step: Step): System
    requires Enabled(s, step)
  {
    match step
    case Offer(event) =>
      if |s.channel| < TRACE_CHANNEL_CAP then
        s.(channel := s.channel + [event], produced := s.produced + 1, accepted := s.accepted + [event])
      else s.(failing := s.failing + 1, produced := s.produced + 1)
    case CountDrop => s.(failing := s.failing - 1, dropped := s.dropped + 1)
    case Receive => s.(channel := s.channel[1..], worker := Received(s.channel[0]))
    case TakeCounter => s.(worker := Counted(s.worker.event, s.dropped), dropped := 0)
    case WriteNote => Wrote(s, Lost(s.worker.lost)).(worker := Counted(s.worker.event, 0))
    case WriteEvent => Wrote(s, Event(s.worker.event)).(worker := Waiting)
  }

  // One process, from the files it finds.
  function Start(files: Files): System {
    System([], 0, 0, Waiting, files, 0, [], [])
  }

  ghost predicate Legal(start: System, steps: seq<Step>)
    decreases |steps|
  {
    steps == [] || (Enabled(start, steps[0]) && Legal(Next(start, steps[0]), steps[1..]))
  }

  ghost function Run(start: System, steps: seq<Step>): System
    requires Legal(start, steps)
    decreases |steps|
  {
    if steps == [] then start else Run(Next(start, steps[0]), steps[1..])
  }

  function InHand(worker: Worker): seq<Bytes> {
    if worker.Waiting? then [] else [worker.event]
  }

  function CountedInHand(worker: Worker): nat {
    if worker.Counted? then worker.lost else 0
  }

  function EventsIn(history: seq<Entry>): (events: seq<Bytes>)
    decreases |history|
  {
    if history == [] then []
    else
      var last := history[|history| - 1];
      EventsIn(history[..|history| - 1]) + if last.Event? then [last.bytes] else []
  }

  function Reported(history: seq<Entry>): (lost: nat)
    decreases |history|
  {
    if history == [] then 0
    else
      var last := history[|history| - 1];
      Reported(history[..|history| - 1]) + if last.Lost? then last.count else 0
  }

  // Every event offered is written, in hand, queued, or counted as dropped exactly once.
  predicate NothingIsLostSilently(s: System) {
    s.produced == |EventsIn(s.history)| + |InHand(s.worker)| + |s.channel|
                + s.failing + s.dropped + CountedInHand(s.worker) + Reported(s.history)
  }

  // What the channel accepted comes out in order.
  predicate OrderIsKept(s: System) {
    s.accepted == EventsIn(s.history) + InHand(s.worker) + s.channel
  }

  // `before` is what earlier processes appended.
  predicate Invariant(before: seq<Bytes>, s: System) {
    && |s.channel| <= TRACE_CHANNEL_CAP
    && NothingIsLostSilently(s)
    && OrderIsKept(s)
    && FilesHold(s.files)
    && EndsWith(before + Texts(s.history), Spelled(s.files))
  }

  lemma HistoryGrows(history: seq<Entry>, entry: Entry)
    ensures EventsIn(history + [entry]) == EventsIn(history) + if entry.Event? then [entry.bytes] else []
    ensures Reported(history + [entry]) == Reported(history) + if entry.Lost? then entry.count else 0
    ensures Texts(history + [entry]) == Texts(history) + [TextOf(entry)]
  {
    assert (history + [entry])[..|history|] == history;
  }

  lemma OneWriteKeepsTheFiles(before: seq<Bytes>, history: seq<Entry>, files: Files, entry: Entry)
    requires FilesHold(files) && EndsWith(before + Texts(history), Spelled(files))
    ensures FilesHold(AppendedFiles(files, TextOf(entry)))
    ensures EndsWith(before + Texts(history + [entry]), Spelled(AppendedFiles(files, TextOf(entry))))
  {
    AppendKeepsTheFit(files, TextOf(entry));
    AppendSpellsTheEnd(before + Texts(history), files, TextOf(entry));
    HistoryGrows(history, entry);
    assert (before + Texts(history)) + [TextOf(entry)] == before + Texts(history + [entry]);
  }

  lemma NoteKeepsTheInvariant(before: seq<Bytes>, s: System)
    requires Invariant(before, s) && Enabled(s, WriteNote)
    ensures Invariant(before, Next(s, WriteNote))
  {
    OneWriteKeepsTheFiles(before, s.history, s.files, Lost(s.worker.lost));
    HistoryGrows(s.history, Lost(s.worker.lost));
  }

  lemma EventKeepsTheInvariant(before: seq<Bytes>, s: System)
    requires Invariant(before, s) && Enabled(s, WriteEvent)
    ensures Invariant(before, Next(s, WriteEvent))
  {
    OneWriteKeepsTheFiles(before, s.history, s.files, Event(s.worker.event));
    HistoryGrows(s.history, Event(s.worker.event));
  }

  lemma StepKeepsTheInvariant(before: seq<Bytes>, s: System, step: Step)
    requires Invariant(before, s) && Enabled(s, step)
    ensures Invariant(before, Next(s, step))
  {
    match step
    case Offer(event) =>
    case CountDrop =>
    case Receive =>
    case TakeCounter =>
    case WriteNote => NoteKeepsTheInvariant(before, s);
    case WriteEvent => EventKeepsTheInvariant(before, s);
  }

  lemma {:induction false} RunKeepsTheInvariant(before: seq<Bytes>, start: System, steps: seq<Step>)
    requires Invariant(before, start) && Legal(start, steps)
    ensures Invariant(before, Run(start, steps))
    decreases |steps|
  {
    if steps != [] {
      StepKeepsTheInvariant(before, start, steps[0]);
      RunKeepsTheInvariant(before, Next(start, steps[0]), steps[1..]);
    }
  }

  // The number being freed spells nothing, so a rotation stopped half way spells what a whole one does.
  lemma {:induction false} MovedFilesSpell(was: Files, files: Files, free: nat, n: nat)
    requires n <= TRACE_ROTATED_KEEP && MovedDownTo(was, files, free)
    ensures SpelledFrom(files, n) == if n < free then SpelledFrom(was, n) else if n == 0 then [] else SpelledFrom(was, n - 1)
    decreases n
  {
    assert Slot(files, n) == MovedSlot(was, free, n);
    if n > 0 {
      MovedFilesSpell(was, files, free, n - 1);
    }
  }

  lemma {:induction false} OpeningSpellsTheSame(files: Files, n: nat)
    ensures SpelledFrom(Opened(files), n) == SpelledFrom(files, n)
    decreases n
  {
    if n > 0 {
      OpeningSpellsTheSame(files, n - 1);
    }
  }

  lemma StoppedRotationKeepsTheFit(was: Files, files: Files, free: nat)
    requires FilesHold(was) && MovedDownTo(was, files, free)
    ensures FilesHold(Opened(files))
  {
    forall n | n in Opened(files) ensures n <= TRACE_ROTATED_KEEP && FileFits(Opened(files)[n]) {
      assert Slot(files, n) == MovedSlot(was, free, n);
    }
  }

  // Wherever a process stops, the next one opens files that fit and spell an end of what was appended; only the
  // oldest file can be gone.
  lemma StoppedProcessLeavesATail(all: seq<Bytes>, was: Files, files: Files)
    requires FilesHold(was) && EndsWith(all, Spelled(was)) && LeftBy(was, files)
    ensures FilesHold(Opened(files)) && EndsWith(all, Spelled(Opened(files)))
    ensures Spelled(Opened(files)) == Spelled(was) || Spelled(Opened(files)) == Spelled(Rotated(was))
  {
    if files == was {
      assert Opened(files) == was;
    } else {
      var free: nat :| free <= TRACE_ROTATED_KEEP && MovedDownTo(was, files, free);
      StoppedRotationKeepsTheFit(was, files, free);
      StoppedRotationSpells(was, files, free);
      RotationDropsOnlyTheOldest(was);
      EndsWithRest(all, FileAt(was, TRACE_ROTATED_KEEP), Spelled(Rotated(was)));
    }
  }

  lemma StoppedRotationSpells(was: Files, files: Files, free: nat)
    requires free <= TRACE_ROTATED_KEEP && MovedDownTo(was, files, free)
    ensures Spelled(Opened(files)) == Spelled(Rotated(was))
  {
    OpeningSpellsTheSame(files, TRACE_ROTATED_KEEP);
    MovedFilesSpell(was, files, free, TRACE_ROTATED_KEEP);
    RotationShiftsTheSpelling(was, TRACE_ROTATED_KEEP - 1);
  }

  lemma EndsWithRest(all: seq<Bytes>, head: seq<Bytes>, tail: seq<Bytes>)
    requires EndsWith(all, head + tail)
    ensures EndsWith(all, tail)
  {
  }

  // A process that is over: its steps, and the files it left.
  datatype Life = Life(steps: seq<Step>, left: Files)

  ghost predicate Lives(found: Files, lives: seq<Life>)
    decreases |lives|
  {
    lives == []
    || (&& Legal(Start(Opened(found)), lives[0].steps)
        && LeftBy(Run(Start(Opened(found)), lives[0].steps).files, lives[0].left)
        && Lives(lives[0].left, lives[1..]))
  }

  function LeftAfter(found: Files, lives: seq<Life>): Files {
    if lives == [] then found else lives[|lives| - 1].left
  }

  // Everything these processes appended.
  ghost function Appended(found: Files, lives: seq<Life>): (writes: seq<Bytes>)
    requires Lives(found, lives)
    decreases |lives|
  {
    if lives == [] then []
    else Texts(Run(Start(Opened(found)), lives[0].steps).history) + Appended(lives[0].left, lives[1..])
  }

  lemma StartKeepsTheInvariant(before: seq<Bytes>, files: Files)
    requires FilesHold(files) && EndsWith(before, Spelled(files))
    ensures Invariant(before, Start(files))
  {
    assert before + Texts([]) == before;
  }

  lemma OneProcessLeavesATail(before: seq<Bytes>, files: Files, life: Life)
    requires FilesHold(files) && EndsWith(before, Spelled(files))
    requires Legal(Start(files), life.steps) && LeftBy(Run(Start(files), life.steps).files, life.left)
    ensures FilesHold(Opened(life.left))
    ensures EndsWith(before + Texts(Run(Start(files), life.steps).history), Spelled(Opened(life.left)))
  {
    var over := Run(Start(files), life.steps);
    StartKeepsTheInvariant(before, files);
    RunKeepsTheInvariant(before, Start(files), life.steps);
    StoppedProcessLeavesATail(before + Texts(over.history), over.files, life.left);
  }

  lemma Regrouped(a: seq<Bytes>, b: seq<Bytes>, c: seq<Bytes>)
    ensures (a + b) + c == a + (b + c)
  {
  }

  lemma {:induction false} EveryProcessStartsRight(before: seq<Bytes>, found: Files, lives: seq<Life>)
    requires FilesHold(Opened(found)) && EndsWith(before, Spelled(Opened(found)))
    requires Lives(found, lives)
    ensures var files := Opened(LeftAfter(found, lives));
            FilesHold(files) && EndsWith(before + Appended(found, lives), Spelled(files))
    decreases |lives|
  {
    if lives == [] {
      assert before + [] == before;
    } else {
      var texts := Texts(Run(Start(Opened(found)), lives[0].steps).history);
      OneProcessLeavesATail(before, Opened(found), lives[0]);
      EveryProcessStartsRight(before + texts, lives[0].left, lives[1..]);
      Regrouped(before, texts, Appended(lives[0].left, lives[1..]));
    }
  }

  // Main result: over every interleaving of producers and worker, and after any processes before this one, each
  // stopped anywhere, the files spell the end of everything ever appended, each within the cap or one oversized
  // write, and every event offered is accounted for once.
  lemma TraceIsAFaithfulTail(lives: seq<Life>, steps: seq<Step>)
    requires Lives(map[], lives) && Legal(Start(Opened(LeftAfter(map[], lives))), steps)
    ensures Invariant(Appended(map[], lives), Run(Start(Opened(LeftAfter(map[], lives))), steps))
  {
    var files := Opened(LeftAfter(map[], lives));
    FirstProcessStartsRight();
    EveryProcessStartsRight([], map[], lives);
    assert [] + Appended(map[], lives) == Appended(map[], lives);
    StartKeepsTheInvariant(Appended(map[], lives), files);
    RunKeepsTheInvariant(Appended(map[], lives), Start(files), steps);
  }

  // An empty directory is where it all starts.
  lemma FirstProcessStartsRight()
    ensures FilesHold(Opened(map[])) && EndsWith([], Spelled(Opened(map[])))
  {
    var files := Opened(map[]);
    assert SpelledFrom(files, 0) == [] && SpelledFrom(files, 1) == [] && SpelledFrom(files, 2) == [];
  }

  lemma {:induction false} ContentConcat(a: seq<Bytes>, b: seq<Bytes>)
    ensures Content(a + b) == Content(a) + Content(b)
    decreases |b|
  {
    if b == [] {
      assert a + b == a;
    } else {
      assert (a + b)[..|a + b| - 1] == a + b[..|b| - 1];
      ContentConcat(a, b[..|b| - 1]);
    }
  }

  // In bytes: the files hold the end of the byte stream, cut at the end of a write.
  lemma BytesAreATailToo(all: seq<Bytes>, tail: seq<Bytes>)
    requires EndsWith(all, tail)
    ensures Content(all) == Content(all[..|all| - |tail|]) + Content(tail)
  {
    assert all == all[..|all| - |tail|] + tail;
    ContentConcat(all[..|all| - |tail|], tail);
  }
}
