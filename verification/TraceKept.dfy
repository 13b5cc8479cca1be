/**
 How much the trace files keep: a file is only left when the next write does not fit it, so nothing is dropped
 before more than two files' worth is held.
 */
module TraceKept {
  import opened Wrappers
  import opened TraceLog

  // A rotated file and the first write of the file after it would not have fitted together, and the numbers in use
  // have no gap.
  ghost predicate Packed(files: Files) {
    && 0 in files
    && forall n: nat | n + 1 in files :: IsPackedAt(files, n)
  }

  predicate IsPackedAt(files: Files, n: nat)
    requires n + 1 in files
  {
    n in files && files[n] != [] && |Content(files[n + 1])| + |files[n][0]| > TRACE_FILE_CAP_BYTES
  }

  lemma AppendKeepsPacked(files: Files, bytes: Bytes)
    requires Packed(files)
    ensures Packed(AppendedFiles(files, bytes))
  {
    var after := AppendedFiles(files, bytes);
    forall n: nat | n + 1 in after ensures IsPackedAt(after, n) {
      if |Content(files[0])| + |bytes| > TRACE_FILE_CAP_BYTES {
        assert after[n + 1] == files[n];
        if n > 0 {
          assert IsPackedAt(files, n - 1);
        }
      } else {
        assert IsPackedAt(files, n);
      }
    }
  }

  // While the last number is free, nothing has been dropped.
  predicate KeepsAll(all: seq<Bytes>, files: Files) {
    TRACE_ROTATED_KEEP !in files ==> Spelled(files) == all
  }

  lemma NumbersHaveNoGap(files: Files, n: nat)
    requires Packed(files)
    ensures n + 1 in files ==> n in files
  {
    assert n + 1 in files ==> IsPackedAt(files, n);
  }

  lemma AppendKeepsAll(all: seq<Bytes>, files: Files, bytes: Bytes)
    requires Packed(files) && KeepsAll(all, files)
    ensures KeepsAll(all + [bytes], AppendedFiles(files, bytes))
  {
    var after := AppendedFiles(files, bytes);
    NumbersHaveNoGap(files, TRACE_ROTATED_KEEP - 1);
    if TRACE_ROTATED_KEEP !in after {
      if Overflows(files, bytes) {
        RotationDropsOnlyTheOldest(files);
        WriteExtendsTheSpelling(Rotated(files), bytes, TRACE_ROTATED_KEEP);
      } else {
        WriteExtendsTheSpelling(files, bytes, TRACE_ROTATED_KEEP);
      }
    }
  }

  // Of a process that starts from files that were kept in full, whatever its producers and worker do.
  predicate Kept(before: seq<Bytes>, s: System) {
    KeepsAll(before + Texts(s.history), s.files)
  }

  lemma WroteIsKept(before: seq<Bytes>, s: System, entry: Entry)
    requires Packed(s.files) && Kept(before, s)
    ensures Packed(Wrote(s, entry).files) && Kept(before, Wrote(s, entry))
  {
    AppendKeepsPacked(s.files, TextOf(entry));
    AppendKeepsAll(before + Texts(s.history), s.files, TextOf(entry));
    HistoryGrows(s.history, entry);
    assert (before + Texts(s.history)) + [TextOf(entry)] == before + Texts(s.history + [entry]);
  }

  lemma StepIsKept(before: seq<Bytes>, s: System, step: Step)
    requires Packed(s.files) && Kept(before, s) && Enabled(s, step)
    ensures Packed(Next(s, step).files) && Kept(before, Next(s, step))
  {
    match step
    case Offer(_) =>
    case CountDrop =>
    case Receive =>
    case TakeCounter =>
    case WriteNote => WroteIsKept(before, s, Lost(s.worker.lost));
    case WriteEvent => WroteIsKept(before, s, Event(s.worker.event));
  }

  lemma {:induction false} RunIsKept(before: seq<Bytes>, start: System, steps: seq<Step>)
    requires Packed(start.files) && Kept(before, start) && Legal(start, steps)
    ensures Packed(Run(start, steps).files) && Kept(before, Run(start, steps))
    decreases |steps|
  {
    if steps != [] {
      StepIsKept(before, start, steps[0]);
      RunIsKept(before, Next(start, steps[0]), steps[1..]);
    }
  }

  lemma SpelledFourFiles(files: Files)
    ensures Spelled(files) == FileAt(files, 3) + (FileAt(files, 2) + (FileAt(files, 1) + FileAt(files, 0)))
  {
    assert SpelledFrom(files, 0) == FileAt(files, 0) + [] == FileAt(files, 0);
    assert SpelledFrom(files, 1) == FileAt(files, 1) + SpelledFrom(files, 0);
    assert SpelledFrom(files, 2) == FileAt(files, 2) + SpelledFrom(files, 1);
  }

  lemma FirstWriteIsInside(writes: seq<Bytes>)
    requires writes != []
    ensures |writes[0]| <= |Content(writes)|
  {
    assert writes == [writes[0]] + writes[1..];
    ContentConcat([writes[0]], writes[1..]);
    assert [writes[0]][..0] == [] && Content([writes[0]]) == Content([]) + writes[0];
  }

  lemma TwoFilesAreFull(files: Files, n: nat)
    requires Packed(files) && n + 1 in files
    ensures |Content(FileAt(files, n + 1))| + |Content(FileAt(files, n))| > TRACE_FILE_CAP_BYTES
  {
    assert IsPackedAt(files, n);
    FirstWriteIsInside(files[n]);
  }

  lemma FullFilesHoldMuch(files: Files)
    requires Packed(files) && TRACE_ROTATED_KEEP in files
    ensures |Content(Spelled(files))| > 2 * TRACE_FILE_CAP_BYTES
  {
    assert IsPackedAt(files, 2) && IsPackedAt(files, 1) && IsPackedAt(files, 0);
    TwoFilesAreFull(files, 2);
    TwoFilesAreFull(files, 0);
    SpelledFourFiles(files);
    ContentConcat(FileAt(files, 1), FileAt(files, 0));
    ContentConcat(FileAt(files, 2), FileAt(files, 1) + FileAt(files, 0));
    ContentConcat(FileAt(files, 3), FileAt(files, 2) + (FileAt(files, 1) + FileAt(files, 0)));
  }

  // Main result: over every run of the producers and the worker, from an empty directory or from files a process left
  // that had kept so much, either everything ever appended is still there, or the files hold more than twice the cap.
  lemma NothingIsDroppedEarly(before: seq<Bytes>, files: Files, steps: seq<Step>)
    requires Packed(files) && KeepsAll(before, files) && Legal(Start(files), steps)
    ensures var s := Run(Start(files), steps);
            && Packed(s.files) && KeepsAll(before + Texts(s.history), s.files)
            && (|| Spelled(s.files) == before + Texts(s.history)
                || |Content(Spelled(s.files))| > 2 * TRACE_FILE_CAP_BYTES)
  {
    assert before + Texts([]) == before;
    RunIsKept(before, Start(files), steps);
    if TRACE_ROTATED_KEEP in Run(Start(files), steps).files {
      FullFilesHoldMuch(Run(Start(files), steps).files);
    }
  }

  // So whatever comes to no more than twice the cap is still there in full, from an empty directory on.
  lemma ShortTraceIsKept(steps: seq<Step>)
    requires Legal(Start(Opened(map[])), steps)
    ensures var s := Run(Start(Opened(map[])), steps);
            |Content(Texts(s.history))| <= 2 * TRACE_FILE_CAP_BYTES ==> Spelled(s.files) == Texts(s.history)
  {
    var s := Run(Start(Opened(map[])), steps);
    FirstProcessStartsRight();
    assert EndsWith([], Spelled(Opened(map[])));
    NothingIsDroppedEarly([], Opened(map[]), steps);
    assert [] + Texts(s.history) == Texts(s.history);
    TraceIsAFaithfulTail([], steps);
    if Spelled(s.files) != Texts(s.history) {
      assert EndsWith(Texts(s.history), Spelled(s.files)) by {
        assert Appended(map[], []) + Texts(s.history) == Texts(s.history);
      }
      BytesAreATailToo(Texts(s.history), Spelled(s.files));
    }
  }
}
