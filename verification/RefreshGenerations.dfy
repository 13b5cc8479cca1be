/**
 The store refresh of mobile/lib/catalog.ts. Every refresh is a run with its own generation; two
 fetches of a run answer in any order and at any time, and only the newest run may write.
 */
module RefreshGenerations {
  import opened Wrappers

  type Sources = seq<string>

  datatype Directory = Directory(catalogs: seq<string>, installs: map<string, nat>)

  datatype Snapshot = Snapshot(catalogs: seq<string>, directory: Option<string>, failures: seq<(string, string)>)

  datatype Store = Store(merged: Directory, directoryLoaded: bool, snapshot: Snapshot, refreshing: bool)

  const EMPTY_STORE := Store(Directory([], map[]), false, Snapshot([], None, []), false)

  // What the fetches of a run have answered so far: the directory's is Some(None) when it failed.
  datatype Run = Run(sources: Sources, directory: Option<Option<Directory>>, snapshot: Option<Snapshot>, finished: bool, settled: bool)

  datatype Inflight = Inflight(sources: Sources, run: nat)

  // The module-level state of the page, and the runs the callbacks still close over.
  datatype Refresher = Refresher(generation: nat, inflight: Option<Inflight>, store: Store, runs: map<nat, Run>)

  const INITIAL := Refresher(0, None, EMPTY_STORE, map[])

  datatype Step =
    | Call(sources: Sources)
    | DirectoryAnswered(run: nat, directory: Option<Directory>)
    | SourcesAnswered(run: nat, answer: Result<Snapshot, string>)
    | Finish(run: nat)
    | Settle(run: nat)

  function SnapshotOf(sources: Sources, answer: Result<Snapshot, string>): Snapshot {
    match answer
    case Success(snapshot) => snapshot
    case Failure(reason) => Snapshot([], None, seq(|sources|, i requires 0 <= i < |sources| => (sources[i], reason)))
  }

  // Each fetch answers once, a run finishes after both have, and its promise settles after that.
  predicate Enabled(s: Refresher, step: Step) {
    match step
    case Call(_) => true
    case DirectoryAnswered(g, _) => g in s.runs && s.runs[g].directory.None?
    case SourcesAnswered(g, _) => g in s.runs && s.runs[g].snapshot.None?
    case Finish(g) => g in s.runs && s.runs[g].directory.Some? && s.runs[g].snapshot.Some? && !s.runs[g].finished
    case Settle(g) => g in s.runs && s.runs[g].finished && !s.runs[g].settled
  }

  function Called(s: Refresher, sources: Sources): Refresher {
    if s.inflight.Some? && s.inflight.value.sources == sources then s
    else
      var g := s.generation + 1;
      Refresher(g, Some(Inflight(sources, g)), s.store.(refreshing := true),
                s.runs[g := Run(sources, None, None, false, false)])
  }

  function Stepped(s: Refresher, step: Step): Refresher
    requires Enabled(s, step)
  {
    match step
    case Call(sources) => Called(s, sources)
    case DirectoryAnswered(g, directory) =>
      var answered := s.(runs := s.runs[g := s.runs[g].(directory := Some(directory))]);
      if g != s.generation then answered
      else if directory.None? then answered.(store := s.store.(directoryLoaded := true))
      else answered.(store := s.store.(merged := directory.value, directoryLoaded := true))
    case SourcesAnswered(g, answer) =>
      var snapshot := SnapshotOf(s.runs[g].sources, answer);
      var answered := s.(runs := s.runs[g := s.runs[g].(snapshot := Some(snapshot))]);
      if g != s.generation then answered else answered.(store := s.store.(snapshot := snapshot))
    case Finish(g) =>
      var done := s.(runs := s.runs[g := s.runs[g].(finished := true)]);
      if g != s.generation then done else done.(store := s.store.(refreshing := false))
    case Settle(g) =>
      var done := s.(runs := s.runs[g := s.runs[g].(settled := true)]);
      if s.inflight.Some? && s.inflight.value.run == g then done.(inflight := None) else done
  }

  predicate RunsFrom(s: Refresher, steps: seq<Step>)
    decreases |steps|
  {
    steps == [] || (Enabled(s, steps[0]) && RunsFrom(Stepped(s, steps[0]), steps[1..]))
  }

  function After(s: Refresher, steps: seq<Step>): Refresher
    requires RunsFrom(s, steps)
    decreases |steps|
  {
    if steps == [] then s else After(Stepped(s, steps[0]), steps[1..])
  }

  class CatalogPage {
    var generation: nat
    var inflight: Option<Inflight>
    var merged: Directory
    var directoryLoaded: bool
    var snapshot: Snapshot
    var refreshing: bool
    ghost var runs: map<nat, Run>

    ghost function Current(): Refresher
      reads this
    {
      Refresher(generation, inflight, Store(merged, directoryLoaded, snapshot, refreshing), runs)
    }

    constructor ()
      ensures Current() == INITIAL
    {
      generation, inflight, runs := 0, None, map[];
      merged, directoryLoaded, refreshing := Directory([], map[]), false, false;
      snapshot := Snapshot([], None, []);
    }

    // `refreshCatalog` from the moment the sources are known. The caller waits for the run returned.
    method RefreshCatalog(sources: Sources) returns (run: nat)
      requires Inv(Current())
      modifies this
      ensures Current() == Stepped(old(Current()), Call(sources))
      ensures run == generation && run in runs && runs[run].sources == sources && !runs[run].settled
    {
      if inflight.Some? && inflight.value.sources == sources {
        return inflight.value.run;
      }
      generation := generation + 1;
      run := generation;
      runs := runs[run := Run(sources, None, None, false, false)];
      refreshing := true;
      inflight := Some(Inflight(sources, run));
    }

    method OnDirectory(run: nat, directory: Option<Directory>)
      requires Enabled(Current(), DirectoryAnswered(run, directory))
      modifies this
      ensures Current() == Stepped(old(Current()), DirectoryAnswered(run, directory))
    {
      runs := runs[run := runs[run].(directory := Some(directory))];
      if run != generation {
        return;
      }
      if directory.Some? {
        merged := directory.value;
      }
      directoryLoaded := true;
    }

    method OnSources(run: nat, sources: Sources, answer: Result<Snapshot, string>)
      requires Enabled(Current(), SourcesAnswered(run, answer)) && runs[run].sources == sources
      modifies this
      ensures Current() == Stepped(old(Current()), SourcesAnswered(run, answer))
    {
      var next := SnapshotOf(sources, answer);
      runs := runs[run := runs[run].(snapshot := Some(next))];
      if run == generation {
        snapshot := next;
      }
    }

    method OnBothAnswered(run: nat)
      requires Enabled(Current(), Finish(run))
      modifies this
      ensures Current() == Stepped(old(Current()), Finish(run))
    {
      runs := runs[run := runs[run].(finished := true)];
      if run == generation {
        refreshing := false;
      }
    }

    method OnSettled(run: nat)
      requires Enabled(Current(), Settle(run))
      modifies this
      ensures Current() == Stepped(old(Current()), Settle(run))
    {
      runs := runs[run := runs[run].(settled := true)];
      if inflight.Some? && inflight.value.run == run {
        inflight := None;
      }
    }
  }

  predicate WellOrdered(run: Run) {
    && (run.finished ==> run.directory.Some? && run.snapshot.Some?)
    && (run.settled ==> run.finished)
  }

  // The page says it refreshes exactly while the newest run is unfinished; callers can join exactly
  // the newest run, until it has settled; and what the newest run has fetched is what is shown.
  ghost predicate Inv(s: Refresher) {
    && (forall g :: g in s.runs <==> 1 <= g <= s.generation)
    && (forall g | g in s.runs :: WellOrdered(s.runs[g]))
    && (s.generation == 0 ==> s.inflight.None? && !s.store.refreshing)
    && (s.generation > 0 ==>
          var newest := s.runs[s.generation];
          && s.store.refreshing == !newest.finished
          && s.inflight == (if newest.settled then None else Some(Inflight(newest.sources, s.generation)))
          && (newest.snapshot.Some? ==> s.store.snapshot == newest.snapshot.value)
          && (newest.directory.Some? ==> s.store.directoryLoaded)
          && (newest.directory.Some? && newest.directory.value.Some? ==> s.store.merged == newest.directory.value.value))
  }

  lemma CallKeepsTheInvariant(s: Refresher, step: Step)
    requires Inv(s) && Enabled(s, step) && step.Call?
    ensures Inv(Stepped(s, step))
  {
  }

  lemma AnswerKeepsTheInvariant(s: Refresher, step: Step)
    requires Inv(s) && Enabled(s, step) && (step.DirectoryAnswered? || step.SourcesAnswered?)
    ensures Inv(Stepped(s, step))
  {
  }

  lemma EndKeepsTheInvariant(s: Refresher, step: Step)
    requires Inv(s) && Enabled(s, step) && (step.Finish? || step.Settle?)
    ensures Inv(Stepped(s, step))
  {
  }

  lemma StepKeepsTheInvariant(s: Refresher, step: Step)
    requires Inv(s) && Enabled(s, step)
    ensures Inv(Stepped(s, step))
  {
    if step.Call? {
      CallKeepsTheInvariant(s, step);
    } else if step.Finish? || step.Settle? {
      EndKeepsTheInvariant(s, step);
    } else {
      AnswerKeepsTheInvariant(s, step);
    }
  }

  lemma {:induction false} EveryRunKeepsTheInvariant(s: Refresher, steps: seq<Step>)
    requires Inv(s) && RunsFrom(s, steps)
    ensures Inv(After(s, steps))
    decreases |steps|
  {
    if steps != [] {
      StepKeepsTheInvariant(s, steps[0]);
      EveryRunKeepsTheInvariant(Stepped(s, steps[0]), steps[1..]);
    }
  }

  // A fetch answering for, or the end of, a run that a newer one has superseded.
  predicate Superseded(s: Refresher, step: Step) {
    !step.Call? && step.run != s.generation
  }

  function Effective(s: Refresher, steps: seq<Step>): (kept: seq<Step>)
    requires RunsFrom(s, steps)
    decreases |steps|
  {
    if steps == [] then []
    else (if Superseded(s, steps[0]) then [] else [steps[0]]) + Effective(Stepped(s, steps[0]), steps[1..])
  }

  predicate Alike(s: Refresher, t: Refresher) {
    && s.generation == t.generation && s.inflight == t.inflight && s.store == t.store
    && (s.generation > 0 ==> s.generation in s.runs && s.generation in t.runs && s.runs[s.generation] == t.runs[s.generation])
  }

  lemma SupersededStepsShowNothing(s: Refresher, step: Step)
    requires Inv(s) && Enabled(s, step) && Superseded(s, step)
    ensures Alike(Stepped(s, step), s)
  {
  }

  lemma OtherStepsActAlike(s: Refresher, t: Refresher, step: Step)
    requires Inv(s) && Enabled(s, step) && !Superseded(s, step) && Alike(s, t)
    ensures Enabled(t, step) && Alike(Stepped(s, step), Stepped(t, step))
  {
    if !step.Call? {
      assert s.generation > 0;
    }
  }

  // No result of a superseded run ever reaches the store: without those results, every run ends
  // with the same store, the same run to join and the same newest generation.
  lemma {:induction false} SupersededRunsLeaveNoTrace(s: Refresher, t: Refresher, steps: seq<Step>)
    requires Inv(s) && RunsFrom(s, steps) && Alike(s, t)
    ensures RunsFrom(t, Effective(s, steps))
    ensures Alike(After(s, steps), After(t, Effective(s, steps)))
    decreases |steps|
  {
    if steps == [] {
    } else {
      var next := Stepped(s, steps[0]);
      var rest := Effective(next, steps[1..]);
      StepKeepsTheInvariant(s, steps[0]);
      if Superseded(s, steps[0]) {
        SupersededStepsShowNothing(s, steps[0]);
        assert Effective(s, steps) == rest;
        SupersededRunsLeaveNoTrace(next, t, steps[1..]);
      } else {
        OtherStepsActAlike(s, t, steps[0]);
        assert Effective(s, steps)[0] == steps[0] && Effective(s, steps)[1..] == rest;
        SupersededRunsLeaveNoTrace(next, Stepped(t, steps[0]), steps[1..]);
      }
    }
  }

  // What the answer of the newest run shows: the snapshot fetched, or no catalog and one failure for each of the run's
  // own sources, in their order. An answer of any other run shows nothing.
  lemma AnswerIsShown(s: Refresher, run: nat, answer: Result<Snapshot, string>)
    requires Inv(s) && Enabled(s, SourcesAnswered(run, answer))
    ensures var shown, sources := Stepped(s, SourcesAnswered(run, answer)).store.snapshot, s.runs[run].sources;
            if run != s.generation then shown == s.store.snapshot
            else
              match answer
              case Success(fetched) => shown == fetched
              case Failure(reason) =>
                && shown.catalogs == [] && shown.directory == None && |shown.failures| == |sources|
                && forall i | 0 <= i < |sources| :: shown.failures[i] == (sources[i], reason)
  {
  }

  // The newest run is over the sources of the last call that did not join.
  lemma CallOpensARun(s: Refresher, sources: Sources)
    requires Inv(s)
    ensures var t := Stepped(s, Call(sources));
            && t.generation in t.runs && t.runs[t.generation].sources == sources
            && (t.generation == s.generation <==> s.inflight.Some? && s.generation > 0 && s.runs[s.generation].sources == sources)
            && (t.generation != s.generation ==> t.store == s.store.(refreshing := true))
  {
  }

  // Once the page stops refreshing, it shows what the newest run fetched for its own sources, also
  // when those could not be fetched.
  lemma QuietPageShowsTheNewestRun(steps: seq<Step>)
    requires RunsFrom(INITIAL, steps)
    ensures var s := After(INITIAL, steps);
            s.generation > 0 && !s.store.refreshing ==>
              && s.generation in s.runs && s.runs[s.generation].finished
              && s.runs[s.generation].snapshot == Some(s.store.snapshot)
              && s.store.directoryLoaded && s.runs[s.generation].directory in {Some(None), Some(Some(s.store.merged))}
  {
    EveryRunKeepsTheInvariant(INITIAL, steps);
  }

  lemma FirstStep(s: Refresher, step: Step, rest: seq<Step>)
    requires Enabled(s, step) && RunsFrom(Stepped(s, step), rest)
    ensures RunsFrom(s, [step] + rest) && After(s, [step] + rest) == After(Stepped(s, step), rest)
  {
    assert ([step] + rest)[1..] == rest;
  }

  // Wherever the page has come, its newest run can finish, and the page is quiet then.
  lemma NewestRunCanFinish(s: Refresher) returns (steps: seq<Step>)
    requires Inv(s) && s.generation > 0
    ensures RunsFrom(s, steps) && After(s, steps).generation == s.generation && !After(s, steps).store.refreshing
  {
    var g := s.generation;
    var run := s.runs[g];
    if run.directory.None? {
      var next := Stepped(s, DirectoryAnswered(g, None));
      StepKeepsTheInvariant(s, DirectoryAnswered(g, None));
      var rest := AnsweredRunCanFinish(next);
      FirstStep(s, DirectoryAnswered(g, None), rest);
      steps := [DirectoryAnswered(g, None)] + rest;
    } else {
      steps := AnsweredRunCanFinish(s);
    }
  }

  lemma AnsweredRunCanFinish(s: Refresher) returns (steps: seq<Step>)
    requires Inv(s) && s.generation > 0 && s.runs[s.generation].directory.Some?
    ensures RunsFrom(s, steps) && After(s, steps).generation == s.generation && !After(s, steps).store.refreshing
  {
    var g := s.generation;
    var failed := SourcesAnswered(g, Failure("unreachable"));
    if s.runs[g].snapshot.None? {
      var next := Stepped(s, failed);
      StepKeepsTheInvariant(s, failed);
      FirstStep(next, Finish(g), []);
      FirstStep(s, failed, [Finish(g)] + []);
      steps := [failed] + ([Finish(g)] + []);
    } else if !s.runs[g].finished {
      FirstStep(s, Finish(g), []);
      steps := [Finish(g)] + [];
    } else {
      steps := [];
    }
  }
}
