/**
 The yearly slot of crates/companion/src/dayparting.rs: when it is open, and how often it is used.
 The clock, the player and the transport are inputs; the secret store and the queue requests are state.
 */
module Dayparting {
  import opened DistinctLists
  import opened Wrappers
  import opened Calendar
  import opened CivilDate

  const I64_MAX := 0x7FFF_FFFF_FFFF_FFFF
  const SLOT_MONTH := 4
  const SLOT_DAY := 1
  const DAY_SECONDS := 86_400

  datatype HostClock = HostClock(unixSeconds: nat, utcOffsetMinutes: int, dstOffsetMinutes: int)

  // Dafny's `/` is Euclidean, as is `div_euclid`.
  function ScheduledCycle(clock: HostClock): (cycle: Option<int>) {
    if clock.unixSeconds > I64_MAX then None
    else
      var offsetMinutes := clock.utcOffsetMinutes + clock.dstOffsetMinutes;
      var local := clock.unixSeconds + offsetMinutes * 60;
      var date := YmdFromUnixDays(local / DAY_SECONDS);
      if date.month == SLOT_MONTH && date.day == SLOT_DAY then Some(date.year) else None
  }

  // The Unix second at which April 1 of `year` begins on a clock with this offset.
  function SlotStart(year: int, offsetMinutes: int): (second: int) {
    DayNumber(Date(year, SLOT_MONTH, SLOT_DAY)) * DAY_SECONDS - offsetMinutes * 60
  }

  // The cycle of a year is announced during one run of 86,400 consecutive seconds and at no other time.
  lemma CycleIsOneLocalDay(clock: HostClock, year: int)
    ensures ScheduledCycle(clock) == Some(year) <==>
            && clock.unixSeconds <= I64_MAX
            && var start := SlotStart(year, clock.utcOffsetMinutes + clock.dstOffsetMinutes);
               start <= clock.unixSeconds < start + DAY_SECONDS
  {
    var local := clock.unixSeconds + (clock.utcOffsetMinutes + clock.dstOffsetMinutes) * 60;
    YmdIsExactly(local / DAY_SECONDS, Date(year, SLOT_MONTH, SLOT_DAY));
    LocalDay(local, DayNumber(Date(year, SLOT_MONTH, SLOT_DAY)));
  }

  lemma LocalDay(local: int, day: int)
    ensures local / DAY_SECONDS == day <==> day * DAY_SECONDS <= local < day * DAY_SECONDS + DAY_SECONDS
  {
  }

  // The runs of different years do not touch: at least 364 days lie between them.
  lemma CyclesAreApart(a: int, b: int, offsetMinutes: int)
    requires a < b
    ensures SlotStart(a, offsetMinutes) + 365 * DAY_SECONDS <= SlotStart(b, offsetMinutes)
  {
    AprilsAreAYearApart(a, b);
  }

  lemma {:induction false} AprilsAreAYearApart(a: int, b: int)
    requires a <= b
    ensures DayNumber(Date(a, SLOT_MONTH, SLOT_DAY)) + 365 * (b - a) <= DayNumber(Date(b, SLOT_MONTH, SLOT_DAY))
    decreases b - a
  {
    if a < b {
      AprilsAreAYearApart(a, b - 1);
      YearStartStep(b - 1);
      forall year ensures MonthStart(year, 4) == 59 + 31 + (YearLength(year) - 365) {
        assert MonthStart(year, 2) == 31 && MonthStart(year, 3) == MonthStart(year, 2) + MonthLength(year, 2);
      }
    }
  }

  // What one call of `observe` sees.
  datatype Sighting = Sighting(playing: bool, spotify: bool, peerConnected: bool, cycle: Option<int>, transport: bool)

  datatype Memory = Memory(spent: bool, lastCycle: Option<int>, seeds: seq<int>)

  function Observed(memory: Memory, seen: Sighting): (next: Memory) {
    if memory.spent || !seen.playing || !seen.spotify || !seen.peerConnected || seen.cycle.None? then memory
    else if memory.lastCycle == seen.cycle || !seen.transport then memory.(spent := true)
    else Memory(true, seen.cycle, memory.seeds + [seen.cycle.value])
  }

  class Observer {
    var spent: bool
    var lastCycle: Option<int>  // the secret store's entry: it outlives the process
    var seeds: seq<int>         // the cycles for which a queue request went out

    ghost function State(): Memory
      reads this
    {
      Memory(spent, lastCycle, seeds)
    }

    constructor (lastCycle: Option<int>, seeds: seq<int>)
      ensures State() == Memory(false, lastCycle, seeds)
    {
      spent, this.lastCycle, this.seeds := false, lastCycle, seeds;
    }

    method Observe(seen: Sighting)
      modifies this
      ensures State() == Observed(old(State()), seen)
    {
      if spent { return; }
      if !seen.playing { return; }
      if !seen.spotify { return; }
      if !seen.peerConnected { return; }
      if seen.cycle.None? { return; }
      spent := true;
      if lastCycle == seen.cycle { return; }
      if !seen.transport { return; }
      lastCycle := seen.cycle;
      seeds := seeds + [seen.cycle.value];
    }
  }

  datatype Moment = Observe(seen: Sighting) | Restart

  // A run over several processes: a restart forgets `spent` and nothing else.
  function Life(memory: Memory, moments: seq<Moment>): (last: Memory)
    decreases |moments|
  {
    if moments == [] then memory
    else
      var before := Life(memory, moments[..|moments| - 1]);
      match moments[|moments| - 1]
      case Observe(seen) => Observed(before, seen)
      case Restart => before.(spent := false)
  }

  const FIRST_START := Memory(false, None, [])

  predicate Increasing(s: seq<int>) {
    forall i, j :: 0 <= i < j < |s| ==> s[i] < s[j]
  }

  // The years announced to the run never go back.
  predicate ClockNeverGoesBack(moments: seq<Moment>) {
    forall i, j :: 0 <= i <= j < |moments| && moments[i].Observe? && moments[j].Observe?
      && moments[i].seen.cycle.Some? && moments[j].seen.cycle.Some?
      ==> moments[i].seen.cycle.value <= moments[j].seen.cycle.value
  }

  predicate IsAnnounced(moments: seq<Moment>, year: int) {
    exists k :: 0 <= k < |moments| && moments[k].Observe? && moments[k].seen.cycle == Some(year)
  }

  predicate SeedsComeFromTheRun(moments: seq<Moment>, seeds: seq<int>) {
    forall i :: 0 <= i < |seeds| ==> IsAnnounced(moments, seeds[i])
  }

  // ----- which years are seeded

  predicate IsOpen(seen: Sighting) {
    seen.playing && seen.spotify && seen.peerConnected && seen.cycle.Some?
  }

  // Whether the process that is running has had an open sighting.
  predicate SeenSinceRestart(moments: seq<Moment>)
    decreases |moments|
  {
    moments != []
    && moments[|moments| - 1].Observe?
    && (IsOpen(moments[|moments| - 1].seen) || SeenSinceRestart(moments[..|moments| - 1]))
  }

  // The years tried, in order: those of the first open sighting of each process, if it has a transport.
  function Tried(moments: seq<Moment>): (years: seq<int>)
    decreases |moments|
  {
    if moments == [] then []
    else
      var early, last := moments[..|moments| - 1], moments[|moments| - 1];
      Tried(early)
      + if last.Observe? && IsOpen(last.seen) && last.seen.transport && !SeenSinceRestart(early)
        then [last.seen.cycle.value] else []
  }

  // A list with consecutive repeats taken out.
  function WithoutEchoes(years: seq<int>): (kept: seq<int>)
    decreases |years|
  {
    if years == [] then []
    else
      var early, last := years[..|years| - 1], years[|years| - 1];
      WithoutEchoes(early) + if early != [] && early[|early| - 1] == last then [] else [last]
  }

  lemma EchoesOneMore(years: seq<int>, year: int)
    ensures WithoutEchoes(years + [year])
         == if years != [] && years[|years| - 1] == year then WithoutEchoes(years) else WithoutEchoes(years) + [year]
  {
    assert (years + [year])[..|years|] == years;
    assert WithoutEchoes(years) + [] == WithoutEchoes(years);
  }

  predicate NoYearReturns(years: seq<int>) {
    forall i, j, k | 0 <= i < j < k < |years| && years[i] == years[k] :: years[j] == years[i]
  }

  // The memory after these years were tried.
  predicate Remembers(memory: Memory, tried: seq<int>) {
    && memory.seeds == WithoutEchoes(tried)
    && memory.lastCycle == (if tried == [] then None else Some(tried[|tried| - 1]))
  }

  lemma OneMoreSighting(memory: Memory, tried: seq<int>, seen: Sighting)
    requires Remembers(memory, tried)
    ensures var tries := !memory.spent && IsOpen(seen) && seen.transport;
            && Observed(memory, seen).spent == (memory.spent || IsOpen(seen))
            && Remembers(Observed(memory, seen), tried + if tries then [seen.cycle.value] else [])
  {
    if IsOpen(seen) {
      EchoesOneMore(tried, seen.cycle.value);
    }
    assert tried + [] == tried;
  }

  lemma {:induction false} SeedsAreTheTries(moments: seq<Moment>)
    ensures Life(FIRST_START, moments).spent == SeenSinceRestart(moments)
    ensures Remembers(Life(FIRST_START, moments), Tried(moments))
    decreases |moments|
  {
    if moments != [] {
      var early, last := moments[..|moments| - 1], moments[|moments| - 1];
      SeedsAreTheTries(early);
      if last.Observe? {
        OneMoreSighting(Life(FIRST_START, early), Tried(early), last.seen);
      } else {
        assert Tried(early) + [] == Tried(early);
      }
    }
  }

  lemma {:induction false} EchoesAreAllThatGoes(years: seq<int>)
    ensures forall year :: year in WithoutEchoes(years) <==> year in years
    ensures years != [] ==> var kept := WithoutEchoes(years); kept != [] && kept[|kept| - 1] == years[|years| - 1]
    decreases |years|
  {
    if years != [] {
      var early, last := years[..|years| - 1], years[|years| - 1];
      EchoesAreAllThatGoes(early);
      assert years == early + [last];
    }
  }

  lemma NoReturnOneMore(early: seq<int>, last: int)
    ensures NoYearReturns(early + [last]) <==>
            NoYearReturns(early) && (last in early ==> early[|early| - 1] == last)
  {
    var s := early + [last];
    assert forall i | 0 <= i < |early| :: s[i] == early[i];
    if NoYearReturns(s) {
      forall i, j, k | 0 <= i < j < k < |early| && early[i] == early[k] ensures early[j] == early[i] {
        assert s[i] == s[k];
      }
      if i :| 0 <= i < |early| && early[i] == last {
        var j, k := |early| - 1, |early|;
        assert s[i] == s[k] && (i < j ==> s[j] == s[i]);
      }
    }
    if NoYearReturns(early) && (last in early ==> early[|early| - 1] == last) {
      forall i, j, k | 0 <= i < j < k < |s| && s[i] == s[k] ensures s[j] == s[i] {
        if k == |early| {
          assert early[i] == last && last in early;
          assert j < |early| - 1 ==> early[i] == early[|early| - 1];
        }
      }
    }
  }

  lemma {:induction false} EchoesHideNoReturn(years: seq<int>)
    ensures Distinct(WithoutEchoes(years)) <==> NoYearReturns(years)
    decreases |years|
  {
    if years != [] {
      var early, last := years[..|years| - 1], years[|years| - 1];
      assert years == early + [last];
      EchoesHideNoReturn(early);
      EchoesAreAllThatGoes(early);
      NoReturnOneMore(early, last);
      EchoesOneMore(early, last);
      DistinctOneMore(WithoutEchoes(early), last);
    }
  }

  // Main result, for every clock: no year is seeded twice exactly when no year comes back after
  // another one was tried.
  lemma NoYearIsSeededTwiceUnlessItReturns(moments: seq<Moment>)
    ensures Distinct(Life(FIRST_START, moments).seeds) <==> NoYearReturns(Tried(moments))
  {
    SeedsAreTheTries(moments);
    EchoesHideNoReturn(Tried(moments));
  }

  // ----- clocks that do not go back

  lemma EarlierSeedsComeFromTheRun(moments: seq<Moment>, seeds: seq<int>)
    requires moments != [] && SeedsComeFromTheRun(moments[..|moments| - 1], seeds)
    ensures SeedsComeFromTheRun(moments, seeds)
  {
    var early := moments[..|moments| - 1];
    forall i | 0 <= i < |seeds| ensures IsAnnounced(moments, seeds[i]) {
      assert IsAnnounced(early, seeds[i]);
      var k :| 0 <= k < |early| && early[k].Observe? && early[k].seen.cycle == Some(seeds[i]);
      assert moments[k] == early[k];
    }
  }

  // The year tried last was announced at some moment, so none announced later is before it.
  lemma NextTryIsNotEarlier(moments: seq<Moment>, years: seq<int>, year: int)
    requires ClockNeverGoesBack(moments) && moments != []
    requires SeedsComeFromTheRun(moments[..|moments| - 1], years) && years != []
    requires moments[|moments| - 1].Observe? && moments[|moments| - 1].seen.cycle == Some(year)
    ensures years[|years| - 1] <= year
  {
    var early := moments[..|moments| - 1];
    var last := years[|years| - 1];
    assert IsAnnounced(early, last);
    var k :| 0 <= k < |early| && early[k].Observe? && early[k].seen.cycle == Some(last);
    assert moments[k] == early[k];
  }

  predicate NeverBack(years: seq<int>) {
    forall i, j :: 0 <= i <= j < |years| ==> years[i] <= years[j]
  }

  lemma {:induction false} TriesFollowTheClock(moments: seq<Moment>)
    requires ClockNeverGoesBack(moments)
    ensures SeedsComeFromTheRun(moments, Tried(moments)) && NeverBack(Tried(moments))
    decreases |moments|
  {
    if moments != [] {
      var early, last := moments[..|moments| - 1], moments[|moments| - 1];
      var years := Tried(early);
      TriesFollowTheClock(early);
      EarlierSeedsComeFromTheRun(moments, years);
      if Tried(moments) != years {
        var year := last.seen.cycle.value;
        assert Tried(moments) == years + [year];
        OneMoreTry(moments, years, year);
      }
    }
  }

  lemma OneMoreTry(moments: seq<Moment>, years: seq<int>, year: int)
    requires ClockNeverGoesBack(moments) && moments != []
    requires SeedsComeFromTheRun(moments[..|moments| - 1], years) && NeverBack(years)
    requires moments[|moments| - 1].Observe? && moments[|moments| - 1].seen.cycle == Some(year)
    ensures SeedsComeFromTheRun(moments, years + [year]) && NeverBack(years + [year])
  {
    EarlierSeedsComeFromTheRun(moments, years);
    assert IsAnnounced(moments, year);
    if years != [] {
      NextTryIsNotEarlier(moments, years, year);
    }
  }

  lemma {:induction false} EchoesOfOrderedYears(years: seq<int>)
    requires NeverBack(years)
    ensures Increasing(WithoutEchoes(years))
    decreases |years|
  {
    if years != [] {
      var early, last := years[..|years| - 1], years[|years| - 1];
      assert years == early + [last];
      EchoesOfOrderedYears(early);
      EchoesAreAllThatGoes(early);
      forall year | year in WithoutEchoes(early) ensures year <= last {
        var i :| 0 <= i < |early| && early[i] == year;
        assert years[i] <= years[|years| - 1];
      }
    }
  }

  // So, however often the app restarts, each year is seeded at most once while the clock does not go back.
  lemma EachYearIsSeededOnce(moments: seq<Moment>)
    requires ClockNeverGoesBack(moments)
    ensures NoYearReturns(Tried(moments))
    ensures var last := Life(FIRST_START, moments);
            && Increasing(last.seeds)
            && SeedsComeFromTheRun(moments, last.seeds)
            && last.lastCycle == (if last.seeds == [] then None else Some(last.seeds[|last.seeds| - 1]))
  {
    var tried, seeds := Tried(moments), Life(FIRST_START, moments).seeds;
    TriesFollowTheClock(moments);
    SeedsAreTheTries(moments);
    EchoesAreAllThatGoes(tried);
    EchoesOfOrderedYears(tried);
    forall i | 0 <= i < |seeds| ensures IsAnnounced(moments, seeds[i]) {
      assert seeds[i] in tried;
    }
  }

  // A clock that goes back over the turn of a year has it seeded twice: the store keeps one cycle.
  lemma ClockGoingBackSeedsTwice(year: int, other: int)
    requires year != other
    ensures exists moments: seq<Moment> ::
              Life(FIRST_START, moments).seeds == [year, other, year] && !NoYearReturns(Tried(moments))
  {
    var a := Observe(Sighting(true, true, true, Some(year), true));
    var b := Observe(Sighting(true, true, true, Some(other), true));
    var moments := [a, Restart, b, Restart, a];
    assert moments[..4] == [a, Restart, b, Restart];
    assert [a, Restart, b, Restart][..3] == [a, Restart, b];
    assert [a, Restart, b][..2] == [a, Restart];
    assert [a, Restart][..1] == [a];
    assert [a][..0] == [];
    assert Life(FIRST_START, [a]).seeds == [year];
    assert Life(FIRST_START, [a, Restart, b]) == Memory(true, Some(other), [year, other]);
    assert Life(FIRST_START, moments).seeds == [year, other, year];
    NoYearIsSeededTwiceUnlessItReturns(moments);
    var seeds := [year, other, year];
    assert seeds[0] == seeds[2] && !Distinct(seeds);
  }
}
