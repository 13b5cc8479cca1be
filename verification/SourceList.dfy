/**
 The list of subscribed sources of mobile/lib/catalog.ts: reads whose answers land later, or fail and
 fall back to what the page shows, rewrites that wait for one another, and moving a source up or down.
 */
module SourceList {
  import opened DistinctLists
  import opened Wrappers

  // A normalised source address: trimmed and not blank.
  datatype Url = Url(address: string)

  // What the companion core keeps of a list it is given: the first of every repeated address.
  function Subscriptions(urls: seq<Url>): seq<Url> {
    if urls == [] then []
    else
      var kept := Subscriptions(urls[..|urls| - 1]);
      if urls[|urls| - 1] in kept then kept else kept + [urls[|urls| - 1]]
  }

  function IndexOf(urls: seq<Url>, url: Url): (i: int)
    ensures if url in urls then 0 <= i < |urls| && urls[i] == url && url !in urls[..i] else i == -1
  {
    if urls == [] then -1
    else if urls[0] == url then 0
    else
      var i := IndexOf(urls[1..], url);
      assert urls == urls[..1] + urls[1..];
      if i == -1 then -1
      else
        assert urls[..i + 1] == urls[..1] + urls[1..][..i];
        i + 1
  }

  // The two halves of `next.splice(to, 0, ...next.splice(from, 1))`.
  function RemoveAt(urls: seq<Url>, from: int): seq<Url>
    requires 0 <= from < |urls|
  {
    urls[..from] + urls[from + 1..]
  }

  function InsertAt(urls: seq<Url>, to: int, url: Url): seq<Url>
    requires 0 <= to <= |urls|
  {
    urls[..to] + [url] + urls[to..]
  }

  datatype Change = Add(url: Url) | Move(url: Url, delta: int) | Remove(url: Url)

  // The list to write, or none when there is nothing to write.
  function Rewritten(held: seq<Url>, change: Change): Option<seq<Url>> {
    match change
    case Add(url) => if url in held then None else Some(held + [url])
    case Remove(url) => if url in held then Some(Without(held, url)) else None
    case Move(url, delta) =>
      var from := IndexOf(held, url);
      var to := from + delta;
      if from == -1 || to < 0 || to >= |held| then None
      else Some(InsertAt(RemoveAt(held, from), to, url))
  }

  // The effect of one change on a list that is up to date.
  function Effect(core: seq<Url>, change: Change): seq<Url> {
    match Rewritten(core, change)
    case None => core
    case Some(next) => Subscriptions(next)
  }

  lemma {:induction false} SubscriptionsAreDistinct(urls: seq<Url>)
    ensures Distinct(Subscriptions(urls))
    ensures forall u :: u in Subscriptions(urls) <==> u in urls
    ensures Distinct(urls) ==> Subscriptions(urls) == urls
  {
    if urls != [] {
      var init := urls[..|urls| - 1];
      assert urls == init + [urls[|urls| - 1]];
      SubscriptionsAreDistinct(init);
    }
  }

  lemma InsertedStaysDistinct(rest: seq<Url>, to: int, url: Url)
    requires Distinct(rest) && url !in rest && 0 <= to <= |rest|
    ensures Distinct(InsertAt(rest, to, url))
  {
    var next := InsertAt(rest, to, url);
    forall i, j | 0 <= i < j < |next|
      ensures next[i] != next[j]
    {
      assert i != to ==> next[i] == rest[if i < to then i else i - 1];
      assert j != to ==> next[j] == rest[if j < to then j else j - 1];
    }
  }

  lemma InsertedAlone(rest: seq<Url>, to: int, url: Url)
    requires url !in rest && 0 <= to <= |rest|
    ensures Without(InsertAt(rest, to, url), url) == rest
  {
    WithoutInMiddle(rest[..to], url, rest[to..]);
    assert rest == rest[..to] + rest[to..];
  }

  lemma InsertedIsInPlace(rest: seq<Url>, to: int, url: Url)
    requires Distinct(rest) && url !in rest && 0 <= to <= |rest|
    ensures var next := InsertAt(rest, to, url);
            |next| == |rest| + 1 && next[to] == url && Without(next, url) == rest && Distinct(next)
  {
    InsertedAlone(rest, to, url);
    InsertedStaysDistinct(rest, to, url);
  }

  lemma InsertedIsFound(rest: seq<Url>, to: int, url: Url)
    requires url !in rest && 0 <= to <= |rest|
    ensures IndexOf(InsertAt(rest, to, url), url) == to && RemoveAt(InsertAt(rest, to, url), to) == rest
  {
    var next := InsertAt(rest, to, url);
    assert next[to] == url;
    assert forall i | 0 <= i < |next| && i != to :: next[i] == rest[if i < to then i else i - 1];
  }

  lemma RemovedIsRestored(urls: seq<Url>, from: int)
    requires 0 <= from < |urls|
    ensures InsertAt(RemoveAt(urls, from), from, urls[from]) == urls
  {
  }

  lemma RemovedStaysDistinct(urls: seq<Url>, from: int)
    requires Distinct(urls) && 0 <= from < |urls|
    ensures Distinct(RemoveAt(urls, from)) && urls[from] !in RemoveAt(urls, from)
  {
    var rest := RemoveAt(urls, from);
    assert forall i | 0 <= i < |rest| :: rest[i] == urls[if i < from then i else i + 1];
  }

  lemma RemovedIsWithout(urls: seq<Url>, from: int)
    requires Distinct(urls) && 0 <= from < |urls|
    ensures RemoveAt(urls, from) == Without(urls, urls[from])
  {
    RemovedIsRestored(urls, from);
    RemovedStaysDistinct(urls, from);
    InsertedAlone(RemoveAt(urls, from), from, urls[from]);
  }

  // A move is possible exactly when the source is listed and its new place is on the list. It puts
  // the source there and leaves the order of all the others as it was.
  lemma MoveShiftsOneSource(held: seq<Url>, url: Url, delta: int)
    requires Distinct(held)
    ensures var next := Rewritten(held, Move(url, delta));
            var from := IndexOf(held, url);
            && (next.Some? <==> url in held && 0 <= from + delta < |held|)
            && (next.Some? ==>
                  && |next.value| == |held| && next.value[from + delta] == url
                  && Without(next.value, url) == Without(held, url)
                  && Distinct(next.value))
  {
    var from := IndexOf(held, url);
    if url in held && 0 <= from + delta < |held| {
      MovedIsInPlace(held, from, from + delta);
    }
  }

  lemma MovedIsInPlace(held: seq<Url>, from: int, to: int)
    requires Distinct(held) && 0 <= from < |held| && 0 <= to < |held|
    ensures var next := InsertAt(RemoveAt(held, from), to, held[from]);
            && |next| == |held| && next[to] == held[from]
            && Without(next, held[from]) == Without(held, held[from])
            && Distinct(next)
  {
    RemovedStaysDistinct(held, from);
    RemovedIsWithout(held, from);
    InsertedIsInPlace(RemoveAt(held, from), to, held[from]);
  }

  // Moving a source and moving it back by as much restores the list.
  lemma MoveBackUndoes(held: seq<Url>, url: Url, delta: int)
    requires Distinct(held) && Rewritten(held, Move(url, delta)).Some?
    ensures Rewritten(Rewritten(held, Move(url, delta)).value, Move(url, -delta)) == Some(held)
  {
    var from := IndexOf(held, url);
    RemovedStaysDistinct(held, from);
    RemovedIsRestored(held, from);
    InsertedIsFound(RemoveAt(held, from), from + delta, url);
  }

  lemma EffectsAreDistinct(core: seq<Url>, change: Change)
    requires Distinct(core)
    ensures Distinct(Effect(core, change))
    ensures Effect(core, change) == match Rewritten(core, change) case None => core case Some(next) => next
  {
    match change
    case Add(url) => SubscriptionsAreDistinct(if url in core then core else core + [url]);
    case Remove(url) =>
      WithoutIsDistinct(core, url);
      SubscriptionsAreDistinct(Without(core, url));
    case Move(url, delta) =>
      MoveShiftsOneSource(core, url, delta);
      match Rewritten(core, change) {
        case None =>
        case Some(next) => SubscriptionsAreDistinct(next);
      }
  }

  // Adding and then removing a source that was not listed leaves the list as it was.
  lemma RemoveUndoesAdd(core: seq<Url>, url: Url)
    requires Distinct(core) && url !in core
    ensures Effect(Effect(core, Add(url)), Remove(url)) == core
  {
    EffectsAreDistinct(core, Add(url));
    EffectsAreDistinct(core + [url], Remove(url));
    WithoutOfConcat(core, [url], url);
    WithoutIsExact(core, url);
    assert Without([url], url) == [];
  }

  // ----- reads and rewrites that overlap

  // The rewrite that is under way: its read answered but not landed, the list it starts from and whether
  // the core gave it, or the core's list as rewritten, not landed either.
  datatype Rewrite = Idle | Answered(list: seq<Url>) | Holding(list: seq<Url>, read: bool) | Saved(list: seq<Url>)

  type Ticket = nat

  // The core's list, the list the page shows, the answers to a refresh's reads that have not landed, the
  // rewrites still waiting and the one under way.
  datatype Page = Page(
    core: seq<Url>,
    shown: seq<Url>,
    answers: map<Ticket, seq<Url>>,
    next: Ticket,
    queue: seq<Change>,
    rewrite: Rewrite)

  // What becomes of the core's being asked to replace its list: it does and says so, it does not, or it
  // does and its answer fails.
  datatype Outcome = Kept | Refused | Unanswered

  datatype Step =
    | Request(change: Change)
    | AnswerRead                // the core answers a refresh
    | LandRead(ticket: Ticket)  // the page shows that answer
    | AnswerRewrite             // the core answers the first waiting rewrite
    | LandRewrite               // the page shows that answer
    | FallBack                  // the rewrite's read fails, and it starts from what is shown
    | Save(outcome: Outcome)
    | LandSave                  // the page shows the list as saved

  predicate Enabled(s: Page, step: Step) {
    match step
    case Request(_) => true
    case AnswerRead => true
    case LandRead(t) => t in s.answers
    case AnswerRewrite => s.rewrite.Idle? && s.queue != []
    case LandRewrite => s.rewrite.Answered?
    case FallBack => s.rewrite.Idle? && s.queue != []
    case Save(outcome) =>
      // the core is asked only where there is something to write
      && s.rewrite.Holding? && s.queue != []
      && (Rewritten(s.rewrite.list, s.queue[0]).None? ==> outcome.Kept?)
    case LandSave => s.rewrite.Saved?
  }

  function Stepped(s: Page, step: Step): Page
    requires Enabled(s, step)
  {
    match step
    case Request(change) => s.(queue := s.queue + [change])
    case AnswerRead => s.(answers := s.answers[s.next := s.core], next := s.next + 1)
    case LandRead(t) => s.(shown := s.answers[t], answers := s.answers - {t})
    case AnswerRewrite => s.(rewrite := Answered(s.core))
    case LandRewrite => s.(shown := s.rewrite.list, rewrite := Holding(s.rewrite.list, true))
    case FallBack => s.(rewrite := Holding(s.shown, false))
    case Save(outcome) =>
      var rest := s.(queue := s.queue[1..], rewrite := Idle);
      var rewritten := Rewritten(s.rewrite.list, s.queue[0]);
      if rewritten.None? || outcome.Refused? then rest
      else
        var list := Subscriptions(rewritten.value);
        rest.(core := list, rewrite := if outcome.Kept? then Saved(list) else Idle)
    case LandSave => s.(shown := s.rewrite.list, rewrite := Idle)
  }

  class Subscriber {
    var core: seq<Url>
    var shown: seq<Url>
    var answers: map<Ticket, seq<Url>>
    var next: Ticket
    var queue: seq<Change>
    var rewrite: Rewrite

    ghost function Current(): Page
      reads this
    {
      Page(core, shown, answers, next, queue, rewrite)
    }

    constructor (core: seq<Url>)
      ensures Current() == Opened(core)
    {
      this.core, shown, answers, next, queue, rewrite := core, [], map[], 0, [], Idle;
    }

    // `heldSources` on behalf of a refresh, in its two steps.
    method AnswerHeldSources() returns (t: Ticket)
      modifies this
      ensures Current() == Stepped(old(Current()), AnswerRead)
      ensures t in answers && answers[t] == core
    {
      t := next;
      answers, next := answers[t := core], next + 1;
    }

    method LandHeldSources(t: Ticket) returns (sources: seq<Url>)
      requires Enabled(Current(), LandRead(t))
      modifies this
      ensures Current() == Stepped(old(Current()), LandRead(t)) && sources == shown
    {
      shown, answers := answers[t], answers - {t};
      return shown;
    }

    method RewriteSources(change: Change)
      modifies this
      ensures Current() == Stepped(old(Current()), Request(change))
    {
      queue := queue + [change];
    }

    method AnswerWrite()
      requires Enabled(Current(), AnswerRewrite)
      modifies this
      ensures Current() == Stepped(old(Current()), AnswerRewrite)
    {
      rewrite := Answered(core);
    }

    // The read of a rewrite, landed or failed.
    method BeginWrite(ok: bool)
      requires Enabled(Current(), if ok then LandRewrite else FallBack)
      modifies this
      ensures Current() == Stepped(old(Current()), if ok then LandRewrite else FallBack)
    {
      if ok {
        shown := rewrite.list;
      }
      rewrite := Holding(shown, ok);
    }

    method CommitWrite(outcome: Outcome)
      requires Enabled(Current(), Save(outcome))
      modifies this
      ensures Current() == Stepped(old(Current()), Save(outcome))
    {
      var rewritten := Rewritten(rewrite.list, queue[0]);
      queue, rewrite := queue[1..], Idle;
      if rewritten.Some? && !outcome.Refused? {
        core := Subscriptions(rewritten.value);
        if outcome.Kept? {
          rewrite := Saved(core);
        }
      }
    }

    method LandWrite()
      requires Enabled(Current(), LandSave)
      modifies this
      ensures Current() == Stepped(old(Current()), LandSave)
    {
      shown, rewrite := rewrite.list, Idle;
    }
  }

  function Opened(core: seq<Url>): Page {
    Page(core, [], map[], 0, [], Idle)
  }

  predicate Legal(s: Page, steps: seq<Step>)
    decreases |steps|, 0
  {
    steps == [] || (Legal(s, steps[..|steps| - 1]) && Enabled(After(s, steps[..|steps| - 1]), steps[|steps| - 1]))
  }

  function After(s: Page, steps: seq<Step>): Page
    requires Legal(s, steps)
    decreases |steps|, 1
  {
    if steps == [] then s else Stepped(After(s, steps[..|steps| - 1]), steps[|steps| - 1])
  }

  // Lists are free of repeats, and a rewrite whose read succeeded holds the core's own list.
  ghost predicate Inv(s: Page) {
    && Distinct(s.core) && Distinct(s.shown) && (forall t | t in s.answers :: Distinct(s.answers[t]))
    && match s.rewrite
       case Idle => true
       case Answered(list) => list == s.core && s.queue != []
       case Holding(list, read) => Distinct(list) && (read ==> list == s.core) && s.queue != []
       case Saved(list) => list == s.core
  }

  // The change a step decides on, and whether the core was asked in vain.
  datatype Decision = Decision(change: Change, refused: bool)

  function Decided(s: Page, step: Step): seq<Decision> {
    if step.Save? && s.queue != [] then [Decision(s.queue[0], step.outcome.Refused?)] else []
  }

  function Decisions(s: Page, steps: seq<Step>): (decisions: seq<Decision>)
    requires Legal(s, steps)
    decreases |steps|
  {
    if steps == [] then []
    else
      var early := steps[..|steps| - 1];
      Decisions(s, early) + Decided(After(s, early), steps[|steps| - 1])
  }

  function Requests(steps: seq<Step>): (changes: seq<Change>)
    decreases |steps|
  {
    if steps == [] then []
    else
      var last := steps[|steps| - 1];
      Requests(steps[..|steps| - 1]) + if last.Request? then [last.change] else []
  }

  function ChangesOf(decisions: seq<Decision>): (changes: seq<Change>) {
    seq(|decisions|, i requires 0 <= i < |decisions| => decisions[i].change)
  }

  // The changes one after another, without those that the core refused.
  function Effects(core: seq<Url>, decisions: seq<Decision>): seq<Url>
    decreases |decisions|
  {
    if decisions == [] then core
    else
      var early, last := Effects(core, decisions[..|decisions| - 1]), decisions[|decisions| - 1];
      if last.refused then early else Effect(early, last.change)
  }

  // Whether rewriting an outdated list comes to the same as rewriting the core's.
  predicate SafeFrom(list: seq<Url>, core: seq<Url>, change: Change) {
    || list == core
    || match change
       case Add(url) => url in core && (url in list || core == list + [url])
       case Remove(url) => if url in list then Without(list, url) == Without(core, url) else url !in core
       case Move(url, delta) =>
         match Rewritten(list, change)
         case None => delta == 0 || Rewritten(core, change).None?
         case Some(next) => next == core && Rewritten(core, change).None?
  }

  // What the core holds once a rewrite of this list has been accepted.
  function SavedFrom(list: seq<Url>, core: seq<Url>, change: Change): seq<Url> {
    match Rewritten(list, change)
    case None => core
    case Some(next) => Subscriptions(next)
  }

  lemma AddIsSafeExactly(list: seq<Url>, core: seq<Url>, url: Url)
    requires Distinct(list) && Distinct(core)
    ensures SavedFrom(list, core, Add(url)) == Effect(core, Add(url)) <==> SafeFrom(list, core, Add(url))
  {
    EffectsAreDistinct(core, Add(url));
    EffectsAreDistinct(list, Add(url));
    if list + [url] == core + [url] {
      assert list == (list + [url])[..|list|] && core == (core + [url])[..|core|];
    }
    assert |core + [url]| == |core| + 1;
  }

  lemma RemoveIsSafeExactly(list: seq<Url>, core: seq<Url>, url: Url)
    requires Distinct(list) && Distinct(core)
    ensures SavedFrom(list, core, Remove(url)) == Effect(core, Remove(url)) <==> SafeFrom(list, core, Remove(url))
  {
    EffectsAreDistinct(core, Remove(url));
    EffectsAreDistinct(list, Remove(url));
    WithoutIsExact(core, url);
    WithoutIsExact(list, url);
  }

  lemma MoveIsSafeExactly(list: seq<Url>, core: seq<Url>, url: Url, delta: int)
    requires Distinct(list) && Distinct(core)
    ensures SavedFrom(list, core, Move(url, delta)) == Effect(core, Move(url, delta)) <==> SafeFrom(list, core, Move(url, delta))
  {
    var change := Move(url, delta);
    EffectsAreDistinct(core, change);
    EffectsAreDistinct(list, change);
    MoveIsVisible(core, url, delta);
    MoveShiftsOneSource(core, url, delta);
    if Rewritten(list, change).Some? && Rewritten(core, change) == Rewritten(list, change) {
      MoveBackUndoes(list, url, delta);
      MoveBackUndoes(core, url, delta);
    }
  }

  // The condition is exact.
  lemma RewriteIsRightExactlyWhenSafe(list: seq<Url>, core: seq<Url>, change: Change)
    requires Distinct(list) && Distinct(core)
    ensures SavedFrom(list, core, change) == Effect(core, change) <==> SafeFrom(list, core, change)
  {
    match change
    case Add(url) => AddIsSafeExactly(list, core, url);
    case Remove(url) => RemoveIsSafeExactly(list, core, url);
    case Move(url, delta) => MoveIsSafeExactly(list, core, url, delta);
  }

  // A save of a rewrite whose read failed must be refused, or start from a list that is safe to start from.
  predicate FallsBackSafely(s: Page, step: Step) {
    step.Save? && !step.outcome.Refused? && s.rewrite.Holding? && !s.rewrite.read && s.queue != [] ==>
      SafeFrom(s.rewrite.list, s.core, s.queue[0])
  }

  lemma StepKeepsTheInvariant(s: Page, step: Step)
    requires Inv(s) && Enabled(s, step)
    ensures Inv(Stepped(s, step))
  {
    if step.Save? {
      match Rewritten(s.rewrite.list, s.queue[0]) {
        case None =>
        case Some(next) => SubscriptionsAreDistinct(next);
      }
    }
  }

  // One step does to the core's list what its decision says, exactly when it does not fall back unsafely.
  lemma StepIsRightExactlyWhenSafe(s: Page, step: Step)
    requires Inv(s) && Enabled(s, step)
    ensures Stepped(s, step).core == Effects(s.core, Decided(s, step)) <==> FallsBackSafely(s, step)
  {
    if step.Save? {
      var change := s.queue[0];
      var decision := Decision(change, step.outcome.Refused?);
      assert [decision][..0] == [] && Effects(s.core, []) == s.core;
      RewriteIsRightExactlyWhenSafe(s.rewrite.list, s.core, change);
      assert SafeFrom(s.core, s.core, change);
    }
  }

  // The list has kept up with the changes at every moment of the run.
  ghost predicate KeepsPace(s: Page, steps: seq<Step>)
    requires Legal(s, steps)
    decreases |steps|
  {
    && After(s, steps).core == Effects(s.core, Decisions(s, steps))
    && (steps != [] ==> KeepsPace(s, steps[..|steps| - 1]))
  }

  // Every rewrite that fell back did so safely.
  predicate FallbacksAreSafe(s: Page, steps: seq<Step>)
    requires Legal(s, steps)
    decreases |steps|
  {
    steps != [] ==>
      && FallbacksAreSafe(s, steps[..|steps| - 1])
      && FallsBackSafely(After(s, steps[..|steps| - 1]), steps[|steps| - 1])
  }

  lemma EffectsOneMore(core: seq<Url>, decisions: seq<Decision>, more: seq<Decision>)
    requires |more| <= 1
    ensures Effects(core, decisions + more) == Effects(Effects(core, decisions), more)
  {
    if more == [] {
      assert decisions + more == decisions;
    } else {
      assert (decisions + more)[..|decisions|] == decisions;
      assert more[..0] == [] && Effects(Effects(core, decisions), []) == Effects(core, decisions);
    }
  }

  lemma {:induction false} EveryRunKeepsTheInvariant(s: Page, steps: seq<Step>)
    requires Inv(s) && Legal(s, steps)
    ensures Inv(After(s, steps))
    decreases |steps|
  {
    if steps != [] {
      EveryRunKeepsTheInvariant(s, steps[..|steps| - 1]);
      StepKeepsTheInvariant(After(s, steps[..|steps| - 1]), steps[|steps| - 1]);
    }
  }

  // Main result, over every interleaving of requests, answers, landings and failures: the core's list is
  // the accepted changes one after another, at every moment, if and only if every rewrite whose read
  // failed started from a list that was safe to start from.
  lemma {:induction false} RewritesAreSerialised(s: Page, steps: seq<Step>)
    requires Inv(s) && Legal(s, steps)
    ensures KeepsPace(s, steps) <==> FallbacksAreSafe(s, steps)
    decreases |steps|
  {
    if steps != [] {
      var early, last := steps[..|steps| - 1], steps[|steps| - 1];
      var t := After(s, early);
      RewritesAreSerialised(s, early);
      EveryRunKeepsTheInvariant(s, early);
      StepIsRightExactlyWhenSafe(t, last);
      EffectsOneMore(s.core, Decisions(s, early), Decided(t, last));
    }
  }

  // And the changes are decided in the order they were requested, none twice and none left out.
  lemma {:induction false} DecidedInOrder(s: Page, steps: seq<Step>)
    requires Legal(s, steps)
    ensures ChangesOf(Decisions(s, steps)) + After(s, steps).queue == s.queue + Requests(steps)
    decreases |steps|
  {
    if steps == [] {
      assert s.queue + [] == s.queue && [] + s.queue == s.queue;
    } else {
      var early, last := steps[..|steps| - 1], steps[|steps| - 1];
      DecidedInOrder(s, early);
      var t := After(s, early);
      QueueMovesOn(t, last);
      ChangesOfConcat(Decisions(s, early), Decided(t, last));
      Regrouped(ChangesOf(Decisions(s, early)), ChangesOf(Decided(t, last)), After(s, steps).queue, t.queue,
                s.queue, Requests(early), if last.Request? then [last.change] else []);
    }
  }

  lemma Regrouped<T>(done: seq<T>, step: seq<T>, rest: seq<T>, waiting: seq<T>, queue: seq<T>, early: seq<T>, last: seq<T>)
    requires done + waiting == queue + early && step + rest == waiting + last
    ensures (done + step) + rest == queue + (early + last)
  {
    assert (done + step) + rest == done + (step + rest) == (done + waiting) + last;
    assert (queue + early) + last == queue + (early + last);
  }

  lemma QueueMovesOn(s: Page, step: Step)
    requires Enabled(s, step)
    ensures ChangesOf(Decided(s, step)) + Stepped(s, step).queue
         == s.queue + if step.Request? then [step.change] else []
  {
    if step.Save? {
      assert s.queue == [s.queue[0]] + s.queue[1..];
    }
  }

  lemma ChangesOfConcat(a: seq<Decision>, b: seq<Decision>)
    ensures ChangesOf(a + b) == ChangesOf(a) + ChangesOf(b)
  {
  }

  // ----- where a failed read goes wrong

  // Whether a change does the same to an empty list as to the core's own.
  predicate SafeUnread(core: seq<Url>, change: Change) {
    match change
    case Add(url) => core == [] || core == [url]
    case Remove(url) => url !in core
    case Move(url, delta) => url !in core || delta == 0 || !(0 <= IndexOf(core, url) + delta < |core|)
  }

  lemma SafeFromNothing(core: seq<Url>, change: Change)
    requires Distinct(core)
    ensures SafeFrom([], core, change) <==> SafeUnread(core, change)
  {
    match change
    case Add(url) => assert [] + [url] == [url];
    case Remove(url) =>
    case Move(url, delta) => MoveShiftsOneSource(core, url, delta);
  }

  // A rewrite whose read fails before any other has landed starts from the empty list the page opens with.
  // Its change comes out right exactly when it is safe to make without having read.
  lemma UnreadRewriteIsExactWhenSafe(s: Page)
    requires Inv(s) && s.shown == [] && s.rewrite.Idle? && s.queue != []
    ensures var begun := Stepped(s, FallBack);
            && Enabled(begun, Save(Kept))
            && (Stepped(begun, Save(Kept)).core == Effect(s.core, s.queue[0]) <==> SafeUnread(s.core, s.queue[0]))
  {
    RewriteIsRightExactlyWhenSafe([], s.core, s.queue[0]);
    SafeFromNothing(s.core, s.queue[0]);
  }

  lemma Extended(s: Page, steps: seq<Step>, step: Step)
    requires Legal(s, steps) && Enabled(After(s, steps), step)
    ensures Legal(s, steps + [step]) && After(s, steps + [step]) == Stepped(After(s, steps), step)
  {
    assert (steps + [step])[..|steps|] == steps;
  }

  // Adding a source then replaces every source the core held.
  lemma UnreadAddDropsTheRest(core: seq<Url>, url: Url)
    requires Distinct(core)
    ensures var steps := [Request(Add(url)), FallBack, Save(Kept)];
            Legal(Opened(core), steps) && After(Opened(core), steps).core == [url]
  {
    var s := Opened(core);
    Extended(s, [], Request(Add(url)));
    assert [] + [Request(Add(url))] == [Request(Add(url))];
    Extended(s, [Request(Add(url))], FallBack);
    assert [Request(Add(url))] + [FallBack] == [Request(Add(url)), FallBack];
    Extended(s, [Request(Add(url)), FallBack], Save(Kept));
    assert [Request(Add(url)), FallBack] + [Save(Kept)] == [Request(Add(url)), FallBack, Save(Kept)];
    SubscriptionsAreDistinct([url]);
  }

  // From a page at rest, one more source added with a read that lands.
  lemma AddedInFull(core: seq<Url>, s: Page, before: seq<Step>, url: Url) returns (steps: seq<Step>)
    requires Distinct(core) && Legal(s, before) && url !in core
    requires var t := After(s, before); t.core == core && t.queue == [] && t.rewrite == Idle
    ensures Legal(s, steps) && Requests(steps) == Requests(before) + [Add(url)]
    ensures After(s, steps) == After(s, before).(core := core + [url], shown := core + [url])
  {
    EffectsAreDistinct(core, Add(url));
    steps := Then(s, before, Request(Add(url)));
    steps := Then(s, steps, AnswerRewrite);
    steps := Then(s, steps, LandRewrite);
    steps := Then(s, steps, Save(Kept));
    steps := Then(s, steps, LandSave);
  }

  // And one with a read that fails.
  lemma AddedFallingBack(s: Page, before: seq<Step>, url: Url) returns (steps: seq<Step>)
    requires Legal(s, before)
    requires var t := After(s, before); Distinct(t.shown) && url !in t.shown && t.queue == [] && t.rewrite == Idle
    ensures Legal(s, steps) && Requests(steps) == Requests(before) + [Add(url)]
    ensures After(s, steps).core == After(s, before).shown + [url]
  {
    EffectsAreDistinct(After(s, before).shown, Add(url));
    steps := Then(s, before, Request(Add(url)));
    steps := Then(s, steps, FallBack);
    steps := Then(s, steps, Save(Kept));
  }

  // An answer that lands late takes the shown list back, also after other reads have succeeded: a rewrite
  // that then falls back to it loses a change that was accepted.
  lemma LateAnswerLosesAnAcceptedChange(core: seq<Url>, url: Url, other: Url) returns (steps: seq<Step>)
    requires Distinct(core) && url !in core && other !in core
    ensures Legal(Opened(core), steps) && Requests(steps) == [Add(url), Add(other)]
    ensures After(Opened(core), steps).core == core + [other]
  {
    var s := Opened(core);
    steps := Then(s, [], AnswerRead);
    steps := AddedInFull(core, s, steps, url);
    steps := Then(s, steps, LandRead(0));
    steps := AddedFallingBack(s, steps, other);
  }

  lemma Then(s: Page, steps: seq<Step>, step: Step) returns (longer: seq<Step>)
    requires Legal(s, steps) && Enabled(After(s, steps), step)
    ensures Legal(s, longer) && After(s, longer) == Stepped(After(s, steps), step)
    ensures Requests(longer) == Requests(steps) + if step.Request? then [step.change] else []
  {
    Extended(s, steps, step);
    longer := steps + [step];
    assert longer[..|steps|] == steps;
  }

  lemma MoveIsVisible(held: seq<Url>, url: Url, delta: int)
    requires Distinct(held)
    ensures var next := Rewritten(held, Move(url, delta));
            next.Some? && next.value == held <==> url in held && delta == 0
  {
    MoveShiftsOneSource(held, url, delta);
    if url in held && delta == 0 {
      RemovedIsRestored(held, IndexOf(held, url));
    }
  }
}
