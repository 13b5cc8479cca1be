/**
 What the store page shows of the source list: always a list the core held, and which one.
 */
module SourceShown {
  import opened DistinctLists
  import opened Wrappers
  import opened SourceList

  // The core's lists at the times it answered a refresh, in order.
  function Asked(s: Page, steps: seq<Step>): (lists: seq<seq<Url>>)
    requires Legal(s, steps)
    decreases |steps|
  {
    if steps == [] then []
    else
      var early := steps[..|steps| - 1];
      Asked(s, early) + if steps[|steps| - 1].AnswerRead? then [After(s, early).core] else []
  }

  predicate HasLanded(steps: seq<Step>, t: Ticket) {
    LandRead(t) in steps
  }

  // The answers still to land are those given and not landed, each the list the core held when it answered.
  lemma {:induction false} AnswersAreTheListsAsked(core: seq<Url>, steps: seq<Step>, t: Ticket)
    requires Legal(Opened(core), steps)
    ensures var s, asked := After(Opened(core), steps), Asked(Opened(core), steps);
            && s.next == |asked|
            && (t in s.answers <==> t < |asked| && !HasLanded(steps, t))
            && (t in s.answers ==> s.answers[t] == asked[t])
    decreases |steps|
  {
    if steps != [] {
      var early, last := steps[..|steps| - 1], steps[|steps| - 1];
      AnswersAreTheListsAsked(core, early, t);
      assert steps == early + [last];
      assert HasLanded(steps, t) <==> HasLanded(early, t) || last == LandRead(t);
      OnlyAnswersLand(core, early, t);
    }
  }

  lemma {:induction false} OnlyAnswersLand(core: seq<Url>, steps: seq<Step>, t: Ticket)
    requires Legal(Opened(core), steps)
    ensures After(Opened(core), steps).next == |Asked(Opened(core), steps)|
    ensures HasLanded(steps, t) ==> t < |Asked(Opened(core), steps)|
    decreases |steps|
  {
    if steps != [] {
      var early, last := steps[..|steps| - 1], steps[|steps| - 1];
      assert steps == early + [last];
      OnlyAnswersLand(core, early, t);
      if last == LandRead(t) {
        TicketsAreGiven(core, early, t);
      }
    }
  }

  lemma {:induction false} TicketsAreGiven(core: seq<Url>, steps: seq<Step>, t: Ticket)
    requires Legal(Opened(core), steps)
    ensures t in After(Opened(core), steps).answers ==> t < |Asked(Opened(core), steps)|
    ensures After(Opened(core), steps).next == |Asked(Opened(core), steps)|
    decreases |steps|
  {
    if steps != [] {
      TicketsAreGiven(core, steps[..|steps| - 1], t);
    }
  }

  // Main result, for every interleaving: the page shows what landed last. A refresh's answer shows the list the core
  // held when it gave that answer, however late; the read and the save of a rewrite show the list the core holds; and
  // nothing else changes what is shown.
  lemma LandingsAreShown(core: seq<Url>, steps: seq<Step>, step: Step)
    requires Distinct(core) && Legal(Opened(core), steps) && Enabled(After(Opened(core), steps), step)
    ensures var s := After(Opened(core), steps);
            var t := Stepped(s, step);
            t.shown == match step
                       case LandRead(ticket) =>
                         if ticket < |Asked(Opened(core), steps)| then Asked(Opened(core), steps)[ticket] else s.shown
                       case LandRewrite => t.core
                       case LandSave => t.core
                       case _ => s.shown
    ensures step.LandRead? ==> step.ticket < |Asked(Opened(core), steps)|
  {
    EveryRunKeepsTheInvariant(Opened(core), steps);
    if step.LandRead? {
      AnswersAreTheListsAsked(core, steps, step.ticket);
    }
  }

  // An answer lands once.
  lemma LandedAnswerIsGone(core: seq<Url>, steps: seq<Step>, t: Ticket)
    requires Legal(Opened(core), steps) && HasLanded(steps, t)
    ensures !Enabled(After(Opened(core), steps), LandRead(t))
  {
    AnswersAreTheListsAsked(core, steps, t);
  }

  // From rest the first change waiting can be made: its read answers and lands, and the core keeps the list.
  lemma FirstChangeCanBeMade(s: Page)
    requires Inv(s) && s.rewrite.Idle? && s.queue != []
    ensures var steps := [AnswerRewrite, LandRewrite, Save(Kept)];
            Legal(s, steps) && After(s, steps).queue == s.queue[1..] && After(s, steps).core == Effect(s.core, s.queue[0])
  {
    Extended(s, [], AnswerRewrite);
    assert [] + [AnswerRewrite] == [AnswerRewrite];
    Extended(s, [AnswerRewrite], LandRewrite);
    assert [AnswerRewrite] + [LandRewrite] == [AnswerRewrite, LandRewrite];
    Extended(s, [AnswerRewrite, LandRewrite], Save(Kept));
    assert [AnswerRewrite, LandRewrite] + [Save(Kept)] == [AnswerRewrite, LandRewrite, Save(Kept)];
  }
}
