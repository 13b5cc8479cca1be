/**
 What the cap on a pending batch of log lines, and a seed that is out of order, lose of the stable sort of
 mobile/lib/diagnostics.ts: the exact conditions under which nothing is lost.
 */
module PendingLog {
  import opened DiagnosticsLog
  import opened DistinctLists
  import opened StableSort

  // How many of these lines are at `ts` or later.
  function CountFrom(lines: seq<Line>, ts: int): (count: nat) {
    if lines == [] then 0 else (if lines[0].ts >= ts then 1 else 0) + CountFrom(lines[1..], ts)
  }

  // How many lines sort after line `i` of those that arrived: the later ones, and of the same time those
  // that arrived after it.
  function SortingAfter(held: seq<Line>, arrived: seq<Line>, i: nat): (count: nat)
    requires i < |arrived|
  {
    CountFrom(held + arrived[..i], arrived[i].ts + 1) + CountFrom(arrived[i + 1..], arrived[i].ts)
  }

  predicate AllUpTo(lines: seq<Line>, ts: int) {
    forall line | line in lines :: line.ts <= ts
  }

  predicate AllFrom(lines: seq<Line>, ts: int) {
    forall line | line in lines :: line.ts >= ts
  }

  lemma {:induction false} InsertionGoesLast(lines: seq<Line>, line: Line)
    requires AllUpTo(lines, line.ts)
    ensures Merge(ByTime, lines, [line]) == lines + [line]
    decreases |lines|
  {
    if lines != [] {
      InsertionGoesLast(lines[1..], line);
    }
  }

  lemma {:induction false} InsertionIntoTheEnd(front: seq<Line>, back: seq<Line>, line: Line)
    requires AllUpTo(front, line.ts)
    ensures Merge(ByTime, front + back, [line]) == front + Merge(ByTime, back, [line])
    decreases |front|
  {
    if front == [] {
      assert front + back == back;
    } else {
      InsertionIntoTheEnd(front[1..], back, line);
      assert (front + back)[1..] == front[1..] + back;
    }
  }

  lemma InsertionGoesFirst(lines: seq<Line>, line: Line)
    requires lines == [] || lines[0].ts > line.ts
    ensures Merge(ByTime, lines, [line]) == [line] + lines
  {
  }

  lemma {:induction false} InsertionIntoTheFront(front: seq<Line>, back: seq<Line>, line: Line)
    requires AllFrom(back, line.ts + 1)
    ensures Merge(ByTime, front + back, [line]) == Merge(ByTime, front, [line]) + back
    decreases |front|
  {
    var all := front + back;
    if front == [] {
      assert all == back;
      InsertionGoesFirst(back, line);
    } else if front[0].ts <= line.ts {
      InsertionIntoTheFront(front[1..], back, line);
      assert all[0] == front[0] && all[1..] == front[1..] + back;
    } else {
      InsertionGoesFirst(all, line);
      InsertionGoesFirst(front, line);
    }
  }

  lemma {:induction false} CountOfConcat(a: seq<Line>, b: seq<Line>, ts: int)
    ensures CountFrom(a + b, ts) == CountFrom(a, ts) + CountFrom(b, ts)
  {
    if a == [] {
      assert a + b == b;
    } else {
      CountOfConcat(a[1..], b, ts);
      assert (a + b)[1..] == a[1..] + b;
    }
  }

  lemma {:induction false} CountOfAll(lines: seq<Line>, ts: int)
    requires AllFrom(lines, ts)
    ensures CountFrom(lines, ts) == |lines|
  {
    if lines != [] {
      CountOfAll(lines[1..], ts);
    }
  }

  lemma {:induction false} CountOfInsertion(lines: seq<Line>, line: Line, ts: int)
    ensures CountFrom(Merge(ByTime, lines, [line]), ts) == CountFrom(lines, ts) + if line.ts >= ts then 1 else 0
  {
    if lines != [] && lines[0].ts <= line.ts {
      CountOfInsertion(lines[1..], line, ts);
    } else {
      assert Merge(ByTime, lines, [line]) == [line] + lines;
    }
  }

  lemma {:induction false} CountOfSort(lines: seq<Line>, ts: int)
    ensures CountFrom(Sort(ByTime, lines), ts) == CountFrom(lines, ts)
    decreases |lines|
  {
    if lines != [] {
      var early, last := lines[..|lines| - 1], lines[|lines| - 1];
      CountOfSort(early, ts);
      CountOfInsertion(Sort(ByTime, early), last, ts);
      CountOfConcat(early, [last], ts);
      assert lines == early + [last];
    }
  }

  lemma {:induction false} SplitByTime(lines: seq<Line>, ts: int) returns (front: seq<Line>, back: seq<Line>)
    requires InTimeOrder(lines)
    ensures lines == front + back && AllUpTo(front, ts) && AllFrom(back, ts + 1)
    ensures |back| == CountFrom(lines, ts + 1)
    decreases |lines|
  {
    if lines == [] || lines[0].ts > ts {
      front, back := [], lines;
      assert AllFrom(back, ts + 1);
      CountOfAll(back, ts + 1);
    } else {
      front, back := SplitByTime(lines[1..], ts);
      front := [lines[0]] + front;
    }
  }

  // Where a line stands among the others once they are sorted.
  lemma {:induction false} PlaceOfALine(front: seq<Line>, line: Line, back: seq<Line>) returns (before: seq<Line>, after: seq<Line>)
    ensures Sort(ByTime, front + [line] + back) == before + [line] + after
    ensures Sort(ByTime, front + back) == before + after
    ensures |after| == CountFrom(front, line.ts + 1) + CountFrom(back, line.ts)
    ensures AllUpTo(before, line.ts) && AllFrom(after, line.ts)
    decreases |back|
  {
    if back == [] {
      before, after := PlaceOfTheLastLine(front, line);
    } else {
      var early, last := back[..|back| - 1], back[|back| - 1];
      before, after := PlaceOfALine(front, line, early);
      before, after := PlaceAmongOneMore(front, line, early, last, before, after);
      assert back == early + [last];
    }
  }

  lemma PlaceAmongOneMore(front: seq<Line>, line: Line, early: seq<Line>, last: Line, before: seq<Line>, after: seq<Line>)
    returns (newBefore: seq<Line>, newAfter: seq<Line>)
    requires Sort(ByTime, front + [line] + early) == before + [line] + after && Sort(ByTime, front + early) == before + after
    requires |after| == CountFrom(front, line.ts + 1) + CountFrom(early, line.ts)
    requires AllUpTo(before, line.ts) && AllFrom(after, line.ts)
    ensures Sort(ByTime, front + [line] + (early + [last])) == newBefore + [line] + newAfter
    ensures Sort(ByTime, front + (early + [last])) == newBefore + newAfter
    ensures |newAfter| == CountFrom(front, line.ts + 1) + CountFrom(early + [last], line.ts)
    ensures AllUpTo(newBefore, line.ts) && AllFrom(newAfter, line.ts)
  {
    newBefore, newAfter := PlaceOneMore(front + [line] + early, front + early, before, line, after, last);
    AppendingOneMore(front, line, early, last);
    CountOneMore(early, last, line.ts);
  }

  lemma PlaceOneMore(all: seq<Line>, others: seq<Line>, before: seq<Line>, line: Line, after: seq<Line>, last: Line)
    returns (newBefore: seq<Line>, newAfter: seq<Line>)
    requires Sort(ByTime, all) == before + [line] + after && Sort(ByTime, others) == before + after
    requires AllUpTo(before, line.ts) && AllFrom(after, line.ts)
    ensures Sort(ByTime, all + [last]) == newBefore + [line] + newAfter && Sort(ByTime, others + [last]) == newBefore + newAfter
    ensures |newAfter| == |after| + if last.ts >= line.ts then 1 else 0
    ensures AllUpTo(newBefore, line.ts) && AllFrom(newAfter, line.ts)
  {
    SortOneMore(all, last);
    SortOneMore(others, last);
    newBefore, newAfter := InsertAround(before, line, after, last);
  }

  lemma AppendingOneMore(front: seq<Line>, line: Line, early: seq<Line>, last: Line)
    ensures front + [line] + (early + [last]) == front + [line] + early + [last]
    ensures front + (early + [last]) == front + early + [last]
  {
  }

  lemma CountOneMore(lines: seq<Line>, last: Line, ts: int)
    ensures CountFrom(lines + [last], ts) == CountFrom(lines, ts) + if last.ts >= ts then 1 else 0
  {
    CountOfConcat(lines, [last], ts);
    assert CountFrom([last], ts) == (if last.ts >= ts then 1 else 0) + CountFrom([], ts);
  }

  lemma SortOneMore(lines: seq<Line>, last: Line)
    ensures Sort(ByTime, lines + [last]) == Merge(ByTime, Sort(ByTime, lines), [last])
  {
    assert (lines + [last])[..|lines|] == lines;
  }

  lemma PlaceOfTheLastLine(front: seq<Line>, line: Line) returns (before: seq<Line>, after: seq<Line>)
    ensures Sort(ByTime, front + [line] + []) == before + [line] + after
    ensures Sort(ByTime, front + []) == before + after
    ensures |after| == CountFrom(front, line.ts + 1)
    ensures AllUpTo(before, line.ts) && AllFrom(after, line.ts)
  {
    var sorted := Sort(ByTime, front);
    SortIsSorted(ByTime, front);
    TimeOrderIsSorted(sorted);
    before, after := SplitByTime(sorted, line.ts);
    CountOfSort(front, line.ts + 1);
    SortOneMore(front, line);
    InsertionIntoTheFront(before, after, line);
    InsertionGoesLast(before, line);
    assert front + [line] + [] == front + [line] && front + [] == front;
  }

  // One more line goes in before or after the one looked at, and on the same side without it.
  lemma InsertAround(before: seq<Line>, line: Line, after: seq<Line>, last: Line) returns (newBefore: seq<Line>, newAfter: seq<Line>)
    requires AllUpTo(before, line.ts) && AllFrom(after, line.ts)
    ensures Merge(ByTime, before + [line] + after, [last]) == newBefore + [line] + newAfter
    ensures Merge(ByTime, before + after, [last]) == newBefore + newAfter
    ensures |newAfter| == |after| + if last.ts >= line.ts then 1 else 0
    ensures AllUpTo(newBefore, line.ts) && AllFrom(newAfter, line.ts)
  {
    if last.ts >= line.ts {
      newBefore, newAfter := before, Merge(ByTime, after, [last]);
      InsertionIntoTheEnd(before + [line], after, last);
      InsertionIntoTheEnd(before, after, last);
      MergedWith(after, last);
    } else {
      newBefore, newAfter := Merge(ByTime, before, [last]), after;
      assert before + [line] + after == before + ([line] + after);
      InsertionIntoTheFront(before, [line] + after, last);
      InsertionIntoTheFront(before, after, last);
      MergedWith(before, last);
      assert newBefore + [line] + after == newBefore + ([line] + after);
    }
  }

  lemma {:induction false} MergedWith(lines: seq<Line>, last: Line)
    ensures forall line :: line in Merge(ByTime, lines, [last]) <==> line in lines || line == last
  {
    if lines != [] && lines[0].ts <= last.ts {
      MergedWith(lines[1..], last);
      assert lines == [lines[0]] + lines[1..];
    } else {
      assert Merge(ByTime, lines, [last]) == [last] + lines;
    }
  }

  // A line is among the last `n` exactly when fewer than `n` lines sort after it.
  lemma LineIsAmongTheLast(front: seq<Line>, line: Line, back: seq<Line>, n: nat)
    requires line !in front && line !in back
    ensures line in LastLines(Sort(ByTime, front + [line] + back), n) <==>
            CountFrom(front, line.ts + 1) + CountFrom(back, line.ts) < n
  {
    var before, after := PlaceOfALine(front, line, back);
    assert line !in before + after by {
      SortKeepsElements(ByTime, front + back, line);
    }
    LastOfThree(before, line, after, n);
  }

  lemma LastOfThree(before: seq<Line>, line: Line, after: seq<Line>, n: nat)
    requires line !in before + after
    ensures line in LastLines(before + [line] + after, n) <==> |after| < n
    ensures |after| >= n ==> LastLines(before + [line] + after, n) == LastLines(before + after, n)
  {
    var all := before + [line] + after;
    assert all[|before|] == line && forall k | 0 <= k < |all| && k != |before| :: all[k] in before + after;
    if |after| < n {
      var last := LastLines(all, n);
      assert last[|last| - |after| - 1] == line;
    }
  }

  // Leaving a line out changes nothing where enough lines sort after it.
  lemma LeavingALineOut(front: seq<Line>, line: Line, back: seq<Line>, n: nat)
    requires line !in front && line !in back
    requires CountFrom(front, line.ts + 1) + CountFrom(back, line.ts) >= n
    ensures LastLines(Sort(ByTime, front + [line] + back), n) == LastLines(Sort(ByTime, front + back), n)
  {
    var before, after := PlaceOfALine(front, line, back);
    assert line !in before + after by {
      SortKeepsElements(ByTime, front + back, line);
    }
    LastOfThree(before, line, after, n);
  }

  lemma OthersDiffer(held: seq<Line>, arrived: seq<Line>, i: nat)
    requires Distinct(held + arrived) && i < |arrived|
    ensures arrived[i] !in held + arrived[..i] && arrived[i] !in arrived[i + 1..]
  {
    var all, n := held + arrived, |held|;
    assert all[n + i] == arrived[i];
    assert forall k | 0 <= k < |arrived| :: all[n + k] == arrived[k];
    assert held + arrived[..i] == all[..n + i];
    assert arrived[i + 1..] == all[n + i + 1..];
  }

  lemma SameLines(held: seq<Line>, arrived: seq<Line>, i: nat)
    requires i < |arrived|
    ensures held + arrived == (held + arrived[..i]) + [arrived[i]] + arrived[i + 1..]
    ensures held + arrived[i..] == held + [arrived[i]] + arrived[i + 1..]
  {
  }

  // If leaving out the lines before it changed nothing, leaving out one more with enough lines after it
  // does not either.
  lemma OneMoreLeftOut(held: seq<Line>, early: seq<Line>, line: Line, rest: seq<Line>, n: nat)
    requires line !in held + early && line !in rest
    requires CountFrom(held + early, line.ts + 1) + CountFrom(rest, line.ts) >= n
    requires LastLines(Sort(ByTime, held + [line] + rest), n) == LastLines(Sort(ByTime, (held + early) + [line] + rest), n)
    ensures LastLines(Sort(ByTime, held + rest), n) == LastLines(Sort(ByTime, held + [line] + rest), n)
  {
    assert forall x | x in held :: x in held + early;
    LineIsAmongTheLast(held + early, line, rest, n);
    LineIsAmongTheLast(held, line, rest, n);
    LeavingALineOut(held, line, rest, n);
  }

  lemma {:induction false} PushedOutLinesAreNotMissed(held: seq<Line>, arrived: seq<Line>, k: nat, n: nat)
    requires Distinct(held + arrived) && k <= |arrived|
    requires forall i | 0 <= i < k :: SortingAfter(held, arrived, i) >= n
    ensures LastLines(Sort(ByTime, held + arrived[k..]), n) == LastLines(Sort(ByTime, held + arrived), n)
    decreases k
  {
    if k == 0 {
      assert arrived[0..] == arrived;
    } else {
      PushedOutLinesAreNotMissed(held, arrived, k - 1, n);
      OthersDiffer(held, arrived, k - 1);
      SameLines(held, arrived, k - 1);
      assert SortingAfter(held, arrived, k - 1) >= n;
      OneMoreLeftOut(held, arrived[..k - 1], arrived[k - 1], arrived[k..], n);
    }
  }

  lemma PushedOutLineIsMissed(held: seq<Line>, arrived: seq<Line>, i: nat, k: nat, n: nat)
    requires Distinct(held + arrived) && i < k <= |arrived|
    requires SortingAfter(held, arrived, i) < n
    ensures arrived[i] in LastLines(Sort(ByTime, held + arrived), n)
    ensures arrived[i] !in LastLines(Sort(ByTime, held + arrived[k..]), n)
  {
    OthersDiffer(held, arrived, i);
    SameLines(held, arrived, i);
    LineIsAmongTheLast(held + arrived[..i], arrived[i], arrived[i + 1..], n);
    var kept := held + arrived[k..];
    assert arrived[i] !in kept by {
      assert forall x | x in held :: x in held + arrived[..i];
      assert arrived[k..] == arrived[i + 1..][k - i - 1..];
    }
    SortKeepsElements(ByTime, kept, arrived[i]);
  }

  lemma LeavingTheFirstOut(held: seq<Line>, arrived: seq<Line>, k: nat, n: nat)
    requires Distinct(held + arrived) && k <= |arrived|
    ensures LastLines(Sort(ByTime, held + arrived[k..]), n) == LastLines(Sort(ByTime, held + arrived), n) <==>
            forall i | 0 <= i < k :: SortingAfter(held, arrived, i) >= n
  {
    if i :| 0 <= i < k && SortingAfter(held, arrived, i) < n {
      PushedOutLineIsMissed(held, arrived, i, k, n);
    } else {
      PushedOutLinesAreNotMissed(held, arrived, k, n);
    }
  }

  // Main result: the cap on the pending batch is harmless exactly when every line it pushes out has
  // enough lines sorting after it among those held and those that arrived. Lines have ids of their own.
  lemma PendingCapIsHarmlessExactly(held: seq<Line>, arrived: seq<Line>)
    requires InTimeOrder(held) && Distinct(held + arrived)
    ensures AppendedTo(held, Capped(arrived)) == Capped(Sort(ByTime, held + arrived)) <==>
            forall i | 0 <= i < |arrived| - LOG_LIMIT :: SortingAfter(held, arrived, i) >= LOG_LIMIT
  {
    var k := if |arrived| > LOG_LIMIT then |arrived| - LOG_LIMIT else 0;
    assert Capped(arrived) == arrived[k..];
    AppendIsACappedSort(held, arrived[k..]);
    LeavingTheFirstOut(held, arrived, k, LOG_LIMIT);
  }

  // ----- what a seed out of order does

  // The lines of a seed that are kept are in time order, and those cut off are not missed.
  predicate SeedIsFaithful(lines: seq<Line>) {
    && InTimeOrder(Capped(lines))
    && forall i | 0 <= i < |lines| - LOG_LIMIT :: SortingAfter([], lines, i) >= LOG_LIMIT
  }

  lemma OrderedEnd(kept: seq<Line>, end: seq<Line>, n: nat)
    requires |kept| <= n && InTimeOrder(end)
    ensures kept == end <==> InTimeOrder(kept) && LastLines(Sort(ByTime, kept), n) == end
  {
    if InTimeOrder(kept) {
      OrderedIsItsOwnSort(kept);
    }
  }

  lemma LeavingTheFirstOutAlone(lines: seq<Line>, k: nat, n: nat)
    requires Distinct(lines) && k <= |lines|
    ensures LastLines(Sort(ByTime, lines[k..]), n) == LastLines(Sort(ByTime, lines), n) <==>
            forall i | 0 <= i < k :: SortingAfter([], lines, i) >= n
  {
    var kept := lines[k..];
    assert [] + lines == lines && [] + kept == kept;
    LeavingTheFirstOut([], lines, k, n);
  }

  lemma SeedIsFaithfulExactly(lines: seq<Line>)
    requires Distinct(lines)
    ensures Capped(lines) == Capped(Sort(ByTime, lines)) <==> SeedIsFaithful(lines)
  {
    var k := if |lines| > LOG_LIMIT then |lines| - LOG_LIMIT else 0;
    assert Capped(lines) == lines[k..];
    OrderedSortIsCapped(lines);
    OrderedEnd(lines[k..], Capped(Sort(ByTime, lines)), LOG_LIMIT);
    LeavingTheFirstOutAlone(lines, k, LOG_LIMIT);
  }

  // The buffer has been right at every moment of the run.
  predicate AlwaysTheLastOfTheGiven(steps: seq<Step>, origin: Origin)
    decreases |steps|
  {
    && BufferOf(After(steps), origin).held == Capped(Sort(ByTime, Given(steps, origin)))
    && (steps != [] ==> AlwaysTheLastOfTheGiven(steps[..|steps| - 1], origin))
  }

  predicate SeedsAreFaithful(steps: seq<Step>, origin: Origin) {
    forall step | step in steps && step.Seed? && step.origin == origin :: SeedIsFaithful(step.lines)
  }

  // Main result: a buffer is the end of the stable sort of what it was given, at every moment, exactly when
  // every seed it got was faithful. Lines of a seed have ids of their own.
  lemma {:induction false} BuffersAreRightExactlyWithFaithfulSeeds(steps: seq<Step>, origin: Origin)
    requires forall step | step in steps && step.Seed? :: Distinct(step.lines)
    ensures AlwaysTheLastOfTheGiven(steps, origin) <==> SeedsAreFaithful(steps, origin)
    decreases |steps|
  {
    if steps != [] {
      var early, last := steps[..|steps| - 1], steps[|steps| - 1];
      assert last in steps && steps == early + [last];
      BuffersAreRightExactlyWithFaithfulSeeds(early, origin);
      if last.Seed? {
        SeedIsFaithfulExactly(last.lines);
      }
      if AlwaysTheLastOfTheGiven(early, origin) {
        StepKeepsPace(early, last, origin);
      }
    }
  }

  // While lines arrive in time order, the cap on the pending batch loses nothing either.
  lemma PendingCapIsHarmlessInOrder(held: seq<Line>, arrived: seq<Line>)
    requires InTimeOrder(held) && InTimeOrder(arrived)
    ensures AppendedTo(held, Capped(arrived)) == Capped(Sort(ByTime, held + arrived))
  {
    AppendIsACappedSort(held, Capped(arrived));
    OrderedIsItsOwnSort(held);
    OrderedIsItsOwnSort(arrived);
    OrderedIsItsOwnSort(Capped(arrived));
    SortOfConcat(ByTime, held, Capped(arrived));
    SortOfConcat(ByTime, held, arrived);
    CappingTheRightFirst(held, arrived, LOG_LIMIT);
  }

  lemma {:induction false} LaterLineGoesLast(line: Line, earlier: seq<Line>)
    requires forall e | e in earlier :: e.ts < line.ts
    ensures Merge(ByTime, [line], earlier) == earlier + [line]
    decreases |earlier|
  {
    if earlier != [] {
      LaterLineGoesLast(line, earlier[1..]);
    }
  }

  // Otherwise it can: a full burst of earlier lines pushes out the latest one before it is ever sorted.
  lemma PendingCapCanLoseTheLatestLine(line: Line, burst: seq<Line>)
    requires |burst| == LOG_LIMIT && InTimeOrder(burst)
    requires forall b | b in burst :: b.ts < line.ts
    ensures line in Capped(Sort(ByTime, [line] + burst))
    ensures line !in AppendedTo([], Capped([line] + burst))
  {
    LatestLineSortsLast(line, burst);
    LastLineIsAmongTheLast(burst, line, LOG_LIMIT);
    EarlierLineIsNotAmongTheLast(line, burst, LOG_LIMIT);
    OrderedBurstStays(burst);
  }

  lemma LatestLineSortsLast(line: Line, burst: seq<Line>)
    requires InTimeOrder(burst)
    requires forall b | b in burst :: b.ts < line.ts
    ensures Sort(ByTime, [line] + burst) == burst + [line]
  {
    SortOfConcat(ByTime, [line], burst);
    OrderedIsItsOwnSort([line]);
    OrderedIsItsOwnSort(burst);
    LaterLineGoesLast(line, burst);
  }

  lemma LastLineIsAmongTheLast(lines: seq<Line>, line: Line, n: nat)
    requires n > 0
    ensures line in LastLines(lines + [line], n)
  {
    var last := LastLines(lines + [line], n);
    assert last[|last| - 1] == line;
  }

  lemma OrderedBurstStays(burst: seq<Line>)
    requires InTimeOrder(burst) && |burst| == LOG_LIMIT
    ensures AppendedTo([], Capped(burst)) == burst
  {
    AppendIsACappedSort([], burst);
    OrderedIsItsOwnSort(burst);
    assert [] + burst == burst;
  }
}
