/**
 The fixed-window rate limiter of site/worker/limits.ts over its table of one row per bucket and key.
 */
module RateLimits {

  const DAY := 86_400
  const PRUNE_HORIZON_SECONDS := 2 * DAY

  datatype Limit = Limit(bucket: string, limit: nat, windowSeconds: nat)

  const NEW_SOURCES := Limit("source:new", 3, DAY)
  const SOURCE_REFRESHES := Limit("source:refresh", 6, 3_600)
  const NEW_DEVICES := Limit("device:new", 5, DAY)
  const INVENTORY_CHANGES := Limit("device:change", 24, DAY)

  // JavaScript's `%`: the remainder takes the sign of the dividend.
  function JsRemainder(a: int, b: int): (r: int)
    requires b > 0
  {
    if a >= 0 then a % b else -((-a) % b)
  }

  function WindowStart(seconds: int, windowSeconds: nat): (start: int)
    requires windowSeconds > 0
  {
    seconds - JsRemainder(seconds, windowSeconds)
  }

  datatype Counter = Counter(bucket: string, key: string)
  datatype Row = Row(windowStart: int, used: nat)
  type Table = map<Counter, Row>

  // The upsert: a row of another window starts over at one, a row of this window counts up to the limit,
  // and the statement returns no row exactly when its WHERE clause refuses the update.
  function Taken(table: Table, counter: Counter, window: int, limit: nat): (result: (bool, Table)) {
    if counter !in table then (true, table[counter := Row(window, 1)])
    else
      var row := table[counter];
      if row.windowStart != window || row.used < limit then
        (true, table[counter := Row(window, if row.windowStart == window then row.used + 1 else 1)])
      else (false, table)
  }

  function Pruned(table: Table, seconds: int): Table {
    map counter | counter in table && table[counter].windowStart >= seconds - PRUNE_HORIZON_SECONDS :: table[counter]
  }

  class RateLimiter {
    var table: Table

    constructor ()
      ensures table == map[]
    {
      table := map[];
    }

    method TakeToken(limit: Limit, key: string, now: int) returns (taken: bool)
      requires limit.windowSeconds > 0
      modifies this
      ensures (taken, table) == Taken(old(table), Counter(limit.bucket, key), WindowStart(now, limit.windowSeconds), limit.limit)
    {
      var window := WindowStart(now, limit.windowSeconds);
      var counter := Counter(limit.bucket, key);
      if counter in table {
        var row := table[counter];
        if row.windowStart == window && row.used >= limit.limit {
          return false;
        }
        table := table[counter := Row(window, if row.windowStart == window then row.used + 1 else 1)];
      } else {
        table := table[counter := Row(window, 1)];
      }
      return true;
    }

    method PruneTokens(now: int)
      modifies this
      ensures table == Pruned(old(table), now)
    {
      var horizon := now - PRUNE_HORIZON_SECONDS;
      table := table - (set counter | counter in table && table[counter].windowStart < horizon);
    }
  }

  // ----- runs

  datatype Call = Take(bucket: string, key: string, now: int) | Prune(now: int)

  // Each bucket has one limit.
  type Policy = map<string, Limit>

  predicate ValidPolicy(policy: Policy) {
    forall bucket | bucket in policy :: 0 < policy[bucket].windowSeconds <= PRUNE_HORIZON_SECONDS + 1
  }

  predicate ValidRun(policy: Policy, calls: seq<Call>) {
    && (forall i | 0 <= i < |calls| && calls[i].Take? :: calls[i].bucket in policy)
    && (forall i, j | 0 <= i <= j < |calls| :: calls[i].now <= calls[j].now)
  }

  function WindowOf(policy: Policy, call: Call): int
    requires ValidPolicy(policy) && call.Take? && call.bucket in policy
  {
    WindowStart(call.now, policy[call.bucket].windowSeconds)
  }

  // The answers of a run, one for each call, and the table after it; a prune answers nothing but true.
  function Run(policy: Policy, calls: seq<Call>): (result: (seq<bool>, Table))
    requires ValidPolicy(policy) && ValidRun(policy, calls)
    decreases |calls|
  {
    if calls == [] then ([], map[])
    else
      var (answers, table) := Run(policy, calls[..|calls| - 1]);
      match calls[|calls| - 1]
      case Take(bucket, key, now) =>
        var (taken, after) := Taken(table, Counter(bucket, key), WindowOf(policy, calls[|calls| - 1]), policy[bucket].limit);
        (answers + [taken], after)
      case Prune(now) => (answers + [true], Pruned(table, now))
  }

  // The same run on a table that is never pruned.
  function RunUnpruned(policy: Policy, calls: seq<Call>): (result: (seq<bool>, Table))
    requires ValidPolicy(policy) && ValidRun(policy, calls)
    decreases |calls|
  {
    if calls == [] then ([], map[])
    else
      var (answers, table) := RunUnpruned(policy, calls[..|calls| - 1]);
      match calls[|calls| - 1]
      case Take(bucket, key, now) =>
        var (taken, after) := Taken(table, Counter(bucket, key), WindowOf(policy, calls[|calls| - 1]), policy[bucket].limit);
        (answers + [taken], after)
      case Prune(_) => (answers + [true], table)
  }

  predicate Asks(policy: Policy, call: Call, counter: Counter, window: int)
    requires ValidPolicy(policy) && (call.Take? ==> call.bucket in policy)
  {
    call.Take? && Counter(call.bucket, call.key) == counter && WindowOf(policy, call) == window
  }

  function Attempts(policy: Policy, calls: seq<Call>, counter: Counter, window: int): nat
    requires ValidPolicy(policy) && ValidRun(policy, calls)
    decreases |calls|
  {
    if calls == [] then 0
    else
      var last := if Asks(policy, calls[|calls| - 1], counter, window) then 1 else 0;
      Attempts(policy, calls[..|calls| - 1], counter, window) + last
  }

  function Granted(policy: Policy, calls: seq<Call>, answers: seq<bool>, counter: Counter, window: int): nat
    requires ValidPolicy(policy) && ValidRun(policy, calls)
    requires |answers| == |calls|
    decreases |calls|
  {
    if calls == [] then 0
    else
      var last := if answers[|calls| - 1] && Asks(policy, calls[|calls| - 1], counter, window) then 1 else 0;
      Granted(policy, calls[..|calls| - 1], answers[..|calls| - 1], counter, window) + last
  }

  lemma {:induction false} RunAnswersEveryCall(policy: Policy, calls: seq<Call>)
    requires ValidPolicy(policy) && ValidRun(policy, calls)
    ensures |Run(policy, calls).0| == |calls| == |RunUnpruned(policy, calls).0|
    decreases |calls|
  {
    if calls != [] {
      RunAnswersEveryCall(policy, calls[..|calls| - 1]);
    }
  }

  lemma Multiple(a: int, w: int)
    requires w > 0
    ensures a - a % w == a / w * w
  {
  }

  lemma ProductsFollow(p: int, r: int, q: int, s: int, w: int)
    requires 0 <= r < w && 0 <= s < w
    requires p * w + r <= q * w + s
    ensures p * w <= q * w
  {
    var gap := if p > q then p - q - 1 else q - p;
    assert gap * w >= 0;
    assert p * w - q * w == (p - q) * w;
  }

  lemma QuotientsFollow(a: int, b: int, w: int)
    requires 0 <= a <= b && w > 0
    ensures 0 <= a / w * w <= b / w * w
  {
    Multiple(0, w);
    Multiple(a, w);
    Multiple(b, w);
    ProductsFollow(0, 0, a / w, a % w, w);
    ProductsFollow(a / w, a % w, b / w, b % w, w);
  }

  lemma WindowIsTruncated(seconds: int, windowSeconds: nat)
    requires windowSeconds > 0
    ensures WindowStart(seconds, windowSeconds)
         == if seconds >= 0 then seconds / windowSeconds * windowSeconds else -((-seconds) / windowSeconds * windowSeconds)
    ensures seconds - windowSeconds < WindowStart(seconds, windowSeconds)
  {
    Multiple(seconds, windowSeconds);
    Multiple(-seconds, windowSeconds);
  }

  // A later second never falls in an earlier window, before the epoch either.
  lemma WindowsFollowTheClock(a: int, b: int, windowSeconds: nat)
    requires a <= b && windowSeconds > 0
    ensures WindowStart(a, windowSeconds) <= WindowStart(b, windowSeconds)
    ensures b - windowSeconds < WindowStart(b, windowSeconds)
  {
    WindowIsTruncated(a, windowSeconds);
    WindowIsTruncated(b, windowSeconds);
    if a >= 0 {
      QuotientsFollow(a, b, windowSeconds);
    } else {
      QuotientsFollow(0, -a, windowSeconds);
      if b < 0 {
        QuotientsFollow(-b, -a, windowSeconds);
      } else {
        QuotientsFollow(0, b, windowSeconds);
      }
    }
  }

  // ----- how many calls succeed

  function Least(a: nat, b: nat): nat {
    if a < b then a else b
  }

  // A window grants the limit, and one token even to a limit of zero: the row is made before the limit
  // is looked at.
  function Allowance(limit: Limit): nat {
    if limit.limit == 0 then 1 else limit.limit
  }

  // What the unpruned table says of one counter: it holds the latest window asked for and the tokens
  // granted in it.
  predicate Records(policy: Policy, calls: seq<Call>, table: Table, counter: Counter)
    requires ValidPolicy(policy) && ValidRun(policy, calls) && counter.bucket in policy
  {
    var limit := policy[counter.bucket];
    if counter in table then
      && table[counter].used == Least(Attempts(policy, calls, counter, table[counter].windowStart), Allowance(limit))
      && 0 < Attempts(policy, calls, counter, table[counter].windowStart)
      && (calls != [] ==> table[counter].windowStart <= WindowStart(calls[|calls| - 1].now, limit.windowSeconds))
    else true
  }

  ghost predicate NothingAfter(policy: Policy, calls: seq<Call>, table: Table, counter: Counter)
    requires ValidPolicy(policy) && ValidRun(policy, calls)
  {
    forall window :: (counter in table ==> window > table[counter].windowStart) ==>
      Attempts(policy, calls, counter, window) == 0
  }

  lemma {:induction false} UnprunedTableRecords(policy: Policy, calls: seq<Call>, counter: Counter)
    requires ValidPolicy(policy) && ValidRun(policy, calls) && counter.bucket in policy
    ensures Records(policy, calls, RunUnpruned(policy, calls).1, counter)
    ensures NothingAfter(policy, calls, RunUnpruned(policy, calls).1, counter)
    decreases |calls|
  {
    if calls != [] {
      var n := |calls| - 1;
      var early, last := calls[..n], calls[n];
      UnprunedTableRecords(policy, early, counter);
      var w := policy[counter.bucket].windowSeconds;
      if early != [] {
        assert early[n - 1] == calls[n - 1] && calls[n - 1].now <= last.now;
        WindowsFollowTheClock(calls[n - 1].now, last.now, w);
      }
    }
  }

  lemma {:induction false} UnprunedWindowsAreExact(policy: Policy, calls: seq<Call>, counter: Counter, window: int)
    requires ValidPolicy(policy) && ValidRun(policy, calls) && counter.bucket in policy
    ensures |RunUnpruned(policy, calls).0| == |calls|
    ensures Granted(policy, calls, RunUnpruned(policy, calls).0, counter, window)
         == Least(Attempts(policy, calls, counter, window), Allowance(policy[counter.bucket]))
    decreases |calls|
  {
    RunAnswersEveryCall(policy, calls);
    if calls != [] {
      var n := |calls| - 1;
      var early, last := calls[..n], calls[n];
      UnprunedWindowsAreExact(policy, early, counter, window);
      RunAnswersEveryCall(policy, early);
      assert RunUnpruned(policy, calls).0[..n] == RunUnpruned(policy, early).0;
      UnprunedTableRecords(policy, early, counter);
      if Asks(policy, last, counter, window) && early != [] {
        WindowsFollowTheClock(calls[n - 1].now, last.now, policy[counter.bucket].windowSeconds);
      }
    }
  }

  // ----- pruning

  // A pruned row can no longer match: every window still to come starts after it.
  ghost predicate PruningIsHarmless(policy: Policy, pruned: Table, whole: Table, now: int)
    requires ValidPolicy(policy)
  {
    && (forall counter | counter in pruned :: counter in whole && whole[counter] == pruned[counter])
    && (forall counter | counter in whole && counter !in pruned && counter.bucket in policy ::
          whole[counter].windowStart < WindowStart(now, policy[counter.bucket].windowSeconds))
  }

  lemma PruningStaysHarmless(policy: Policy, pruned: Table, whole: Table, now: int, later: int)
    requires ValidPolicy(policy) && now <= later
    requires PruningIsHarmless(policy, pruned, whole, now)
    ensures PruningIsHarmless(policy, pruned, whole, later)
    ensures PruningIsHarmless(policy, Pruned(pruned, later), whole, later)
  {
    forall counter: Counter | counter.bucket in policy
      ensures var w := policy[counter.bucket].windowSeconds;
              WindowStart(now, w) <= WindowStart(later, w) && later - PRUNE_HORIZON_SECONDS <= WindowStart(later, w)
    {
      WindowsFollowTheClock(now, later, policy[counter.bucket].windowSeconds);
    }
  }

  lemma {:induction false} PrunedRunAgrees(policy: Policy, calls: seq<Call>)
    requires ValidPolicy(policy) && ValidRun(policy, calls)
    ensures Run(policy, calls).0 == RunUnpruned(policy, calls).0
    ensures calls != [] ==>
              PruningIsHarmless(policy, Run(policy, calls).1, RunUnpruned(policy, calls).1, calls[|calls| - 1].now)
    decreases |calls|
  {
    if calls != [] {
      var n := |calls| - 1;
      var early, last := calls[..n], calls[n];
      PrunedRunAgrees(policy, early);
      var pruned, whole := Run(policy, early).1, RunUnpruned(policy, early).1;
      if early != [] {
        assert calls[n - 1].now <= last.now;
        PruningStaysHarmless(policy, pruned, whole, calls[n - 1].now, last.now);
      }
    }
  }

  // Main result: whatever else runs in between, prunes included, each counter is granted in each window
  // exactly the attempts made there, up to the allowance.
  lemma EveryWindowIsExact(policy: Policy, calls: seq<Call>, counter: Counter, window: int)
    requires ValidPolicy(policy) && ValidRun(policy, calls) && counter.bucket in policy
    ensures |Run(policy, calls).0| == |calls|
    ensures var granted := Granted(policy, calls, Run(policy, calls).0, counter, window);
            var attempts := Attempts(policy, calls, counter, window);
            && granted == Least(attempts, Allowance(policy[counter.bucket]))
            && (policy[counter.bucket].limit >= 1 ==> granted == Least(attempts, policy[counter.bucket].limit))
  {
    RunAnswersEveryCall(policy, calls);
    PrunedRunAgrees(policy, calls);
    UnprunedWindowsAreExact(policy, calls, counter, window);
  }

  lemma SmallerFactor(a: int, b: int, w: int)
    requires w > 0 && a * w < b * w
    ensures a < b
  {
    var gap := if a >= b then a - b else 0;
    assert gap * w >= 0;
    assert (a - b) * w == a * w - b * w;
  }

  lemma WindowHoldsItsSeconds(k: nat, windowSeconds: nat, second: int)
    requires windowSeconds > 0 && k * windowSeconds <= second < (k + 1) * windowSeconds
    ensures WindowStart(second, windowSeconds) == k * windowSeconds
  {
    Multiple(second, windowSeconds);
    var q := second / windowSeconds;
    assert (q + 1) * windowSeconds == q * windowSeconds + windowSeconds;
    SmallerFactor(k, q + 1, windowSeconds);
    SmallerFactor(q, k + 1, windowSeconds);
  }

  // The horizon is exact: every window that is not valid, being longer by more than a second, can be pruned away once
  // its tokens are gone, and is then granted again.
  lemma PrunedWindowIsGrantedAgain(limit: Limit, key: string, k: nat, table: Table)
    requires limit.windowSeconds > 0 && !ValidPolicy(map[limit.bucket := limit])
    requires Counter(limit.bucket, key) in table
    requires table[Counter(limit.bucket, key)].windowStart == k * limit.windowSeconds
    requires table[Counter(limit.bucket, key)].used >= limit.limit
    ensures var counter, later := Counter(limit.bucket, key), k * limit.windowSeconds + PRUNE_HORIZON_SECONDS + 1;
            var window := WindowStart(later, limit.windowSeconds);
            && window == table[counter].windowStart
            && !Taken(table, counter, window, limit.limit).0
            && Taken(Pruned(table, later), counter, window, limit.limit).0
  {
    assert limit.windowSeconds > PRUNE_HORIZON_SECONDS + 1;
    WindowHoldsItsSeconds(k, limit.windowSeconds, k * limit.windowSeconds + PRUNE_HORIZON_SECONDS + 1);
  }

  lemma ShippedLimitsAreValid()
    ensures ValidPolicy(map[NEW_SOURCES.bucket := NEW_SOURCES, SOURCE_REFRESHES.bucket := SOURCE_REFRESHES,
                            NEW_DEVICES.bucket := NEW_DEVICES, INVENTORY_CHANGES.bucket := INVENTORY_CHANGES])
  {
  }
}
