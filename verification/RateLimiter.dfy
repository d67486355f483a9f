/** The limiter of authentication failures, whose answers do not depend on when stale
    entries are swept out. */
module RateLimiter {
  import opened Wrappers
  import opened Text
  import opened Clock

  const SWEEP_EVERY := 100

  datatype Entry = Entry(count: nat, start: nat)
  type Failures = map<Block, Entry>
  datatype Policy = Policy(maxFailures: nat, window: nat)
  datatype Limiter = Limiter(failures: Failures, checks: nat)

  // ----- one call -------------------------------------------------------------------------

  function Lookup(f: Failures, id: Block): Option<Entry> {
    if id in f then Some(f[id]) else None
  }

  predicate Limited(p: Policy, e: Option<Entry>, now: nat) {
    e.Some? && Since(now, e.value.start) < p.window && e.value.count >= p.maxFailures
  }

  function Bump(p: Policy, e: Option<Entry>, now: nat): Entry {
    if e.None? || Since(now, e.value.start) >= p.window then Entry(1, now)
    else Entry(e.value.count + 1, e.value.start)
  }

  function Swept(p: Policy, f: Failures, now: nat): Failures {
    map id | id in f && Since(now, f[id].start) < p.window * 2 :: f[id]
  }

  function Checked(p: Policy, l: Limiter, sweepAt: nat): Limiter {
    Limiter(if l.checks % SWEEP_EVERY == 0 then Swept(p, l.failures, sweepAt) else l.failures,
            (l.checks + 1) % U64_LIMIT)
  }

  function Failed(p: Policy, l: Limiter, id: Block, now: nat): Limiter {
    l.(failures := l.failures[id := Bump(p, Lookup(l.failures, id), now)])
  }

  class AuthRateLimiter {
    var failures: Failures
    var checkCounter: nat
    const policy: Policy

    constructor (maxFailures: nat, windowSecs: nat)
      ensures State() == Limiter(map[], 0)
      ensures policy == Policy(maxFailures, windowSecs * SECOND)
    {
      failures := map[];
      checkCounter := 0;
      policy := Policy(maxFailures, windowSecs * SECOND);
    }

    function State(): Limiter
      reads this
    {
      Limiter(failures, checkCounter)
    }

    /** `sweepAt` and `now` are the two readings of the clock. */
    method IsRateLimited(id: Block, sweepAt: nat, now: nat) returns (limited: bool)
      modifies this
      ensures State() == Checked(policy, old(State()), sweepAt)
      ensures limited == Limited(policy, Lookup(failures, id), now)
    {
      var checks := checkCounter;
      checkCounter := (checkCounter + 1) % U64_LIMIT;
      if checks % SWEEP_EVERY == 0 {
        EvictStale(sweepAt);
      }
      if id in failures {
        var Entry(count, start) := failures[id];
        if Since(now, start) < policy.window && count >= policy.maxFailures {
          return true;
        }
      }
      return false;
    }

    method RecordFailure(id: Block, now: nat)
      modifies this`failures
      ensures State() == Failed(policy, old(State()), id, now)
    {
      if id in failures {
        var Entry(count, start) := failures[id];
        if Since(now, start) >= policy.window {
          failures := failures[id := Entry(1, now)];
        } else {
          failures := failures[id := Entry(count + 1, start)];
        }
      } else {
        failures := failures[id := Entry(1, now)];
      }
    }

    method EvictStale(now: nat)
      modifies this`failures
      ensures failures == Swept(policy, old(failures), now)
    {
      var grace := policy.window * 2;
      failures := map id | id in failures && Since(now, failures[id].start) < grace :: failures[id];
    }
  }

  // ----- runs -----------------------------------------------------------------------------

  datatype Call = Check(id: Block, sweepAt: nat, now: nat) | Fail(id: Block, now: nat)

  function Begins(call: Call): nat {
    if call.Check? then call.sweepAt else call.now
  }

  function Time(calls: seq<Call>): nat {
    if calls == [] then 0 else Last(calls).now
  }

  /** The clock never goes back. */
  predicate Ordered(calls: seq<Call>) {
    calls == [] ||
    (Ordered(Front(calls)) && Time(Front(calls)) <= Begins(Last(calls)) <= Last(calls).now)
  }

  function After(p: Policy, calls: seq<Call>): Limiter {
    if calls == [] then Limiter(map[], 0)
    else match Last(calls)
      case Check(_, sweepAt, _) => Checked(p, After(p, Front(calls)), sweepAt)
      case Fail(id, now) => Failed(p, After(p, Front(calls)), id, now)
  }

  /** The answer to the check that ends the run. */
  predicate Answer(p: Policy, calls: seq<Call>)
    requires calls != [] && Last(calls).Check?
  {
    Limited(p, Lookup(After(p, calls).failures, Last(calls).id), Last(calls).now)
  }

  /** What a limiter that forgets nothing holds for a client. */
  function Tally(p: Policy, calls: seq<Call>, id: Block): Option<Entry> {
    if calls == [] then None
    else if Last(calls).Fail? && Last(calls).id == id then
      Some(Bump(p, Tally(p, Front(calls), id), Last(calls).now))
    else Tally(p, Front(calls), id)
  }

  ghost predicate Tracks(p: Policy, f: Failures, calls: seq<Call>, clock: nat) {
    forall id :: Follows(p, Lookup(f, id), Tally(p, calls, id), clock)
  }

  predicate Follows(p: Policy, held: Option<Entry>, e: Option<Entry>, clock: nat) {
    (e.Some? ==> e.value.start <= clock) &&
    (held == e || (held.None? && clock - e.value.start >= p.window * 2))
  }

  lemma {:induction false} RunTracks(p: Policy, calls: seq<Call>)
    requires Ordered(calls)
    ensures Tracks(p, After(p, calls).failures, calls, Time(calls))
  {
    if calls != [] {
      var before, last := Front(calls), Last(calls);
      RunTracks(p, before);
      var f := After(p, before).failures;
      forall id
        ensures Follows(p, Lookup(After(p, calls).failures, id), Tally(p, calls, id), Time(calls))
      {
        assert Follows(p, Lookup(f, id), Tally(p, before, id), Time(before));
      }
    }
  }

  /** For every run on a clock that never goes back, the answer is that of the limiter
      that forgets nothing. */
  lemma SweepsInvisible(p: Policy, calls: seq<Call>)
    requires Ordered(calls) && calls != [] && Last(calls).Check?
    ensures Answer(p, calls) == Limited(p, Tally(p, calls, Last(calls).id), Last(calls).now)
  {
    hide Tally, After, Ordered;
    RunTracks(p, calls);
    var id := Last(calls).id;
    assert Follows(p, Lookup(After(p, calls).failures, id), Tally(p, calls, id), Time(calls));
  }

  /** Failures of a client from a moment on. */
  function FailuresSince(calls: seq<Call>, id: Block, start: nat): nat {
    if calls == [] then 0
    else FailuresSince(Front(calls), id, start) +
         if Last(calls).Fail? && Last(calls).id == id && Last(calls).now >= start then 1 else 0
  }

  /** When a client last failed. */
  function LastFailure(calls: seq<Call>, id: Block): Option<nat> {
    if calls == [] then None
    else if Last(calls).Fail? && Last(calls).id == id then Some(Last(calls).now)
    else LastFailure(Front(calls), id)
  }

  lemma {:induction false} NoneAfterLast(calls: seq<Call>, id: Block, start: nat)
    requires Ordered(calls)
    requires LastFailure(calls, id).Some? ==> LastFailure(calls, id).value < start
    ensures FailuresSince(calls, id, start) == 0
  {
    if calls != [] {
      if Last(calls).Fail? && Last(calls).id == id {
        assert Time(Front(calls)) < start;
        NoneBefore(Front(calls), id, start);
      } else {
        NoneAfterLast(Front(calls), id, start);
      }
    }
  }

  lemma {:induction false} NoneBefore(calls: seq<Call>, id: Block, start: nat)
    requires Ordered(calls) && (Time(calls) < start || calls == [])
    ensures FailuresSince(calls, id, start) == 0
  {
    if calls != [] {
      NoneBefore(Front(calls), id, start);
    }
  }

  /** What is counted: the failures since the window opened, the last of them inside it; a
      window of zero is opened anew by each. */
  lemma {:induction false} TallyCounts(p: Policy, calls: seq<Call>, id: Block)
    requires Ordered(calls)
    ensures Tally(p, calls, id).None? <==> LastFailure(calls, id).None?
    ensures Tally(p, calls, id).Some? ==>
              var e, t := Tally(p, calls, id).value, LastFailure(calls, id).value;
              e.start <= t <= Time(calls) &&
              if p.window == 0 then e == Entry(1, t)
              else e.count == FailuresSince(calls, id, e.start) && t - e.start < p.window
  {
    if calls != [] {
      var before, last := Front(calls), Last(calls);
      TallyCounts(p, before, id);
      var e := Tally(p, before, id);
      if p.window > 0 && last.Fail? && last.id == id && (e.None? || last.now - e.value.start >= p.window) {
        NoneAfterLast(before, id, last.now);
      }
    }
  }

  /** A client is refused only after `maxFailures` failures less than a window old. */
  lemma LimitedFor(p: Policy, calls: seq<Call>)
    requires Ordered(calls) && calls != [] && Last(calls).Check? && Answer(p, calls)
    ensures exists start: nat ::
              start <= Last(calls).now && Last(calls).now - start < p.window &&
              FailuresSince(calls, Last(calls).id, start) >= p.maxFailures
  {
    hide Tally, After, FailuresSince, LastFailure, Ordered;
    SweepsInvisible(p, calls);
    TallyCounts(p, calls, Last(calls).id);
    var e := Tally(p, calls, Last(calls).id).value;
    assert FailuresSince(calls, Last(calls).id, e.start) >= p.maxFailures;
  }

  /** Exactly when a check is refused: the window of the client's tally is open and the failures
      since it opened have reached the maximum. */
  lemma RefusedIff(p: Policy, calls: seq<Call>)
    requires Ordered(calls) && calls != [] && Last(calls).Check? && p.window > 0
    ensures var e := Tally(p, calls, Last(calls).id);
            Answer(p, calls) <==>
            e.Some? && Last(calls).now - e.value.start < p.window &&
            FailuresSince(calls, Last(calls).id, e.value.start) >= p.maxFailures
  {
    hide Tally, After, FailuresSince, LastFailure, Ordered;
    SweepsInvisible(p, calls);
    TallyCounts(p, calls, Last(calls).id);
  }

  /** No failure of the client in the window before `t`. */
  predicate Quiet(p: Policy, calls: seq<Call>, id: Block, t: nat) {
    forall i :: 0 <= i < |calls| && calls[i].Fail? && calls[i].id == id ==>
      calls[i].now + p.window <= t || calls[i].now >= t
  }

  /** After a quiet window, the first failure from `t` on opens a window of its own. */
  lemma {:induction false} OpensFrom(p: Policy, calls: seq<Call>, id: Block, t: nat)
    requires Ordered(calls) && Quiet(p, calls, id, t) && Time(calls) < t + p.window && p.window > 0
    ensures var e := Tally(p, calls, id);
            if FailuresSince(calls, id, t) == 0 then e.Some? ==> e.value.start + p.window <= t
            else e.Some? && e.value.start >= t && e.value.count == FailuresSince(calls, id, t)
  {
    if calls != [] {
      var front := Front(calls);
      assert forall i :: 0 <= i < |front| ==> front[i] == calls[i];
      assert calls[|calls| - 1] == Last(calls);
      OpensFrom(p, front, id, t);
      StartsByLast(p, front, id);
    }
  }

  /** A client that was quiet for a window before `t` and failed at least the maximum of times,
      and at least once, from `t` on is refused by every check before `t` plus the window. */
  lemma RefusedAtMaximum(p: Policy, calls: seq<Call>, t: nat)
    requires Ordered(calls) && calls != [] && Last(calls).Check? && Quiet(p, calls, Last(calls).id, t)
    requires Last(calls).now < t + p.window
    requires FailuresSince(calls, Last(calls).id, t) >= p.maxFailures && FailuresSince(calls, Last(calls).id, t) >= 1
    ensures Answer(p, calls)
  {
    hide Tally, After, FailuresSince, Ordered;
    var id := Last(calls).id;
    assert p.window > 0 by { SomeWindow(p, calls, id, t); }
    SweepsInvisible(p, calls);
    OpensFrom(p, calls, id, t);
    StartsByLast(p, calls, id);
  }

  lemma {:induction false} SomeWindow(p: Policy, calls: seq<Call>, id: Block, t: nat)
    requires Ordered(calls) && FailuresSince(calls, id, t) >= 1 && calls != [] && Time(calls) < t + p.window
    ensures p.window > 0
  {
    if p.window == 0 {
      NoneBefore(calls, id, t);
    }
  }

  /** A sweep leaves no entry older than two windows. */
  lemma SweepDrops(p: Policy, l: Limiter, sweepAt: nat)
    requires l.checks % SWEEP_EVERY == 0
    ensures forall id :: id in Checked(p, l, sweepAt).failures ==>
              id in l.failures && Since(sweepAt, l.failures[id].start) < 2 * p.window
  {
  }

  lemma {:induction false} StartsByLast(p: Policy, calls: seq<Call>, id: Block)
    requires Ordered(calls)
    ensures Tally(p, calls, id).Some? ==>
              LastFailure(calls, id).Some? && Tally(p, calls, id).value.start <= LastFailure(calls, id).value <= Time(calls)
  {
    if calls != [] {
      StartsByLast(p, Front(calls), id);
    }
  }

  lemma {:induction false} WindowStays(p: Policy, calls: seq<Call>, i: nat, id: Block)
    requires Ordered(calls) && i <= |calls| && Tally(p, calls[..i], id).Some?
    requires Time(calls) < Tally(p, calls[..i], id).value.start + p.window
    ensures Tally(p, calls, id).Some?
    ensures var e, e' := Tally(p, calls[..i], id).value, Tally(p, calls, id).value;
            e'.start == e.start && e'.count >= e.count
  {
    if i == |calls| {
      assert calls[..i] == calls;
    } else {
      assert Front(calls)[..i] == calls[..i];
      WindowStays(p, Front(calls), i, id);
      StartsByLast(p, Front(calls), id);
    }
  }

  lemma {:induction false} OrderedPrefix(calls: seq<Call>, i: nat)
    requires Ordered(calls) && i <= |calls|
    ensures Ordered(calls[..i])
  {
    if i == |calls| {
      assert calls[..i] == calls;
    } else {
      OrderedPrefix(Front(calls), i);
      assert Front(calls)[..i] == calls[..i];
    }
  }

  /** A refused client is refused by every check until the window ends. */
  lemma StaysLimited(p: Policy, calls: seq<Call>, i: nat)
    requires Ordered(calls) && 0 < i <= |calls| && calls[i - 1].Check? && Last(calls).Check?
    requires Last(calls).id == calls[i - 1].id && Answer(p, calls[..i])
    ensures Tally(p, calls[..i], Last(calls).id).Some?
    ensures Last(calls).now < Tally(p, calls[..i], Last(calls).id).value.start + p.window ==> Answer(p, calls)
  {
    hide Tally, After, Ordered;
    var id := Last(calls).id;
    OrderedPrefix(calls, i);
    SweepsInvisible(p, calls[..i]);
    SweepsInvisible(p, calls);
    if Last(calls).now < Tally(p, calls[..i], id).value.start + p.window {
      WindowStays(p, calls, i, id);
    }
  }

  /** And no longer: a check after the window, with no failure since, is let through. */
  lemma {:induction false} FreeAfterWindow(p: Policy, calls: seq<Call>)
    requires Ordered(calls) && calls != [] && Last(calls).Check?
    requires var t := LastFailure(calls, Last(calls).id); t.Some? ==> t.value + p.window <= Last(calls).now
    ensures !Answer(p, calls)
  {
    hide After, Ordered;
    SweepsInvisible(p, calls);
    StartsByLast(p, calls, Last(calls).id);
  }
}
