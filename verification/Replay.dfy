/** The replay cache: its answers are those of a full history of what was accepted. */
module Replay {
  import opened Wrappers
  import opened Text
  import opened Clock

  const HARD_CAP := 65_536
  const SWEEP_EVERY := 100

  type Seen = map<Block, nat>
  datatype Cache = Cache(seen: Seen, checks: nat)

  /** A caller, if known, and its client correlation value. */
  datatype Pair = Pair(identity: Option<string>, value: string)

  function Identity(p: Pair): string {
    if p.identity.Some? then p.identity.value else ""
  }

  predicate Same(p: Pair, q: Pair) {
    Identity(p) == Identity(q) && p.value == q.value
  }

  /** What is hashed to make the key. */
  function KeyInput(p: Pair): bytes {
    Encode(Identity(p)) + ([0xFF] + Encode(p.value))
  }

  // ----- the key --------------------------------------------------------------------------

  lemma {:induction false} NoSeparator(s: string)
    ensures 0xFF !in Encode(s)
  {
    if s != [] {
      NoSeparator(s[1..]);
    }
  }

  lemma SplitAtSeparator(a: bytes, b: bytes, c: bytes, d: bytes)
    requires 0xFF !in a && 0xFF !in c && a + ([0xFF] + b) == c + ([0xFF] + d)
    ensures a == c && b == d
  {
    var x, y := a + ([0xFF] + b), c + ([0xFF] + d);
    assert x[|a|] == 0xFF && y[|c|] == 0xFF;
    assert forall k :: 0 <= k < |a| ==> x[k] == a[k];
    assert forall k :: 0 <= k < |c| ==> y[k] == c[k];
    assert a == x[..|a|] && c == y[..|c|];
    assert b == x[|a| + 1..] && d == y[|c| + 1..];
  }

  /** Two pairs hash the same bytes exactly when they are the same pair. */
  lemma KeyInputInjective(p: Pair, q: Pair)
    ensures KeyInput(p) == KeyInput(q) <==> Same(p, q)
  {
    hide Encode, Decode;
    if KeyInput(p) == KeyInput(q) {
      NoSeparator(Identity(p));
      NoSeparator(Identity(q));
      SplitAtSeparator(Encode(Identity(p)), Encode(p.value), Encode(Identity(q)), Encode(q.value));
      DecodeEncode(Identity(p));
      DecodeEncode(Identity(q));
      DecodeEncode(p.value);
      DecodeEncode(q.value);
    }
  }

  // ----- one call -------------------------------------------------------------------------

  function Swept(window: nat, seen: Seen, now: nat): Seen {
    map k | k in seen && Since(now, seen[k]) < window :: seen[k]
  }

  /** The map the lookup is made in. */
  function Current(window: nat, c: Cache, sweepAt: nat): Seen {
    if c.checks % SWEEP_EVERY == 0 then Swept(window, c.seen, sweepAt) else c.seen
  }

  predicate Full(seen: Seen, k: Block) {
    |seen| >= HARD_CAP && k !in seen
  }

  predicate Duplicate(window: nat, seen: Seen, k: Block, now: nat) {
    Full(seen, k) || (k in seen && Since(now, seen[k]) < window)
  }

  function Recorded(window: nat, c: Cache, k: Block, sweepAt: nat, now: nat): Cache {
    var seen := Current(window, c, sweepAt);
    Cache(if Duplicate(window, seen, k, now) then seen else seen[k := now], (c.checks + 1) % U64_LIMIT)
  }

  class ReplayCache {
    var seen: Seen
    var checkCounter: nat
    const window: nat

    constructor (windowSecs: nat)
      ensures State() == Cache(map[], 0)
      ensures window == (if windowSecs == 0 then 1 else windowSecs) * SECOND
    {
      seen := map[];
      window := (if windowSecs == 0 then 1 else windowSecs) * SECOND;
      checkCounter := 0;
    }

    function State(): Cache
      reads this
    {
      Cache(seen, checkCounter)
    }

    /** `sweepAt` and `now` are the two readings of the clock. */
    method CheckAndRecord(digest: bytes -> Block, p: Pair, sweepAt: nat, now: nat) returns (duplicate: bool)
      modifies this
      ensures State() == Recorded(window, old(State()), digest(KeyInput(p)), sweepAt, now)
      ensures duplicate == Duplicate(window, Current(window, old(State()), sweepAt), digest(KeyInput(p)), now)
    {
      var checks := checkCounter;
      checkCounter := (checkCounter + 1) % U64_LIMIT;
      if checks % SWEEP_EVERY == 0 {
        seen := map k | k in seen && Since(sweepAt, seen[k]) < window :: seen[k];
      }
      var k := digest(KeyInput(p));
      if |seen| >= HARD_CAP && k !in seen {
        return true;
      }
      duplicate := false;
      if k in seen {
        if Since(now, seen[k]) < window {
          duplicate := true;
        } else {
          seen := seen[k := now];
        }
      } else {
        seen := seen[k := now];
      }
    }
  }

  // ----- runs -----------------------------------------------------------------------------

  datatype Call = Call(pair: Pair, sweepAt: nat, now: nat)

  /** A run: the hash, the window and the calls made so far. */
  datatype Run = Run(digest: bytes -> Block, window: nat, calls: seq<Call>)
  {
    function Before(): Run
      requires calls != []
    {
      this.(calls := calls[..|calls| - 1])
    }

    function UpTo(i: nat): Run
      requires i <= |calls|
    {
      this.(calls := calls[..i])
    }

    function Last(): Call
      requires calls != []
    {
      calls[|calls| - 1]
    }

    function Key(call: Call): Block {
      digest(KeyInput(call.pair))
    }

    function Time(): nat {
      if calls == [] then 0 else Last().now
    }

    /** The clock never goes back. */
    predicate Ordered()
      decreases |calls|
    {
      calls == [] || (Before().Ordered() && Before().Time() <= Last().sweepAt <= Last().now)
    }

    function After(): Cache
      decreases |calls|
    {
      if calls == [] then Cache(map[], 0)
      else Recorded(window, Before().After(), Key(Last()), Last().sweepAt, Last().now)
    }

    /** The map in which the last call was looked up. */
    function Held(): Seen
      requires calls != []
    {
      Current(window, Before().After(), Last().sweepAt)
    }

    /** The answer to the last call. */
    predicate Answer()
      requires calls != []
    {
      Duplicate(window, Held(), Key(Last()), Last().now)
    }

    predicate Accepted(i: nat)
      requires i < |calls|
    {
      !UpTo(i + 1).Answer()
    }

    /** When a key was last accepted, over the whole history. */
    function LastAccepted(k: Block): Option<nat>
      decreases |calls|
    {
      if calls == [] then None
      else if Key(Last()) == k && !Answer() then Some(Last().now)
      else Before().LastAccepted(k)
    }

    /** No two different pairs of this run hash alike. */
    ghost predicate CollisionFree() {
      forall i, j :: 0 <= i < |calls| && 0 <= j < |calls| && Key(calls[i]) == Key(calls[j]) ==>
                       Same(calls[i].pair, calls[j].pair)
    }
  }

  /** What the map holds for a key, against the last acceptance: it may have forgotten it
      once the window is over. */
  predicate Follows(window: nat, seen: Seen, k: Block, last: Option<nat>, clock: nat) {
    (last.Some? ==> last.value <= clock) &&
    if k in seen then last == Some(seen[k]) else last.Some? ==> clock - last.value >= window
  }

  ghost predicate Tracks(r: Run, seen: Seen, clock: nat) {
    forall k :: Follows(r.window, seen, k, r.LastAccepted(k), clock)
  }

  lemma SweepFollows(window: nat, seen: Seen, k: Block, last: Option<nat>, clock: nat, at: nat)
    requires Follows(window, seen, k, last, clock) && clock <= at
    ensures Follows(window, Swept(window, seen, at), k, last, at)
    ensures Follows(window, seen, k, last, at)
  {
  }

  lemma HeldTracks(r: Run)
    requires r.calls != [] && r.Ordered() && Tracks(r.Before(), r.Before().After().seen, r.Before().Time())
    ensures Tracks(r.Before(), r.Held(), r.Last().now)
  {
    hide Run.After, Run.LastAccepted, Swept, Follows;
    var b, c := r.Before(), r.Before().After();
    forall k ensures Follows(r.window, r.Held(), k, b.LastAccepted(k), r.Last().now) {
      assert Follows(r.window, c.seen, k, b.LastAccepted(k), b.Time());
      SweepFollows(r.window, c.seen, k, b.LastAccepted(k), b.Time(), r.Last().sweepAt);
      SweepFollows(r.window, r.Held(), k, b.LastAccepted(k), r.Last().sweepAt, r.Last().now);
    }
  }

  lemma {:induction false} RunTracks(r: Run)
    requires r.Ordered()
    ensures Tracks(r, r.After().seen, r.Time())
    decreases |r.calls|
  {
    if r.calls != [] {
      RunTracks(r.Before());
      HeldTracks(r);
      forall k ensures Follows(r.window, r.After().seen, k, r.LastAccepted(k), r.Time()) {
        assert Follows(r.window, r.Held(), k, r.Before().LastAccepted(k), r.Last().now);
      }
    }
  }

  lemma SweptSmaller(window: nat, seen: Seen, now: nat)
    ensures |Swept(window, seen, now)| <= |seen|
  {
    var s := Swept(window, seen, now);
    assert s.Keys <= seen.Keys;
    Smaller(s.Keys, seen.Keys);
  }

  lemma {:induction false} Smaller<T>(a: set<T>, b: set<T>)
    requires a <= b
    ensures |a| <= |b|
    decreases b
  {
    if a != {} {
      var x :| x in a;
      Smaller(a - {x}, b - {x});
    }
  }

  /** The map never holds more than the cap. */
  lemma {:induction false} SizeBound(r: Run)
    ensures |r.After().seen| <= 65_536
    decreases |r.calls|
  {
    if r.calls != [] {
      SizeBound(r.Before());
      var c := r.Before().After();
      SweptSmaller(r.window, c.seen, r.Last().sweepAt);
      var seen, k := r.Held(), r.Key(r.Last());
      assert k in seen ==> seen[k := r.Last().now].Keys == seen.Keys;
      assert k !in seen ==> seen[k := r.Last().now].Keys == seen.Keys + {k};
    }
  }

  // ----- the full history -----------------------------------------------------------------

  /** Some call of the history with this key was accepted less than a window before `now`. */
  ghost predicate Recent(r: Run, k: Block, now: nat) {
    exists i: nat :: i < |r.calls| && r.Key(r.calls[i]) == k && r.Accepted(i) && Since(now, r.calls[i].now) < r.window
  }

  lemma UpToBefore(r: Run, i: nat)
    requires r.calls != [] && i < |r.calls|
    ensures r.Before().UpTo(i) == r.UpTo(i)
  {
    assert r.calls[..|r.calls| - 1][..i] == r.calls[..i];
  }

  lemma UpToAll(r: Run)
    ensures r.UpTo(|r.calls|) == r
  {
    assert r.calls[..|r.calls|] == r.calls;
  }

  lemma {:induction false} TimesOrdered(r: Run, i: nat)
    requires r.Ordered() && i < |r.calls|
    ensures r.calls[i].now <= r.Time()
    decreases |r.calls|
  {
    if i < |r.calls| - 1 {
      TimesOrdered(r.Before(), i);
    }
  }

  /** The last acceptance is a call of the history, and the latest accepted one. */
  lemma {:induction false} LastIsLatest(r: Run, k: Block, i: nat)
    requires r.Ordered() && i < |r.calls| && r.Key(r.calls[i]) == k && r.Accepted(i)
    ensures r.LastAccepted(k).Some? && r.calls[i].now <= r.LastAccepted(k).value
    decreases |r.calls|
  {
    hide Run.After, Duplicate;
    if i < |r.calls| - 1 {
      UpToBefore(r, i + 1);
      LastIsLatest(r.Before(), k, i);
      TimesOrdered(r, i);
    } else {
      UpToAll(r);
    }
  }

  lemma {:induction false} LastHappened(r: Run, k: Block) returns (i: nat)
    requires r.LastAccepted(k).Some?
    ensures i < |r.calls| && r.Key(r.calls[i]) == k && r.Accepted(i) && r.calls[i].now == r.LastAccepted(k).value
    decreases |r.calls|
  {
    hide Run.After, Duplicate;
    if r.Key(r.Last()) == k && !r.Answer() {
      i := |r.calls| - 1;
      UpToAll(r);
    } else {
      i := LastHappened(r.Before(), k);
      UpToBefore(r, i + 1);
    }
  }

  lemma RecentIffLast(r: Run, k: Block, now: nat)
    requires r.Ordered()
    ensures Recent(r, k, now) <==> r.LastAccepted(k).Some? && Since(now, r.LastAccepted(k).value) < r.window
  {
    hide Run.After, Run.LastAccepted, Run.Accepted, Run.Ordered;
    if Recent(r, k, now) {
      var i: nat :| i < |r.calls| && r.Key(r.calls[i]) == k && r.Accepted(i) && Since(now, r.calls[i].now) < r.window;
      LastIsLatest(r, k, i);
    }
    if r.LastAccepted(k).Some? && Since(now, r.LastAccepted(k).value) < r.window {
      var i := LastHappened(r, k);
    }
  }

  /** By key: a duplicate is exactly a recent acceptance, or a full map without the key. */
  lemma DuplicateByKey(r: Run)
    requires r.Ordered() && r.calls != []
    ensures r.Answer() <==> Recent(r.Before(), r.Key(r.Last()), r.Last().now) || Full(r.Held(), r.Key(r.Last()))
  {
    hide Run.After, Run.LastAccepted, Recent;
    var b, k := r.Before(), r.Key(r.Last());
    RunTracks(b);
    HeldTracks(r);
    RecentIffLast(b, k, r.Last().now);
    assert Follows(r.window, r.Held(), k, b.LastAccepted(k), r.Last().now);
  }

  /** The same pair was accepted less than a window before the last call. */
  ghost predicate Repeats(r: Run)
    requires r.calls != []
  {
    exists i: nat :: i < |r.calls| - 1 && Same(r.calls[i].pair, r.Last().pair) && r.Accepted(i) &&
                     Since(r.Last().now, r.calls[i].now) < r.window
  }

  /** For every run on a clock that never goes back, a call is a duplicate exactly when the
      full history holds an acceptance of its pair less than a window ago, or the map is
      full of other pairs. */
  lemma DuplicateIff(r: Run)
    requires r.Ordered() && r.calls != [] && r.CollisionFree()
    ensures r.Answer() <==> Repeats(r) || Full(r.Held(), r.Key(r.Last()))
    ensures Full(r.Held(), r.Key(r.Last())) ==> |r.Held()| == HARD_CAP
  {
    DuplicateByKey(r);
    HeldBound(r);
    RepeatsByKey(r);
  }

  lemma HeldBound(r: Run)
    requires r.calls != []
    ensures |r.Held()| <= HARD_CAP
  {
    SizeBound(r.Before());
    SweptSmaller(r.window, r.Before().After().seen, r.Last().sweepAt);
  }

  lemma RepeatsByKey(r: Run)
    requires r.calls != [] && r.CollisionFree()
    ensures Repeats(r) <==> Recent(r.Before(), r.Key(r.Last()), r.Last().now)
  {
    hide Run.After, KeyInput, Run.Answer;
    var b, n := r.Before(), |r.calls| - 1;
    forall i: nat | i < n
      ensures Same(r.calls[i].pair, r.Last().pair) <==> r.Key(r.calls[i]) == r.Key(r.Last())
      ensures b.calls[i] == r.calls[i] && b.Accepted(i) == r.Accepted(i) && b.Key(b.calls[i]) == r.Key(r.calls[i])
    {
      KeyInputInjective(r.calls[i].pair, r.Last().pair);
      assert r.calls[n] == r.Last();
      UpToBefore(r, i + 1);
    }
    if Repeats(r) {
      var i: nat :| i < n && Same(r.calls[i].pair, r.Last().pair) && r.Accepted(i) && Since(r.Last().now, r.calls[i].now) < r.window;
      assert b.Accepted(i) && b.Key(b.calls[i]) == r.Key(r.Last());
    }
    if Recent(b, r.Key(r.Last()), r.Last().now) {
      var i: nat :| i < |b.calls| && b.Key(b.calls[i]) == r.Key(r.Last()) && b.Accepted(i) && Since(r.Last().now, b.calls[i].now) < b.window;
      assert r.Accepted(i) && Same(r.calls[i].pair, r.Last().pair);
    }
  }

  // ----- recovery -------------------------------------------------------------------------

  lemma {:induction false} CallsCounted(r: Run)
    ensures r.After().checks == |r.calls| % U64_LIMIT
    decreases |r.calls|
  {
    hide Recorded;
    if r.calls != [] {
      CallsCounted(r.Before());
      CallCounts(r.window, r.Before().After(), r.Key(r.Last()), r.Last().sweepAt, r.Last().now);
      NextModulo(|r.calls| - 1);
    }
  }

  lemma NextModulo(n: nat)
    ensures (n % U64_LIMIT + 1) % U64_LIMIT == (n + 1) % U64_LIMIT
  {
  }

  lemma CallCounts(window: nat, c: Cache, k: Block, sweepAt: nat, now: nat)
    ensures Recorded(window, c, k, sweepAt, now).checks == (c.checks + 1) % U64_LIMIT
  {
  }

  /** The last call, the first and every hundredth after it, swept the map. */
  predicate Sweeps(r: Run)
    requires r.calls != []
  {
    (|r.calls| - 1) % U64_LIMIT % SWEEP_EVERY == 0
  }

  /** A sweep leaves only what was accepted less than a window before it. */
  lemma SweepForgets(r: Run, k: Block)
    requires r.Ordered() && r.calls != [] && Sweeps(r) && k in r.Held()
    ensures Recent(r.Before(), k, r.Last().sweepAt)
  {
    hide Run.After, Run.LastAccepted, Recent, Duplicate;
    var b := r.Before();
    CallsCounted(b);
    RunTracks(b);
    assert Follows(r.window, b.After().seen, k, b.LastAccepted(k), b.Time());
    RecentIffLast(b, k, r.Last().sweepAt);
  }

  /** So a full map recovers: a call that sweeps is refused for want of room only if 65,536
      different keys were each accepted less than a window before, and never if nothing was. */
  lemma Recovers(r: Run)
    requires r.Ordered() && r.calls != [] && Sweeps(r)
    ensures Full(r.Held(), r.Key(r.Last())) ==>
              |r.Held()| == HARD_CAP && forall k :: k in r.Held() ==> Recent(r.Before(), k, r.Last().sweepAt)
    ensures (forall k :: !Recent(r.Before(), k, r.Last().sweepAt)) ==> r.Held() == map[] && !r.Answer()
  {
    hide Run.After, Recent, Run.Ordered, Sweeps, Run.Held;
    HeldBound(r);
    forall k | k in r.Held() ensures Recent(r.Before(), k, r.Last().sweepAt) {
      SweepForgets(r, k);
    }
  }
}
