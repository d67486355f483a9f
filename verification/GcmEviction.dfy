/** Which counters an eviction sweep picks. */
module GcmEviction {
  import opened Wrappers
  import opened Text
  import opened GcmJournal
  import opened GcmProtocol
  import opened GcmRuns

  function LiveCounts(counters: Counters, walk: seq<Victim>): seq<nat> {
    if walk == [] then []
    else
      var fp := Last(walk).fp;
      LiveCounts(counters, Front(walk)) +
      if fp in counters && counters[fp].count < NONCE_LIMIT then [counters[fp].count] else []
  }

  function Below(counts: seq<nat>, t: nat): nat {
    if counts == [] then 0 else Below(Front(counts), t) + if Last(counts) < t then 1 else 0
  }

  /** The live keys with a count below `t`. */
  function LiveBelow(counters: Counters, t: nat): set<Block> {
    set fp | fp in counters && counters[fp].count < NONCE_LIMIT && counters[fp].count < t
  }

  /** A walk meets every entry once. */
  predicate Enumerates(walk: seq<Victim>, counters: Counters) {
    && (forall i :: 0 <= i < |walk| ==> walk[i].fp in counters)
    && (forall i, j :: 0 <= i < j < |walk| ==> walk[i].fp != walk[j].fp)
    && Names(walk, counters)
  }

  function Seen(walk: seq<Victim>, keys: set<Block>): set<Block> {
    set i | 0 <= i < |walk| && walk[i].fp in keys :: walk[i].fp
  }

  lemma SeenGrows(walk: seq<Victim>, keys: set<Block>)
    requires walk != []
    ensures var fp := Last(walk).fp; Seen(walk, keys) == Seen(Front(walk), keys) + if fp in keys then {fp} else {}
  {
    var front := Front(walk);
    forall fp | fp in Seen(walk, keys) ensures fp in Seen(front, keys) || fp == Last(walk).fp {
      var i :| 0 <= i < |walk| && walk[i].fp in keys && walk[i].fp == fp;
      assert i < |front| ==> front[i].fp == fp;
    }
    forall fp | fp in Seen(front, keys) ensures fp in Seen(walk, keys) {
      var i :| 0 <= i < |front| && front[i].fp in keys && front[i].fp == fp;
      assert walk[i].fp == fp;
    }
    assert walk[|walk| - 1] == Last(walk);
  }

  lemma {:induction false} BelowSeen(counters: Counters, walk: seq<Victim>, t: nat)
    requires forall i :: 0 <= i < |walk| ==> walk[i].fp in counters
    requires forall i, j :: 0 <= i < j < |walk| ==> walk[i].fp != walk[j].fp
    ensures Below(LiveCounts(counters, walk), t) == |Seen(walk, LiveBelow(counters, t))|
  {
    hide Below, Seen;
    var keys := LiveBelow(counters, t);
    if walk == [] {
      assert Below([], t) == 0 && Seen([], keys) == {} by { NothingSeen(keys, t); }
    } else {
      var front, fp := Front(walk), Last(walk).fp;
      assert forall i :: 0 <= i < |front| ==> front[i] == walk[i];
      BelowSeen(counters, front, t);
      SeenGrows(walk, keys);
      assert fp !in Seen(front, keys) by { NotSeen(walk, keys); }
      BelowOne(LiveCounts(counters, front), counters[fp].count, t);
      assert LiveCounts(counters, front) + [] == LiveCounts(counters, front);
    }
  }

  lemma NothingSeen(keys: set<Block>, t: nat)
    ensures Below([], t) == 0 && Seen([], keys) == {}
  {
  }

  lemma NotSeen(walk: seq<Victim>, keys: set<Block>)
    requires walk != [] && forall i, j :: 0 <= i < j < |walk| ==> walk[i].fp != walk[j].fp
    ensures Last(walk).fp !in Seen(Front(walk), keys)
  {
    forall i | 0 <= i < |Front(walk)| ensures Front(walk)[i].fp != Last(walk).fp {
      assert walk[i].fp != walk[|walk| - 1].fp;
    }
  }

  lemma BelowOne(counts: seq<nat>, x: nat, t: nat)
    ensures Below(counts + [x], t) == Below(counts, t) + if x < t then 1 else 0
  {
    assert Front(counts + [x]) == counts;
  }

  /** The snapshot holds the counts of the live entries, each once. */
  lemma SnapshotCounts(counters: Counters, walk: seq<Victim>, t: nat)
    requires Enumerates(walk, counters)
    ensures Below(LiveCounts(counters, walk), t) == |LiveBelow(counters, t)|
    ensures |LiveCounts(counters, walk)| == |LiveBelow(counters, NONCE_LIMIT)|
  {
    hide LiveCounts, Below;
    BelowSeen(counters, walk, t);
    BelowSeen(counters, walk, NONCE_LIMIT);
    SeesAll(counters, walk, t);
    SeesAll(counters, walk, NONCE_LIMIT);
    AllBelow(counters, walk);
  }

  lemma SeesAll(counters: Counters, walk: seq<Victim>, t: nat)
    requires Enumerates(walk, counters)
    ensures Seen(walk, LiveBelow(counters, t)) == LiveBelow(counters, t)
  {
    forall fp | fp in LiveBelow(counters, t) ensures fp in Seen(walk, LiveBelow(counters, t)) {
      var i :| 0 <= i < |walk| && walk[i].fp == fp;
    }
  }

  lemma {:induction false} AllBelow(counters: Counters, walk: seq<Victim>)
    ensures Below(LiveCounts(counters, walk), NONCE_LIMIT) == |LiveCounts(counters, walk)|
  {
    if walk != [] {
      AllBelow(counters, Front(walk));
      var fp, c := Last(walk).fp, LiveCounts(counters, Front(walk));
      if fp in counters {
        BelowOne(c, counters[fp].count, NONCE_LIMIT);
      }
      assert c + [] == c;
    }
  }

  lemma TakeOut(a: multiset<nat>, from: multiset<nat>, other: multiset<nat>, x: nat)
    requires a + multiset{x} == from + other && x in from
    ensures a == (from - multiset{x}) + other
  {
    forall y: nat ensures a[y] == ((from - multiset{x}) + other)[y] {
      assert (a + multiset{x})[y] == (from + other)[y];
    }
  }

  lemma TakeLast(counts: seq<nat>, low: multiset<nat>, rest: multiset<nat>)
    requires counts != [] && multiset(counts) == low + rest
    ensures var x, front := Last(counts), Front(counts);
            if x in low then multiset(front) == (low - multiset{x}) + rest && |low - multiset{x}| == |low| - 1
            else x in rest && multiset(front) == low + (rest - multiset{x})
  {
    var x, front := Last(counts), Front(counts);
    assert counts == front + [x];
    assert multiset(counts) == multiset(front) + multiset{x};
    assert x in low + rest;
    if x in low {
      TakeOut(multiset(front), low, rest, x);
    } else {
      TakeOut(multiset(front), rest, low, x);
    }
  }

  lemma {:induction false} BelowAtMost(counts: seq<nat>, t: nat, low: multiset<nat>, rest: multiset<nat>)
    requires multiset(counts) == low + rest && forall y :: y in rest ==> t <= y
    ensures Below(counts, t) <= |low|
  {
    if counts != [] {
      TakeLast(counts, low, rest);
      var x := Last(counts);
      if x in low {
        BelowAtMost(Front(counts), t, low - multiset{x}, rest);
      } else {
        assert forall y :: y in rest - multiset{x} ==> y in rest;
        BelowAtMost(Front(counts), t, low, rest - multiset{x});
      }
    }
  }

  /** At most the maximum many live entries are below the threshold, so a sweep that happens
      because more than the maximum are live drops at most that many. */
  lemma SweepBound(counters: Counters, walk: seq<Victim>, maxEntries: nat, threshold: nat)
    requires Enumerates(walk, counters) && IsNth(LiveCounts(counters, walk), maxEntries, threshold)
    ensures |LiveBelow(counters, threshold)| <= maxEntries < |LiveBelow(counters, NONCE_LIMIT)|
  {
    hide LiveCounts, Below, LiveBelow, Enumerates;
    var counts := LiveCounts(counters, walk);
    var low, high :| SplitsAt(counts, threshold, low, high) && |low| == maxEntries;
    assert multiset(counts) == low + (multiset{threshold} + high);
    BelowAtMost(counts, threshold, low, multiset{threshold} + high);
    SnapshotCounts(counters, walk, threshold);
    assert |multiset(counts)| == |counts|;
  }

  ghost predicate SplitsAt(counts: seq<nat>, t: nat, low: multiset<nat>, high: multiset<nat>) {
    && multiset(counts) == low + multiset{t} + high
    && (forall x :: x in low ==> x <= t) && (forall x :: x in high ==> t <= x)
  }

  /** `select_nth_unstable`: `n` of the others are at most `t`, the rest are at least `t`. */
  ghost predicate IsNth(counts: seq<nat>, n: nat, t: nat) {
    exists low, high :: SplitsAt(counts, t, low, high) && |low| == n
  }

  method MinIndex(s: seq<nat>) returns (k: nat)
    requires s != []
    ensures k < |s| && forall j :: 0 <= j < |s| ==> s[k] <= s[j]
  {
    k := 0;
    for i := 1 to |s|
      invariant k < |s| && forall j :: 0 <= j < i ==> s[k] <= s[j]
    {
      if s[i] < s[k] {
        k := i;
      }
    }
  }

  lemma RemoveAt(s: seq<nat>, k: nat)
    requires k < |s|
    ensures multiset(s) == multiset{s[k]} + multiset(s[..k] + s[k + 1..])
  {
    assert s == s[..k] + ([s[k]] + s[k + 1..]);
  }

  /** The `i` smallest have been taken out. */
  ghost predicate Taken(counts: multiset<nat>, low: multiset<nat>, rest: multiset<nat>, i: nat) {
    counts == low + rest && |low| == i && forall x, y :: x in low && y in rest ==> x <= y
  }

  lemma TakeMin(counts: multiset<nat>, low: multiset<nat>, rest: multiset<nat>, i: nat, t: nat, left: multiset<nat>)
    requires Taken(counts, low, rest, i) && rest == multiset{t} + left && forall y :: y in rest ==> t <= y
    ensures Taken(counts, low + multiset{t}, left, i + 1)
    ensures (forall x :: x in low ==> x <= t) && (forall y :: y in left ==> t <= y)
  {
    assert t in rest;
    assert forall y :: y in left ==> y in rest;
  }

  method SelectNth(counts: seq<nat>, n: nat) returns (t: nat)
    requires n < |counts|
    ensures IsNth(counts, n, t)
  {
    hide Taken;
    var rest := counts;
    ghost var low: multiset<nat> := multiset{};
    assert Taken(multiset(counts), low, multiset(rest), 0) by { NothingTaken(multiset(counts)); }
    for i := 0 to n
      invariant Taken(multiset(counts), low, multiset(rest), i) && |rest| == |counts| - i
    {
      var k := MinIndex(rest);
      RemoveAt(rest, k);
      TakeMin(multiset(counts), low, multiset(rest), i, rest[k], multiset(rest[..k] + rest[k + 1..]));
      low := low + multiset{rest[k]};
      rest := rest[..k] + rest[k + 1..];
    }
    var k := MinIndex(rest);
    RemoveAt(rest, k);
    t := rest[k];
    ghost var high := multiset(rest[..k] + rest[k + 1..]);
    TakeMin(multiset(counts), low, multiset(rest), n, t, high);
    TakenSplits(counts, low, t, high, multiset(rest), n);
  }

  lemma NothingTaken(counts: multiset<nat>)
    ensures Taken(counts, multiset{}, counts, 0)
  {
  }

  lemma TakenSplits(counts: seq<nat>, low: multiset<nat>, t: nat, high: multiset<nat>, rest: multiset<nat>, n: nat)
    requires Taken(multiset(counts), low, rest, n) && rest == multiset{t} + high
    requires (forall x :: x in low ==> x <= t) && (forall y :: y in high ==> t <= y)
    ensures IsNth(counts, n, t)
  {
    assert SplitsAt(counts, t, low, high);
  }
}
