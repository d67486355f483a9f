/** What the journal promises beyond safety: it stays strictly above every released
    count, and, when no write fails, it agrees with the live process, wastes at most
    one batch per rehydration and is written about once per batch. */
module GcmLedger {
  import opened Wrappers
  import opened Text
  import opened GcmJournal
  import opened GcmProtocol
  import opened GcmRuns

  // ----- the write-ahead promise ----------------------------------------------------------

  /** A load would resume strictly above `n`, or refuse the key. */
  predicate Covers(s: Abstract, fp: Block, n: nat) {
    var d := EntryOf(s.store.disk, fp);
    d.poisoned || d.persisted > n
  }

  lemma ReserveCovers(s: Abstract, fp: Block, advance: WriteOutcome, poison: WriteOutcome, k: Block, n: nat)
    requires Inv(s)
    requires Covers(s, k, n) || (Reserve(Apply, s, fp, advance, poison).1 == Some(n) && k == fp)
    ensures Covers(Reserve(Apply, s, fp, advance, poison).0, k, n)
  {
    assert KeyInv(s, fp);
    if k != fp {
      ReserveOther(s, fp, advance, poison, k);
    }
  }

  lemma StepCovers(s: Abstract, step: Step, k: Block, n: nat)
    requires Inv(s)
    requires Covers(s, k, n) || Do(s, step).1 == [Release(k, n)]
    ensures Covers(Do(s, step).0, k, n)
  {
    match step
    case ReserveStep(fp, advance, poison) =>
      ReserveCovers(s, fp, advance, poison, k, n);
    case EvictStep(threshold, victims) =>
      ForgetSafe(s, DropExhausted(s.counters));
      EvictEachSafe(s.(counters := DropExhausted(s.counters)), threshold, victims);
    case ResetStep(_) =>
    case RestartStep(_) =>
  }

  lemma {:induction false} CoveredStays(s: Abstract, steps: seq<Step>, k: Block, n: nat)
    requires Inv(s) && Covers(s, k, n)
    ensures Covers(Final(s, steps), k, n)
    decreases |steps|
  {
    if steps != [] {
      StepSafe(s, steps[0]);
      StepCovers(s, steps[0], k, n);
      CoveredStays(Do(s, steps[0]).0, steps[1..], k, n);
    }
  }

  /** After any run, whatever failed or crashed, the journal is strictly above every
      count released in it. */
  lemma {:induction false} JournalAboveReleases(s: Abstract, steps: seq<Step>, i: nat)
    requires Inv(s) && i < |Released(s, steps)|
    ensures Covers(Final(s, steps), Released(s, steps)[i].fp, Released(s, steps)[i].count)
    decreases |steps|
  {
    var (s1, first) := Do(s, steps[0]);
    StepSafe(s, steps[0]);
    if i < |first| {
      assert first == [Release(first[0].fp, first[0].count)];
      StepCovers(s, steps[0], first[0].fp, first[0].count);
      CoveredStays(s1, steps[1..], first[0].fp, first[0].count);
    } else {
      JournalAboveReleases(s1, steps[1..], i - |first|);
    }
  }

  // ----- runs without write failures --------------------------------------------------------

  predicate Reliable(step: Step) {
    match step
    case ReserveStep(_, advance, poison) => advance.Written? && poison.Written?
    case EvictStep(_, victims) => forall i :: 0 <= i < |victims| ==> victims[i].flush.Written? && victims[i].poison.Written?
    case _ => true
  }

  predicate AllReliable(steps: seq<Step>) {
    forall i :: 0 <= i < |steps| ==> Reliable(steps[i])
  }

  /** The answer a load would give for what the live handle knows. */
  function AsLoaded(e: Entry): Entry {
    e.(poisoned := e.poisoned || e.persisted >= NONCE_LIMIT)
  }

  predicate KeySynced(s: Abstract, fp: Block) {
    && EntryOf(s.store.disk, fp) == AsLoaded(EntryOf(s.store.known, fp))
    && (fp in s.counters ==> EntryOf(s.store.known, fp).persisted <= s.counters[fp].count + BATCH_THRESHOLD)
  }

  ghost predicate Synced(s: Abstract) {
    forall fp: Block :: KeySynced(s, fp)
  }

  lemma ReserveSynced(s: Abstract, fp: Block, advance: WriteOutcome, poison: WriteOutcome)
    requires Inv(s) && Synced(s) && advance.Written? && poison.Written?
    ensures Synced(Reserve(Apply, s, fp, advance, poison).0)
  {
    var s' := Reserve(Apply, s, fp, advance, poison).0;
    assert KeyInv(s, fp) && KeySynced(s, fp);
    forall k: Block
      ensures KeySynced(s', k)
    {
      assert KeySynced(s, k);
      if k != fp {
        ReserveOther(s, fp, advance, poison, k);
      }
    }
  }

  lemma ForgetSynced(s: Abstract, counters: Counters)
    requires Synced(s) && forall fp :: fp in counters ==> fp in s.counters && counters[fp] == s.counters[fp]
    ensures Synced(s.(counters := counters))
  {
    forall k: Block
      ensures KeySynced(s.(counters := counters), k)
    {
      assert KeySynced(s, k);
    }
  }

  lemma {:induction false} EvictSynced(s: Abstract, threshold: nat, victims: seq<Victim>)
    requires Inv(s) && Synced(s)
    ensures Synced(EvictEach(Apply, s, threshold, victims))
    decreases |victims|
  {
    if victims != [] {
      var v := victims[0];
      var s1 := if v.fp in s.counters && s.counters[v.fp].count < threshold then EvictOne(Apply, s, v) else s;
      if v.fp in s.counters && s.counters[v.fp].count < threshold {
        EvictOneSafe(s, v);
        assert KeyInv(s, v.fp);
        forall k: Block
          ensures KeySynced(s1, k)
        {
          assert KeySynced(s, k);
          assert EntryOf(s1.store.known, k) == EntryOf(s.store.known, k);
        }
      }
      EvictSynced(s1, threshold, victims[1..]);
    }
  }

  /** A restart on a synced journal changes no answer but the poison flag at 2^32. */
  lemma RestartSynced(s: Abstract)
    requires Synced(s)
    ensures Synced(Restart(s))
    ensures forall fp: Block :: EntryOf(Restart(s).store.known, fp) == AsLoaded(EntryOf(s.store.known, fp))
  {
    forall k: Block
      ensures KeySynced(Restart(s), k) && EntryOf(Restart(s).store.known, k) == AsLoaded(EntryOf(s.store.known, k))
    {
      assert KeySynced(s, k);
    }
  }

  lemma StepSynced(s: Abstract, step: Step)
    requires Inv(s) && Synced(s) && Reliable(step)
    ensures Synced(Do(s, step).0)
  {
    match step
    case ReserveStep(fp, advance, poison) =>
      ReserveSynced(s, fp, advance, poison);
    case EvictStep(threshold, victims) =>
      var c := DropExhausted(s.counters);
      ForgetSafe(s, c);
      ForgetSynced(s, c);
      EvictSynced(s.(counters := c), threshold, victims);
    case ResetStep(fp) =>
      ForgetSynced(s, Reset(s, fp).counters);
    case RestartStep(_) =>
      RestartSynced(s);
  }

  /** When no write fails, every moment of every run finds the journal in agreement
      with the live handle, and no counter more than a batch below its ceiling. */
  lemma {:induction false} RunSynced(s: Abstract, steps: seq<Step>)
    requires Inv(s) && Synced(s) && AllReliable(steps)
    ensures Synced(Final(s, steps)) && Inv(Final(s, steps))
    decreases |steps|
  {
    if steps != [] {
      assert Reliable(steps[0]) && AllReliable(steps[1..]);
      StepSafe(s, steps[0]);
      StepSynced(s, steps[0]);
      RunSynced(Do(s, steps[0]).0, steps[1..]);
    }
  }

  // ----- how often the journal is written ---------------------------------------------------

  /** This step extends the ceiling of `fp`. */
  predicate Extends(s: Abstract, step: Step, fp: Block) {
    && step.ReserveStep? && step.fp == fp
    && Floor(s, fp) < NONCE_LIMIT && MustExtend(EntryOf(s.store.known, fp), Floor(s, fp) + 1)
  }

  function Extensions(s: Abstract, steps: seq<Step>, fp: Block): nat
    decreases |steps|
  {
    if steps == [] then 0
    else (if Extends(s, steps[0], fp) then 1 else 0) + Extensions(Do(s, steps[0]).0, steps[1..], fp)
  }

  /** The counter of `fp`, once in memory, stays there. */
  predicate NoRehydration(s: Abstract, steps: seq<Step>, fp: Block)
    decreases |steps|
  {
    steps != [] ==>
      var s1 := Do(s, steps[0]).0;
      (fp in s.counters ==> fp in s1.counters) && NoRehydration(s1, steps[1..], fp)
  }

  /** The extensions that can still come, from floor `c` and ceiling `p` up to floor `c'`. */
  predicate WithinBudget(a: nat, c: nat, p: nat, c': nat) {
    if p >= NONCE_LIMIT then a <= if c < NONCE_LIMIT && c' == NONCE_LIMIT then 1 else 0
    else BATCH_THRESHOLD * a <= c' - p + BATCH_THRESHOLD + if c' == NONCE_LIMIT then BATCH_THRESHOLD else 0
  }

  lemma BudgetStep(a: nat, c: nat, p: nat, p1: nat, c': nat)
    requires c < NONCE_LIMIT && c <= p <= NONCE_LIMIT && c + 1 <= c' <= NONCE_LIMIT
    requires p1 == if p == 0 || c + 1 >= p then Min(c + 1 + BATCH_THRESHOLD, NONCE_LIMIT) else p
    requires WithinBudget(a, c + 1, p1, c')
    ensures WithinBudget(if p == 0 || c + 1 >= p then a + 1 else a, c, p, c')
  {
  }

  lemma ReserveCeiling(s: Abstract, fp: Block, advance: WriteOutcome, poison: WriteOutcome)
    requires Inv(s) && KeySynced(s, fp) && advance.Written? && poison.Written?
    ensures var s1 := Reserve(Apply, s, fp, advance, poison).0;
            var c, p, p1 := Floor(s, fp), EntryOf(s.store.known, fp).persisted, EntryOf(s1.store.known, fp).persisted;
            && (c < NONCE_LIMIT ==> Floor(s1, fp) == c + 1)
            && (c >= NONCE_LIMIT ==> Floor(s1, fp) == c)
            && (c < NONCE_LIMIT ==> p1 == if p == 0 || c + 1 >= p then Min(c + 1 + BATCH_THRESHOLD, NONCE_LIMIT) else p)
            && (c >= NONCE_LIMIT ==> p >= NONCE_LIMIT && p1 >= NONCE_LIMIT)
  {
    assert KeyInv(s, fp);
  }

  /** Steps that neither reserve for `fp` nor drop its counter leave its numbers alone. */
  lemma {:induction false} EvictKeeps(s: Abstract, threshold: nat, victims: seq<Victim>, fp: Block)
    requires Inv(s)
    ensures var s1 := EvictEach(Apply, s, threshold, victims);
            && EntryOf(s1.store.known, fp) == EntryOf(s.store.known, fp)
            && (fp in s1.counters ==> fp in s.counters && s1.counters[fp] == s.counters[fp])
    decreases |victims|
  {
    if victims != [] {
      var v := victims[0];
      var s1 := if v.fp in s.counters && s.counters[v.fp].count < threshold then EvictOne(Apply, s, v) else s;
      if v.fp in s.counters && s.counters[v.fp].count < threshold {
        EvictOneSafe(s, v);
        assert KeyInv(s, v.fp);
      }
      EvictKeeps(s1, threshold, victims[1..], fp);
    }
  }

  /** A rehydration after such a run, by a restart, a reset or an eviction, skips at most
      1024 counts. */
  lemma RehydrationSkip(s: Abstract, steps: seq<Step>, fp: Block, step: Step)
    requires Inv(s) && Synced(s) && AllReliable(steps) && fp in Final(s, steps).counters && !step.ReserveStep?
    ensures Floor(Do(Final(s, steps), step).0, fp) <= Final(s, steps).counters[fp].count + BATCH_THRESHOLD
  {
    RunSynced(s, steps);
    var t := Final(s, steps);
    assert KeyInv(t, fp) && KeySynced(t, fp);
    if step.EvictStep? {
      ForgetSafe(t, DropExhausted(t.counters));
      EvictKeeps(t.(counters := DropExhausted(t.counters)), step.threshold, step.victims, fp);
    }
  }

  lemma OtherStep(s: Abstract, step: Step, fp: Block)
    requires Inv(s) && Synced(s) && Reliable(step) && !(step.ReserveStep? && step.fp == fp)
    requires fp in s.counters ==> fp in Do(s, step).0.counters
    ensures var s1 := Do(s, step).0;
            && Floor(s1, fp) == Floor(s, fp)
            && EntryOf(s1.store.known, fp).persisted == EntryOf(s.store.known, fp).persisted
            && CountFor(Do(s, step).1, fp) == 0
  {
    assert KeyInv(s, fp) && KeySynced(s, fp);
    match step
    case ReserveStep(other, advance, poison) =>
      ReserveOther(s, other, advance, poison, fp);
    case EvictStep(threshold, victims) =>
      ForgetSafe(s, DropExhausted(s.counters));
      EvictKeeps(s.(counters := DropExhausted(s.counters)), threshold, victims, fp);
    case ResetStep(_) =>
    case RestartStep(_) =>
  }

  lemma OwnStep(s: Abstract, step: Step, fp: Block)
    requires Inv(s) && KeySynced(s, fp) && Reliable(step) && step.ReserveStep? && step.fp == fp
    ensures var (s1, rel) := Do(s, step);
            CountFor(rel, fp) == Floor(s1, fp) - Floor(s, fp) == if Floor(s, fp) < NONCE_LIMIT then 1 else 0
  {
    assert KeyInv(s, fp);
    ReserveSucceeds(s, fp, step.advance, step.poison);
    ReserveCeiling(s, fp, step.advance, step.poison);
    var rel := Do(s, step).1;
    assert rel != [] ==> rel == [rel[0]] && rel[1..] == [];
  }

  lemma OwnBudget(s: Abstract, step: Step, fp: Block, a: nat, c': nat)
    requires Inv(s) && KeySynced(s, fp) && Reliable(step) && step.ReserveStep? && step.fp == fp
    requires Floor(Do(s, step).0, fp) <= c' <= NONCE_LIMIT
    requires WithinBudget(a, Floor(Do(s, step).0, fp), EntryOf(Do(s, step).0.store.known, fp).persisted, c')
    ensures WithinBudget(if Extends(s, step, fp) then a + 1 else a, Floor(s, fp), EntryOf(s.store.known, fp).persisted, c')
  {
    assert KeyInv(s, fp);
    var s1 := Reserve(Apply, s, fp, step.advance, step.poison).0;
    ReserveCeiling(s, fp, step.advance, step.poison);
    if Floor(s, fp) < NONCE_LIMIT {
      BudgetStep(a, Floor(s, fp), EntryOf(s.store.known, fp).persisted, EntryOf(s1.store.known, fp).persisted, c');
    }
  }

  lemma {:induction false} ExtensionBudget(s: Abstract, steps: seq<Step>, fp: Block)
    requires Inv(s) && Synced(s) && AllReliable(steps) && NoRehydration(s, steps, fp)
    ensures Floor(Final(s, steps), fp) == Floor(s, fp) + CountFor(Released(s, steps), fp)
    ensures WithinBudget(Extensions(s, steps, fp), Floor(s, fp), EntryOf(s.store.known, fp).persisted,
                         Floor(Final(s, steps), fp))
    decreases |steps|
  {
    assert KeyInv(s, fp) && KeySynced(s, fp);
    if steps != [] {
      var step := steps[0];
      var (s1, first) := Do(s, step);
      assert Reliable(step) && AllReliable(steps[1..]);
      StepSafe(s, step);
      StepSynced(s, step);
      CountForConcat(first, Released(s1, steps[1..]), fp);
      ExtensionBudget(s1, steps[1..], fp);
      RunSafe(s1, steps[1..]);
      var c' := Floor(Final(s1, steps[1..]), fp);
      assert Floor(s1, fp) <= c' && KeyInv(Final(s1, steps[1..]), fp);
      if step.ReserveStep? && step.fp == fp {
        OwnStep(s, step, fp);
        OwnBudget(s, step, fp, Extensions(s1, steps[1..], fp), c');
      } else {
        OtherStep(s, step, fp);
      }
    }
  }
}
