/** How often the journal is written: the protocol over a journal that counts the records
    written for one key. */
module GcmWrites {
  import opened Wrappers
  import opened Text
  import opened GcmJournal
  import opened GcmProtocol
  import opened GcmRuns
  import opened GcmLedger
  import opened GcmRefinement

  /** What a load would build, and the number of records written for the key. */
  datatype Tallied = Tallied(known: Known, writes: nat)

  function Tally(fp: Block): Writer<Tallied> {
    (d: Tallied, k: Block, kind: RecordKind) => Tallied(Apply(d.known, k, kind), if k == fp then d.writes + 1 else d.writes)
  }

  function Counting(fp: Block): Machine<Tallied> {
    Machine(Tally(fp), (d: Tallied, tail) => Some(Store(d, d.known, false)))
  }

  function Content(d: Tallied): Known {
    d.known
  }

  function Any(d: Tallied): bool {
    true
  }

  lemma CountingFaithful(fp: Block)
    ensures Faithful(Counting(fp), Content, Any)
  {
    hide Apply;
  }

  /** This step writes a POISONED record of `fp`. */
  predicate Poisons(s: Abstract, step: Step, fp: Block) {
    step.ReserveStep? && step.fp == fp && Floor(s, fp) >= NONCE_LIMIT && !EntryOf(s.store.known, fp).poisoned
  }

  function Poisonings(s: Abstract, steps: seq<Step>, fp: Block): nat
    decreases |steps|
  {
    if steps == [] then 0
    else (if Poisons(s, steps[0], fp) then 1 else 0) + Poisonings(Do(s, steps[0]).0, steps[1..], fp)
  }

  /** Some reservation of `fp` in this run releases nothing. */
  predicate Refused(s: Abstract, steps: seq<Step>, fp: Block)
    decreases |steps|
  {
    steps != [] &&
    ((steps[0].ReserveStep? && steps[0].fp == fp && Do(s, steps[0]).1 == []) || Refused(Do(s, steps[0]).0, steps[1..], fp))
  }

  lemma ReserveWrites(s: Node<Tallied>, k: Block, advance: WriteOutcome, poison: WriteOutcome, fp: Block)
    requires KeyInv(Abs(Content, s), k) && !s.store.integrityFailed && advance.Written? && poison.Written?
    ensures var a, step := Abs(Content, s), ReserveStep(k, advance, poison);
            Reserve(Tally(fp), s, k, advance, poison).0.store.disk.writes ==
            s.store.disk.writes + (if Extends(a, step, fp) then 1 else 0) + (if Poisons(a, step, fp) then 1 else 0)
  {
    hide Apply;
  }

  /** Each step writes a record for `fp` exactly when it extends its ceiling or poisons it. */
  lemma StepWrites(s: Node<Tallied>, step: Step, fp: Block)
    requires Inv(Abs(Content, s)) && Reliable(step)
    ensures var a := Abs(Content, s);
            DoOn(Counting(fp), s, step).0.store.disk.writes ==
            s.store.disk.writes + (if Extends(a, step, fp) then 1 else 0) + (if Poisons(a, step, fp) then 1 else 0)
  {
    var a := Abs(Content, s);
    match step
    case ReserveStep(k, advance, poison) =>
      assert KeyInv(a, k);
      ReserveWrites(s, k, advance, poison, fp);
    case EvictStep(threshold, victims) =>
      InvCovered(a);
      EvictQuiet(Tally(fp), s.(counters := DropExhausted(s.counters)), threshold, victims);
    case ResetStep(_) =>
    case RestartStep(_) =>
  }

  lemma {:induction false} RunWrites(s: Node<Tallied>, steps: seq<Step>, fp: Block)
    requires Inv(Abs(Content, s)) && AllReliable(steps)
    ensures IsRun(Counting(fp), s, steps)
    ensures var a := Abs(Content, s);
            FinalOn(Counting(fp), s, steps).store.disk.writes ==
            s.store.disk.writes + Extensions(a, steps, fp) + Poisonings(a, steps, fp)
    decreases |steps|
  {
    hide Inv, Do, Extends, Poisons;
    if steps != [] {
      var a, m := Abs(Content, s), Counting(fp);
      assert Reliable(steps[0]) && AllReliable(steps[1..]);
      var s1 := DoOn(m, s, steps[0]).0;
      CountingFaithful(fp);
      StepRefines(m, Content, Any, s, steps[0]);
      StepSafe(a, steps[0]);
      StepWrites(s, steps[0], fp);
      RunWrites(s1, steps[1..], fp);
    }
  }

  // ----- at most one POISONED record ----------------------------------------------------------

  lemma PoisonedStays(s: Abstract, step: Step, fp: Block)
    requires Inv(s) && Synced(s) && Reliable(step)
    requires EntryOf(s.store.known, fp).poisoned || Poisons(s, step, fp)
    ensures EntryOf(Do(s, step).0.store.known, fp).poisoned
    ensures Poisons(s, step, fp) ==> Do(s, step).1 == []
  {
    assert KeyInv(s, fp) && KeySynced(s, fp);
    match step
    case ReserveStep(k, advance, poison) =>
      if k != fp {
        ReserveOther(s, k, advance, poison, fp);
      }
    case EvictStep(threshold, victims) =>
      ForgetSafe(s, DropExhausted(s.counters));
      EvictKeeps(s.(counters := DropExhausted(s.counters)), threshold, victims, fp);
    case ResetStep(_) =>
    case RestartStep(_) =>
  }

  lemma {:induction false} PoisonedOnce(s: Abstract, steps: seq<Step>, fp: Block)
    requires Inv(s) && Synced(s) && AllReliable(steps)
    ensures Poisonings(s, steps, fp) <= if EntryOf(s.store.known, fp).poisoned then 0 else 1
    ensures Poisonings(s, steps, fp) > 0 ==> Refused(s, steps, fp) && Floor(Final(s, steps), fp) >= NONCE_LIMIT
    decreases |steps|
  {
    hide Inv, Synced, Do, Reliable;
    if steps != [] {
      assert Reliable(steps[0]) && AllReliable(steps[1..]);
      StepSafe(s, steps[0]);
      StepSynced(s, steps[0]);
      if EntryOf(s.store.known, fp).poisoned || Poisons(s, steps[0], fp) {
        PoisonedStays(s, steps[0], fp);
      }
      var s1 := Do(s, steps[0]).0;
      PoisonedOnce(s1, steps[1..], fp);
      if Poisons(s, steps[0], fp) {
        RunSafe(s1, steps[1..]);
        assert Floor(s, fp) <= Floor(s1, fp) <= Floor(Final(s1, steps[1..]), fp);
      }
    }
  }

  /** Between rehydrations, with working writes, r reservations of a key cause at most
      r / 1024 writes, plus one at first sight, one on reaching the limit, and one more when a
      reservation is refused there. */
  lemma WritesPerBatch(s: Node<Tallied>, steps: seq<Step>, fp: Block)
    requires Inv(Abs(Content, s)) && Synced(Abs(Content, s)) && AllReliable(steps)
    requires fp !in s.counters && NoRehydration(Abs(Content, s), steps, fp)
    ensures var m := Counting(fp);
            && IsRun(m, s, steps)
            && FinalOn(m, s, steps).store.disk.writes - s.store.disk.writes <=
               CountFor(ReleasedOn(m, s, steps), fp) / BATCH_THRESHOLD + 1 +
               if Floor(Abs(Content, FinalOn(m, s, steps)), fp) < NONCE_LIMIT then 0
               else if Refused(Abs(Content, s), steps, fp) then 2 else 1
  {
    hide Inv, Synced, NoRehydration, AllReliable, Refused, IsRun, FinalOn, ReleasedOn, Released, Final, Extensions, Poisonings;
    var a := Abs(Content, s);
    CountingFaithful(fp);
    RunWrites(s, steps, fp);
    RunRefines(Counting(fp), Content, Any, s, steps);
    PoisonedOnce(a, steps, fp);
    ExtensionsPerBatch(a, steps, fp);
  }

  lemma ExtensionsPerBatch(s: Abstract, steps: seq<Step>, fp: Block)
    requires Inv(s) && Synced(s) && AllReliable(steps) && fp !in s.counters && NoRehydration(s, steps, fp)
    ensures Extensions(s, steps, fp) <=
            CountFor(Released(s, steps), fp) / BATCH_THRESHOLD + 1 + if Floor(Final(s, steps), fp) >= NONCE_LIMIT then 1 else 0
  {
    assert KeyInv(s, fp);
    ExtensionBudget(s, steps, fp);
    RunSafe(s, steps);
    assert KeyInv(Final(s, steps), fp);
  }

  // ----- the bound is met ---------------------------------------------------------------------

  function NearLimit(fp: Block): Node<Tallied> {
    var known := map[fp := Entry(NONCE_LIMIT - 2, false)];
    Node(Store(Tallied(known, 0), known, false), map[])
  }

  function ThreeReservations(fp: Block): seq<Step> {
    [ReserveStep(fp, Written, Written), ReserveStep(fp, Written, Written), ReserveStep(fp, Written, Written)]
  }

  lemma NearLimitOk(fp: Block)
    ensures var a := Abs(Content, NearLimit(fp)); Inv(a) && Synced(a)
  {
    var a := Abs(Content, NearLimit(fp));
    forall k: Block ensures KeyInv(a, k) && KeySynced(a, k) {
    }
  }

  lemma {:induction false} ReservesOnly(s: Abstract, steps: seq<Step>, fp: Block)
    requires forall i :: 0 <= i < |steps| ==> steps[i].ReserveStep?
    ensures NoRehydration(s, steps, fp)
    decreases |steps|
  {
    if steps != [] {
      assert forall i :: 0 <= i < |steps[1..]| ==> steps[1..][i] == steps[i + 1];
      ReservesOnly(Do(s, steps[0]).0, steps[1..], fp);
    }
  }

  /** The bound is met, so it cannot do with one less: from ceiling 2^32 - 2 three reservations
      release two counts and write three records. */
  lemma ThreeWrites(fp: Block)
    ensures var m, s, steps := Counting(fp), NearLimit(fp), ThreeReservations(fp);
            && Inv(Abs(Content, s)) && Synced(Abs(Content, s)) && AllReliable(steps) && NoRehydration(Abs(Content, s), steps, fp)
            && IsRun(m, s, steps) && CountFor(ReleasedOn(m, s, steps), fp) == 2
            && FinalOn(m, s, steps).store.disk.writes == 3
  {
    hide Inv, Synced, NoRehydration;
    NearLimitOk(fp);
    ReservesOnly(Abs(Content, NearLimit(fp)), ThreeReservations(fp), fp);
    ThreeWritten(fp);
  }

  lemma ThreeWritten(fp: Block)
    ensures var m, s, steps := Counting(fp), NearLimit(fp), ThreeReservations(fp);
            && IsRun(m, s, steps) && CountFor(ReleasedOn(m, s, steps), fp) == 2
            && FinalOn(m, s, steps).store.disk.writes == 3
  {
    var m, s0, steps := Counting(fp), NearLimit(fp), ThreeReservations(fp);
    var s1 := DoOn(m, s0, steps[0]).0;
    var s2 := DoOn(m, s1, steps[1]).0;
    var s3 := DoOn(m, s2, steps[2]).0;
    assert steps[1..][0] == steps[1] && steps[1..][1..][0] == steps[2] && steps[1..][1..][1..] == [];
    assert IsRun(m, s3, []) && ReleasedOn(m, s3, []) == [] && FinalOn(m, s3, []) == s3;
    var rel := [Release(fp, NONCE_LIMIT - 1), Release(fp, NONCE_LIMIT)];
    assert ReleasedOn(m, s2, steps[1..][1..]) == [] && FinalOn(m, s2, steps[1..][1..]) == s3;
    assert ReleasedOn(m, s1, steps[1..]) == [rel[1]] && FinalOn(m, s1, steps[1..]) == s3;
    assert ReleasedOn(m, s0, steps) == rel;
    assert rel[1..][1..] == [] && CountFor(rel[1..][1..], fp) == 0 && CountFor(rel[1..], fp) == 1;
  }
}
