/** Runs of the protocol over any representation of the journal, and their simulation
    by runs over maps. */
module GcmRefinement {
  import opened Wrappers
  import opened Text
  import opened GcmJournal
  import opened GcmProtocol
  import opened GcmRuns

  /** How a journal is written, and what reopening it yields when bytes were left
      behind it; `None` if no process comes up. */
  datatype Machine<!D> = Machine(write: Writer<D>, reopen: (D, bytes) -> Option<Store<D>>)

  predicate Enabled<D>(m: Machine<D>, s: Node<D>, step: Step) {
    step.RestartStep? ==> m.reopen(s.store.disk, step.tail).Some?
  }

  function DoOn<D>(m: Machine<D>, s: Node<D>, step: Step): (Node<D>, seq<Release>)
    requires Enabled(m, s, step)
  {
    match step
    case ReserveStep(fp, advance, poison) =>
      var (s', r) := Reserve(m.write, s, fp, advance, poison);
      (s', if r.Some? then [Release(fp, r.value)] else [])
    case EvictStep(threshold, victims) => (Evict(m.write, s, threshold, victims), [])
    case ResetStep(fp) => (Reset(s, fp), [])
    case RestartStep(tail) => (Node(m.reopen(s.store.disk, tail).value, map[]), [])
  }

  predicate IsRun<D>(m: Machine<D>, s: Node<D>, steps: seq<Step>)
    decreases |steps|
  {
    steps != [] ==> Enabled(m, s, steps[0]) && IsRun(m, DoOn(m, s, steps[0]).0, steps[1..])
  }

  function FinalOn<D>(m: Machine<D>, s: Node<D>, steps: seq<Step>): Node<D>
    requires IsRun(m, s, steps)
    decreases |steps|
  {
    if steps == [] then s else FinalOn(m, DoOn(m, s, steps[0]).0, steps[1..])
  }

  function ReleasedOn<D>(m: Machine<D>, s: Node<D>, steps: seq<Step>): seq<Release>
    requires IsRun(m, s, steps)
    decreases |steps|
  {
    if steps == [] then [] else DoOn(m, s, steps[0]).1 + ReleasedOn(m, DoOn(m, s, steps[0]).0, steps[1..])
  }

  // ----- simulation -----------------------------------------------------------------------

  /** `read` turns good journals into maps so that writing is `Apply` and reopening
      gives back what is written. */
  ghost predicate Faithful<D(!new)>(m: Machine<D>, read: D -> Known, good: D -> bool) {
    && (forall d: D, fp: Block, kind: RecordKind ::
          good(d) && (kind.Count? ==> kind.n < U64_LIMIT) ==>
            good(m.write(d, fp, kind)) && read(m.write(d, fp, kind)) == Apply(read(d), fp, kind))
    && (forall d: D, tail: bytes ::
          good(d) && m.reopen(d, tail).Some? ==> m.reopen(d, tail).value == Store(d, read(d), false))
  }

  function AbsStore<D>(read: D -> Known, s: Store<D>): Store<Known> {
    Store(read(s.disk), s.known, s.integrityFailed)
  }

  function Abs<D>(read: D -> Known, s: Node<D>): Abstract {
    Node(AbsStore(read, s.store), s.counters)
  }

  lemma ReserveRefines<D(!new)>(m: Machine<D>, read: D -> Known, good: D -> bool, s: Node<D>,
                                fp: Block, advance: WriteOutcome, poison: WriteOutcome)
    requires Faithful(m, read, good) && good(s.store.disk)
    ensures var (s', r) := Reserve(m.write, s, fp, advance, poison);
            good(s'.store.disk) && (Abs(read, s'), r) == Reserve(Apply, Abs(read, s), fp, advance, poison)
  {
    hide EntryOf, Apply;
  }

  lemma FlushRefines<D(!new)>(m: Machine<D>, read: D -> Known, good: D -> bool, s: Store<D>,
                              fp: Block, n: nat, o: WriteOutcome)
    requires Faithful(m, read, good) && good(s.disk) && n < U64_LIMIT
    ensures var (s', ok) := FlushFingerprint(m.write, s, fp, n, o);
            good(s'.disk) && (AbsStore(read, s'), ok) == FlushFingerprint(Apply, AbsStore(read, s), fp, n, o)
  {
    hide EntryOf, Apply;
  }

  lemma PoisonRefines<D(!new)>(m: Machine<D>, read: D -> Known, good: D -> bool, s: Store<D>, fp: Block, o: WriteOutcome)
    requires Faithful(m, read, good) && good(s.disk)
    ensures var (s', ok) := RecordPoison(m.write, s, fp, o);
            good(s'.disk) && (AbsStore(read, s'), ok) == RecordPoison(Apply, AbsStore(read, s), fp, o)
  {
    hide EntryOf, Apply;
  }

  lemma EvictOneRefines<D(!new)>(m: Machine<D>, read: D -> Known, good: D -> bool, s: Node<D>, v: Victim)
    requires Faithful(m, read, good) && good(s.store.disk)
    requires v.fp in s.counters && s.counters[v.fp].count < U64_LIMIT
    ensures var s' := EvictOne(m.write, s, v);
            good(s'.store.disk) && Abs(read, s') == EvictOne(Apply, Abs(read, s), v)
  {
    hide FlushFingerprint, RecordPoison, Faithful;
    var n := s.counters[v.fp].count;
    FlushRefines(m, read, good, s.store, v.fp, n, v.flush);
    PoisonRefines(m, read, good, FlushFingerprint(m.write, s.store, v.fp, n, v.flush).0, v.fp, v.poison);
  }

  lemma {:induction false} EvictEachRefines<D(!new)>(m: Machine<D>, read: D -> Known, good: D -> bool, s: Node<D>,
                                                     threshold: nat, victims: seq<Victim>)
    requires Faithful(m, read, good) && good(s.store.disk) && Inv(Abs(read, s))
    ensures var s' := EvictEach(m.write, s, threshold, victims);
            good(s'.store.disk) && Abs(read, s') == EvictEach(Apply, Abs(read, s), threshold, victims)
    decreases |victims|
  {
    if victims != [] {
      var v := victims[0];
      if v.fp in s.counters && s.counters[v.fp].count < threshold {
        assert KeyInv(Abs(read, s), v.fp);
        EvictOneRefines(m, read, good, s, v);
        EvictOneSafe(Abs(read, s), v);
        EvictEachRefines(m, read, good, EvictOne(m.write, s, v), threshold, victims[1..]);
      } else {
        EvictEachRefines(m, read, good, s, threshold, victims[1..]);
      }
    }
  }

  /** Each step on a good journal is the same step on the map it stands for. */
  lemma StepRefines<D(!new)>(m: Machine<D>, read: D -> Known, good: D -> bool, s: Node<D>, step: Step)
    requires Faithful(m, read, good) && good(s.store.disk) && Inv(Abs(read, s)) && Enabled(m, s, step)
    ensures var (s', rel) := DoOn(m, s, step);
            good(s'.store.disk) && (Abs(read, s'), rel) == Do(Abs(read, s), step)
  {
    match step
    case ReserveStep(fp, advance, poison) =>
      ReserveRefines(m, read, good, s, fp, advance, poison);
    case EvictStep(threshold, victims) =>
      var s1 := s.(counters := DropExhausted(s.counters));
      ForgetSafe(Abs(read, s), s1.counters);
      EvictEachRefines(m, read, good, s1, threshold, victims);
    case ResetStep(_) =>
    case RestartStep(tail) =>
  }

  lemma {:induction false} RunRefines<D(!new)>(m: Machine<D>, read: D -> Known, good: D -> bool, s: Node<D>, steps: seq<Step>)
    requires Faithful(m, read, good) && good(s.store.disk) && Inv(Abs(read, s)) && IsRun(m, s, steps)
    ensures good(FinalOn(m, s, steps).store.disk)
    ensures Abs(read, FinalOn(m, s, steps)) == Final(Abs(read, s), steps)
    ensures ReleasedOn(m, s, steps) == Released(Abs(read, s), steps)
    decreases |steps|
  {
    if steps != [] {
      StepRefines(m, read, good, s, steps[0]);
      StepSafe(Abs(read, s), steps[0]);
      RunRefines(m, read, good, DoOn(m, s, steps[0]).0, steps[1..]);
    }
  }

  // ----- a journal that some writes close for good ----------------------------------------------

  /** Like `Faithful`, but a write may also leave a journal that never opens again. */
  ghost predicate FaithfulOrDead<D(!new)>(m: Machine<D>, read: D -> Known, good: D -> bool, dead: D -> bool) {
    && (forall d: D, fp: Block, kind: RecordKind ::
          good(d) && (kind.Count? ==> kind.n < U64_LIMIT) ==>
            dead(m.write(d, fp, kind)) || (good(m.write(d, fp, kind)) && read(m.write(d, fp, kind)) == Apply(read(d), fp, kind)))
    && (forall d: D, fp: Block, kind: RecordKind ::
          dead(d) && (kind.Count? ==> kind.n < U64_LIMIT) ==> dead(m.write(d, fp, kind)))
    && (forall d: D, tail: bytes ::
          good(d) && m.reopen(d, tail).Some? ==> m.reopen(d, tail).value == Store(d, read(d), false))
    && (forall d: D, tail: bytes :: dead(d) ==> m.reopen(d, tail).None?)
  }

  /** Same process, and the journal stands for the same map unless it is dead. */
  predicate Twins<D>(read: D -> Known, good: D -> bool, dead: D -> bool, s: Node<D>, a: Abstract) {
    && s.store.known == a.store.known && s.store.integrityFailed == a.store.integrityFailed && s.counters == a.counters
    && (dead(s.store.disk) || (good(s.store.disk) && read(s.store.disk) == a.store.disk))
  }

  lemma ReserveTwins<D(!new)>(m: Machine<D>, read: D -> Known, good: D -> bool, dead: D -> bool, s: Node<D>, a: Abstract,
                              fp: Block, advance: WriteOutcome, poison: WriteOutcome)
    requires FaithfulOrDead(m, read, good, dead) && Twins(read, good, dead, s, a)
    ensures var (s', r) := Reserve(m.write, s, fp, advance, poison);
            var (a', r') := Reserve(Apply, a, fp, advance, poison);
            r == r' && Twins(read, good, dead, s', a')
  {
    hide EntryOf, Apply;
  }

  /** What a sweep does to handle and counters does not depend on the journal. */
  lemma {:induction false} EvictTwins<D>(w: Writer<D>, s: Node<D>, a: Abstract, threshold: nat, victims: seq<Victim>)
    requires s.store.known == a.store.known && s.store.integrityFailed == a.store.integrityFailed && s.counters == a.counters
    ensures var s', a' := EvictEach(w, s, threshold, victims), EvictEach(Apply, a, threshold, victims);
            s'.store.known == a'.store.known && s'.store.integrityFailed == a'.store.integrityFailed && s'.counters == a'.counters
    decreases |victims|
  {
    hide EntryOf, Apply;
    if victims != [] {
      var v := victims[0];
      if v.fp in s.counters && s.counters[v.fp].count < threshold {
        EvictTwins(w, EvictOne(w, s, v), EvictOne(Apply, a, v), threshold, victims[1..]);
      } else {
        EvictTwins(w, s, a, threshold, victims[1..]);
      }
    }
  }

  lemma StepTwins<D(!new)>(m: Machine<D>, read: D -> Known, good: D -> bool, dead: D -> bool, s: Node<D>, a: Abstract, step: Step)
    requires FaithfulOrDead(m, read, good, dead) && Twins(read, good, dead, s, a) && Inv(a) && Enabled(m, s, step)
    ensures var (s', rel) := DoOn(m, s, step);
            rel == Do(a, step).1 && Twins(read, good, dead, s', Do(a, step).0)
  {
    match step
    case ReserveStep(fp, advance, poison) =>
      ReserveTwins(m, read, good, dead, s, a, fp, advance, poison);
    case EvictStep(threshold, victims) =>
      var s1, a1 := s.(counters := DropExhausted(s.counters)), a.(counters := DropExhausted(a.counters));
      InvCovered(a);
      EvictTwins(m.write, s1, a1, threshold, victims);
      EvictQuiet(m.write, s1, threshold, victims);
      EvictQuiet(Apply, a1, threshold, victims);
    case ResetStep(_) =>
    case RestartStep(tail) =>
  }

  lemma {:induction false} RunTwins<D(!new)>(m: Machine<D>, read: D -> Known, good: D -> bool, dead: D -> bool,
                                             s: Node<D>, a: Abstract, steps: seq<Step>)
    requires FaithfulOrDead(m, read, good, dead) && Twins(read, good, dead, s, a) && Inv(a) && IsRun(m, s, steps)
    ensures ReleasedOn(m, s, steps) == Released(a, steps)
    decreases |steps|
  {
    hide Inv, Twins, FaithfulOrDead, Do, DoOn;
    if steps != [] {
      StepTwins(m, read, good, dead, s, a, steps[0]);
      StepSafe(a, steps[0]);
      RunTwins(m, read, good, dead, DoOn(m, s, steps[0]).0, Do(a, steps[0]).0, steps[1..]);
    }
  }

  /** A run that is not empty is its first step and the rest. */
  lemma RunFirst<D>(m: Machine<D>, s: Node<D>, steps: seq<Step>)
    requires steps != []
    ensures IsRun(m, s, steps) <==> Enabled(m, s, steps[0]) && IsRun(m, DoOn(m, s, steps[0]).0, steps[1..])
    ensures IsRun(m, s, steps) ==>
              var (s1, rel) := DoOn(m, s, steps[0]);
              FinalOn(m, s, steps) == FinalOn(m, s1, steps[1..]) && ReleasedOn(m, s, steps) == rel + ReleasedOn(m, s1, steps[1..])
  {
  }

  lemma RunNothing<D>(m: Machine<D>, s: Node<D>)
    ensures IsRun(m, s, []) && FinalOn(m, s, []) == s && ReleasedOn(m, s, []) == []
  {
  }

  /** A run and its two parts. */
  lemma {:induction false} RunSplit<D>(m: Machine<D>, s: Node<D>, steps: seq<Step>, i: nat)
    requires IsRun(m, s, steps) && i <= |steps|
    ensures IsRun(m, s, steps[..i]) && IsRun(m, FinalOn(m, s, steps[..i]), steps[i..])
    ensures ReleasedOn(m, s, steps) == ReleasedOn(m, s, steps[..i]) + ReleasedOn(m, FinalOn(m, s, steps[..i]), steps[i..])
    decreases |steps|
  {
    hide DoOn, Enabled, IsRun, FinalOn, ReleasedOn;
    if i == 0 {
      assert steps[..i] == [] && steps[i..] == steps;
      RunNothing(m, s);
      assert [] + ReleasedOn(m, s, steps) == ReleasedOn(m, s, steps);
    } else {
      RunFirst(m, s, steps);
      RunSplit(m, DoOn(m, s, steps[0]).0, steps[1..], i - 1);
      RunFirst(m, s, steps[..i]);
      assert steps[..i][0] == steps[0] && steps[..i][1..] == steps[1..][..i - 1] && steps[i..] == steps[1..][i - 1..];
    }
  }

  // ----- a journal that failed its integrity check ---------------------------------------------

  /** Reopening such a journal fails the check again. */
  ghost predicate StaysFailed<D(!new)>(m: Machine<D>, bad: D -> bool) {
    forall d: D, tail: bytes :: bad(d) && m.reopen(d, tail).Some? ==>
      m.reopen(d, tail).value.integrityFailed && bad(m.reopen(d, tail).value.disk)
  }

  lemma {:induction false} EvictFailed<D>(w: Writer<D>, s: Node<D>, threshold: nat, victims: seq<Victim>)
    requires s.store.integrityFailed
    ensures EvictEach(w, s, threshold, victims).store == s.store
    decreases |victims|
  {
    if victims != [] {
      var v := victims[0];
      var s1 := if v.fp in s.counters && s.counters[v.fp].count < threshold then EvictOne(w, s, v) else s;
      EvictFailed(w, s1, threshold, victims[1..]);
    }
  }

  /** Fail closed: nothing is ever released on top of it. */
  lemma {:induction false} FailedReleasesNothing<D(!new)>(m: Machine<D>, bad: D -> bool, s: Node<D>, steps: seq<Step>)
    requires StaysFailed(m, bad) && s.store.integrityFailed && bad(s.store.disk) && IsRun(m, s, steps)
    ensures ReleasedOn(m, s, steps) == []
    decreases |steps|
  {
    if steps != [] {
      var (s1, rel) := DoOn(m, s, steps[0]);
      match steps[0] {
        case EvictStep(threshold, victims) =>
          EvictFailed(m.write, s.(counters := DropExhausted(s.counters)), threshold, victims);
        case _ =>
      }
      assert rel == [] && s1.store.integrityFailed && bad(s1.store.disk);
      FailedReleasesNothing(m, bad, s1, steps[1..]);
    }
  }
}
