/** The reservation protocol over an abstract journal: what one process does to its
    counters, to its knowledge of the journal and to the journal itself.

    Every operation is written once, over an arbitrary representation `D` of the
    journal and a writer for one record.  `GcmRuns` instantiates it with maps,
    `GcmBackend` with the bytes of the journal file. */
module GcmProtocol {
  import opened Wrappers
  import opened Text
  import opened GcmJournal

  /** A journal write succeeds, or fails leaving the file wholly old or wholly new. */
  datatype WriteOutcome = Written | FailedOld | FailedNew

  /** The journal and the open handle's knowledge of it. */
  datatype Store<D> = Store(disk: D, known: Known, integrityFailed: bool)

  datatype Counter = Counter(count: nat, streak: nat)

  type Counters = map<Block, Counter>

  /** One process life: the store and the in-memory counters. */
  datatype Node<D> = Node(store: Store<D>, counters: Counters)

  type Writer<!D> = (D, Block, RecordKind) -> D

  const POISON_STREAK := 5

  function Min(a: nat, b: nat): nat {
    if a <= b then a else b
  }

  // ----- gcm_counter.rs ---------------------------------------------------------------

  function Write<D>(w: Writer<D>, s: Store<D>, fp: Block, kind: RecordKind, o: WriteOutcome): Store<D> {
    if o.FailedOld? then s else s.(disk := w(s.disk, fp, kind))
  }

  function PersistedState<D>(s: Store<D>, fp: Block): Entry {
    if s.integrityFailed && fp in s.known then Entry(NONCE_LIMIT, true) else EntryOf(s.known, fp)
  }

  /** Inside the reserved window nothing is written; at its end, a new ceiling. */
  predicate MustExtend(e: Entry, n: nat) {
    e.persisted == 0 || n >= e.persisted
  }

  function RecordAdvance<D>(w: Writer<D>, s: Store<D>, fp: Block, n: nat, o: WriteOutcome): (Store<D>, bool) {
    if s.integrityFailed then (s, false)
    else
      var e := EntryOf(s.known, fp);
      var s1 := s.(known := s.known[fp := e]);
      if !MustExtend(e, n) then (s1, true)
      else
        var ceiling := Min(n + BATCH_THRESHOLD, NONCE_LIMIT);
        var s2 := Write(w, s1, fp, Count(ceiling), o);
        if o.Written? then (s2.(known := s2.known[fp := e.(persisted := ceiling)]), true) else (s2, false)
  }

  function FlushFingerprint<D>(w: Writer<D>, s: Store<D>, fp: Block, n: nat, o: WriteOutcome): (Store<D>, bool) {
    if s.integrityFailed then (s, false)
    else
      var e := EntryOf(s.known, fp);
      var s1 := s.(known := s.known[fp := e]);
      if n <= e.persisted then (s1, true)
      else
        var s2 := Write(w, s1, fp, Count(n), o);
        if o.Written? then (s2.(known := s2.known[fp := e.(persisted := n)]), true) else (s2, false)
  }

  function RecordPoison<D>(w: Writer<D>, s: Store<D>, fp: Block, o: WriteOutcome): (Store<D>, bool) {
    if s.integrityFailed then (s, true)
    else
      var s1 := Write(w, s, fp, Poisoned, o);
      if o.Written? then (s1.(known := s1.known[fp := Entry(NONCE_LIMIT, true)]), true) else (s1, false)
  }

  // ----- lib.rs -----------------------------------------------------------------------

  /** `reserve_gcm_nonce`: the released count, if the reservation succeeds. */
  function Reserve<D>(w: Writer<D>, s: Node<D>, fp: Block, advance: WriteOutcome, poison: WriteOutcome)
    : (Node<D>, Option<nat>)
  {
    var p := PersistedState(s.store, fp);
    if p.poisoned then (s, None)
    else
      var counter := if fp in s.counters then s.counters[fp] else Counter(p.persisted, 0);
      var hydrated := s.counters[fp := counter];
      if counter.count >= NONCE_LIMIT then
        (Node(RecordPoison(w, s.store, fp, poison).0, hydrated), None)
      else
        var (store, ok) := RecordAdvance(w, s.store, fp, counter.count + 1, advance);
        if ok then (Node(store, hydrated[fp := counter.(count := counter.count + 1)]), Some(counter.count + 1))
        else (Node(store, hydrated), None)
  }

  function Reset<D>(s: Node<D>, fp: Block): Node<D> {
    s.(counters := s.counters - {fp})
  }

  /** One entry picked for eviction, with the fate of the writes it may cause. */
  datatype Victim = Victim(fp: Block, flush: WriteOutcome, poison: WriteOutcome)

  function EvictOne<D>(w: Writer<D>, s: Node<D>, v: Victim): Node<D>
    requires v.fp in s.counters
  {
    var counter := s.counters[v.fp];
    var (store, ok) := FlushFingerprint(w, s.store, v.fp, counter.count, v.flush);
    if ok then Node(store, s.counters - {v.fp})
    else
      var failed := counter.(streak := counter.streak + 1);
      var kept := s.counters[v.fp := failed];
      if failed.streak >= POISON_STREAK then Node(RecordPoison(w, store, v.fp, v.poison).0, kept)
      else Node(store, kept)
  }

  function EvictEach<D>(w: Writer<D>, s: Node<D>, threshold: nat, victims: seq<Victim>): Node<D>
    decreases |victims|
  {
    if victims == [] then s
    else
      var v := victims[0];
      var s1 := if v.fp in s.counters && s.counters[v.fp].count < threshold then EvictOne(w, s, v) else s;
      EvictEach(w, s1, threshold, victims[1..])
  }

  function DropExhausted(counters: Counters): Counters {
    map fp | fp in counters && counters[fp].count < NONCE_LIMIT :: counters[fp]
  }

  /** `evict_gcm_counters`: exhausted entries go at once; the victims below the
      threshold go in the given order, each only after its flush succeeded. */
  function Evict<D>(w: Writer<D>, s: Node<D>, threshold: nat, victims: seq<Victim>): Node<D> {
    EvictEach(w, s.(counters := DropExhausted(s.counters)), threshold, victims)
  }

  /** What can happen to a key's counter: a reservation, an eviction sweep, a reset,
      or a crash followed by reopening the journal with `tail` left behind it. */
  datatype Step =
    | ReserveStep(fp: Block, advance: WriteOutcome, poison: WriteOutcome)
    | EvictStep(threshold: nat, victims: seq<Victim>)
    | ResetStep(fp: Block)
    | RestartStep(tail: bytes)

  datatype Release = Release(fp: Block, count: nat)
}

/** Safety of every run of the protocol, with the journal seen as the map that a
    load would build from it. */
module GcmRuns {
  import opened Wrappers
  import opened Text
  import opened GcmJournal
  import opened GcmProtocol

  type Abstract = Node<Known>

  /** A crash loses everything but the journal. */
  function Restart(s: Abstract): Abstract {
    Node(s.store.(known := s.store.disk), map[])
  }

  function Do(s: Abstract, step: Step): (Abstract, seq<Release>) {
    match step
    case ReserveStep(fp, advance, poison) =>
      var (s', r) := Reserve(Apply, s, fp, advance, poison);
      (s', if r.Some? then [Release(fp, r.value)] else [])
    case EvictStep(threshold, victims) => (Evict(Apply, s, threshold, victims), [])
    case ResetStep(fp) => (Reset(s, fp), [])
    case RestartStep(_) => (Restart(s), [])
  }

  function Final(s: Abstract, steps: seq<Step>): Abstract
    decreases |steps|
  {
    if steps == [] then s else Final(Do(s, steps[0]).0, steps[1..])
  }

  function Released(s: Abstract, steps: seq<Step>): seq<Release>
    decreases |steps|
  {
    if steps == [] then [] else Do(s, steps[0]).1 + Released(Do(s, steps[0]).0, steps[1..])
  }

  // ----- the invariant ------------------------------------------------------------------

  /** A load marks an entry as poisoned exactly from the limit on. */
  predicate DiskEntry(d: Entry) {
    d.poisoned <==> d.persisted >= NONCE_LIMIT
  }

  /** The handle knows no more than the journal holds, and no counter is above the
      ceiling the handle knows. */
  predicate KeyOk(d: Entry, e: Entry, counter: Option<Counter>) {
    && DiskEntry(d)
    && (d.poisoned || (!e.poisoned && e.persisted <= d.persisted))
    && (e.poisoned ==> e.persisted >= NONCE_LIMIT)
    && (!e.poisoned ==> e.persisted <= NONCE_LIMIT)
    && (counter.Some? ==> counter.value.count <= NONCE_LIMIT && counter.value.count <= e.persisted)
  }

  function CounterOf(counters: Counters, fp: Block): Option<Counter> {
    if fp in counters then Some(counters[fp]) else None
  }

  predicate KeyInv(s: Abstract, fp: Block) {
    KeyOk(EntryOf(s.store.disk, fp), EntryOf(s.store.known, fp), CounterOf(s.counters, fp))
  }

  ghost predicate Inv(s: Abstract) {
    !s.store.integrityFailed && forall fp: Block :: KeyInv(s, fp)
  }

  /** Counts up to the floor are spent: no later reservation can release them. */
  function Floor(s: Abstract, fp: Block): nat {
    var e := EntryOf(s.store.known, fp);
    if e.poisoned then NONCE_LIMIT
    else if fp in s.counters then s.counters[fp].count
    else e.persisted
  }

  ghost predicate Rises(s: Abstract, s': Abstract) {
    forall fp: Block :: Floor(s, fp) <= Floor(s', fp)
  }

  /** What an operation on `fp` leaves alone. */
  predicate SameKey(s: Abstract, s': Abstract, k: Block) {
    && EntryOf(s'.store.disk, k) == EntryOf(s.store.disk, k)
    && EntryOf(s'.store.known, k) == EntryOf(s.store.known, k)
    && CounterOf(s'.counters, k) == CounterOf(s.counters, k)
  }

  lemma ReserveOther(s: Abstract, fp: Block, advance: WriteOutcome, poison: WriteOutcome, k: Block)
    requires k != fp
    ensures SameKey(s, Reserve(Apply, s, fp, advance, poison).0, k)
  {
  }

  lemma ReserveOwn(s: Abstract, fp: Block, advance: WriteOutcome, poison: WriteOutcome)
    requires !s.store.integrityFailed && KeyInv(s, fp)
    ensures var (s', r) := Reserve(Apply, s, fp, advance, poison);
            && !s'.store.integrityFailed && KeyInv(s', fp) && Floor(s, fp) <= Floor(s', fp)
            && (r.Some? ==> r.value == Floor(s, fp) + 1 <= NONCE_LIMIT && Floor(s', fp) == r.value)
  {
  }

  lemma ReserveSafe(s: Abstract, fp: Block, advance: WriteOutcome, poison: WriteOutcome)
    requires Inv(s)
    ensures var (s', r) := Reserve(Apply, s, fp, advance, poison);
            && Inv(s') && Rises(s, s')
            && (r.Some? ==> r.value == Floor(s, fp) + 1 <= NONCE_LIMIT && Floor(s', fp) == r.value)
  {
    var s' := Reserve(Apply, s, fp, advance, poison).0;
    ReserveOwn(s, fp, advance, poison);
    forall k: Block
      ensures KeyInv(s', k) && Floor(s, k) <= Floor(s', k)
    {
      if k != fp {
        ReserveOther(s, fp, advance, poison, k);
        assert KeyInv(s, k);
      }
    }
  }

  /** A reservation succeeds exactly while counts are left and either the window is
      open or its extension reaches the journal; a refusal without a failed write
      means that the key is spent. */
  lemma ReserveSucceeds(s: Abstract, fp: Block, advance: WriteOutcome, poison: WriteOutcome)
    requires Inv(s)
    ensures var r := Reserve(Apply, s, fp, advance, poison).1;
            r.Some? <==> && Floor(s, fp) < NONCE_LIMIT
                         && (MustExtend(EntryOf(s.store.known, fp), Floor(s, fp) + 1) ==> advance.Written?)
  {
    assert KeyInv(s, fp);
  }

  /** In every reachable state the flush before an eviction finds its count already
      covered: it writes nothing and cannot fail. */
  lemma EvictOneSafe(s: Abstract, v: Victim)
    requires Inv(s) && v.fp in s.counters
    ensures var s' := EvictOne(Apply, s, v);
            s'.store.disk == s.store.disk && s'.counters == s.counters - {v.fp} && Inv(s') && Rises(s, s')
  {
    var s' := EvictOne(Apply, s, v);
    assert KeyInv(s, v.fp);
    forall k: Block
      ensures KeyInv(s', k) && Floor(s, k) <= Floor(s', k)
    {
      assert KeyInv(s, k);
      assert EntryOf(s'.store.known, k) == EntryOf(s.store.known, k);
    }
  }

  /** The handle's ceilings cover its counters. */
  predicate Covered<D>(s: Node<D>) {
    !s.store.integrityFailed &&
    forall fp :: fp in s.counters ==> s.counters[fp].count <= EntryOf(s.store.known, fp).persisted
  }

  /** A sweep then leaves the journal alone, however it is kept and written. */
  lemma {:induction false} EvictQuiet<D>(w: Writer<D>, s: Node<D>, threshold: nat, victims: seq<Victim>)
    requires Covered(s)
    ensures EvictEach(w, s, threshold, victims).store.disk == s.store.disk
    decreases |victims|
  {
    if victims != [] {
      var v := victims[0];
      if v.fp in s.counters && s.counters[v.fp].count < threshold {
        EvictQuiet(w, EvictOne(w, s, v), threshold, victims[1..]);
      } else {
        EvictQuiet(w, s, threshold, victims[1..]);
      }
    }
  }

  lemma InvCovered(s: Abstract)
    requires Inv(s)
    ensures Covered(s)
  {
    forall fp | fp in s.counters ensures s.counters[fp].count <= EntryOf(s.store.known, fp).persisted {
      assert KeyInv(s, fp);
    }
  }

  lemma {:induction false} EvictEachSafe(s: Abstract, threshold: nat, victims: seq<Victim>)
    requires Inv(s)
    ensures var s' := EvictEach(Apply, s, threshold, victims);
            s'.store.disk == s.store.disk && Inv(s') && Rises(s, s')
    decreases |victims|
  {
    if victims != [] {
      var v := victims[0];
      var s1 := if v.fp in s.counters && s.counters[v.fp].count < threshold then EvictOne(Apply, s, v) else s;
      if v.fp in s.counters && s.counters[v.fp].count < threshold {
        EvictOneSafe(s, v);
      }
      EvictEachSafe(s1, threshold, victims[1..]);
      RisesTransitive(s, s1, EvictEach(Apply, s1, threshold, victims[1..]));
    }
  }

  /** A reset forgets one counter, so the key goes on above its ceiling, and no other. */
  lemma ResetEffect(s: Abstract, fp: Block, k: Block)
    ensures fp !in Reset(s, fp).counters && Reset(s, fp).store == s.store
    ensures Floor(Reset(s, fp), fp) ==
            if EntryOf(s.store.known, fp).poisoned then NONCE_LIMIT else EntryOf(s.store.known, fp).persisted
    ensures k != fp ==> CounterOf(Reset(s, fp).counters, k) == CounterOf(s.counters, k)
  {
  }

  /** What a successful flush is for: handle and journal then cover the count. */
  lemma FlushCovers(s: Store<Known>, fp: Block, n: nat, o: WriteOutcome)
    requires !s.integrityFailed && EntryOf(s.known, fp).persisted <= EntryOf(s.disk, fp).persisted
    ensures var (s', ok) := FlushFingerprint(Apply, s, fp, n, o);
            && (ok ==> EntryOf(s'.known, fp).persisted >= n && EntryOf(s'.disk, fp).persisted >= n)
            && (!ok ==> !o.Written? && EntryOf(s'.known, fp) == EntryOf(s.known, fp))
  {
  }

  /** An entry whose flush fails is kept with its count; the fifth failure in a row, if its
      record is written, ends the key. */
  lemma EvictFails(s: Abstract, v: Victim, advance: WriteOutcome, poison: WriteOutcome)
    requires v.fp in s.counters && !s.store.integrityFailed && !v.flush.Written?
    requires s.counters[v.fp].count > EntryOf(s.store.known, v.fp).persisted
    ensures var s', c := EvictOne(Apply, s, v), s.counters[v.fp];
            && s'.counters == s.counters[v.fp := Counter(c.count, c.streak + 1)]
            && (c.streak < 4 ==> EntryOf(s'.store.known, v.fp) == EntryOf(s.store.known, v.fp))
            && (c.streak >= 4 && v.poison.Written? ==> Reserve(Apply, s', v.fp, advance, poison).1 == None)
  {
  }

  /** The victims name every counter. */
  predicate Names(victims: seq<Victim>, counters: Counters) {
    forall fp :: fp in counters ==> exists i :: 0 <= i < |victims| && victims[i].fp == fp
  }

  lemma {:induction false} EvictEachExact(s: Abstract, threshold: nat, victims: seq<Victim>)
    requires Inv(s)
    ensures var t := EvictEach(Apply, s, threshold, victims).counters;
            && (forall fp :: fp in t ==> fp in s.counters && t[fp] == s.counters[fp])
            && (forall fp :: fp in s.counters ==>
                  (fp in t <==> s.counters[fp].count >= threshold || forall i :: 0 <= i < |victims| ==> victims[i].fp != fp))
    decreases |victims|
  {
    hide Inv;
    if victims != [] {
      var v, rest := victims[0], victims[1..];
      assert forall i :: 0 < i < |victims| ==> victims[i] == rest[i - 1];
      if v.fp in s.counters && s.counters[v.fp].count < threshold {
        EvictOneSafe(s, v);
        EvictEachExact(EvictOne(Apply, s, v), threshold, rest);
      } else {
        EvictEachExact(s, threshold, rest);
      }
    }
  }

  /** In every reachable state a sweep over all counters leaves exactly those from the
      threshold up to below the limit, as they were. */
  lemma EvictExact(s: Abstract, threshold: nat, victims: seq<Victim>)
    requires Inv(s) && Names(victims, s.counters)
    ensures Evict(Apply, s, threshold, victims).counters ==
            map fp | fp in s.counters && threshold <= s.counters[fp].count < NONCE_LIMIT :: s.counters[fp]
  {
    hide Inv;
    var s1 := s.(counters := DropExhausted(s.counters));
    ForgetSafe(s, s1.counters);
    EvictEachExact(s1, threshold, victims);
  }

  lemma RisesTransitive(a: Abstract, b: Abstract, c: Abstract)
    requires Rises(a, b) && Rises(b, c)
    ensures Rises(a, c)
  {
    forall fp: Block
      ensures Floor(a, fp) <= Floor(c, fp)
    {
      assert Floor(a, fp) <= Floor(b, fp) <= Floor(c, fp);
    }
  }

  /** Forgetting counters never lowers a floor: it falls back to the ceiling. */
  lemma ForgetSafe(s: Abstract, counters: Counters)
    requires Inv(s) && forall fp :: fp in counters ==> fp in s.counters && counters[fp] == s.counters[fp]
    ensures Inv(s.(counters := counters)) && Rises(s, s.(counters := counters))
  {
    var s' := s.(counters := counters);
    forall k: Block
      ensures KeyInv(s', k) && Floor(s, k) <= Floor(s', k)
    {
      assert KeyInv(s, k);
    }
  }

  lemma RestartSafe(s: Abstract)
    requires Inv(s)
    ensures Inv(Restart(s)) && Rises(s, Restart(s))
  {
    forall k: Block
      ensures KeyInv(Restart(s), k) && Floor(s, k) <= Floor(Restart(s), k)
    {
      assert KeyInv(s, k);
    }
  }

  /** Every step keeps the invariant, lowers no floor, and releases at most the count
      right above the floor. */
  lemma StepSafe(s: Abstract, step: Step)
    requires Inv(s)
    ensures var (s', rel) := Do(s, step);
            && Inv(s') && Rises(s, s') && |rel| <= 1
            && (rel != [] ==> rel[0].count == Floor(s, rel[0].fp) + 1 == Floor(s', rel[0].fp) <= NONCE_LIMIT)
  {
    match step
    case ReserveStep(fp, advance, poison) =>
      ReserveSafe(s, fp, advance, poison);
    case EvictStep(threshold, victims) =>
      var s1 := s.(counters := DropExhausted(s.counters));
      ForgetSafe(s, s1.counters);
      EvictEachSafe(s1, threshold, victims);
      RisesTransitive(s, s1, Evict(Apply, s, threshold, victims));
    case ResetStep(fp) =>
      ForgetSafe(s, Reset(s, fp).counters);
    case RestartStep(_) =>
      RestartSafe(s);
  }

  // ----- whole runs ---------------------------------------------------------------------

  /** The counts released for each key go up from `lo` and stay within `hi`. */
  ghost predicate Increasing(rel: seq<Release>, lo: Abstract, hi: Abstract) {
    && (forall i :: 0 <= i < |rel| ==> Floor(lo, rel[i].fp) < rel[i].count <= Floor(hi, rel[i].fp) && rel[i].count <= NONCE_LIMIT)
    && (forall i, j :: 0 <= i < j < |rel| && rel[i].fp == rel[j].fp ==> rel[i].count < rel[j].count)
  }

  /** One step's release followed by those of the rest of the run. */
  lemma IncreasingConcat(first: seq<Release>, rest: seq<Release>, s: Abstract, s1: Abstract, t: Abstract)
    requires |first| <= 1 && Rises(s, s1) && Rises(s1, t) && Increasing(rest, s1, t)
    requires first != [] ==> first[0].count == Floor(s, first[0].fp) + 1 == Floor(s1, first[0].fp) <= NONCE_LIMIT
    ensures Increasing(first + rest, s, t)
  {
    hide Floor;
    var rel := first + rest;
    forall i | 0 <= i < |rel|
      ensures Floor(s, rel[i].fp) < rel[i].count <= Floor(t, rel[i].fp) && rel[i].count <= NONCE_LIMIT
    {
      var fp := rel[i].fp;
      assert Floor(s, fp) <= Floor(s1, fp) <= Floor(t, fp);
      assert rel[i] == if i < |first| then first[0] else rest[i - |first|];
    }
    forall i, j | 0 <= i < j < |rel| && rel[i].fp == rel[j].fp
      ensures rel[i].count < rel[j].count
    {
      assert rel[j] == rest[j - |first|];
      assert rel[i] == if i < |first| then first[0] else rest[i - |first|];
    }
  }

  lemma {:induction false} RunSafe(s: Abstract, steps: seq<Step>)
    requires Inv(s)
    ensures Inv(Final(s, steps)) && Rises(s, Final(s, steps))
    ensures Increasing(Released(s, steps), s, Final(s, steps))
    decreases |steps|
  {
    hide Do, Floor, Inv;
    if steps != [] {
      var (s1, first) := Do(s, steps[0]);
      StepSafe(s, steps[0]);
      RunSafe(s1, steps[1..]);
      RisesTransitive(s, s1, Final(s1, steps[1..]));
      IncreasingConcat(first, Released(s1, steps[1..]), s, s1, Final(s1, steps[1..]));
    }
  }

  function CountFor(rel: seq<Release>, fp: Block): nat {
    if rel == [] then 0 else (if rel[0].fp == fp then 1 else 0) + CountFor(rel[1..], fp)
  }

  lemma {:induction false} CountForConcat(a: seq<Release>, b: seq<Release>, fp: Block)
    ensures CountFor(a + b, fp) == CountFor(a, fp) + CountFor(b, fp)
  {
    if a == [] {
      assert a + b == b;
    } else {
      assert (a + b)[1..] == a[1..] + b;
      CountForConcat(a[1..], b, fp);
    }
  }

  /** Each release uses up the room below the limit, across all process lives. */
  lemma {:induction false} ReleasesBounded(s: Abstract, steps: seq<Step>, fp: Block)
    requires Inv(s)
    ensures CountFor(Released(s, steps), fp) <= Floor(Final(s, steps), fp) - Floor(s, fp)
    decreases |steps|
  {
    if steps != [] {
      var (s1, first) := Do(s, steps[0]);
      StepSafe(s, steps[0]);
      ReleasesBounded(s1, steps[1..], fp);
      CountForConcat(first, Released(s1, steps[1..]), fp);
      assert Floor(s, fp) <= Floor(s1, fp);
      assert first != [] ==> first == [first[0]] && first[1..] == [];
    }
  }

  /** A key whose floor is at the limit is never served again. */
  lemma SpentForever(s: Abstract, steps: seq<Step>, fp: Block)
    requires Inv(s) && Floor(s, fp) >= NONCE_LIMIT
    ensures forall i :: 0 <= i < |Released(s, steps)| ==> Released(s, steps)[i].fp != fp
    ensures Floor(Final(s, steps), fp) >= NONCE_LIMIT
  {
    RunSafe(s, steps);
  }

  /** A key gets there by a refusal at the limit, by a POISONED record, or by a
      recorded ceiling of 2^32 seen at a restart. */
  lemma SpentBecause(s: Abstract, fp: Block, advance: WriteOutcome, poison: WriteOutcome)
    requires Inv(s)
    ensures var (s', r) := Reserve(Apply, s, fp, advance, poison);
            r.None? && advance.Written? ==> Floor(s', fp) >= NONCE_LIMIT
    ensures var d := EntryOf(s.store.disk, fp);
            d.poisoned || d.persisted >= NONCE_LIMIT ==> Floor(Restart(s), fp) >= NONCE_LIMIT
  {
    ReserveSucceeds(s, fp, advance, poison);
    ReserveSafe(s, fp, advance, poison);
    assert KeyInv(s, fp);
  }
}
