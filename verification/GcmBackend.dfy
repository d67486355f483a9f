/** The counter over the bytes of its journal file: the classes that the crypto
    backend uses, and the whole-run theorems carried down to the file. */
module GcmBackend {
  import opened Wrappers
  import opened Text
  import opened GcmJournal
  import opened GcmFile
  import opened GcmProtocol
  import opened GcmRuns
  import opened GcmLedger
  import opened GcmRefinement
  import opened GcmEviction

  function WriterOf(c: Crypto): Writer<bytes> {
    (file, fp, kind) => WriteRecord(c, file, fp, kind)
  }

  // ----- the classes --------------------------------------------------------------------

  datatype HsmError = GeneralError

  class PersistentGcmCounter {
    const c: Crypto
    var file: bytes
    var known: Known
    var integrityFailed: bool

    ghost function View(): Store<bytes>
      reads this
    {
      Store(file, known, integrityFailed)
    }

    constructor (c: Crypto, o: Opened)
      requires o.Opened?
      ensures this.c == c && View() == Store(o.file, o.known, o.integrityFailed)
    {
      this.c := c;
      file, known, integrityFailed := o.file, o.known, o.integrityFailed;
    }

    static method FileBacked(c: Crypto, file: bytes) returns (r: Result<PersistentGcmCounter, HsmError>)
      ensures r.Ok? <==> Open(c, file).Opened?
      ensures r.Ok? ==> var o := Open(c, file);
                        fresh(r.value) && r.value.c == c && r.value.View() == Store(o.file, o.known, o.integrityFailed)
    {
      var o := OpenFile(c, file);
      if o.OpenRefused? {
        return Err(GeneralError);
      }
      var p := new PersistentGcmCounter(c, o);
      return Ok(p);
    }

    method Rewrite(fp: Block, kind: RecordKind, o: WriteOutcome) returns (ok: bool)
      modifies this`file
      ensures ok <==> o.Written?
      ensures View() == GcmProtocol.Write(WriterOf(c), old(View()), fp, kind, o)
    {
      if !o.FailedOld? {
        file := AppendRecord(c, file, fp, kind);
      }
      ok := o.Written?;
    }

    method RecordAdvance(fp: Block, n: nat, o: WriteOutcome) returns (ok: bool)
      modifies this
      ensures (View(), ok) == GcmProtocol.RecordAdvance(WriterOf(c), old(View()), fp, n, o)
    {
      if integrityFailed {
        return false;
      }
      var entry := EntryOf(known, fp);
      known := known[fp := entry];
      var isNew := entry.persisted == 0;
      if !isNew && n < entry.persisted {
        return true;
      }
      var ceiling := Min(n + BATCH_THRESHOLD, NONCE_LIMIT);
      ok := Rewrite(fp, Count(ceiling), o);
      if ok {
        known := known[fp := entry.(persisted := ceiling)];
      }
    }

    method FlushFingerprint(fp: Block, n: nat, o: WriteOutcome) returns (ok: bool)
      modifies this
      ensures (View(), ok) == GcmProtocol.FlushFingerprint(WriterOf(c), old(View()), fp, n, o)
    {
      if integrityFailed {
        return false;
      }
      var entry := EntryOf(known, fp);
      known := known[fp := entry];
      if n <= entry.persisted {
        return true;
      }
      ok := Rewrite(fp, Count(n), o);
      if ok {
        known := known[fp := entry.(persisted := n)];
      }
    }

    method RecordPoison(fp: Block, o: WriteOutcome) returns (ok: bool)
      modifies this
      ensures (View(), ok) == GcmProtocol.RecordPoison(WriterOf(c), old(View()), fp, o)
    {
      if integrityFailed {
        return true;
      }
      ok := Rewrite(fp, Poisoned, o);
      if ok {
        known := known[fp := Entry(NONCE_LIMIT, true)];
      }
    }
  }

  class GcmCounters {
    const persist: PersistentGcmCounter
    var counters: Counters

    ghost function View(): Node<bytes>
      reads this, persist
    {
      Node(persist.View(), counters)
    }

    constructor (persist: PersistentGcmCounter)
      ensures this.persist == persist && View() == Node(persist.View(), map[])
    {
      this.persist := persist;
      counters := map[];
    }

    /** `reserve_gcm_nonce` under the key's lock: journal first, then the counter,
        rolled back if the journal refuses. */
    method ReserveGcmNonce(fp: Block, advance: WriteOutcome, poison: WriteOutcome) returns (r: Option<nat>)
      modifies this, persist
      ensures (View(), r) == Reserve(WriterOf(persist.c), old(View()), fp, advance, poison)
    {
      hide GcmProtocol.RecordAdvance, GcmProtocol.RecordPoison, PersistedState, WriterOf;
      var state := PersistedState(Store(persist.file, persist.known, persist.integrityFailed), fp);
      if state.poisoned {
        return None;
      }
      if fp !in counters {
        counters := counters[fp := Counter(state.persisted, 0)];
      }
      var current := counters[fp];
      assert counters == old(counters)[fp := current];
      if current.count >= NONCE_LIMIT {
        var _ := persist.RecordPoison(fp, poison);
        return None;
      }
      counters := counters[fp := current.(count := current.count + 1)];
      assert counters == old(counters)[fp := current][fp := current.(count := current.count + 1)];
      var ok := persist.RecordAdvance(fp, current.count + 1, advance);
      if !ok {
        counters := counters[fp := current];
        assert counters == old(counters)[fp := current];
        return None;
      }
      return Some(current.count + 1);
    }

    method ResetGcmCounter(fp: Block)
      modifies this
      ensures View() == Reset(old(View()), fp)
    {
      counters := counters - {fp};
    }

    method DropExhaustedEntries()
      modifies this
      ensures counters == DropExhausted(old(counters))
    {
      var rest := counters.Keys;
      while rest != {}
        invariant rest <= counters.Keys <= old(counters).Keys
        invariant forall fp :: fp in counters ==> counters[fp] == old(counters)[fp]
        invariant forall fp :: fp in old(counters) ==>
                    (fp in counters <==> fp in rest || old(counters)[fp].count < NONCE_LIMIT)
        decreases |rest|
      {
        var fp :| fp in rest;
        rest := rest - {fp};
        if counters[fp].count >= NONCE_LIMIT {
          counters := counters - {fp};
        }
      }
    }

    /** The counts of the entries below the limit, in the order of the walk. */
    method Snapshot(walk: seq<Victim>) returns (counts: seq<nat>)
      ensures counts == LiveCounts(counters, walk)
    {
      counts := [];
      for i := 0 to |walk|
        invariant counts == LiveCounts(counters, walk[..i])
      {
        assert Front(walk[..i + 1]) == walk[..i] && Last(walk[..i + 1]) == walk[i];
        if walk[i].fp in counters && counters[walk[i].fp].count < NONCE_LIMIT {
          counts := counts + [counters[walk[i].fp].count];
        }
      }
      assert walk[..|walk|] == walk;
    }

    /** `evict_gcm_counters`; `walk` is the order in which the map is walked, with the fate
        of the writes each entry may cause. */
    method EvictGcmCounters(maxEntries: nat, walk: seq<Victim>) returns (threshold: nat)
      requires Names(walk, counters)
      modifies this, persist
      ensures var counts := LiveCounts(old(counters), walk);
              if |counts| <= maxEntries then View() == old(View()).(counters := DropExhausted(old(counters)))
              else IsNth(counts, maxEntries, threshold) && View() == Evict(WriterOf(persist.c), old(View()), threshold, walk)
    {
      hide EvictOne, DropExhausted, LiveCounts;
      ghost var w := WriterOf(persist.c);
      ghost var was := View();
      var counts := Snapshot(walk);
      DropExhaustedEntries();
      if |counts| <= maxEntries {
        return 0;
      }
      threshold := SelectNth(counts, maxEntries);
      var i := 0;
      while i < |walk|
        invariant 0 <= i <= |walk|
        invariant EvictEach(w, View(), threshold, walk[i..]) == Evict(w, was, threshold, walk)
      {
        var v := walk[i];
        assert walk[i..][0] == v && walk[i..][1..] == walk[i + 1..];
        if v.fp in counters && counters[v.fp].count < threshold {
          EvictVictim(v);
        }
        i := i + 1;
      }
    }

    method EvictVictim(v: Victim)
      requires v.fp in counters
      modifies this, persist
      ensures View() == EvictOne(WriterOf(persist.c), old(View()), v)
    {
      var counter := counters[v.fp];
      var ok := persist.FlushFingerprint(v.fp, counter.count, v.flush);
      if ok {
        counters := counters - {v.fp};
      } else {
        counters := counters[v.fp := counter.(streak := counter.streak + 1)];
        if counter.streak + 1 >= POISON_STREAK {
          var _ := persist.RecordPoison(v.fp, v.poison);
        }
      }
    }
  }

  // ----- runs over the file ---------------------------------------------------------------

  /** After a crash the file is as the last write left it, possibly followed by bytes
      that contain no footer line of their own. */
  predicate Leftover(file: bytes, tail: bytes) {
    tail == [] || (Sealed(file) && NoFooterAfter(Content(file), tail))
  }

  function StoreOf(o: Opened): Option<Store<bytes>> {
    if o.Opened? then Some(Store(o.file, o.known, o.integrityFailed)) else None
  }

  function JournalMachine(c: Crypto): Machine<bytes> {
    Machine(WriterOf(c), (file, tail) => if Leftover(file, tail) then StoreOf(Open(c, file + tail)) else None)
  }

  function Boot(o: Opened): Node<bytes>
    requires o.Opened?
  {
    Node(StoreOf(o).value, map[])
  }

  // ----- from bytes to maps -----------------------------------------------------------------

  /** What a load reads from the file. */
  function Reading(file: bytes): Known {
    Parse(Body(file)).known
  }

  /** A journal that opens as it stands, can be added to, and has `k` malformed lines. */
  ghost predicate Readable(c: Crypto, k: nat, file: bytes) {
    && AppendSafe(Body(file)) && Parse(Body(file)).malformed == k <= MAX_MALFORMED
    && Open(c, file) == Opened(Reading(file), false, file)
  }

  lemma WriteReadable(c: Crypto, k: nat, file: bytes, fp: Block, kind: RecordKind)
    requires Readable(c, k, file) && (kind.Count? ==> kind.n < U64_LIMIT)
    ensures Readable(c, k, WriteRecord(c, file, fp, kind))
    ensures Reading(WriteRecord(c, file, fp, kind)) == Apply(Reading(file), fp, kind)
  {
    hide Parse, Open, Body, AppendSafe, Apply, WriteRecord;
    WriteThenOpen(c, file, fp, kind);
  }

  lemma ReopenReadable(c: Crypto, k: nat, file: bytes, tail: bytes)
    requires Readable(c, k, file) && Leftover(file, tail)
    ensures Open(c, file + tail) == Opened(Reading(file), false, file)
  {
    hide Open, Reading, AppendSafe, Parse, Body, Sealed, NoFooterAfter, Content;
    if tail == [] {
      assert file + tail == file;
    } else {
      OpenIgnoresTail(c, file, tail);
    }
  }

  ghost function ReadableFiles(c: Crypto, k: nat): bytes -> bool {
    (file: bytes) => Readable(c, k, file)
  }

  /** On readable files, the byte machine does to the file exactly what the protocol
      does to the map that a load reads from it. */
  lemma JournalFaithful(c: Crypto, k: nat)
    ensures Faithful(JournalMachine(c), Reading, ReadableFiles(c, k))
  {
    hide Reading, Readable, Apply, WriteRecord, Open;
    var m := JournalMachine(c);
    forall file: bytes, fp: Block, kind: RecordKind | Readable(c, k, file) && (kind.Count? ==> kind.n < U64_LIMIT)
      ensures Readable(c, k, m.write(file, fp, kind)) && Reading(m.write(file, fp, kind)) == Apply(Reading(file), fp, kind)
    {
      WriteReadable(c, k, file, fp, kind);
    }
    forall file: bytes, tail: bytes | Readable(c, k, file) && m.reopen(file, tail).Some?
      ensures m.reopen(file, tail).value == Store(file, Reading(file), false)
    {
      ReopenReadable(c, k, file, tail);
    }
  }

  // ----- theorems about the file -------------------------------------------------------------

  lemma BootSafe(c: Crypto, file: bytes)
    requires Open(c, file).Opened? && !Open(c, file).integrityFailed && AppendSafe(Body(file))
    ensures Readable(c, Parse(Body(file)).malformed, Open(c, file).file)
    ensures var s := Abs(Reading, Boot(Open(c, file))); Inv(s) && Synced(s)
  {
    hide Parse, Open, Body, AppendSafe, MarksLimit, Inv, Synced;
    var o := Open(c, file);
    OpenReadsBody(c, file);
    OpenIdempotent(c, file);
    ParseMarksLimit(Body(file));
    BootMap(o, Reading);
  }

  lemma BootMap(o: Opened, read: bytes -> Known)
    requires o.Opened? && !o.integrityFailed && o.known == read(o.file) && MarksLimit(o.known)
    ensures var s := Abs(read, Boot(o)); Inv(s) && Synced(s)
  {
    var s := Abs(read, Boot(o));
    forall fp: Block
      ensures KeyInv(s, fp) && KeySynced(s, fp)
    {
    }
  }

  ghost predicate FailsCheck(c: Crypto, file: bytes) {
    Open(c, file).Opened? && Open(c, file).integrityFailed
  }

  ghost function FailingFiles(c: Crypto): bytes -> bool {
    (file: bytes) => FailsCheck(c, file)
  }

  lemma ReopenFailing(c: Crypto, file: bytes, tail: bytes)
    requires FailsCheck(c, file) && Leftover(file, tail)
    ensures var o := Open(c, file + tail); o.Opened? ==> o.integrityFailed && FailsCheck(c, o.file)
  {
    hide Open, Sealed, NoFooterAfter, Content;
    if tail == [] {
      assert file + tail == file;
      OpenIdempotent(c, file);
    } else {
      OpenSealedPart(c, file, tail);
      if Open(c, file + tail).Opened? {
        OpenIdempotent(c, file + tail);
      }
    }
  }

  lemma JournalStaysFailed(c: Crypto)
    ensures StaysFailed(JournalMachine(c), FailingFiles(c))
  {
    hide FailsCheck, Open;
    var m := JournalMachine(c);
    forall file: bytes, tail: bytes | FailsCheck(c, file) && m.reopen(file, tail).Some?
      ensures m.reopen(file, tail).value.integrityFailed && FailsCheck(c, m.reopen(file, tail).value.disk)
    {
      ReopenFailing(c, file, tail);
    }
  }

  ghost predicate Rising(rel: seq<Release>) {
    forall i, j :: 0 <= i < j < |rel| && rel[i].fp == rel[j].fp ==> rel[i].count < rel[j].count
  }

  /** No count is ever released twice: whatever journal the first process finds, as
      long as records can be added to it, and whatever evictions, resets, write
      failures and crashes follow, the counts released for a key only go up; they
      stay within 1 .. 2^32, so at most 2^32 reservations succeed. */
  lemma CountsNeverRepeat(c: Crypto, file: bytes, steps: seq<Step>, fp: Block)
    requires Open(c, file).Opened? && (Open(c, file).integrityFailed || AppendSafe(Body(file)))
    requires IsRun(JournalMachine(c), Boot(Open(c, file)), steps)
    ensures var rel := ReleasedOn(JournalMachine(c), Boot(Open(c, file)), steps);
            && Rising(rel)
            && (forall i :: 0 <= i < |rel| ==> 0 < rel[i].count <= 0x1_0000_0000)
            && CountFor(rel, fp) <= 0x1_0000_0000
  {
    hide Parse, Open, Body, AppendSafe, IsRun, ReleasedOn, Inv, Synced, Reading;
    var o := Open(c, file);
    var s := Boot(o);
    if o.integrityFailed {
      JournalStaysFailed(c);
      OpenIdempotent(c, file);
      assert FailingFiles(c)(s.store.disk);
      FailedReleasesNothing(JournalMachine(c), FailingFiles(c), s, steps);
    } else {
      var k := Parse(Body(file)).malformed;
      BootSafe(c, file);
      JournalFaithful(c, k);
      assert ReadableFiles(c, k)(s.store.disk);
      RisingOn(JournalMachine(c), Reading, ReadableFiles(c, k), s, steps, fp);
    }
  }

  lemma RisingOn<D(!new)>(m: Machine<D>, read: D -> Known, good: D -> bool, s: Node<D>, steps: seq<Step>, fp: Block)
    requires Faithful(m, read, good) && good(s.store.disk) && Inv(Abs(read, s)) && IsRun(m, s, steps)
    ensures var rel := ReleasedOn(m, s, steps);
            && Rising(rel)
            && (forall i :: 0 <= i < |rel| ==> 0 < rel[i].count <= NONCE_LIMIT)
            && CountFor(rel, fp) <= NONCE_LIMIT
  {
    var a := Abs(read, s);
    RunRefines(m, read, good, s, steps);
    RunSafe(a, steps);
    ReleasesBounded(a, steps, fp);
    assert KeyInv(GcmRuns.Final(a, steps), fp);
  }

  /** A key that the journal shows as POISONED, or with a ceiling of 2^32, is never
      served by any process that opens it. */
  lemma SpentAtOpen(c: Crypto, file: bytes, steps: seq<Step>, fp: Block)
    requires Open(c, file).Opened? && !Open(c, file).integrityFailed && AppendSafe(Body(file))
    requires IsRun(JournalMachine(c), Boot(Open(c, file)), steps)
    requires EntryOf(Open(c, file).known, fp).persisted >= NONCE_LIMIT
    ensures CountFor(ReleasedOn(JournalMachine(c), Boot(Open(c, file)), steps), fp) == 0
  {
    hide Parse, Open, Body, AppendSafe, IsRun, ReleasedOn, CountFor, Inv, Synced, Reading;
    var o := Open(c, file);
    var k := Parse(Body(file)).malformed;
    BootSafe(c, file);
    JournalFaithful(c, k);
    assert ReadableFiles(c, k)(Boot(o).store.disk);
    SpentOn(JournalMachine(c), Reading, ReadableFiles(c, k), Boot(o), steps, fp);
  }

  lemma SpentOn<D(!new)>(m: Machine<D>, read: D -> Known, good: D -> bool, s: Node<D>, steps: seq<Step>, fp: Block)
    requires Faithful(m, read, good) && good(s.store.disk) && Inv(Abs(read, s)) && IsRun(m, s, steps)
    requires fp !in s.counters && EntryOf(s.store.known, fp).persisted >= NONCE_LIMIT
    ensures CountFor(ReleasedOn(m, s, steps), fp) == 0
  {
    var a := Abs(read, s);
    RunRefines(m, read, good, s, steps);
    RunSafe(a, steps);
    ReleasesBounded(a, steps, fp);
    assert KeyInv(GcmRuns.Final(a, steps), fp);
    assert Floor(a, fp) <= Floor(GcmRuns.Final(a, steps), fp);
  }

  /** Once a reservation with a working write is refused, the key is never served again. */
  lemma RefusedForever(c: Crypto, file: bytes, steps: seq<Step>, i: nat, fp: Block, poison: WriteOutcome)
    requires Open(c, file).Opened? && (Open(c, file).integrityFailed || AppendSafe(Body(file)))
    requires IsRun(JournalMachine(c), Boot(Open(c, file)), steps) && i < |steps| && steps[i] == ReserveStep(fp, Written, poison)
    ensures var m, s := JournalMachine(c), Boot(Open(c, file));
            && IsRun(m, s, steps[..i]) && IsRun(m, s, steps[..i + 1])
            && IsRun(m, FinalOn(m, s, steps[..i + 1]), steps[i + 1..])
            && (DoOn(m, FinalOn(m, s, steps[..i]), steps[i]).1 == [] ==>
                  CountFor(ReleasedOn(m, FinalOn(m, s, steps[..i + 1]), steps[i + 1..]), fp) == 0)
  {
    hide Parse, Open, Body, AppendSafe, IsRun, FinalOn, ReleasedOn, DoOn, Inv, Synced, Reading;
    var m, s, o := JournalMachine(c), Boot(Open(c, file)), Open(c, file);
    RunSplit(m, s, steps, i);
    RunSplit(m, s, steps, i + 1);
    if o.integrityFailed {
      JournalStaysFailed(c);
      OpenIdempotent(c, file);
      assert FailingFiles(c)(s.store.disk);
      FailedReleasesNothing(m, FailingFiles(c), s, steps);
    } else {
      var k := Parse(Body(file)).malformed;
      BootSafe(c, file);
      JournalFaithful(c, k);
      assert ReadableFiles(c, k)(s.store.disk);
      RefusedOn(m, Reading, ReadableFiles(c, k), s, steps, i, fp, poison);
    }
  }

  lemma {:induction false} FinalStep<D>(m: Machine<D>, s: Node<D>, steps: seq<Step>, i: nat)
    requires IsRun(m, s, steps) && i < |steps| && IsRun(m, s, steps[..i]) && IsRun(m, s, steps[..i + 1])
    ensures Enabled(m, FinalOn(m, s, steps[..i]), steps[i])
    ensures FinalOn(m, s, steps[..i + 1]) == DoOn(m, FinalOn(m, s, steps[..i]), steps[i]).0
    decreases |steps|
  {
    hide DoOn, Enabled, IsRun, FinalOn;
    RunFirst(m, s, steps);
    RunFirst(m, s, steps[..i + 1]);
    var s1 := DoOn(m, s, steps[0]).0;
    if i == 0 {
      assert steps[..0] == [] && steps[..1][1..] == [];
      RunNothing(m, s);
      RunNothing(m, s1);
    } else {
      RunFirst(m, s, steps[..i]);
      assert steps[..i][1..] == steps[1..][..i - 1] && steps[..i + 1][1..] == steps[1..][..i];
      FinalStep(m, s1, steps[1..], i - 1);
    }
  }

  lemma RefusedOn<D(!new)>(m: Machine<D>, read: D -> Known, good: D -> bool, s: Node<D>, steps: seq<Step>, i: nat,
                           fp: Block, poison: WriteOutcome)
    requires Faithful(m, read, good) && good(s.store.disk) && Inv(Abs(read, s)) && IsRun(m, s, steps)
    requires i < |steps| && steps[i] == ReserveStep(fp, Written, poison)
    requires IsRun(m, s, steps[..i]) && IsRun(m, s, steps[..i + 1]) && IsRun(m, FinalOn(m, s, steps[..i + 1]), steps[i + 1..])
    ensures DoOn(m, FinalOn(m, s, steps[..i]), steps[i]).1 == [] ==>
              CountFor(ReleasedOn(m, FinalOn(m, s, steps[..i + 1]), steps[i + 1..]), fp) == 0
  {
    hide IsRun, FinalOn, ReleasedOn, Faithful, CountFor;
    var t := FinalOn(m, s, steps[..i]);
    RunRefines(m, read, good, s, steps[..i]);
    RunSafe(Abs(read, s), steps[..i]);
    FinalStep(m, s, steps, i);
    StepRefines(m, read, good, t, steps[i]);
    StepSafe(Abs(read, t), steps[i]);
    SpentBecause(Abs(read, t), fp, Written, poison);
    var u := DoOn(m, t, steps[i]).0;
    RunRefines(m, read, good, u, steps[i + 1..]);
    ReleasesBounded(Abs(read, u), steps[i + 1..], fp);
    RunSafe(Abs(read, u), steps[i + 1..]);
    assert KeyInv(GcmRuns.Final(Abs(read, u), steps[i + 1..]), fp);
  }

  /** The bytes after any run: they open, verify and show no line more malformed than
      at the start; a load stays strictly above every count released; and if no write
      failed, it answers for every key what the live handle answers, with the poison
      flag also set at 2^32. */
  lemma JournalAgrees(c: Crypto, file: bytes, steps: seq<Step>, fp: Block)
    requires Open(c, file).Opened? && !Open(c, file).integrityFailed && AppendSafe(Body(file))
    requires IsRun(JournalMachine(c), Boot(Open(c, file)), steps)
    ensures var m, s := JournalMachine(c), Boot(Open(c, file));
            var t := FinalOn(m, s, steps).store;
            var load, rel := Open(c, t.disk), ReleasedOn(m, s, steps);
            && load.Opened? && !load.integrityFailed && load.file == t.disk
            && Parse(Body(t.disk)).malformed == Parse(Body(file)).malformed
            && (forall i :: 0 <= i < |rel| ==> Above(EntryOf(load.known, rel[i].fp), rel[i].count))
            && (AllReliable(steps) ==> EntryOf(load.known, fp) == AsLoaded(EntryOf(t.known, fp)))
  {
    hide Parse, Open, Body, AppendSafe, IsRun, ReleasedOn, FinalOn, Inv, Synced, AllReliable;
    var o := Open(c, file);
    var k := Parse(Body(file)).malformed;
    BootSafe(c, file);
    JournalFaithful(c, k);
    assert ReadableFiles(c, k)(Boot(o).store.disk);
    AgreesOn(JournalMachine(c), Reading, ReadableFiles(c, k), Boot(o), steps, fp);
    var t := FinalOn(JournalMachine(c), Boot(o), steps).store;
    assert ReadableFiles(c, k)(t.disk);
    assert Readable(c, k, t.disk);
  }

  predicate Above(d: Entry, n: nat) {
    d.poisoned || d.persisted > n
  }

  lemma AgreesOn<D(!new)>(m: Machine<D>, read: D -> Known, good: D -> bool, s: Node<D>, steps: seq<Step>, fp: Block)
    requires Faithful(m, read, good) && good(s.store.disk) && IsRun(m, s, steps)
    requires Inv(Abs(read, s)) && Synced(Abs(read, s))
    ensures var t, rel := FinalOn(m, s, steps).store, ReleasedOn(m, s, steps);
            && good(t.disk)
            && (forall i :: 0 <= i < |rel| ==> Above(EntryOf(read(t.disk), rel[i].fp), rel[i].count))
            && (AllReliable(steps) ==> EntryOf(read(t.disk), fp) == AsLoaded(EntryOf(t.known, fp)))
  {
    var a := Abs(read, s);
    RunRefines(m, read, good, s, steps);
    var rel := GcmRuns.Released(a, steps);
    forall i | 0 <= i < |rel|
      ensures Above(EntryOf(read(FinalOn(m, s, steps).store.disk), rel[i].fp), rel[i].count)
    {
      JournalAboveReleases(a, steps, i);
    }
    if AllReliable(steps) {
      RunSynced(a, steps);
      assert KeySynced(GcmRuns.Final(a, steps), fp);
    }
  }

  // ----- a new journal ------------------------------------------------------------------------

  function RestartRun(fp: Block): seq<Step> {
    [ReserveStep(fp, Written, Written), RestartStep([]), ReserveStep(fp, Written, Written)]
  }

  /** Two reservations around a restart, over a machine whose reopened journal knows `e`. */
  lemma RestartRunReleases<D>(m: Machine<D>, s: Node<D>, fp: Block, again: Store<D>, e: Entry)
    requires !s.store.integrityFailed && fp !in s.store.known && fp !in s.counters
    requires m.reopen(m.write(s.store.disk, fp, Count(1 + BATCH_THRESHOLD)), []) == Some(again)
    requires !again.integrityFailed && EntryOf(again.known, fp) == e && !e.poisoned && e.persisted <= 1 + BATCH_THRESHOLD
    ensures IsRun(m, s, RestartRun(fp))
    ensures ReleasedOn(m, s, RestartRun(fp)) == [Release(fp, 1), Release(fp, e.persisted + 1)]
  {
    var steps := RestartRun(fp);
    var s1 := DoOn(m, s, steps[0]).0;
    assert s1.store.disk == m.write(s.store.disk, fp, Count(1 + BATCH_THRESHOLD));
    var s2 := DoOn(m, s1, steps[1]).0;
    var s3 := DoOn(m, s2, steps[2]).0;
    assert steps[1..][0] == steps[1] && steps[1..][1..][0] == steps[2] && steps[1..][1..][1..] == [];
    assert IsRun(m, s3, []) && ReleasedOn(m, s3, []) == [];
    assert IsRun(m, s2, steps[1..][1..]) && ReleasedOn(m, s2, steps[1..][1..]) == [Release(fp, e.persisted + 1)];
    assert IsRun(m, s1, steps[1..]) && ReleasedOn(m, s1, steps[1..]) == [Release(fp, e.persisted + 1)];
  }

  /** A new file meets the premises of the theorems above, and a restart skips what is left
      of the first window. */
  lemma NewJournalServes(c: Crypto, fp: Block)
    ensures Open(c, []) == Opened(map[], false, []) && AppendSafe(Body([]))
    ensures IsRun(JournalMachine(c), Boot(Open(c, [])), RestartRun(fp))
    ensures ReleasedOn(JournalMachine(c), Boot(Open(c, [])), RestartRun(fp)) == [Release(fp, 1), Release(fp, 1026)]
  {
    hide Parse, AppendSafe, Body, IsRun, ReleasedOn, WriteRecord, Apply;
    EmptyBody();
    EmptyAppendSafe();
    assert Open(c, []) == Opened(map[], false, []);
    var f := WriteRecord(c, [], fp, Count(1 + BATCH_THRESHOLD));
    WriteThenOpen(c, [], fp, Count(1 + BATCH_THRESHOLD));
    assert f + [] == f;
    assert EntryOf(Apply(map[], fp, Count(1 + BATCH_THRESHOLD)), fp) == Entry(1025, false) by { FirstEntry(fp); }
    RestartRunReleases(JournalMachine(c), Boot(Open(c, [])), fp, StoreOf(Open(c, f)).value, Entry(1025, false));
  }

  lemma FirstEntry(fp: Block)
    ensures EntryOf(Apply(map[], fp, Count(1 + BATCH_THRESHOLD)), fp) == Entry(1025, false)
  {
  }

  lemma EmptyAppendSafe()
    ensures AppendSafe([])
  {
    hide Trim, Decode;
    EmptyLine();
    assert Lines([]) == [[]];
  }
}
