/** Exactly which journals a process may start from: those to which records can be added, and
    those that the next record closes for good. */
module GcmUnsafe {
  import opened Wrappers
  import opened Text
  import opened GcmJournal
  import opened GcmFile
  import opened GcmProtocol
  import opened GcmRuns
  import opened GcmLedger
  import opened GcmRefinement
  import opened GcmBackend

  // ----- journals to which records cannot be added ----------------------------------------------

  /** The next record makes a seventeenth malformed line, and the file is refused from then on. */
  predicate ClosesOnWrite(body: bytes) {
    Parse(body).malformed == MAX_MALFORMED && EndsInRecord(body)
  }

  lemma UnsafeReopens(c: Crypto, file: bytes, fp: Block, kind: RecordKind)
    requires !AppendSafe(Body(file)) && fp !in Parse(Body(file)).known && (kind.Count? ==> kind.n < U64_LIMIT)
    requires Parse(Body(file)).malformed <= MAX_MALFORMED && !ClosesOnWrite(Body(file))
    ensures var f := WriteRecord(c, file, fp, kind);
            var o := Open(c, f);
            o.Opened? && !o.integrityFailed && o.file == f && EntryOf(o.known, fp) == Entry(0, false)
  {
    hide Parse, Open, Body, AppendSafe, WriteRecord, Record, EndsInRecord;
    WriteBody(c, file, fp, kind);
    AppendMalformed(Body(file), fp, kind);
    UnsafeWrite(c, file, fp, kind);
  }

  /** The code does repeat a count when the first process opens a journal that is not
      append-safe and stays open: the record of the first reservation is not read back. */
  lemma UnsafeJournalRepeats(c: Crypto, file: bytes, fp: Block)
    requires Open(c, file).Opened? && !Open(c, file).integrityFailed && fp !in Open(c, file).known
    requires !AppendSafe(Body(file)) && !ClosesOnWrite(Body(file))
    ensures IsRun(JournalMachine(c), Boot(Open(c, file)), RestartRun(fp))
    ensures ReleasedOn(JournalMachine(c), Boot(Open(c, file)), RestartRun(fp)) == [Release(fp, 1), Release(fp, 1)]
  {
    hide Parse, Open, Body, AppendSafe, WriteRecord, IsRun, ReleasedOn, ClosesOnWrite;
    var o := Open(c, file);
    OpenReadsBody(c, file);
    UnsafeReopens(c, o.file, fp, Count(1 + BATCH_THRESHOLD));
    var f := WriteRecord(c, o.file, fp, Count(1 + BATCH_THRESHOLD));
    assert f + [] == f;
    RestartRunReleases(JournalMachine(c), Boot(o), fp, StoreOf(Open(c, f)).value, Entry(0, false));
  }

  // ----- journals that the next record closes ----------------------------------------------------

  /** A file that never opens again. */
  ghost predicate Dead(c: Crypto, file: bytes) {
    Sealed(file) && Open(c, file) == OpenRefused && AppendSafe(Body(file)) && Parse(Body(file)).malformed > MAX_MALFORMED
  }

  lemma DeadStays(c: Crypto, file: bytes, fp: Block, kind: RecordKind)
    requires Dead(c, file) && (kind.Count? ==> kind.n < U64_LIMIT)
    ensures Dead(c, WriteRecord(c, file, fp, kind))
  {
    hide Parse, Open, Body, AppendSafe, WriteRecord, Record, Sealed;
    WriteBody(c, file, fp, kind);
    ParseAppend(Body(file), fp, kind);
  }

  lemma DeadIsClosed(c: Crypto, file: bytes, tail: bytes)
    requires Dead(c, file) && Leftover(file, tail)
    ensures Open(c, file + tail) == OpenRefused
  {
    hide Open, Body, AppendSafe, Parse, Sealed, NoFooterAfter, Content;
    if tail == [] {
      assert file + tail == file;
    } else {
      OpenSealedPart(c, file, tail);
    }
  }

  lemma ClosedByWrite(c: Crypto, file: bytes, fp: Block, kind: RecordKind)
    requires ClosesOnWrite(Body(file)) && (kind.Count? ==> kind.n < U64_LIMIT)
    ensures Dead(c, WriteRecord(c, file, fp, kind))
  {
    hide Parse, Open, Body, AppendSafe, WriteRecord, Record, Sealed, IsRecord;
    WriteBody(c, file, fp, kind);
    AppendMalformed(Body(file), fp, kind);
  }

  ghost function Just(f: bytes): bytes -> bool {
    (file: bytes) => file == f
  }

  ghost function DeadFiles(c: Crypto): bytes -> bool {
    (file: bytes) => Dead(c, file)
  }

  lemma ClosingFaithful(c: Crypto, f: bytes)
    requires ClosesOnWrite(Body(f)) && Open(c, f) == Opened(Reading(f), false, f)
    ensures FaithfulOrDead(JournalMachine(c), Reading, Just(f), DeadFiles(c))
  {
    hide Reading, Dead, Apply, WriteRecord, Open, ClosesOnWrite, Body;
    var m := JournalMachine(c);
    forall fp: Block, kind: RecordKind | kind.Count? ==> kind.n < U64_LIMIT
      ensures Dead(c, m.write(f, fp, kind))
    {
      ClosedByWrite(c, f, fp, kind);
    }
    forall file: bytes, fp: Block, kind: RecordKind | Dead(c, file) && (kind.Count? ==> kind.n < U64_LIMIT)
      ensures Dead(c, m.write(file, fp, kind))
    {
      DeadStays(c, file, fp, kind);
    }
    forall tail: bytes | m.reopen(f, tail).Some?
      ensures m.reopen(f, tail).value == Store(f, Reading(f), false)
    {
      ReopenSame(c, f, tail);
    }
    forall file: bytes, tail: bytes | Dead(c, file)
      ensures m.reopen(file, tail).None?
    {
      if Leftover(file, tail) {
        DeadIsClosed(c, file, tail);
      }
    }
  }

  lemma ReopenSame(c: Crypto, f: bytes, tail: bytes)
    requires Leftover(f, tail) && Open(c, f) == Opened(Reading(f), false, f)
    ensures Open(c, f + tail) == Opened(Reading(f), false, f)
  {
    hide Open, Reading, Sealed, NoFooterAfter, Content;
    if tail == [] {
      assert f + tail == f;
    } else {
      OpenIgnoresTail(c, f, tail);
    }
  }

  /** Such a journal serves one process and repeats nothing. */
  lemma ClosingNeverRepeats(c: Crypto, file: bytes, steps: seq<Step>)
    requires Open(c, file).Opened? && !Open(c, file).integrityFailed && ClosesOnWrite(Body(file))
    requires IsRun(JournalMachine(c), Boot(Open(c, file)), steps)
    ensures Rising(ReleasedOn(JournalMachine(c), Boot(Open(c, file)), steps))
  {
    hide Parse, Open, Body, IsRun, ReleasedOn, Inv, Synced, ClosesOnWrite, MarksLimit, Dead;
    var o := Open(c, file);
    OpenReadsBody(c, file);
    OpenIdempotent(c, file);
    ParseMarksLimit(Body(file));
    BootMap(o, Reading);
    ClosingFaithful(c, o.file);
    var a := Abs(Reading, Boot(o));
    RunTwins(JournalMachine(c), Reading, Just(o.file), DeadFiles(c), Boot(o), a, steps);
    RunSafe(a, steps);
  }

  ghost predicate NeverRepeats(m: Machine<bytes>, s: Node<bytes>) {
    forall steps: seq<Step> :: IsRun(m, s, steps) ==> Rising(ReleasedOn(m, s, steps))
  }

  /** Exactly which journals a process may start from: for every journal that opens and a key
      it has not seen, no run repeats a count if and only if the journal is append-safe or the
      next record closes it. */
  lemma NeverRepeatsIff(c: Crypto, file: bytes, fp: Block)
    requires Open(c, file).Opened? && !Open(c, file).integrityFailed && fp !in Open(c, file).known
    ensures NeverRepeats(JournalMachine(c), Boot(Open(c, file))) <==> AppendSafe(Body(file)) || ClosesOnWrite(Body(file))
  {
    hide Parse, Open, Body, AppendSafe, IsRun, ReleasedOn, Rising, ClosesOnWrite;
    var m, s := JournalMachine(c), Boot(Open(c, file));
    if AppendSafe(Body(file)) {
      forall steps: seq<Step> | IsRun(m, s, steps)
        ensures Rising(ReleasedOn(m, s, steps))
      {
        CountsNeverRepeat(c, file, steps, fp);
      }
    } else if ClosesOnWrite(Body(file)) {
      forall steps: seq<Step> | IsRun(m, s, steps)
        ensures Rising(ReleasedOn(m, s, steps))
      {
        ClosingNeverRepeats(c, file, steps);
      }
    } else {
      UnsafeJournalRepeats(c, file, fp);
      NotRising(m, s, RestartRun(fp), fp);
    }
  }

  lemma NotRising(m: Machine<bytes>, s: Node<bytes>, steps: seq<Step>, fp: Block)
    requires IsRun(m, s, steps) && ReleasedOn(m, s, steps) == [Release(fp, 1), Release(fp, 1)]
    ensures !NeverRepeats(m, s)
  {
    var rel := ReleasedOn(m, s, steps);
    assert rel[0].fp == rel[1].fp && rel[0].count == rel[1].count;
    assert !Rising(rel);
  }

  /** The smallest such journal: a single byte `x`, left without newline and footer. */
  lemma BareFragmentRepeats(c: Crypto, fp: Block)
    ensures var file: bytes := [0x78];
            && Open(c, file) == Opened(map[], false, file)
            && IsRun(JournalMachine(c), Boot(Open(c, file)), RestartRun(fp))
            && ReleasedOn(JournalMachine(c), Boot(Open(c, file)), RestartRun(fp)) == [Release(fp, 1), Release(fp, 1)]
  {
    hide Parse, AppendSafe, LastFooter, Body, IsRun, ReleasedOn;
    var file: bytes := [0x78];
    BareFragment(file);
    assert Open(c, file) == Opened(map[], false, file);
    UnsafeJournalRepeats(c, file, fp);
  }

  lemma BareFragment(file: bytes)
    requires file == [0x78]
    ensures Body(file) == file && LastFooter(Content(file)) == None && !UnknownVersion(file)
    ensures Parse(file) == Parsed(map[], 1) && !AppendSafe(file)
  {
    hide Parse, AppendSafe, LastFooter;
    assert Content(file) == file;
    ShortHasNoFooter(file);
    BareText(file, "x");
  }

  lemma ShortHasNoFooter(b: bytes)
    requires |b| < 5
    ensures LastFooter(b) == None
  {
    hide LineAt, IsUtf8;
    forall j: nat ensures !FooterAt(b, j) {
    }
  }

  lemma BareText(file: bytes, text: string)
    requires file == [0x78] && text == "x"
    ensures Parse(file) == Parsed(map[], 1) && !AppendSafe(file)
  {
    hide Decode, ParseLines, ParseFields, Trim, Lines;
    OneLetter(text);
    OneByte(file, text);
    ParseOneLine(Parsed(map[], 0), file);
    BareLine(Parsed(map[], 0), text);
  }

  lemma OneLetter(text: string)
    requires text == "x"
    ensures Trim(text) == text
  {
    hide TrimStart, TrimEnd;
    assert !IsSpace(text[0]);
    assert TrimStart(text) == text && TrimEnd(text) == text;
  }

  lemma OneByte(file: bytes, text: string)
    requires file == [0x78] && text == "x"
    ensures Lines(file) == [file] && Decode(file) == Some(text)
  {
    hide Decode, Encode;
    EncodeAscii(text);
    assert Ascii(text) == file;
    DecodeEncode(text);
  }

  lemma BareLine(p: Parsed, text: string)
    requires text == "x"
    ensures ParseFields(p, text) == p.(malformed := p.malformed + 1)
  {
  }

  // ----- a journal that the next record closes ---------------------------------------------------

  /** Malformed lines. */
  function Junk(k: nat): bytes {
    if k == 0 then [] else Junk(k - 1) + (Ascii("x") + [NEWLINE])
  }

  /** Sixteen malformed lines and a record that no newline ends. */
  function ClosingFile(fp: Block): bytes {
    Junk(MAX_MALFORMED) + Ascii(RecordText(fp, Count(1)))
  }

  lemma {:induction false} JunkParse(k: nat)
    ensures Parse(Junk(k)) == Prefix(Junk(k)) == Parsed(map[], k) && AllUtf8(Lines(Junk(k))) && Fragment(Junk(k)) == []
  {
    hide Parse, Lines, Decode, ParseLine, Prefix, Fragment, Ascii, Trim, AllUtf8;
    EmptyLine();
    if k == 0 {
      assert Parse([]) == Parsed(map[], 0) by { EmptyParse(); }
      assert AllUtf8(Lines([])) && Fragment([]) == [] by { EmptyLines(); }
    } else {
      JunkParse(k - 1);
      assert NoNewline(Ascii("x")) by { AsciiX(); }
      ParseExtended(Junk(k - 1), "x");
      assert "" + "x" == "x";
      JunkLine(Parsed(map[], k - 1), "x");
    }
    ParseSplit(Junk(k));
    BlankLine(Prefix(Junk(k)), "");
  }

  lemma EmptyLines()
    ensures AllUtf8(Lines([])) && Fragment([]) == []
  {
    hide Decode;
    EmptyLine();
    assert Lines([]) == [[]];
  }

  lemma AsciiX()
    ensures NoNewline(Ascii("x")) && Ascii("x") == [0x78]
  {
  }

  lemma JunkLine(p: Parsed, text: string)
    requires text == "x"
    ensures ParseLine(p, text) == p.(malformed := p.malformed + 1)
  {
    hide Trim, ParseFields;
    OneLetter(text);
    BareLine(p, text);
  }

  /** Text without a newline becomes the last line. */
  lemma {:induction false} Unterminated(b: bytes, t: bytes)
    requires Fragment(b) == [] && NoNewline(t)
    ensures WholeLines(b + t) == WholeLines(b) && Fragment(b + t) == t
    decreases |b|
  {
    hide FirstNewline;
    if b == [] {
      assert b + t == t && Lines(b) == [[]] && Lines(t) == [t];
    } else {
      var i := FirstNewline(b);
      var rest, all := b[i + 1..], b + t;
      assert all[..i] == b[..i] && all[i + 1..] == rest + t;
      assert forall k :: 0 <= k < i ==> all[k] == b[k];
      LinesFirst(all, i);
      Unterminated(rest, t);
    }
  }

  lemma RecordIsRecord(p: Parsed, fp: Block, text: string)
    requires text == RecordText(fp, Count(1))
    ensures ParseLine(p, text).malformed == p.malformed && IsRecord(text) && Trim(text) != ""
  {
    hide TrimStart, TrimEnd, ParseFields, RecordText, Apply;
    assert "" + text == text;
    assert Trim("") == "" by { EmptyLine(); }
    ParseRecordLine(p, "", fp, Count(1));
    ParseRecordLine(Parsed(map[], 0), "", fp, Count(1));
    TrimPadded("", text);
  }

  lemma NoHash(fp: Block, j: nat)
    requires j < |RecordText(fp, Count(1))|
    ensures RecordText(fp, Count(1))[j] != '#'
  {
    assert IsHexText(Hex(fp)) && IsDigits(Decimal(1));
  }

  lemma {:induction false} JunkBytes(k: nat)
    ensures 0x23 !in Junk(k) && (k > 0 ==> Junk(k) != [] && Junk(k)[0] == 0x78)
  {
    AsciiX();
    if k > 0 {
      JunkBytes(k - 1);
    }
  }

  lemma FooterHash(b: bytes, j: nat)
    ensures FooterAt(b, j) ==> j < |b| && b[j] == 0x23
  {
    hide IsUtf8;
    if FooterAt(b, j) {
      var line := LineAt(b, j);
      assert line[..5][0] == line[0] == b[j];
    }
  }

  lemma NoFooterWithoutHash(b: bytes)
    requires 0x23 !in b
    ensures LastFooter(b) == None
  {
    hide FooterAt, LastFooterUpTo;
    forall j: nat ensures !FooterAt(b, j) {
      FooterHash(b, j);
    }
  }

  lemma StartsFirst(b: bytes, prefix: bytes)
    requires prefix != []
    ensures StartsWith(b, prefix) ==> b != [] && b[0] == prefix[0]
  {
    if StartsWith(b, prefix) {
      assert b[..|prefix|][0] == b[0];
    }
  }

  lemma NotMarked(file: bytes)
    requires file != [] && file[0] == 0x78
    ensures !StartsWith(file, MARKER) && !UnknownVersion(file) && Content(file) == file
  {
    hide StartsWith;
    assert MARKER[0] != 0x78 && VERSION_PREFIX[0] != 0x78;
    StartsFirst(file, MARKER);
    StartsFirst(file, VERSION_PREFIX);
  }

  lemma ClosingParse(fp: Block)
    ensures var body := ClosingFile(fp); ClosesOnWrite(body) && !AppendSafe(body)
  {
    hide Parse, Lines, Decode, ParseLine, IsRecord, Ascii, Trim, RecordText, ParseLines, Junk;
    var text := RecordText(fp, Count(1));
    var body := ClosingFile(fp);
    JunkParse(MAX_MALFORMED);
    Unterminated(Junk(MAX_MALFORMED), Ascii(text));
    ParseSplit(Junk(MAX_MALFORMED));
    ParseSplit(body);
    assert Decode(Ascii(text)) == Some(text) by {
      EncodeAscii(text);
      DecodeEncode(text);
    }
    RecordIsRecord(Parsed(map[], MAX_MALFORMED), fp, text);
    RecordIsRecord(Parsed(map[], 0), fp, text);
  }

  /** Such a journal exists: it opens, is not append-safe and is closed by the next record. */
  lemma ClosingJournal(c: Crypto, fp: Block)
    ensures var file, o := ClosingFile(fp), Open(c, ClosingFile(fp));
            o.Opened? && !o.integrityFailed && !AppendSafe(Body(file)) && ClosesOnWrite(Body(file))
  {
    hide Parse, AppendSafe, LastFooter, Junk, Ascii, EndsInRecord;
    var file := ClosingFile(fp);
    ClosingParse(fp);
    JunkBytes(MAX_MALFORMED);
    assert 0x23 !in file by {
      forall j | 0 <= j < |RecordText(fp, Count(1))| ensures Ascii(RecordText(fp, Count(1)))[j] != 0x23 {
        NoHash(fp, j);
      }
    }
    NotMarked(file);
    NoFooterWithoutHash(file);
  }
}
