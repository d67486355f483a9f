/** The AES-GCM counter journal as bytes: record printer, record parser, integrity
    footer, and the load that a process performs when it opens the file. */
module GcmJournal {
  import opened Wrappers
  import opened Text

  /** Section 8.3 of NIST SP 800-38D: at most 2^32 invocations per key. */
  const NONCE_LIMIT := 0x1_0000_0000

  const BATCH_THRESHOLD := 1024
  const MAX_MALFORMED := 16
  const NEWLINE: byte := 10

  const MARKER: bytes := Ascii("craton-hsm-gcm-journal v1\n")
  const VERSION_PREFIX: bytes := Ascii("craton-hsm-gcm-journal ")
  const FOOTER_PREFIX: bytes := Ascii("#MAC ")

  /** Journal knowledge about one fingerprint. */
  datatype Entry = Entry(persisted: nat, poisoned: bool)

  type Known = map<Block, Entry>

  datatype RecordKind = Count(n: nat) | Poisoned

  datatype Parsed = Parsed(known: Known, malformed: nat)

  /** The keyed hash and the two keys derived from the journal's path. */
  datatype Crypto = Crypto(mac: (bytes, bytes) -> Block, key: bytes, legacyKey: bytes)

  function EntryOf(known: Known, fp: Block): Entry {
    if fp in known then known[fp] else Entry(0, false)
  }

  // ----- lines ------------------------------------------------------------------

  function FirstNewline(b: bytes): (r: nat)
    ensures r <= |b|
    ensures r < |b| ==> b[r] == NEWLINE
    ensures forall k :: 0 <= k < r ==> b[k] != NEWLINE
  {
    if b == [] then 0 else if b[0] == NEWLINE then 0 else 1 + FirstNewline(b[1..])
  }

  /** The newline-separated pieces of `b`; the last one may be empty. */
  function Lines(b: bytes): (ls: seq<bytes>)
    ensures ls != []
    decreases |b|
  {
    var i := FirstNewline(b);
    if i == |b| then [b] else [b[..i]] + Lines(b[i + 1..])
  }

  function Fragment(b: bytes): bytes {
    var ls := Lines(b);
    ls[|ls| - 1]
  }

  function WholeLines(b: bytes): seq<bytes> {
    var ls := Lines(b);
    ls[..|ls| - 1]
  }

  predicate NoNewline(b: bytes) {
    forall k :: 0 <= k < |b| ==> b[k] != NEWLINE
  }

  lemma FirstNewlineUnique(b: bytes, i: nat)
    requires i <= |b| && NoNewline(b[..i]) && (i < |b| ==> b[i] == NEWLINE)
    ensures FirstNewline(b) == i
  {
    assert forall k :: 0 <= k < i ==> b[..i][k] == b[k];
  }

  lemma LinesFirst(b: bytes, i: nat)
    requires i <= |b| && NoNewline(b[..i]) && (i < |b| ==> b[i] == NEWLINE)
    ensures Lines(b) == if i == |b| then [b] else [b[..i]] + Lines(b[i + 1..])
    ensures i < |b| ==> WholeLines(b) == [b[..i]] + WholeLines(b[i + 1..]) && Fragment(b) == Fragment(b[i + 1..])
    ensures i == |b| ==> WholeLines(b) == [] && Fragment(b) == b
  {
    hide FirstNewline;
    FirstNewlineUnique(b, i);
  }

  lemma {:induction false} LinesAppend(body: bytes, line: bytes)
    requires NoNewline(line)
    ensures Lines(body + line + [NEWLINE]) == WholeLines(body) + [Fragment(body) + line, []]
    decreases |body|
  {
    hide Lines, FirstNewline, WholeLines, Fragment;
    var all := body + line + [NEWLINE];
    var i := FirstNewline(body);
    LinesFirst(body, i);
    if i == |body| {
      var n := |body + line|;
      assert all[..n] == body + line && all[n + 1..] == [];
      LinesFirst(all, n);
      LinesFirst([], 0);
    } else {
      var rest := body[i + 1..];
      assert all[..i] == body[..i] && all[i + 1..] == rest + line + [NEWLINE];
      LinesFirst(all, i);
      LinesAppend(rest, line);
    }
  }

  // ----- record text ----------------------------------------------------------------

  /** The length of the text before the first blank. */
  function FirstBlank(s: string): (r: nat)
    ensures r <= |s|
    ensures r < |s| ==> s[r] == ' '
    ensures forall k :: 0 <= k < r ==> s[k] != ' '
  {
    if s == "" || s[0] == ' ' then 0 else 1 + FirstBlank(s[1..])
  }

  function ParseHex32(s: string): (r: Option<Block>) {
    if |Encode(s)| != 64 then None
    else match UnHex(Encode(s))
      case None => None
      case Some(b) => Some(b)
  }

  function ValueText(kind: RecordKind): (s: string)
    ensures s != "" && IsAscii(s)
    ensures !IsSpace(s[|s| - 1]) && (forall k :: 0 <= k < |s| ==> s[k] as int != NEWLINE)
  {
    match kind
    case Count(n) => Decimal(n)
    case Poisoned => "POISONED"
  }

  function RecordText(fp: Block, kind: RecordKind): (s: string)
    ensures |s| >= 66 && IsAscii(s)
    ensures !IsSpace(s[0]) && s[0] != '#' && !IsSpace(s[|s| - 1])
    ensures forall k :: 0 <= k < |s| ==> s[k] as int != NEWLINE
  {
    Hex(fp) + " " + ValueText(kind)
  }

  function Record(fp: Block, kind: RecordKind): bytes {
    Encode(RecordText(fp, kind) + "\n")
  }

  // ----- the record parser ----------------------------------------------------------

  /** One record line.  The entry comes into being before its value is looked at. */
  function ParseValue(p: Parsed, fp: Block, val: string): Parsed {
    var e := EntryOf(p.known, fp);
    if val == "POISONED" then
      p.(known := p.known[fp := Entry(NONCE_LIMIT, true)])
    else match ParseU64(val)
      case Some(n) =>
        p.(known := p.known[fp := Entry(if n > e.persisted then n else e.persisted, e.poisoned || n >= NONCE_LIMIT)])
      case None =>
        Parsed(p.known[fp := e], p.malformed + 1)
  }

  function ParseFields(p: Parsed, t: string): Parsed {
    var sp := FirstBlank(t);
    if sp == |t| then p.(malformed := p.malformed + 1)
    else match ParseHex32(t[..sp])
      case None => p.(malformed := p.malformed + 1)
      case Some(fp) => ParseValue(p, fp, t[sp + 1..])
  }

  function ParseLine(p: Parsed, text: string): Parsed {
    var t := Trim(text);
    if t == "" || t[0] == '#' then p else ParseFields(p, t)
  }

  /** Lines in order, up to the first one that is not UTF-8. */
  function ParseLines(p: Parsed, lines: seq<bytes>): Parsed
    decreases |lines|
  {
    if lines == [] then p
    else match Decode(lines[0])
      case None => p
      case Some(text) => ParseLines(ParseLine(p, text), lines[1..])
  }

  function Parse(body: bytes): Parsed {
    ParseLines(Parsed(map[], 0), Lines(body))
  }

  predicate AllUtf8(lines: seq<bytes>) {
    forall k :: 0 <= k < |lines| ==> IsUtf8(lines[k])
  }

  lemma {:induction false} ParseLinesConcat(p: Parsed, xs: seq<bytes>, ys: seq<bytes>)
    ensures ParseLines(p, xs + ys) ==
            if AllUtf8(xs) then ParseLines(ParseLines(p, xs), ys) else ParseLines(p, xs)
    decreases |xs|
  {
    hide ParseLine, Decode;
    if xs == [] {
      assert xs + ys == ys;
    } else {
      assert (xs + ys)[1..] == xs[1..] + ys;
      match Decode(xs[0])
      case None =>
      case Some(text) =>
        ParseLinesConcat(ParseLine(p, text), xs[1..], ys);
        assert AllUtf8(xs) <==> AllUtf8(xs[1..]) by {
          assert forall k :: 1 <= k < |xs| ==> xs[k] == xs[1..][k - 1];
        }
    }
  }

  /** `parse_records`: the loop over the lines of a body. */
  method ParseRecords(body: bytes) returns (known: Known, malformed: nat)
    ensures Parsed(known, malformed) == Parse(body)
  {
    var lines := Lines(body);
    var p := Parsed(map[], 0);
    var i := 0;
    while i < |lines|
      invariant 0 <= i <= |lines|
      invariant ParseLines(p, lines[i..]) == Parse(body)
    {
      match Decode(lines[i]) {
        case None => break;
        case Some(text) =>
          p := ParseLine(p, text);
          assert lines[i..][1..] == lines[i + 1..];
          i := i + 1;
      }
    }
    assert ParseLines(p, lines[i..]) == p;
    known, malformed := p.known, p.malformed;
  }

  // ----- appending a record -----------------------------------------------------------

  /** What one record does to the map that a load builds. */
  function Apply(known: Known, fp: Block, kind: RecordKind): Known {
    var e := EntryOf(known, fp);
    match kind
    case Count(n) => known[fp := Entry(if n > e.persisted then n else e.persisted, e.poisoned || n >= NONCE_LIMIT)]
    case Poisoned => known[fp := Entry(NONCE_LIMIT, true)]
  }

  /** A body to which a record can be added: every line is UTF-8 and nothing but
      white space stands after the last newline. */
  predicate AppendSafe(body: bytes) {
    AllUtf8(Lines(body)) && Trim(Decode(Fragment(body)).value) == ""
  }

  lemma TrimPadded(pad: string, s: string)
    requires s != "" && !IsSpace(s[0]) && !IsSpace(s[|s| - 1])
    ensures Trim(pad) == "" ==> Trim(pad + s) == s
    ensures TrimStart(pad) != "" ==> Trim(pad + s) == TrimStart(pad) + s
    ensures Trim(pad) == "" <==> TrimStart(pad) == ""
  {
    hide TrimStart, TrimEnd, IsSpace;
    TrimStartPadded(pad, s);
    TrimEndNothing(TrimStart(pad), s);
    TrimBlank(pad);
    assert TrimStart(pad) == "" ==> TrimStart(pad) + s == s;
  }

  lemma TrimEndNothing(pad: string, s: string)
    requires s != "" && !IsSpace(s[|s| - 1])
    ensures TrimEnd(pad + s) == pad + s
  {
    hide IsSpace;
  }

  lemma TrimBlank(pad: string)
    ensures Trim(pad) == "" <==> TrimStart(pad) == ""
  {
    hide TrimStart, TrimEnd, IsSpace;
    assert TrimEnd("") == "";
  }

  lemma {:induction false} TrimStartPadded(pad: string, s: string)
    requires s != "" && !IsSpace(s[0])
    ensures TrimStart(pad + s) == TrimStart(pad) + s
  {
    if pad != "" && IsSpace(pad[0]) {
      assert (pad + s)[1..] == pad[1..] + s;
      TrimStartPadded(pad[1..], s);
    } else if pad == "" {
      assert pad + s == s;
    }
  }

  lemma RecordBytes(fp: Block, kind: RecordKind)
    ensures Record(fp, kind) == Ascii(RecordText(fp, kind)) + [NEWLINE]
    ensures NoNewline(Ascii(RecordText(fp, kind)))
  {
    var t := RecordText(fp, kind);
    EncodeAscii(t);
    EncodeConcat(t, "\n");
    EncodeAscii("\n");
  }

  lemma ParseHexField(fp: Block)
    ensures ParseHex32(Hex(fp)) == Some(fp)
  {
    UnHexHex(fp);
    EncodeAscii(Hex(fp));
  }

  lemma ParseRecordValue(p: Parsed, fp: Block, kind: RecordKind)
    requires kind.Count? ==> kind.n < U64_LIMIT
    ensures ParseValue(p, fp, ValueText(kind)) == p.(known := Apply(p.known, fp, kind))
  {
    if kind.Count? {
      ParseDecimal(kind.n);
      assert Decimal(kind.n)[0] != 'P';
    }
  }

  lemma ParseTwoFields(p: Parsed, h: string, v: string, fp: Block)
    requires ParseHex32(h) == Some(fp)
    requires forall k :: 0 <= k < |h| ==> h[k] != ' '
    ensures ParseFields(p, h + " " + v) == ParseValue(p, fp, v)
  {
    var t := h + " " + v;
    FirstBlankAt(t, |h|);
    assert t[..|h|] == h && t[|h| + 1..] == v;
  }

  lemma ParseRecordFields(p: Parsed, fp: Block, kind: RecordKind)
    requires kind.Count? ==> kind.n < U64_LIMIT
    ensures ParseFields(p, RecordText(fp, kind)) == p.(known := Apply(p.known, fp, kind))
  {
    hide ParseFields, ParseValue, Hex, ValueText, Apply;
    ParseHexField(fp);
    ParseTwoFields(p, Hex(fp), ValueText(kind), fp);
    ParseRecordValue(p, fp, kind);
  }

  /** A written record, after any amount of white space, is read as what it says. */
  lemma ParseRecordLine(p: Parsed, pad: string, fp: Block, kind: RecordKind)
    requires Trim(pad) == ""
    requires kind.Count? ==> kind.n < U64_LIMIT
    ensures ParseLine(p, pad + RecordText(fp, kind)) == p.(known := Apply(p.known, fp, kind))
  {
    hide TrimStart, TrimEnd, ParseFields, Apply, RecordText;
    TrimPadded(pad, RecordText(fp, kind));
    ParseRecordFields(p, fp, kind);
  }

  lemma FirstBlankAt(s: string, i: nat)
    requires i < |s| && s[i] == ' ' && (forall k :: 0 <= k < i ==> s[k] != ' ')
    ensures FirstBlank(s) == i
  {
  }

  /** What the parser has built before it reaches the unterminated last line. */
  function Prefix(body: bytes): Parsed {
    ParseLines(Parsed(map[], 0), WholeLines(body))
  }

  lemma ParseOneLine(p: Parsed, line: bytes)
    ensures ParseLines(p, [line]) == if IsUtf8(line) then ParseLine(p, Decode(line).value) else p
    ensures ParseLines(p, [line, []]) == ParseLines(p, [line])
  {
    hide ParseFields;
    var two: seq<bytes> := [line, []];
    assert two[1..] == [[]] && two[1..][1..] == [] && [line][1..] == [];
    assert Decode([]) == Some("") && Trim("") == "";
  }

  lemma EmptyLine()
    ensures IsUtf8([]) && Decode([]) == Some("") && Trim("") == ""
  {
  }

  lemma BlankLine(p: Parsed, text: string)
    requires Trim(text) == ""
    ensures ParseLine(p, text) == p
  {
    hide TrimStart, TrimEnd;
  }

  lemma AllUtf8Concat(xs: seq<bytes>, ys: seq<bytes>)
    ensures AllUtf8(xs + ys) <==> AllUtf8(xs) && AllUtf8(ys)
  {
    assert forall k :: 0 <= k < |xs| ==> (xs + ys)[k] == xs[k];
    assert forall k :: 0 <= k < |ys| ==> (xs + ys)[|xs| + k] == ys[k];
  }

  lemma ParseSplit(body: bytes)
    ensures Parse(body) ==
            if AllUtf8(Lines(body)) then ParseLine(Prefix(body), Decode(Fragment(body)).value) else Prefix(body)
    ensures AllUtf8(Lines(body)) <==> AllUtf8(WholeLines(body)) && IsUtf8(Fragment(body))
  {
    hide ParseLines, Lines, Decode, ParseLine;
    var whole, frag := WholeLines(body), Fragment(body);
    assert Lines(body) == whole + [frag];
    ParseLinesConcat(Parsed(map[], 0), whole, [frag]);
    ParseOneLine(Prefix(body), frag);
  }

  /** The effect of any ASCII line written after `body`: it is glued to the
      unterminated last line, and it is lost if the parser never gets that far. */
  lemma ParseExtended(body: bytes, text: string)
    requires text != "" && IsAscii(text) && NoNewline(Ascii(text))
    ensures Parse(body + (Ascii(text) + [NEWLINE])) ==
            if AllUtf8(Lines(body)) then ParseLine(Prefix(body), Decode(Fragment(body)).value + text) else Prefix(body)
    ensures AllUtf8(Lines(body + (Ascii(text) + [NEWLINE]))) <==> AllUtf8(Lines(body))
    ensures Fragment(body + (Ascii(text) + [NEWLINE])) == []
  {
    hide ParseLines, ParseLine, Lines, Decode, Ascii, Trim;
    var whole, frag := WholeLines(body), Fragment(body);
    var line := frag + Ascii(text);
    var after := body + (Ascii(text) + [NEWLINE]);
    assert Lines(after) == whole + [line, []] by {
      assert after == body + Ascii(text) + [NEWLINE];
      LinesAppend(body, Ascii(text));
    }
    DecodeThenAscii(frag, text);
    ParseLinesConcat(Parsed(map[], 0), whole, [line, []]);
    ParseOneLine(Prefix(body), line);
    AllUtf8Concat(whole, [frag]);
    AllUtf8Concat(whole, [line, []]);
    EmptyLine();
    var two: seq<bytes> := [line, []];
    assert [frag][0] == frag && two[0] == line && two[1] == [];
    assert Lines(body) == whole + [frag];
  }

  /** The heart of the journal: adding a record to an append-safe body changes
      what a load sees by exactly that record, and leaves the body append-safe. */
  lemma ParseAppend(body: bytes, fp: Block, kind: RecordKind)
    requires AppendSafe(body)
    requires kind.Count? ==> kind.n < U64_LIMIT
    ensures Parse(body + Record(fp, kind)) == Parse(body).(known := Apply(Parse(body).known, fp, kind))
    ensures AppendSafe(body + Record(fp, kind))
  {
    hide ParseLines, ParseLine, Lines, RecordText, Record, Apply, Decode, Trim, Ascii;
    RecordBytes(fp, kind);
    ParseSplit(body);
    ParseExtended(body, RecordText(fp, kind));
    ParseRecordLine(Prefix(body), Decode(Fragment(body)).value, fp, kind);
    BlankLine(Prefix(body), Decode(Fragment(body)).value);
    EmptyLine();
  }

  // ----- appending to any other body ---------------------------------------------------

  lemma {:induction false} EncodeLength(s: string)
    ensures |Encode(s)| >= |s|
  {
    if s != "" {
      EncodeLength(s[1..]);
    }
  }

  lemma NoBlankInValue(val: string, k: nat)
    requires k < |val| && val[k] == ' '
    ensures val != "POISONED" && ParseU64(val) == None
  {
    var digits := if |val| > 1 && val[0] == '+' then val[1..] else val;
    assert |digits| == |val| ==> digits[k] == ' ';
    assert |digits| < |val| ==> digits[k - 1] == ' ';
  }

  /** A line made of left-over text and two more fields is malformed and never sets an entry. */
  lemma GluedFields(p: Parsed, left: string, h: string, v: string, fp: Block)
    requires left != "" && |h| == 64 && (forall k :: 0 <= k < 64 ==> h[k] != ' ')
    ensures EntryOf(ParseFields(p, left + (h + " " + v)).known, fp) == EntryOf(p.known, fp)
    ensures ParseFields(p, left + (h + " " + v)).malformed == p.malformed + 1
  {
    var t := left + (h + " " + v);
    var sp := FirstBlank(t);
    var b := |left| + 64;
    assert t[b] == ' ';
    if sp < |left| {
      var val := t[sp + 1..];
      assert val[b - sp - 1] == ' ';
      NoBlankInValue(val, b - sp - 1);
    } else {
      assert forall k :: |left| <= k < b ==> t[k] == h[k - |left|];
      assert sp == b;
      EncodeLength(t[..sp]);
    }
  }

  lemma ParseLineKeepsKey(p: Parsed, text: string, fp: Block)
    requires fp !in ParseLine(p, text).known
    ensures fp !in p.known
  {
    hide TrimStart, TrimEnd, FirstBlank, ParseHex32, ParseU64;
    var t := Trim(text);
    var sp := FirstBlank(t);
    if t != "" && t[0] != '#' && sp < |t| && ParseHex32(t[..sp]).Some? {
      var known := ParseValue(p, ParseHex32(t[..sp]).value, t[sp + 1..]).known;
      assert known == ParseLine(p, text).known;
    }
  }

  /** The converse of `ParseAppend`: after any body that is not append-safe, the
      record of a fingerprint unknown so far is not read back. */
  lemma UnsafeAppendLosesRecord(body: bytes, fp: Block, kind: RecordKind)
    requires !AppendSafe(body) && fp !in Parse(body).known
    ensures EntryOf(Parse(body + Record(fp, kind)).known, fp) == Entry(0, false)
  {
    hide ParseLines, ParseLine, Lines, RecordText, Decode;
    var p := Prefix(body);
    RecordBytes(fp, kind);
    ParseSplit(body);
    ParseExtended(body, RecordText(fp, kind));
    if AllUtf8(Lines(body)) {
      var q := Decode(Fragment(body)).value;
      ParseLineKeepsKey(p, q, fp);
      GluedLine(p, q, fp, kind, fp);
    }
  }

  lemma GluedLine(p: Parsed, q: string, fp: Block, kind: RecordKind, other: Block)
    requires Trim(q) != ""
    ensures EntryOf(ParseLine(p, q + RecordText(fp, kind)).known, other) == EntryOf(p.known, other)
    ensures ParseLine(p, q + RecordText(fp, kind)).malformed == p.malformed + if Trim(q)[0] == '#' then 0 else 1
  {
    hide TrimStart, TrimEnd, ParseFields, Hex, ValueText;
    var t := RecordText(fp, kind);
    TrimPadded(q, t);
    GluedFields(p, TrimStart(q), Hex(fp), ValueText(kind), other);
    assert Trim(q)[0] == TrimStart(q)[0];
  }

  /** The unterminated last line is itself a well-formed record. */
  predicate IsRecord(text: string) {
    var t := Trim(text);
    t != "" && t[0] != '#' && ParseFields(Parsed(map[], 0), t).malformed == 0
  }

  predicate EndsInRecord(body: bytes) {
    AllUtf8(Lines(body)) && IsRecord(Decode(Fragment(body)).value)
  }

  /** Exactly when a record adds a malformed line: glued to an unterminated record it spoils
      that record too; glued to anything else it makes nothing worse. */
  lemma AppendMalformed(body: bytes, fp: Block, kind: RecordKind)
    requires kind.Count? ==> kind.n < U64_LIMIT
    ensures Parse(body + Record(fp, kind)).malformed == Parse(body).malformed + if EndsInRecord(body) then 1 else 0
    ensures AllUtf8(Lines(body)) ==> AppendSafe(body + Record(fp, kind))
  {
    hide ParseLines, ParseLine, Lines, RecordText, Decode, IsRecord, Trim;
    RecordBytes(fp, kind);
    ParseSplit(body);
    ParseExtended(body, RecordText(fp, kind));
    EmptyLine();
    if AllUtf8(Lines(body)) {
      GluedMalformed(Prefix(body), Decode(Fragment(body)).value, fp, kind);
    }
  }

  lemma GluedMalformed(p: Parsed, q: string, fp: Block, kind: RecordKind)
    requires kind.Count? ==> kind.n < U64_LIMIT
    ensures ParseLine(p, q + RecordText(fp, kind)).malformed == ParseLine(p, q).malformed + if IsRecord(q) then 1 else 0
  {
    hide Trim, ParseFields, RecordText;
    if Trim(q) == "" {
      ParseRecordLine(p, q, fp, kind);
    } else {
      GluedLine(p, q, fp, kind, fp);
      FieldsMalformed(p, Trim(q));
    }
  }

  lemma FieldsMalformed(p: Parsed, t: string)
    ensures ParseFields(p, t).malformed == p.malformed + ParseFields(Parsed(map[], 0), t).malformed
    ensures ParseFields(Parsed(map[], 0), t).malformed <= 1
  {
    hide FirstBlank, ParseHex32, ParseU64;
  }

  /** A load marks an entry as poisoned exactly from the limit on. */
  predicate MarksLimit(known: Known) {
    forall fp :: fp in known ==> (known[fp].poisoned <==> known[fp].persisted >= NONCE_LIMIT)
  }

  lemma ParseLineMarksLimit(p: Parsed, text: string)
    requires MarksLimit(p.known)
    ensures MarksLimit(ParseLine(p, text).known)
  {
    hide TrimStart, TrimEnd, FirstBlank, ParseHex32, ParseValue;
    var t := Trim(text);
    var sp := FirstBlank(t);
    if t != "" && t[0] != '#' && sp < |t| && ParseHex32(t[..sp]).Some? {
      ParseValueMarksLimit(p, ParseHex32(t[..sp]).value, t[sp + 1..]);
    }
  }

  lemma ParseValueMarksLimit(p: Parsed, fp: Block, val: string)
    requires MarksLimit(p.known)
    ensures MarksLimit(ParseValue(p, fp, val).known)
  {
    hide ParseU64;
  }

  lemma {:induction false} ParseLinesMarksLimit(p: Parsed, lines: seq<bytes>)
    requires MarksLimit(p.known)
    ensures MarksLimit(ParseLines(p, lines).known)
    decreases |lines|
  {
    hide ParseLine, Decode;
    if lines != [] && IsUtf8(lines[0]) {
      var text := Decode(lines[0]).value;
      ParseLineMarksLimit(p, text);
      ParseLinesMarksLimit(ParseLine(p, text), lines[1..]);
    }
  }

  lemma ParseMarksLimit(body: bytes)
    ensures MarksLimit(Parse(body).known)
  {
    hide ParseLines, Lines;
    ParseLinesMarksLimit(Parsed(map[], 0), Lines(body));
  }
}
