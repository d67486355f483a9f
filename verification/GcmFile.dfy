/** The journal file around the records: version marker, integrity footer, the
    backwards footer scan, loading, truncating recovery and rewriting. */
module GcmFile {
  import opened Wrappers
  import opened Text
  import opened GcmJournal

  // ----- the footer -----------------------------------------------------------------

  function LineAt(b: bytes, i: nat): bytes
    requires i <= |b|
  {
    b[i..][..FirstNewline(b[i..])]
  }

  /** A newline-terminated UTF-8 line starting with `#MAC ` begins at `i`. */
  predicate FooterAt(b: bytes, i: nat) {
    && i <= |b|
    && (i == 0 || b[i - 1] == NEWLINE)
    && i + |LineAt(b, i)| < |b|
    && StartsWith(LineAt(b, i), FOOTER_PREFIX)
    && IsUtf8(LineAt(b, i)[5..])
  }

  function LastFooterUpTo(b: bytes, hi: nat): (r: Option<nat>)
    ensures r.Some? ==> r.value <= hi && FooterAt(b, r.value) && forall j :: r.value < j <= hi ==> !FooterAt(b, j)
    ensures r.None? ==> forall j :: 0 <= j <= hi ==> !FooterAt(b, j)
  {
    if FooterAt(b, hi) then Some(hi) else if hi == 0 then None else LastFooterUpTo(b, hi - 1)
  }

  function LastFooter(b: bytes): Option<nat> {
    LastFooterUpTo(b, |b|)
  }

  lemma LastFooterIs(b: bytes, i: nat)
    requires FooterAt(b, i) && forall j :: i < j <= |b| ==> !FooterAt(b, j)
    ensures LastFooter(b) == Some(i)
  {
  }

  predicate OccursAt(haystack: bytes, needle: bytes, k: nat) {
    k + |needle| <= |haystack| && haystack[k..k + |needle|] == needle
  }

  /** `find_last_subslice`: the rightmost occurrence of a non-empty needle. */
  method FindLastSubslice(haystack: bytes, needle: bytes) returns (r: Option<nat>)
    ensures r.Some? ==> needle != [] && OccursAt(haystack, needle, r.value)
    ensures r.Some? ==> forall j :: r.value < j ==> !OccursAt(haystack, needle, j)
    ensures r.None? && needle != [] ==> forall j :: !OccursAt(haystack, needle, j)
  {
    if needle == [] || |haystack| < |needle| {
      return None;
    }
    var k := |haystack| - |needle| + 1;
    while k > 0
      invariant k + |needle| <= |haystack| + 1
      invariant forall j :: k <= j ==> !OccursAt(haystack, needle, j)
    {
      k := k - 1;
      if haystack[k..k + |needle|] == needle {
        return Some(k);
      }
    }
    return None;
  }

  const NEEDLE: bytes := [NEWLINE] + FOOTER_PREFIX

  lemma FooterIsOccurrence(b: bytes, j: nat)
    requires 0 < j && FooterAt(b, j)
    ensures OccursAt(b, NEEDLE, j - 1)
    ensures forall k :: j <= k < j + 5 ==> b[k] != NEWLINE
  {
    var line := LineAt(b, j);
    assert forall k :: 0 <= k < |line| ==> line[k] == b[j + k];
    assert line[..5] == FOOTER_PREFIX;
    assert forall k :: 0 <= k < 5 ==> b[j + k] == FOOTER_PREFIX[k];
    assert b[j - 1..j + 5] == NEEDLE;
  }

  /** `split_footer`: scan backwards for the last usable footer line.  Giving up the
      text from a rejected candidate on loses no other candidate, because a line
      start cannot lie inside another candidate's `#MAC `. */
  method SplitFooter(all: bytes) returns (r: Option<(bytes, string)>)
    ensures r.None? <==> LastFooter(all).None?
    ensures r.Some? ==> var i := LastFooter(all).value;
                        r.value.0 == all[..i] && Some(r.value.1) == Decode(LineAt(all, i)[5..])
  {
    var searchEnd: nat := |all|;
    while true
      invariant ScanInvariant(all, searchEnd)
      invariant StartsWith(all, FOOTER_PREFIX) ==> searchEnd >= 5
      decreases searchEnd
    {
      var found := FindLastSubslice(all[..searchEnd], NEEDLE);
      var idx := 0;
      match found {
        case Some(p) =>
          idx := p + 1;
          CandidateBytes(all, searchEnd, p);
        case None =>
          if !(StartsWith(all, FOOTER_PREFIX) && searchEnd >= 5) {
            NoCandidate(all, searchEnd);
            return None;
          }
      }
      LastCandidate(all, searchEnd, idx, found);
      var line := LineAt(all, idx);
      if |line| < |all| - idx && StartsWith(line, FOOTER_PREFIX) {
        match Decode(line[5..]) {
          case Some(tag) =>
            LastFooterIs(all, idx);
            return Some((all[..idx], tag));
          case None =>
        }
      }
      assert !FooterAt(all, idx);
      if idx == 0 {
        return None;
      }
      EarlierCandidates(all, idx);
      searchEnd := idx - 1;
    }
  }

  lemma CandidateBytes(all: bytes, end: nat, p: nat)
    requires end <= |all| && OccursAt(all[..end], NEEDLE, p)
    ensures p + 6 <= end && all[p] == NEWLINE && OccursAt(all, NEEDLE, p)
  {
    assert all[..end][p..p + 6] == all[p..p + 6];
    assert all[p..p + 6][0] == NEEDLE[0];
  }

  ghost predicate ScanInvariant(all: bytes, end: nat) {
    && end <= |all|
    && (forall j :: 0 < j && FooterAt(all, j) ==> j + 5 <= end)
  }

  lemma LastCandidate(all: bytes, end: nat, idx: nat, found: Option<nat>)
    requires ScanInvariant(all, end)
    requires found.Some? ==> idx == found.value + 1 && forall j :: found.value < j ==> !OccursAt(all[..end], NEEDLE, j)
    requires found.None? ==> idx == 0 && forall j :: !OccursAt(all[..end], NEEDLE, j)
    ensures forall j :: idx < j && FooterAt(all, j) ==> false
  {
    forall j | idx < j && FooterAt(all, j)
      ensures false
    {
      FooterIsOccurrence(all, j);
      assert all[..end][j - 1..j + 5] == all[j - 1..j + 5];
      assert OccursAt(all[..end], NEEDLE, j - 1);
    }
  }

  lemma NoCandidate(all: bytes, end: nat)
    requires ScanInvariant(all, end) && !StartsWith(all, FOOTER_PREFIX)
    requires forall j :: !OccursAt(all[..end], NEEDLE, j)
    ensures LastFooter(all) == None
  {
    LastCandidate(all, end, 0, None);
    if FooterAt(all, 0) {
      FooterAtStart(all);
    }
  }

  lemma FooterAtStart(all: bytes)
    requires FooterAt(all, 0)
    ensures StartsWith(all, FOOTER_PREFIX)
  {
    assert all[..5] == LineAt(all, 0)[..5];
  }

  lemma EarlierCandidates(all: bytes, idx: nat)
    requires 0 < idx <= |all| && all[idx - 1] == NEWLINE
    ensures forall j :: 0 < j < idx && FooterAt(all, j) ==> j + 5 <= idx - 1
    ensures StartsWith(all, FOOTER_PREFIX) ==> idx - 1 >= 5
  {
    forall j | 0 < j < idx && FooterAt(all, j)
      ensures j + 5 <= idx - 1
    {
      FooterIsOccurrence(all, j);
    }
    if StartsWith(all, FOOTER_PREFIX) {
      assert forall k :: 0 <= k < 5 ==> all[k] == all[..5][k] == FOOTER_PREFIX[k];
    }
  }

  // ----- loading ----------------------------------------------------------------------

  function Offset(file: bytes): (r: nat)
    ensures r <= |file|
  {
    if StartsWith(file, MARKER) then |MARKER| else 0
  }

  predicate UnknownVersion(file: bytes) {
    !StartsWith(file, MARKER) && StartsWith(file, VERSION_PREFIX)
  }

  function Content(file: bytes): bytes {
    file[Offset(file)..]
  }

  /** `read_without_footer_or_marker`. */
  function Body(file: bytes): bytes {
    match LastFooter(Content(file))
    case None => Content(file)
    case Some(i) => Content(file)[..i]
  }

  datatype Load = Refused | Loaded(known: Known, integrityFailed: bool, validLen: nat)

  function LoadBody(body: bytes, failed: bool, validLen: nat): Load {
    var p := Parse(body);
    if p.malformed > MAX_MALFORMED then Refused else Loaded(p.known, failed, validLen)
  }

  /** `load_and_verify` under one MAC key. */
  function LoadAndVerify(c: Crypto, key: bytes, file: bytes): Load {
    if file == [] then Loaded(map[], false, 0)
    else if UnknownVersion(file) then Refused
    else
      var off, content := Offset(file), Content(file);
      match LastFooter(content)
      case None => LoadBody(content, false, |file|)
      case Some(i) =>
        var tag := LineAt(content, i)[5..];
        if UnHex(tag) == Some(c.mac(key, file[..off] + content[..i]))
        then LoadBody(content[..i], false, off + i + 5 + |tag| + 1)
        else LoadBody(content[..i], true, 0)
  }

  datatype Opened = OpenRefused | Opened(known: Known, integrityFailed: bool, file: bytes)

  /** `file_backed`: the current key first, the legacy key for unmarked files that
      fail it, then truncation of whatever follows the verified footer. */
  function Open(c: Crypto, file: bytes): Opened {
    OpenWith(file, StartsWith(file, MARKER), LoadAndVerify(c, c.key, file), LoadAndVerify(c, c.legacyKey, file))
  }

  function OpenWith(file: bytes, marked: bool, load: Load, legacy: Load): Opened {
    match load
    case Refused => OpenRefused
    case Loaded(known, failed, validLen) =>
      if failed && !marked && legacy.Loaded? && !legacy.integrityFailed
      then Opened(legacy.known, false, Cut(file, legacy.validLen))
      else Opened(known, failed, if failed then file else Cut(file, validLen))
  }

  function Cut(file: bytes, validLen: nat): bytes {
    if validLen < |file| then file[..validLen] else file
  }

  // ----- the methods --------------------------------------------------------------------

  /** The helper inside `load_and_verify`: too many malformed records refuse the file. */
  method ParseAndCheck(body: bytes, failed: bool, validLen: nat) returns (r: Load)
    ensures r == LoadBody(body, failed, validLen)
  {
    var known, malformed := ParseRecords(body);
    if malformed > MAX_MALFORMED {
      return Refused;
    }
    return Loaded(known, failed, validLen);
  }

  method VerifyFile(c: Crypto, key: bytes, file: bytes) returns (r: Load)
    ensures r == LoadAndVerify(c, key, file)
  {
    hide LastFooterUpTo, UnHex, LoadBody, LineAt;
    if file == [] {
      return Loaded(map[], false, 0);
    }
    var off := 0;
    if StartsWith(file, MARKER) {
      off := |MARKER|;
    } else if StartsWith(file, VERSION_PREFIX) {
      return Refused;
    }
    var content := file[off..];
    var split := SplitFooter(content);
    match split {
      case None =>
        r := ParseAndCheck(content, false, |file|);
      case Some((body, text)) =>
        var tag := Encode(text);
        assert tag == LineAt(content, LastFooter(content).value)[5..] by {
          EncodeDecode(LineAt(content, LastFooter(content).value)[5..]);
        }
        var expected := c.mac(key, file[..off] + body);
        if UnHex(tag) != Some(expected) {
          r := ParseAndCheck(body, true, 0);
        } else {
          r := ParseAndCheck(body, false, off + |body| + 5 + |tag| + 1);
        }
    }
  }

  /** The part of `file_backed` between taking the lock and building the handle. */
  method OpenFile(c: Crypto, file: bytes) returns (o: Opened)
    ensures o == Open(c, file)
  {
    hide LoadAndVerify;
    var load := VerifyFile(c, c.key, file);
    if load.Refused? {
      return OpenRefused;
    }
    if load.integrityFailed && !StartsWith(file, MARKER) {
      var legacy := VerifyFile(c, c.legacyKey, file);
      if legacy.Loaded? && !legacy.integrityFailed {
        load := legacy;
      }
    }
    var left := file;
    if !load.integrityFailed && load.validLen < |file| {
      left := file[..load.validLen];
    }
    return Opened(load.known, load.integrityFailed, left);
  }

  method ReadBody(file: bytes) returns (body: bytes)
    ensures body == Body(file)
  {
    hide LastFooter;
    var content := if StartsWith(file, MARKER) then file[|MARKER|..] else file;
    assert content == Content(file);
    var split := SplitFooter(content);
    match split {
      case Some((front, _)) => return front;
      case None => return content;
    }
  }

  // ----- writing ------------------------------------------------------------------------

  function Footer(tag: Block): bytes {
    Encode("#MAC " + Hex(tag) + "\n")
  }

  function Seal(c: Crypto, body: bytes): bytes {
    MARKER + body + Footer(c.mac(c.key, MARKER + body))
  }

  /** `write_record`: the file afterwards. */
  function WriteRecord(c: Crypto, file: bytes, fp: Block, kind: RecordKind): bytes {
    Seal(c, Body(file) + Record(fp, kind))
  }

  method AppendRecord(c: Crypto, file: bytes, fp: Block, kind: RecordKind) returns (after: bytes)
    ensures after == WriteRecord(c, file, fp, kind)
  {
    var body := ReadBody(file);
    body := body + Record(fp, kind);
    var tag := c.mac(c.key, MARKER + body);
    after := MARKER;
    after := after + body;
    after := after + Footer(tag);
  }

  // ----- text after the footer ------------------------------------------------------------

  /** No usable footer line starts at or after the end of `b` in `b + tail`. */
  predicate NoFooterAfter(b: bytes, tail: bytes) {
    forall j :: |b| <= j <= |b + tail| ==> !FooterAt(b + tail, j)
  }

  /** The last footer line of `b` is also its last line. */
  predicate EndsWithFooter(b: bytes) {
    LastFooter(b).Some? && LastFooter(b).value + |LineAt(b, LastFooter(b).value)| + 1 == |b|
  }

  predicate Sealed(file: bytes) {
    !UnknownVersion(file) && EndsWithFooter(Content(file))
  }

  lemma LineAtExtended(b: bytes, i: nat, tail: bytes)
    requires i <= |b| && i + |LineAt(b, i)| < |b|
    ensures LineAt(b + tail, i) == LineAt(b, i)
  {
    var n := FirstNewline(b[i..]);
    var x := (b + tail)[i..];
    assert x[..n] == b[i..][..n];
    assert forall k :: 0 <= k < n ==> x[..n][k] == b[i..][k];
    FirstNewlineUnique(x, n);
  }

  lemma FooterSurvivesTail(b: bytes, tail: bytes)
    requires EndsWithFooter(b) && NoFooterAfter(b, tail)
    ensures LastFooter(b + tail) == LastFooter(b)
    ensures LineAt(b + tail, LastFooter(b).value) == LineAt(b, LastFooter(b).value)
  {
    var i := LastFooter(b).value;
    var line := LineAt(b, i);
    LineAtExtended(b, i, tail);
    assert i > 0 ==> (b + tail)[i - 1] == b[i - 1];
    assert FooterAt(b + tail, i);
    forall j | i < j <= |b + tail|
      ensures !FooterAt(b + tail, j)
    {
      if j < |b| {
        assert (b + tail)[j - 1] == b[j - 1] == line[j - 1 - i];
      }
    }
    LastFooterIs(b + tail, i);
  }

  lemma SealedEndsInNewline(file: bytes)
    requires Sealed(file)
    ensures file != [] && file[|file| - 1] == NEWLINE
  {
    var b := Content(file);
    var i := LastFooter(b).value;
    assert b[i..][|LineAt(b, i)|] == NEWLINE;
  }

  lemma PrefixStable(file: bytes, tail: bytes, prefix: bytes)
    requires file != [] && file[|file| - 1] == NEWLINE
    requires forall k :: 0 <= k < |prefix| - 1 ==> prefix[k] != NEWLINE
    ensures StartsWith(file + tail, prefix) <==> StartsWith(file, prefix)
  {
    if |file| >= |prefix| {
      assert (file + tail)[..|prefix|] == file[..|prefix|];
    } else if StartsWith(file + tail, prefix) {
      TooShort(file, tail, prefix);
    }
  }

  lemma TooShort(file: bytes, tail: bytes, prefix: bytes)
    requires 0 < |file| < |prefix| && StartsWith(file + tail, prefix)
    ensures prefix[|file| - 1] == file[|file| - 1]
  {
    assert (file + tail)[..|prefix|][|file| - 1] == file[|file| - 1];
  }

  lemma VersionStable(file: bytes, tail: bytes)
    requires file != [] && file[|file| - 1] == NEWLINE
    ensures Offset(file + tail) == Offset(file)
    ensures UnknownVersion(file + tail) <==> UnknownVersion(file)
    ensures Content(file + tail) == Content(file) + tail
  {
    PrefixStable(file, tail, MARKER);
    PrefixStable(file, tail, VERSION_PREFIX);
  }

  /** Loading a sealed file ignores any tail that brings no footer line of its own. */
  lemma LoadIgnoresTail(c: Crypto, key: bytes, file: bytes, tail: bytes)
    requires Sealed(file) && NoFooterAfter(Content(file), tail)
    ensures LoadAndVerify(c, key, file + tail) == LoadAndVerify(c, key, file)
  {
    SealedEndsInNewline(file);
    VersionStable(file, tail);
    FooterSurvivesTail(Content(file), tail);
    var off, i := Offset(file), LastFooter(Content(file)).value;
    assert (Content(file) + tail)[..i] == Content(file)[..i];
    assert (file + tail)[..off] == file[..off];
  }

  /** A file is its sealed part followed by a tail without footer lines. */
  lemma SealedPart(file: bytes) returns (part: bytes, tail: bytes)
    requires !UnknownVersion(file) && LastFooter(Content(file)).Some?
    ensures file == part + tail && Sealed(part) && NoFooterAfter(Content(part), tail)
    ensures |part| == Offset(file) + LastFooter(Content(file)).value + |LineAt(Content(file), LastFooter(Content(file)).value)| + 1
  {
    var b := Content(file);
    var i := LastFooter(b).value;
    var line := LineAt(b, i);
    var end := i + |line| + 1;
    part, tail := file[..Offset(file) + end], file[Offset(file) + end..];
    assert file == part + tail;
    assert part[|part| - 1] == b[i..][|line|] == NEWLINE;
    VersionStable(part, tail);
    var front := Content(part);
    assert front == b[..end] && front + tail == b;
    FooterOfFront(b, i, end);
  }

  lemma FooterOfFront(b: bytes, i: nat, end: nat)
    requires LastFooter(b) == Some(i) && end == i + |LineAt(b, i)| + 1
    ensures end <= |b| && EndsWithFooter(b[..end]) && NoFooterAfter(b[..end], b[end..])
  {
    var front := b[..end];
    assert front + b[end..] == b;
    var n := |LineAt(b, i)|;
    assert front[i..][..n] == b[i..][..n];
    assert forall k :: 0 <= k < n ==> front[i..][..n][k] == b[i..][k];
    FirstNewlineUnique(front[i..], n);
    assert LineAt(front, i) == LineAt(b, i);
    forall j | i < j <= |front|
      ensures !FooterAt(front, j)
    {
      if j < |front| {
        assert front[j - 1] == LineAt(b, i)[j - 1 - i];
      }
    }
    LastFooterIs(front, i);
  }

  lemma SealedLength(c: Crypto, key: bytes, file: bytes)
    requires Sealed(file)
    ensures var l := LoadAndVerify(c, key, file); l.Loaded? && !l.integrityFailed ==> l.validLen == |file|
  {
  }

  lemma OpenSealedPart(c: Crypto, file: bytes, tail: bytes)
    requires Sealed(file) && NoFooterAfter(Content(file), tail)
    ensures var o := Open(c, file + tail);
            if o.Opened? && !o.integrityFailed then o.file == file && Open(c, file) == o
            else Open(c, file) == if o.Opened? then o.(file := file) else o
  {
    hide LoadAndVerify, Sealed, NoFooterAfter, Content, StartsWith, OpenWith;
    var marked := StartsWith(file, MARKER);
    assert StartsWith(file + tail, MARKER) == marked by {
      SealedEndsInNewline(file);
      PrefixStable(file, tail, MARKER);
    }
    var l1, l2 := LoadAndVerify(c, c.key, file), LoadAndVerify(c, c.legacyKey, file);
    assert LoadAndVerify(c, c.key, file + tail) == l1 by { LoadIgnoresTail(c, c.key, file, tail); }
    assert LoadAndVerify(c, c.legacyKey, file + tail) == l2 by { LoadIgnoresTail(c, c.legacyKey, file, tail); }
    SealedLength(c, c.key, file);
    SealedLength(c, c.legacyKey, file);
    OpenWithTail(file, tail, marked, l1, l2);
  }

  lemma OpenWithTail(file: bytes, tail: bytes, marked: bool, load: Load, legacy: Load)
    requires load.Loaded? && !load.integrityFailed ==> load.validLen == |file|
    requires legacy.Loaded? && !legacy.integrityFailed ==> legacy.validLen == |file|
    ensures var o := OpenWith(file + tail, marked, load, legacy);
            if o.Opened? && !o.integrityFailed then o.file == file && OpenWith(file, marked, load, legacy) == o
            else OpenWith(file, marked, load, legacy) == if o.Opened? then o.(file := file) else o
  {
    assert (file + tail)[..|file|] == file;
    assert tail == [] ==> file + tail == file;
  }

  lemma LoadWithoutFooter(c: Crypto, key: bytes, file: bytes)
    requires LastFooter(Content(file)).None?
    ensures var l := LoadAndVerify(c, key, file); l.Loaded? ==> !l.integrityFailed && l.validLen == |file|
  {
  }

  lemma RefusesUnknown(c: Crypto, file: bytes)
    requires UnknownVersion(file)
    ensures Open(c, file) == OpenRefused
  {
    hide Parse, LastFooter;
  }

  /** Whatever a file holds, opening the file that `Open` leaves behind finds the
      same entries and the same verdict, and changes nothing. */
  lemma OpenIdempotent(c: Crypto, file: bytes)
    requires Open(c, file).Opened?
    ensures Open(c, Open(c, file).file) == Open(c, file)
  {
    hide LoadAndVerify, LastFooter, Content;
    if LastFooter(Content(file)).None? {
      LoadWithoutFooter(c, c.key, file);
    } else if UnknownVersion(file) {
      RefusesUnknown(c, file);
    } else {
      var part, tail := SealedPart(file);
      OpenSealedPart(c, part, tail);
    }
  }

  /** Recovery: bytes after the footer of an opened file are cut off again, for every
      tail without a newline-terminated `#MAC ` line. */
  lemma OpenIgnoresTail(c: Crypto, file: bytes, tail: bytes)
    requires Sealed(file) && NoFooterAfter(Content(file), tail)
    requires Open(c, file).Opened? && !Open(c, file).integrityFailed
    ensures Open(c, file + tail) == Open(c, file)
    ensures Open(c, file).file == file
  {
    OpenSealedPart(c, file, tail);
  }

  // ----- a written file --------------------------------------------------------------------

  function FooterLine(tag: Block): (b: bytes)
    ensures NoNewline(b)
  {
    Ascii("#MAC " + Hex(tag))
  }

  lemma FooterBytes(tag: Block)
    ensures Footer(tag) == FooterLine(tag) + [NEWLINE]
    ensures StartsWith(FooterLine(tag), FOOTER_PREFIX)
    ensures IsUtf8(FooterLine(tag)[5..]) && UnHex(FooterLine(tag)[5..]) == Some(tag)
  {
    var t := "#MAC " + Hex(tag);
    EncodeAscii(t + "\n");
    assert Ascii(t + "\n") == FooterLine(tag) + [NEWLINE];
    assert FooterLine(tag)[..5] == FOOTER_PREFIX;
    assert FooterLine(tag)[5..] == Ascii(Hex(tag));
    EncodeAscii(Hex(tag));
    DecodeEncode(Hex(tag));
    UnHexHex(tag);
  }

  /** A footer line after a terminated body is the last footer. */
  lemma FooterFound(body: bytes, line: bytes)
    requires body != [] ==> body[|body| - 1] == NEWLINE
    requires NoNewline(line) && StartsWith(line, FOOTER_PREFIX) && IsUtf8(line[5..])
    ensures var b := body + (line + [NEWLINE]);
            LastFooter(b) == Some(|body|) && LineAt(b, |body|) == line && EndsWithFooter(b) && b[..|body|] == body
  {
    var b := body + (line + [NEWLINE]);
    assert b[|body|..] == line + [NEWLINE];
    assert (line + [NEWLINE])[..|line|] == line;
    FirstNewlineUnique(line + [NEWLINE], |line|);
    assert LineAt(b, |body|) == line;
    assert FooterAt(b, |body|);
    forall j | |body| < j <= |b|
      ensures !FooterAt(b, j)
    {
      assert j < |b| ==> b[j - 1] == line[j - 1 - |body|];
    }
    LastFooterIs(b, |body|);
  }

  lemma MarkedFile(x: bytes)
    ensures var f := MARKER + x;
            f != [] && Offset(f) == |MARKER| && Content(f) == x && !UnknownVersion(f) && f[..|MARKER|] == MARKER
  {
  }

  lemma LoadVerified(c: Crypto, key: bytes, file: bytes, i: nat)
    requires file != [] && !UnknownVersion(file) && LastFooter(Content(file)) == Some(i)
    requires UnHex(LineAt(Content(file), i)[5..]) == Some(c.mac(key, file[..Offset(file)] + Content(file)[..i]))
    ensures LoadAndVerify(c, key, file) == LoadBody(Content(file)[..i], false, Offset(file) + i + |LineAt(Content(file), i)| + 1)
  {
    hide UnHex, LoadBody, UnknownVersion, IsUtf8;
  }

  lemma SealShape(c: Crypto, body: bytes)
    requires body != [] ==> body[|body| - 1] == NEWLINE
    ensures var f, tag := Seal(c, body), c.mac(c.key, MARKER + body);
            && f != [] && Offset(f) == |MARKER| && !UnknownVersion(f) && f[..|MARKER|] == MARKER
            && Content(f) == body + (FooterLine(tag) + [NEWLINE])
            && LastFooter(Content(f)) == Some(|body|) && LineAt(Content(f), |body|) == FooterLine(tag)
            && Sealed(f) && Content(f)[..|body|] == body
            && |f| == |MARKER| + |body| + |FooterLine(tag)| + 1
  {
    hide FooterAt, FooterLine, Footer, IsUtf8, UnHex;
    var tag := c.mac(c.key, MARKER + body);
    var content := body + (FooterLine(tag) + [NEWLINE]);
    FooterBytes(tag);
    assert Seal(c, body) == MARKER + content;
    MarkedFile(content);
    FooterFound(body, FooterLine(tag));
  }

  /** A sealed body is found again, its tag verifies, and it is parsed as it stands. */
  lemma SealLoads(c: Crypto, body: bytes)
    requires body != [] ==> body[|body| - 1] == NEWLINE
    ensures Sealed(Seal(c, body)) && Body(Seal(c, body)) == body
    ensures LoadAndVerify(c, c.key, Seal(c, body)) == LoadBody(body, false, |Seal(c, body)|)
  {
    hide Parse, LastFooter, LineAt, FooterLine, UnHex, IsUtf8;
    SealShape(c, body);
    FooterBytes(c.mac(c.key, MARKER + body));
    LoadVerified(c, c.key, Seal(c, body), |body|);
  }

  lemma OpenSeal(c: Crypto, body: bytes)
    requires body != [] ==> body[|body| - 1] == NEWLINE
    ensures Open(c, Seal(c, body)) ==
            if Parse(body).malformed > MAX_MALFORMED then OpenRefused else Opened(Parse(body).known, false, Seal(c, body))
  {
    hide LoadAndVerify, Parse, Seal, StartsWith;
    SealLoads(c, body);
    var file := Seal(c, body);
    var load := LoadBody(body, false, |file|);
    assert Open(c, file) == OpenWith(file, StartsWith(file, MARKER), load, LoadAndVerify(c, c.legacyKey, file));
  }

  lemma BodyIgnoresTail(file: bytes, tail: bytes)
    requires Sealed(file) && NoFooterAfter(Content(file), tail)
    ensures Body(file + tail) == Body(file)
  {
    hide LineAt, FooterAt;
    SealedEndsInNewline(file);
    VersionStable(file, tail);
    FooterSurvivesTail(Content(file), tail);
  }

  /** Opening tells exactly what the body of the remaining file says. */
  lemma OpenReadsBody(c: Crypto, file: bytes)
    requires Open(c, file).Opened? && !Open(c, file).integrityFailed
    ensures Body(Open(c, file).file) == Body(file)
    ensures Open(c, file).known == Parse(Body(file)).known && Parse(Body(file)).malformed <= MAX_MALFORMED
  {
    hide LoadAndVerify, Parse, Body, LastFooter, LineAt, Sealed;
    LoadReadsBody(c, c.key, file);
    LoadReadsBody(c, c.legacyKey, file);
    if LastFooter(Content(file)).None? {
      LoadWithoutFooter(c, c.key, file);
    } else if UnknownVersion(file) {
      RefusesUnknown(c, file);
    } else {
      var part, tail := SealedPart(file);
      OpenSealedPart(c, part, tail);
      BodyIgnoresTail(part, tail);
    }
  }

  lemma LoadReadsBody(c: Crypto, key: bytes, file: bytes)
    ensures var l := LoadAndVerify(c, key, file);
            l.Loaded? ==> l.known == Parse(Body(file)).known && Parse(Body(file)).malformed <= MAX_MALFORMED
  {
    hide ParseLines, Lines, LastFooterUpTo, LineAt;
    if file == [] {
      EmptyBody();
    }
  }

  lemma EmptyBody()
    ensures Body([]) == [] && Parse([]) == Parsed(map[], 0)
  {
    hide FooterAt, Parse, Offset, StartsWith;
    assert Content([]) == [];
    EmptyParse();
  }

  lemma EmptyParse()
    ensures Parse([]) == Parsed(map[], 0)
  {
    hide ParseLine, Decode, Trim, ParseLines;
    assert Lines([]) == [[]];
    ParseOneLine(Parsed(map[], 0), []);
    EmptyLine();
    BlankLine(Parsed(map[], 0), "");
  }

  lemma WriteBody(c: Crypto, file: bytes, fp: Block, kind: RecordKind)
    ensures Sealed(WriteRecord(c, file, fp, kind))
    ensures Body(WriteRecord(c, file, fp, kind)) == Body(file) + Record(fp, kind)
    ensures var p := Parse(Body(file) + Record(fp, kind));
            var f := WriteRecord(c, file, fp, kind);
            Open(c, f) == if p.malformed > MAX_MALFORMED then OpenRefused else Opened(p.known, false, f)
  {
    hide Parse, Open, Body, Sealed, Seal, Record;
    var body := Body(file) + Record(fp, kind);
    assert body[|body| - 1] == NEWLINE by { RecordBytes(fp, kind); }
    OpenSeal(c, body);
    SealLoads(c, body);
  }

  /** Reopening after a successful write gives the map the write meant, and no more
      malformed lines than before. */
  lemma WriteThenOpen(c: Crypto, file: bytes, fp: Block, kind: RecordKind)
    requires AppendSafe(Body(file)) && Parse(Body(file)).malformed <= MAX_MALFORMED
    requires kind.Count? ==> kind.n < U64_LIMIT
    ensures var f := WriteRecord(c, file, fp, kind);
            && Open(c, f) == Opened(Apply(Parse(Body(file)).known, fp, kind), false, f)
            && Sealed(f) && AppendSafe(Body(f))
            && Parse(Body(f)) == Parse(Body(file)).(known := Apply(Parse(Body(file)).known, fp, kind))
  {
    hide Parse, Open, Body, Sealed, WriteRecord, Record, AppendSafe, Apply;
    WriteBody(c, file, fp, kind);
    ParseAppend(Body(file), fp, kind);
  }

  lemma UnsafeWrite(c: Crypto, file: bytes, fp: Block, kind: RecordKind)
    requires !AppendSafe(Body(file)) && fp !in Parse(Body(file)).known
    ensures var f := WriteRecord(c, file, fp, kind);
            Open(c, f).Opened? ==> Open(c, f).file == f && !Open(c, f).integrityFailed
                                   && EntryOf(Open(c, f).known, fp) == Entry(0, false)
  {
    hide Parse, Open, Body, Sealed, WriteRecord, Record, AppendSafe;
    WriteBody(c, file, fp, kind);
    UnsafeAppendLosesRecord(Body(file), fp, kind);
  }

  ghost predicate ReadsBack(c: Crypto, file: bytes, fp: Block, n: nat) {
    Open(c, file).Opened? && EntryOf(Open(c, file).known, fp) == Entry(n, n >= NONCE_LIMIT)
  }

  /** Exactly when a first record is read back: the body it is added to must be
      append-safe.  A footerless journal that ends inside a line, or one with a line
      that is not UTF-8, is opened but swallows every later record. */
  lemma RecordReadBack(c: Crypto, file: bytes, fp: Block, n: nat)
    requires Open(c, file).Opened? && !Open(c, file).integrityFailed
    requires fp !in Open(c, file).known && 0 < n < U64_LIMIT
    ensures ReadsBack(c, WriteRecord(c, Open(c, file).file, fp, Count(n)), fp, n) <==> AppendSafe(Body(file))
  {
    hide Parse, Open, Body, WriteRecord, AppendSafe;
    OpenReadsBody(c, file);
    WriteReadBack(c, Open(c, file).file, fp, n);
  }

  lemma WriteReadBack(c: Crypto, file: bytes, fp: Block, n: nat)
    requires Parse(Body(file)).malformed <= MAX_MALFORMED
    requires fp !in Parse(Body(file)).known && 0 < n < U64_LIMIT
    ensures ReadsBack(c, WriteRecord(c, file, fp, Count(n)), fp, n) <==> AppendSafe(Body(file))
  {
    hide Parse, Open, Body, WriteRecord, AppendSafe;
    if AppendSafe(Body(file)) {
      WriteThenOpen(c, file, fp, Count(n));
    } else {
      UnsafeWrite(c, file, fp, Count(n));
    }
  }
}
