/** The integrity footer decides: a file is taken as verified exactly when its last footer
    carries the MAC of what precedes it, and nothing is released on top of any other. */
module GcmTampering {
  import opened Wrappers
  import opened Text
  import opened GcmJournal
  import opened GcmFile
  import opened GcmProtocol
  import opened GcmRuns
  import opened GcmRefinement
  import opened GcmBackend

  predicate Terminated(body: bytes) {
    body != [] ==> body[|body| - 1] == NEWLINE
  }

  lemma LoadTagged(c: Crypto, key: bytes, file: bytes, body: bytes, t: Block)
    requires Terminated(body) && file != [] && !UnknownVersion(file) && Content(file) == body + Footer(t)
    ensures var ok := t == c.mac(key, file[..Offset(file)] + body);
            LoadAndVerify(c, key, file) == LoadBody(body, !ok, if ok then |file| else 0)
  {
    hide FooterAt, FooterLine, Footer, IsUtf8, UnHex, UnknownVersion, LastFooter, LineAt, Parse, Offset;
    FooterBytes(t);
    FooterFound(body, FooterLine(t));
  }

  /** Loading a marked file: verified if and only if the tag is the MAC of marker and body. */
  lemma TagDecides(c: Crypto, key: bytes, body: bytes, t: Block)
    requires Terminated(body) && Parse(body).malformed <= MAX_MALFORMED
    ensures var file, ok := MARKER + body + Footer(t), t == c.mac(key, MARKER + body);
            LoadAndVerify(c, key, file) == Loaded(Parse(body).known, !ok, if ok then |file| else 0)
  {
    hide Parse, Footer, LoadAndVerify, UnknownVersion, Offset, Content;
    var file := MARKER + body + Footer(t);
    assert file == MARKER + (body + Footer(t));
    MarkedFile(body + Footer(t));
    LoadTagged(c, key, file, body, t);
  }

  predicate Unmarked(file: bytes) {
    file != [] && !StartsWith(file, MARKER) && !UnknownVersion(file)
  }

  /** Loading an unmarked file: verified if and only if the tag is the MAC of the body. */
  lemma UnmarkedTagDecides(c: Crypto, key: bytes, body: bytes, t: Block)
    requires Terminated(body) && Parse(body).malformed <= MAX_MALFORMED && Unmarked(body + Footer(t))
    ensures var file, ok := body + Footer(t), t == c.mac(key, body);
            LoadAndVerify(c, key, file) == Loaded(Parse(body).known, !ok, if ok then |file| else 0)
  {
    hide Parse, Footer, LoadAndVerify, UnknownVersion, StartsWith;
    var file := body + Footer(t);
    assert Content(file) == file && file[..0] + body == body;
    LoadTagged(c, key, file, body, t);
  }

  /** Opening a marked file: only the current key counts. */
  lemma MarkedOpens(c: Crypto, body: bytes, t: Block)
    requires Terminated(body) && Parse(body).malformed <= MAX_MALFORMED
    ensures var file := MARKER + body + Footer(t);
            Open(c, file) == Opened(Parse(body).known, t != c.mac(c.key, MARKER + body), file)
  {
    hide Parse, Footer, LoadAndVerify, StartsWith;
    var file := MARKER + body + Footer(t);
    assert StartsWith(file, MARKER) by { MarkerFirst(body + Footer(t), file); }
    TagDecides(c, c.key, body, t);
  }

  lemma MarkerFirst(x: bytes, file: bytes)
    requires file == MARKER + x
    ensures StartsWith(file, MARKER)
  {
  }

  /** Opening an unmarked file: the tag of the current or of the legacy key counts. */
  lemma UnmarkedOpens(c: Crypto, body: bytes, t: Block)
    requires Terminated(body) && Parse(body).malformed <= MAX_MALFORMED && Unmarked(body + Footer(t))
    ensures var file := body + Footer(t);
            Open(c, file) == Opened(Parse(body).known, t != c.mac(c.key, body) && t != c.mac(c.legacyKey, body), file)
  {
    hide Parse, Footer, LoadAndVerify, StartsWith, UnknownVersion;
    UnmarkedTagDecides(c, c.key, body, t);
    UnmarkedTagDecides(c, c.legacyKey, body, t);
  }

  /** A file that names another version of the format is refused. */
  lemma OtherVersionRefused(c: Crypto, file: bytes)
    requires StartsWith(file, Ascii("craton-hsm-gcm-journal ")) && !StartsWith(file, Ascii("craton-hsm-gcm-journal v1\n"))
    ensures Open(c, file) == OpenRefused
  {
    hide StartsWith, Ascii;
    RefusesUnknown(c, file);
  }

  /** The tag of the last footer of a marked file, and the bytes it should cover. */
  predicate TagMatches(c: Crypto, file: bytes, i: nat)
    requires StartsWith(file, MARKER) && LastFooter(Content(file)) == Some(i)
  {
    UnHex(LineAt(Content(file), i)[5..]) == Some(c.mac(c.key, file[..|MARKER| + i]))
  }

  /** A marked file, whatever else it holds, is taken as verified if and only if the tag of its
      last footer is the MAC of everything before that footer. */
  lemma MarkedVerdict(c: Crypto, file: bytes, i: nat)
    requires StartsWith(file, MARKER) && LastFooter(Content(file)) == Some(i) && Open(c, file).Opened?
    ensures Open(c, file).integrityFailed <==> !TagMatches(c, file, i)
  {
    hide Parse, LastFooterUpTo, LineAt, UnHex, IsUtf8;
    assert file[..|MARKER|] + Content(file)[..i] == file[..|MARKER| + i];
  }

  /** Nothing is ever released on top of a marked file whose last footer does not carry the MAC
      of what precedes it, and every key it lists is reported as POISONED. */
  lemma TamperedReleasesNothing(c: Crypto, file: bytes, i: nat, steps: seq<Step>, fp: Block)
    requires StartsWith(file, MARKER) && LastFooter(Content(file)) == Some(i) && !TagMatches(c, file, i)
    requires Open(c, file).Opened? && IsRun(JournalMachine(c), Boot(Open(c, file)), steps)
    ensures ReleasedOn(JournalMachine(c), Boot(Open(c, file)), steps) == []
    ensures fp in Open(c, file).known ==> PersistedState(Boot(Open(c, file)).store, fp) == Entry(NONCE_LIMIT, true)
  {
    hide Open, StartsWith, LastFooter, Content, TagMatches, IsRun, ReleasedOn;
    MarkedVerdict(c, file, i);
    var s := Boot(Open(c, file));
    JournalStaysFailed(c);
    OpenIdempotent(c, file);
    assert FailingFiles(c)(s.store.disk);
    FailedReleasesNothing(JournalMachine(c), FailingFiles(c), s, steps);
  }
}
