/** The hand-written canonical JSON of the signed metadata, and a decoder for it.
    Strings follow section 7 of RFC 8259. */
module MetadataJson {
  import opened Wrappers
  import opened Text

  const QUOTE: byte := 0x22
  const BACKSLASH: byte := 0x5C

  datatype Metadata = Metadata(
    moduleVersion: string,
    buildTimestamp: string,
    gitCommit: string,
    hmacKeyId: string,
    integrityTag: string)

  // ----- string escaping --------------------------------------------------------------

  function Escape(c: char): (b: bytes)
    ensures |b| >= 1
  {
    if c == '"' then [BACKSLASH, QUOTE]
    else if c == '\\' then [BACKSLASH, BACKSLASH]
    else if c as int == 0x0A then [BACKSLASH, 0x6E]
    else if c as int == 0x0D then [BACKSLASH, 0x72]
    else if c as int == 0x09 then [BACKSLASH, 0x74]
    else if c as int == 0x08 then [BACKSLASH, 0x62]
    else if c as int == 0x0C then [BACKSLASH, 0x66]
    else if c as int < 0x20 then
      [BACKSLASH, 0x75, 0x30, 0x30, HexDigit(c as int / 16) as int, HexDigit(c as int % 16) as int]
    else EncodeChar(c)
  }

  function EscapeAll(s: string): bytes {
    if s == "" then [] else Escape(s[0]) + EscapeAll(s[1..])
  }

  function JsonString(s: string): bytes {
    [QUOTE] + EscapeAll(s) + [QUOTE]
  }

  /** `json_encode_string`: the loop over the characters. */
  method JsonEncodeString(prefix: bytes, s: string) returns (out: bytes)
    ensures out == prefix + JsonString(s)
  {
    out := prefix + [QUOTE];
    var i := 0;
    while i < |s|
      invariant 0 <= i <= |s|
      invariant out + EscapeAll(s[i..]) == prefix + [QUOTE] + EscapeAll(s)
    {
      assert s[i..][1..] == s[i + 1..];
      out := out + Escape(s[i]);
      i := i + 1;
    }
    assert out == prefix + [QUOTE] + EscapeAll(s) by {
      assert s[i..] == "" && out + [] == out;
    }
    out := out + [QUOTE];
  }

  // ----- the object -----------------------------------------------------------------------

  /** What stands before a value: a separator, the name in quotes and a colon. */
  function Key(separator: byte, name: string): bytes
    requires IsAscii(name)
  {
    [separator, QUOTE] + Ascii(name) + [QUOTE, COLON]
  }

  const OPEN_BRACE: byte := 0x7B
  const CLOSE_BRACE: byte := 0x7D
  const COLON: byte := 0x3A
  const COMMA: byte := 0x2C

  /** The key list, in lexicographic order. */
  const KEYS: seq<bytes> := [
    Key(OPEN_BRACE, "build_timestamp"),
    Key(COMMA, "git_commit"),
    Key(COMMA, "hmac_key_id"),
    Key(COMMA, "integrity_tag"),
    Key(COMMA, "module_version")]

  const CLOSE: bytes := [CLOSE_BRACE]

  function Member(key: bytes, value: string, rest: bytes): bytes {
    key + (JsonString(value) + rest)
  }

  function Members(keys: seq<bytes>, values: seq<string>): bytes
    requires |keys| == |values|
  {
    if keys == [] then CLOSE else Member(keys[0], values[0], Members(keys[1..], values[1..]))
  }

  /** The values in key order; the integrity tag is always written empty. */
  function Values(m: Metadata): seq<string> {
    [m.buildTimestamp, m.gitCommit, m.hmacKeyId, "", m.moduleVersion]
  }

  function CanonicalJson(m: Metadata): bytes {
    Members(KEYS, Values(m))
  }

  /** `canonical_meta_json`. */
  method CanonicalMetaJson(m: Metadata) returns (out: bytes)
    ensures out == CanonicalJson(m)
  {
    out := EncodeMembers(KEYS, Values(m));
  }

  /** The loop over the key list. */
  method EncodeMembers(keys: seq<bytes>, values: seq<string>) returns (out: bytes)
    requires |keys| == |values|
    ensures out == Members(keys, values)
  {
    hide JsonString;
    out := [];
    var i := 0;
    assert keys[0..] == keys && values[0..] == values;
    while i < |keys|
      invariant 0 <= i <= |keys|
      invariant out + Members(keys[i..], values[i..]) == Members(keys, values)
    {
      var rest := Members(keys[i + 1..], values[i + 1..]);
      assert keys[i..][1..] == keys[i + 1..] && values[i..][1..] == values[i + 1..];
      var before := out;
      out := JsonEncodeString(out + keys[i], values[i]);
      assert out + rest == before + (keys[i] + (JsonString(values[i]) + rest));
      i := i + 1;
    }
    out := out + CLOSE;
  }

  // ----- decoding ---------------------------------------------------------------------------

  function HexValue4(b: bytes): (r: Option<nat>)
    requires |b| == 4
    ensures r.Some? ==> r.value < 0x10000
  {
    match UnHex(b)
    case Some(v) => Some(v[0] as int * 256 + v[1] as int)
    case None => None
  }

  /** One character of a JSON string body and the number of bytes it takes. */
  function Unescape(b: bytes): (r: Option<(char, nat)>)
    requires b != []
    ensures r.Some? ==> 1 <= r.value.1 <= |b|
  {
    if b[0] == BACKSLASH then
      if |b| < 2 then None
      else if b[1] == QUOTE then Some(('"', 2))
      else if b[1] == BACKSLASH then Some(('\\', 2))
      else if b[1] == 0x6E then Some((0x0A as char, 2))
      else if b[1] == 0x72 then Some((0x0D as char, 2))
      else if b[1] == 0x74 then Some((0x09 as char, 2))
      else if b[1] == 0x62 then Some((0x08 as char, 2))
      else if b[1] == 0x66 then Some((0x0C as char, 2))
      else if b[1] == 0x75 && |b| >= 6 then
        match HexValue4(b[2..6])
        case Some(v) => if v < 0xD800 || 0xE000 <= v then Some((v as char, 6)) else None
        case None => None
      else None
    else if b[0] < 0x20 then None
    else DecodeChar(b)
  }

  /** The rest of a string after its opening quote, and what follows it. */
  function TakeBody(b: bytes): (r: Option<(string, bytes)>)
    ensures r.Some? ==> |r.value.1| < |b|
    decreases |b|
  {
    if b == [] then None
    else if b[0] == QUOTE then Some(("", b[1..]))
    else match Unescape(b)
      case None => None
      case Some((c, n)) =>
        match TakeBody(b[n..])
        case None => None
        case Some((s, rest)) => Some(([c] + s, rest))
  }

  function TakeMember(key: bytes, b: bytes): Option<(string, bytes)> {
    if |b| > |key| && b[..|key|] == key && b[|key|] == QUOTE then TakeBody(b[|key| + 1..]) else None
  }

  function TakeMembers(keys: seq<bytes>, b: bytes): (r: Option<seq<string>>)
    ensures r.Some? ==> |r.value| == |keys|
  {
    if keys == [] then if b == CLOSE then Some([]) else None
    else match TakeMember(keys[0], b)
      case None => None
      case Some((v, rest)) =>
        match TakeMembers(keys[1..], rest)
        case None => None
        case Some(vs) => Some([v] + vs)
  }

  function DecodeJson(b: bytes): Option<Metadata> {
    match TakeMembers(KEYS, b)
    case None => None
    case Some(v) => Some(Metadata(v[4], v[0], v[1], v[2], v[3]))
  }

  lemma ControlEscape(u: nat)
    requires u < 0x20
    ensures HexValue4([0x30, 0x30, HexDigit(u / 16) as int, HexDigit(u % 16) as int]) == Some(u)
  {
    var b: bytes := [0, u];
    UnHexHex(b);
    assert b[1..] == [u] && Hex([]) == "" && [u][1..] == [];
    assert Ascii(Hex(b)) == [0x30, 0x30, HexDigit(u / 16) as int, HexDigit(u % 16) as int];
  }

  lemma UnescapeEscape(c: char, rest: bytes)
    ensures Unescape(Escape(c) + rest) == Some((c, |Escape(c)|))
    ensures (Escape(c) + rest)[0] != QUOTE
  {
    hide DecodeChar, HexValue4, HexDigit;
    var e := Escape(c);
    var u := c as int;
    assert forall k :: 0 <= k < |e| ==> (e + rest)[k] == e[k];
    if u < 0x20 && |e| == 6 {
      ControlEscape(u);
      assert (e + rest)[2..6] == e[2..6] == [0x30, 0x30, HexDigit(u / 16) as int, HexDigit(u % 16) as int];
    } else if u >= 0x20 && c != '"' && c != '\\' {
      DecodeEncodeChar(c, rest);
      EncodedFirst(c);
    }
  }

  lemma EncodedFirst(c: char)
    requires c as int >= 0x20 && c != '"' && c != '\\'
    ensures var b := EncodeChar(c)[0]; b >= 0x20 && b != QUOTE && b != BACKSLASH
  {
  }

  /** Escaping is uniquely decodable: the string and the end of it are found again. */
  lemma {:induction false} TakeEscaped(s: string, rest: bytes)
    ensures TakeBody(EscapeAll(s) + ([QUOTE] + rest)) == Some((s, rest))
    decreases |s|
  {
    hide Escape, Unescape;
    var all := EscapeAll(s) + ([QUOTE] + rest);
    if s == "" {
      assert all[0] == QUOTE && all[1..] == rest;
    } else {
      var e := Escape(s[0]);
      var more := EscapeAll(s[1..]) + ([QUOTE] + rest);
      assert all == e + more;
      UnescapeEscape(s[0], more);
      assert all[|e|..] == more;
      TakeEscaped(s[1..], rest);
      assert s == [s[0]] + s[1..];
    }
  }

  lemma TakeWritten(key: bytes, value: string, rest: bytes)
    ensures TakeMember(key, Member(key, value, rest)) == Some((value, rest))
  {
    hide TakeBody, EscapeAll;
    var b := Member(key, value, rest);
    assert b == key + ([QUOTE] + (EscapeAll(value) + ([QUOTE] + rest)));
    assert b[|key| + 1..] == EscapeAll(value) + ([QUOTE] + rest);
    TakeEscaped(value, rest);
  }

  lemma {:induction false} TakeAllWritten(keys: seq<bytes>, values: seq<string>)
    requires |keys| == |values|
    ensures TakeMembers(keys, Members(keys, values)) == Some(values)
  {
    hide TakeMember, Member;
    if keys != [] {
      TakeWritten(keys[0], values[0], Members(keys[1..], values[1..]));
      TakeAllWritten(keys[1..], values[1..]);
      assert values == [values[0]] + values[1..];
    }
  }

  /** The decoder inverts the printer, whatever the four fields hold. */
  lemma DecodeCanonical(m: Metadata)
    ensures DecodeJson(CanonicalJson(m)) == Some(m.(integrityTag := ""))
  {
    hide TakeMembers, Members;
    TakeAllWritten(KEYS, Values(m));
  }

  // ----- as any reader of JSON sees it ------------------------------------------------------

  function TakeString(b: bytes): (r: Option<(string, bytes)>)
    ensures r.Some? ==> |r.value.1| < |b|
  {
    if b != [] && b[0] == QUOTE then TakeBody(b[1..]) else None
  }

  /** A member name, a colon and a string, and what follows. */
  function TakePair(b: bytes): (r: Option<((string, string), bytes)>)
    ensures r.Some? ==> |r.value.1| < |b|
  {
    match TakeString(b)
    case None => None
    case Some((name, rest)) =>
      if rest == [] || rest[0] != COLON then None
      else match TakeString(rest[1..])
        case None => None
        case Some((value, after)) => Some(((name, value), after))
  }

  function TakePairs(b: bytes): Option<seq<(string, string)>>
    decreases |b|
  {
    match TakePair(b)
    case None => None
    case Some((p, rest)) =>
      if rest == [CLOSE_BRACE] then Some([p])
      else if rest == [] || rest[0] != COMMA then None
      else match TakePairs(rest[1..])
        case None => None
        case Some(ps) => Some([p] + ps)
  }

  /** The members of a JSON object, all of them strings, in the order in which they stand
      (section 4 of RFC 8259, without insignificant white space). */
  function ReadObject(b: bytes): Option<seq<(string, string)>> {
    if b == [OPEN_BRACE, CLOSE_BRACE] then Some([])
    else if b != [] && b[0] == OPEN_BRACE then TakePairs(b[1..])
    else None
  }

  lemma TakeStringWritten(s: string, rest: bytes)
    ensures TakeString(JsonString(s) + rest) == Some((s, rest))
  {
    hide TakeBody, EscapeAll;
    var b := JsonString(s) + rest;
    assert b[1..] == EscapeAll(s) + ([QUOTE] + rest);
    TakeEscaped(s, rest);
  }

  lemma TakePairWritten(name: string, value: string, rest: bytes)
    ensures TakePair(JsonString(name) + ([COLON] + (JsonString(value) + rest))) == Some(((name, value), rest))
  {
    hide TakeString, JsonString;
    var more := [COLON] + (JsonString(value) + rest);
    TakeStringWritten(name, more);
    assert more[1..] == JsonString(value) + rest;
    TakeStringWritten(value, rest);
  }

  predicate IsPlain(s: string) {
    forall i :: 0 <= i < |s| ==> 0x20 <= s[i] as int < 0x7F && s[i] != '"' && s[i] != '\\'
  }

  lemma {:induction false} EscapePlain(s: string)
    requires IsPlain(s)
    ensures IsAscii(s) && EscapeAll(s) == Ascii(s)
  {
    if s != "" {
      EscapePlain(s[1..]);
      assert Escape(s[0]) == [s[0] as int];
      assert s == [s[0]] + s[1..];
    }
  }

  lemma KeyBytes(separator: byte, name: string)
    requires IsPlain(name) && IsAscii(name)
    ensures var key := Key(separator, name); key != [] && key[0] == separator && key[1..] == JsonString(name) + [COLON]
  {
    hide EscapeAll;
    EscapePlain(name);
  }

  /** Members with the given names, as any reader takes them. */
  lemma {:induction false} ReadMembers(keys: seq<bytes>, names: seq<string>, values: seq<string>)
    requires |keys| == |names| == |values| && keys != []
    requires forall i :: 0 <= i < |keys| ==> |keys[i]| > 0 && keys[i][1..] == JsonString(names[i]) + [COLON]
    requires forall i :: 0 < i < |keys| ==> keys[i][0] == COMMA
    ensures var b := Members(keys, values);
            && b != [] && b[0] == keys[0][0]
            && TakePairs(b[1..]) == Some(seq(|names|, i requires 0 <= i < |names| => (names[i], values[i])))
  {
    hide TakePair, JsonString;
    var rest := Members(keys[1..], values[1..]);
    var b := Members(keys, values);
    assert b == keys[0] + (JsonString(values[0]) + rest);
    assert keys[0] == [keys[0][0]] + keys[0][1..];
    assert b[1..] == JsonString(names[0]) + ([COLON] + (JsonString(values[0]) + rest));
    TakePairWritten(names[0], values[0], rest);
    var pairs := seq(|names|, i requires 0 <= i < |names| => (names[i], values[i]));
    if |keys| == 1 {
      assert rest == CLOSE == [CLOSE_BRACE];
      assert pairs == [(names[0], values[0])];
    } else {
      ReadMembers(keys[1..], names[1..], values[1..]);
      var more := seq(|names[1..]|, i requires 0 <= i < |names[1..]| => (names[1..][i], values[1..][i]));
      assert pairs == [(names[0], values[0])] + more;
      assert rest[0] == COMMA != CLOSE_BRACE;
    }
  }

  function NAMES(): seq<string> {
    ["build_timestamp", "git_commit", "hmac_key_id", "integrity_tag", "module_version"]
  }

  lemma KeysSpell()
    ensures |KEYS| == 5 && KEYS[0][0] == OPEN_BRACE
    ensures forall i :: 0 <= i < 5 ==> |KEYS[i]| > 0 && KEYS[i][1..] == JsonString(NAMES()[i]) + [COLON]
    ensures forall i :: 0 < i < 5 ==> KEYS[i][0] == COMMA
  {
    hide JsonString, Key;
    KeyBytes(OPEN_BRACE, "build_timestamp");
    KeyBytes(COMMA, "git_commit");
    KeyBytes(COMMA, "hmac_key_id");
    KeyBytes(COMMA, "integrity_tag");
    KeyBytes(COMMA, "module_version");
  }

  /** Lexicographic order. */
  predicate Precedes(a: string, b: string) {
    b != "" && (a == "" || a[0] < b[0] || (a[0] == b[0] && Precedes(a[1..], b[1..])))
  }

  /** Any reader finds each field under its own name, the tag empty, and the names ascending. */
  lemma ReadCanonical(m: Metadata)
    ensures ReadObject(CanonicalJson(m)) == Some([
              ("build_timestamp", m.buildTimestamp), ("git_commit", m.gitCommit), ("hmac_key_id", m.hmacKeyId),
              ("integrity_tag", ""), ("module_version", m.moduleVersion)])
    ensures Precedes("build_timestamp", "git_commit") && Precedes("git_commit", "hmac_key_id")
    ensures Precedes("hmac_key_id", "integrity_tag") && Precedes("integrity_tag", "module_version")
  {
    hide Members, JsonString, TakePairs, Key;
    KeysSpell();
    ReadMembers(KEYS, NAMES(), Values(m));
    NoPairs();
    assert [OPEN_BRACE, CLOSE_BRACE][1..] == [CLOSE_BRACE];
    var names, values := NAMES(), Values(m);
    assert seq(5, i requires 0 <= i < 5 => (names[i], values[i])) ==
           [(names[0], values[0]), (names[1], values[1]), (names[2], values[2]), (names[3], values[3]), (names[4], values[4])];
  }

  lemma NoPairs()
    ensures TakePairs([CLOSE_BRACE]) == None
  {
  }
}
