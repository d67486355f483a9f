/** The signed-binary envelope: signing, embedding, backwards parsing, verification. */
module SignedBinary {
  import opened Wrappers
  import opened Text
  import opened MetadataJson
  import opened BigEndian

  const MAGIC: bytes := Ascii("RHSMSIGN")
  const VERSION: byte := 1
  const TAG_LEN := 32
  const FIXED_FOOTER_OVERHEAD := 8 + 1 + 8 + 4 + TAG_LEN
  const MAX_META_LEN := 0x10_0000
  const MIN_HMAC_KEY_BYTES := 32

  type Mac = (bytes, bytes) -> Block

  /** A JSON reader; only its answers on canonical text matter here. */
  type JsonReader = bytes -> Option<Metadata>

  datatype CertError =
    | TooShort | MetaTooLong | MetaBeyondEnvelope | NoOriginalLength | NoVersion | WrongVersion
    | NoMagic | WrongMagic | WrongOriginalLength | BadJson | NotCanonical | BadTagText
    | KeyTooShort | HmacMismatch

  // ----- little-endian lengths ----------------------------------------------------------

  function LE(n: nat, k: nat): (b: bytes)
    ensures |b| == k
    decreases k
  {
    if k == 0 then [] else [n % 256] + LE(n / 256, k - 1)
  }

  function FromLE(b: bytes): nat {
    if b == [] then 0 else b[0] + 256 * FromLE(b[1..])
  }

  const U32_LIMIT := 0x1_0000_0000

  lemma {:induction false} FromToLE(n: nat, k: nat)
    requires n < Pow256(k)
    ensures FromLE(LE(n, k)) == n
    decreases k
  {
    if k > 0 {
      FromToLE(n / 256, k - 1);
      assert LE(n, k)[1..] == LE(n / 256, k - 1);
    }
  }

  lemma {:induction false} ToFromLE(b: bytes)
    ensures LE(FromLE(b), |b|) == b && FromLE(b) < Pow256(|b|)
  {
    if b != [] {
      ToFromLE(b[1..]);
      DivMod256(FromLE(b[1..]), b[0]);
      assert b == [b[0]] + b[1..];
    }
  }

  lemma DivMod256(q: nat, r: byte)
    ensures (r + 256 * q) % 256 == r && (r + 256 * q) / 256 == q
  {
  }

  lemma Widths()
    ensures Pow256(4) == U32_LIMIT && Pow256(8) == U64_LIMIT
  {
    assert Pow256(2) == 0x1_0000;
    assert Pow256(4) == 0x1_0000_0000;
    assert Pow256(6) == 0x1_0000_0000_0000;
  }

  // ----- signing and embedding ------------------------------------------------------------

  /** Everything before the tag: the bytes that the HMAC covers. */
  function Prefix(binary: bytes, json: bytes): bytes {
    binary + (MAGIC + ([VERSION] + (LE(|binary|, 8) + (json + LE(|json|, 4)))))
  }

  function SignBinary(mac: Mac, binary: bytes, key: bytes, fields: Metadata): Result<Metadata, CertError> {
    if |key| < MIN_HMAC_KEY_BYTES then Err(KeyTooShort)
    else Ok(fields.(integrityTag := Hex(mac(key, Prefix(binary, CanonicalJson(fields))))))
  }

  function DecodeTag(hex: string): Result<Block, CertError> {
    var text := Encode(hex);
    if |text| != 2 * TAG_LEN then Err(BadTagText)
    else match UnHex(text)
      case None => Err(BadTagText)
      case Some(tag) => Ok(tag)
  }

  function EmbedMetadata(binary: bytes, meta: Metadata): Result<bytes, CertError> {
    match DecodeTag(meta.integrityTag)
    case Err(e) => Err(e)
    case Ok(tag) => Ok(Prefix(binary, CanonicalJson(meta)) + tag)
  }

  lemma {:induction false} UnHexAt(text: bytes, i: nat)
    requires 2 * i + 1 < |text|
    ensures (Nibble(text[2 * i]).None? || Nibble(text[2 * i + 1]).None?) ==> UnHex(text).None?
    ensures UnHex(text).Some? ==>
              UnHex(text).value[i] == Nibble(text[2 * i]).value * 16 + Nibble(text[2 * i + 1]).value
    decreases i
  {
    hide Nibble;
    if i > 0 {
      UnHexAt(text[2..], i - 1);
    }
  }

  lemma {:induction false} UnHexAll(text: bytes, n: nat)
    requires |text| == 2 * n
    requires forall k :: 0 <= k < |text| ==> Nibble(text[k]).Some?
    ensures UnHex(text).Some?
    decreases n
  {
    hide Nibble;
    if n > 0 {
      UnHexAll(text[2..], n - 1);
    }
  }

  /** `hex_decode_tag`: fill a fixed buffer, one byte per two digits. */
  method HexDecodeTag(hex: string) returns (r: Result<Block, CertError>)
    ensures r == DecodeTag(hex)
  {
    hide Nibble;
    var text := Encode(hex);
    if |text| != 2 * TAG_LEN {
      return Err(BadTagText);
    }
    var out := new byte[TAG_LEN];
    var i := 0;
    while i < TAG_LEN
      invariant 0 <= i <= TAG_LEN
      invariant forall k :: 0 <= k < 2 * i ==> Nibble(text[k]).Some?
      invariant forall k :: 0 <= k < i ==> out[k] == Nibble(text[2 * k]).value * 16 + Nibble(text[2 * k + 1]).value
    {
      var hi, lo := Nibble(text[2 * i]), Nibble(text[2 * i + 1]);
      if hi.None? || lo.None? {
        UnHexAt(text, i);
        return Err(BadTagText);
      }
      out[i] := hi.value * 16 + lo.value;
      i := i + 1;
    }
    UnHexAll(text, TAG_LEN);
    forall k | 0 <= k < TAG_LEN
      ensures out[k] == UnHex(text).value[k]
    {
      UnHexAt(text, k);
    }
    assert out[..] == UnHex(text).value;
    return Ok(out[..]);
  }

  // ----- parsing --------------------------------------------------------------------------

  datatype Envelope = Envelope(
    original: bytes,
    magic: bytes,
    version: byte,
    originalLen: bytes,
    metaJson: bytes,
    metaLen: bytes,
    tag: Block,
    metadata: Metadata)

  /** `parse_envelope`, from the tag backwards. */
  function ParseEnvelope(read: JsonReader, signed: bytes): Result<Envelope, CertError> {
    if |signed| < FIXED_FOOTER_OVERHEAD then Err(TooShort)
    else
      var tagStart := |signed| - TAG_LEN;
      var metaLenOff := tagStart - 4;
      var metaLen := FromLE(signed[metaLenOff..tagStart]);
      if metaLen > MAX_META_LEN then Err(MetaTooLong)
      else if metaLen > metaLenOff then Err(MetaBeyondEnvelope)
      else
        var metaOff := metaLenOff - metaLen;
        if metaOff < 8 then Err(NoOriginalLength)
        else
          var originalLenOff := metaOff - 8;
          if originalLenOff < 1 then Err(NoVersion)
          else
            var versionOff := originalLenOff - 1;
            if signed[versionOff] != VERSION then Err(WrongVersion)
            else if versionOff < 8 then Err(NoMagic)
            else
              var magicOff := versionOff - 8;
              if signed[magicOff..versionOff] != MAGIC then Err(WrongMagic)
              else if FromLE(signed[originalLenOff..metaOff]) != magicOff then Err(WrongOriginalLength)
              else match read(signed[metaOff..metaLenOff])
                case None => Err(BadJson)
                case Some(m) =>
                  Ok(Envelope(signed[..magicOff], signed[magicOff..versionOff], signed[versionOff],
                              signed[originalLenOff..metaOff], signed[metaOff..metaLenOff], signed[metaLenOff..tagStart],
                              signed[tagStart..], m.(integrityTag := Hex(signed[tagStart..]))))
  }

  function Message(e: Envelope): bytes {
    e.original + (e.magic + ([e.version] + (e.originalLen + (e.metaJson + e.metaLen))))
  }

  /** `verify_signed_binary`. */
  function Verify(mac: Mac, read: JsonReader, signed: bytes, key: bytes): Result<(), CertError> {
    match ParseEnvelope(read, signed)
    case Err(e) => Err(e)
    case Ok(e) =>
      if CanonicalJson(e.metadata) != e.metaJson then Err(NotCanonical)
      else if |key| < MIN_HMAC_KEY_BYTES then Err(KeyTooShort)
      else if mac(key, Message(e)) != e.tag then Err(HmacMismatch)
      else Ok(())
  }

  /** What the model needs of `serde_json`: it reads canonical text as it was meant. */
  ghost predicate ReadsCanonical(read: JsonReader) {
    forall m: Metadata :: read(CanonicalJson(m)) == Some(m.(integrityTag := ""))
  }

  lemma DecodeJsonReadsCanonical()
    ensures ReadsCanonical(DecodeJson)
  {
    hide DecodeJson, CanonicalJson;
    forall m: Metadata
      ensures DecodeJson(CanonicalJson(m)) == Some(m.(integrityTag := ""))
    {
      DecodeCanonical(m);
    }
  }

  lemma ParsedParts(read: JsonReader, s: bytes)
    requires ParseEnvelope(read, s).Ok?
    ensures var e := ParseEnvelope(read, s).value;
            var n, m := |e.original|, |e.metaJson|;
            && |s| == n + m + FIXED_FOOTER_OVERHEAD && m <= MAX_META_LEN
            && e.original == s[..n] && e.magic == s[n..n + 8] == MAGIC && e.version == s[n + 8] == VERSION
            && e.originalLen == s[n + 9..n + 17] && e.metaJson == s[n + 17..n + 17 + m]
            && e.metaLen == s[n + 17 + m..n + 21 + m] && e.tag == s[n + 21 + m..]
            && FromLE(e.originalLen) == n && FromLE(e.metaLen) == m
            && read(e.metaJson).Some? && e.metadata == read(e.metaJson).value.(integrityTag := Hex(e.tag))
  {
    hide FromLE, Hex;
  }

  /** The layout of everything that parses. */
  lemma ParsedLayout(read: JsonReader, signed: bytes)
    requires ParseEnvelope(read, signed).Ok?
    ensures var e := ParseEnvelope(read, signed).value;
            && signed == Prefix(e.original, e.metaJson) + e.tag
            && Message(e) == Prefix(e.original, e.metaJson)
            && |e.original| < U64_LIMIT && |e.metaJson| <= MAX_META_LEN
            && read(e.metaJson).Some? && e.metadata == read(e.metaJson).value.(integrityTag := Hex(e.tag))
  {
    hide FromLE, LE, Hex, ParseEnvelope;
    var e := ParseEnvelope(read, signed).value;
    ParsedParts(read, signed);
    ToFromLE(e.originalLen);
    ToFromLE(e.metaLen);
    Widths();
    Reassemble(signed, |e.original|, |e.metaJson|);
  }

  /** Consecutive slices of a byte string put together again. */
  lemma Reassemble(s: bytes, n: nat, m: nat)
    requires |s| == n + 8 + 1 + 8 + m + 4 + TAG_LEN
    ensures s == (s[..n] + (s[n..n + 8] + ([s[n + 8]] + (s[n + 9..n + 17] + (s[n + 17..n + 17 + m] + s[n + 17 + m..n + 21 + m])))))
                 + s[n + 21 + m..]
  {
  }

  /** Everything with that layout parses, into its parts. */
  lemma ParseWritten(read: JsonReader, binary: bytes, json: bytes, tag: Block)
    requires |binary| < U64_LIMIT && |json| <= MAX_META_LEN && read(json).Some?
    ensures var r := ParseEnvelope(read, Prefix(binary, json) + tag);
            && r.Ok? && r.value.original == binary && r.value.metaJson == json && r.value.tag == tag
            && r.value.metadata == read(json).value.(integrityTag := Hex(tag))
  {
    hide FromLE, LE, Hex;
    var s := Prefix(binary, json) + tag;
    var n, m := |binary|, |json|;
    Slices(binary, MAGIC, [VERSION], LE(n, 8), json, LE(m, 4), tag);
    Widths();
    FromToLE(n, 8);
    FromToLE(m, 4);
  }

  lemma Slices(a: bytes, b: bytes, c: bytes, d: bytes, e: bytes, f: bytes, g: bytes)
    requires |b| == 8 && |c| == 1 && |d| == 8 && |f| == 4 && |g| == TAG_LEN
    ensures var s := (a + (b + (c + (d + (e + f))))) + g;
            var n, m := |a|, |e|;
            && |s| == n + m + FIXED_FOOTER_OVERHEAD
            && s[..n] == a && s[n..n + 8] == b && s[n + 8] == c[0] && s[n + 9..n + 17] == d
            && s[n + 17..n + 17 + m] == e && s[n + 17 + m..n + 21 + m] == f && s[n + 21 + m..] == g
  {
  }

  // ----- what is accepted -----------------------------------------------------------------

  /** `signed` is what signing `binary` with these fields and embedding the result gives. */
  ghost predicate SignsTo(mac: Mac, key: bytes, binary: bytes, fields: Metadata, signed: bytes) {
    var meta := SignBinary(mac, binary, key, fields);
    meta.Ok? && EmbedMetadata(binary, meta.value) == Ok(signed)
  }

  lemma SignedBytes(mac: Mac, key: bytes, binary: bytes, fields: Metadata)
    requires |key| >= MIN_HMAC_KEY_BYTES
    ensures var json := CanonicalJson(fields);
            SignsTo(mac, key, binary, fields, Prefix(binary, json) + mac(key, Prefix(binary, json)))
  {
    hide Prefix, CanonicalJson, Hex, UnHex, Encode;
    var tag := mac(key, Prefix(binary, CanonicalJson(fields)));
    TagRoundTrip(tag);
    TagIgnored(fields, Hex(tag));
  }

  lemma TagRoundTrip(tag: Block)
    ensures DecodeTag(Hex(tag)) == Ok(tag)
  {
    hide UnHex, Encode, Hex;
    EncodeAscii(Hex(tag));
    UnHexHex(tag);
  }

  lemma TagIgnored(m: Metadata, tag: string)
    ensures CanonicalJson(m.(integrityTag := tag)) == CanonicalJson(m)
  {
    hide Members;
  }

  /** Signed envelopes of bounded metadata are accepted and come apart into what went in. */
  lemma SignedAccepted(mac: Mac, read: JsonReader, key: bytes, binary: bytes, fields: Metadata, signed: bytes)
    requires ReadsCanonical(read) && |binary| < U64_LIMIT && |CanonicalJson(fields)| <= MAX_META_LEN
    requires SignsTo(mac, key, binary, fields, signed)
    ensures Verify(mac, read, signed, key) == Ok(())
    ensures var e := ParseEnvelope(read, signed).value;
            e.original == binary && Ok(e.metadata) == SignBinary(mac, binary, key, fields)
  {
    hide Prefix, CanonicalJson, Hex, ParseEnvelope, Message;
    var json := CanonicalJson(fields);
    var tag := mac(key, Prefix(binary, json));
    SignedBytes(mac, key, binary, fields);
    assert signed == Prefix(binary, json) + tag;
    assert read(json) == Some(fields.(integrityTag := ""));
    ParseWritten(read, binary, json, tag);
    ParsedLayout(read, signed);
    TagIgnored(fields, Hex(tag));
  }

  /** Whatever is accepted was made by signing and embedding. */
  lemma AcceptedSigned(mac: Mac, read: JsonReader, key: bytes, signed: bytes)
    requires Verify(mac, read, signed, key).Ok?
    ensures var e := ParseEnvelope(read, signed).value;
            && |key| >= MIN_HMAC_KEY_BYTES && |e.original| < U64_LIMIT && |CanonicalJson(e.metadata)| <= MAX_META_LEN
            && SignsTo(mac, key, e.original, e.metadata, signed)
            && EmbedMetadata(e.original, e.metadata) == Ok(signed)
  {
    hide Prefix, CanonicalJson, Hex, ParseEnvelope, Message, UnHex, Encode;
    var e := ParseEnvelope(read, signed).value;
    ParsedLayout(read, signed);
    SignedBytes(mac, key, e.original, e.metadata);
    TagRoundTrip(e.tag);
  }

  ghost predicate IsSigned(mac: Mac, key: bytes, signed: bytes) {
    exists binary: bytes, fields: Metadata :: Makes(mac, key, binary, fields, signed)
  }

  ghost predicate Makes(mac: Mac, key: bytes, binary: bytes, fields: Metadata, signed: bytes) {
    |binary| < U64_LIMIT && |CanonicalJson(fields)| <= MAX_META_LEN && SignsTo(mac, key, binary, fields, signed)
  }

  /** The form of everything accepted, byte by byte, and the key it takes. */
  lemma AcceptedForm(mac: Mac, read: JsonReader, key: bytes, signed: bytes) returns (n: nat, m: nat)
    requires Verify(mac, read, signed, key).Ok?
    ensures |key| >= 32 && m <= 1_048_576 && |signed| == n + m + 53
    ensures signed[n..n + 8] == Ascii("RHSMSIGN") && signed[n + 8] == 1
    ensures FromLE(signed[n + 9..n + 17]) == n && FromLE(signed[n + 17 + m..n + 21 + m]) == m
    ensures signed[n + 21 + m..] == mac(key, signed[..n + 21 + m])
  {
    hide FromLE, CanonicalJson, ParseEnvelope, Verify, Prefix, Message, Ascii;
    VerifiedTag(mac, read, key, signed);
    var e := ParseEnvelope(read, signed).value;
    n, m := |e.original|, |e.metaJson|;
    ParsedParts(read, signed);
    ParsedLayout(read, signed);
    PrefixLength(e.original, e.metaJson);
    assert signed[..n + 21 + m] == Prefix(e.original, e.metaJson);
  }

  lemma VerifiedTag(mac: Mac, read: JsonReader, key: bytes, signed: bytes)
    requires Verify(mac, read, signed, key).Ok?
    ensures ParseEnvelope(read, signed).Ok? && |key| >= 32
    ensures var e := ParseEnvelope(read, signed).value; e.tag == mac(key, Message(e))
  {
    hide ParseEnvelope, Message, CanonicalJson;
  }

  lemma AcceptedMade(mac: Mac, read: JsonReader, key: bytes, signed: bytes) returns (binary: bytes, fields: Metadata)
    requires Verify(mac, read, signed, key).Ok?
    ensures Makes(mac, key, binary, fields, signed)
  {
    hide SignsTo, CanonicalJson, ParseEnvelope, Message;
    var e := ParseEnvelope(read, signed).value;
    AcceptedSigned(mac, read, key, signed);
    binary, fields := e.original, e.metadata;
  }

  lemma MadeAccepted(mac: Mac, read: JsonReader, key: bytes, binary: bytes, fields: Metadata, signed: bytes)
    requires ReadsCanonical(read) && Makes(mac, key, binary, fields, signed)
    ensures Verify(mac, read, signed, key).Ok?
  {
    hide SignsTo, CanonicalJson, ParseEnvelope, Verify, ReadsCanonical;
    SignedAccepted(mac, read, key, binary, fields, signed);
  }

  /** `verify_signed_binary` accepts exactly the image of signing and embedding, for
      every keyed hash and every JSON reader that reads canonical text right. */
  lemma VerifyIff(mac: Mac, read: JsonReader, key: bytes, signed: bytes)
    requires ReadsCanonical(read)
    ensures Verify(mac, read, signed, key).Ok? <==> IsSigned(mac, key, signed)
  {
    hide Verify, Makes, ReadsCanonical;
    if Verify(mac, read, signed, key).Ok? {
      var binary, fields := AcceptedMade(mac, read, key, signed);
    } else if IsSigned(mac, key, signed) {
      var binary: bytes, fields: Metadata :| Makes(mac, key, binary, fields, signed);
      MadeAccepted(mac, read, key, binary, fields, signed);
    }
  }

  /** An envelope signed again keeps the inner one intact, down to the first binary. */
  lemma Nested(mac: Mac, read: JsonReader, key: bytes, binary: bytes, fields: Metadata, inner: bytes,
               outerFields: Metadata, outer: bytes)
    requires ReadsCanonical(read)
    requires |inner| < U64_LIMIT && |CanonicalJson(fields)| <= MAX_META_LEN && |CanonicalJson(outerFields)| <= MAX_META_LEN
    requires SignsTo(mac, key, binary, fields, inner) && SignsTo(mac, key, inner, outerFields, outer)
    ensures Verify(mac, read, outer, key).Ok?
    ensures var e := ParseEnvelope(read, outer).value;
            && e.original == inner && Verify(mac, read, e.original, key).Ok?
            && ParseEnvelope(read, e.original).value.original == binary
  {
    hide Verify, CanonicalJson, ReadsCanonical, ParseEnvelope, Prefix;
    SignedBytes(mac, key, binary, fields);
    assert |binary| < |inner| by { PrefixLength(binary, CanonicalJson(fields)); }
    SignedAccepted(mac, read, key, binary, fields, inner);
    SignedAccepted(mac, read, key, inner, outerFields, outer);
  }

  lemma PrefixLength(binary: bytes, json: bytes)
    ensures |Prefix(binary, json)| == |binary| + |json| + 21
  {
  }

  // ----- the signed message ---------------------------------------------------------------

  lemma PrefixEnd(binary: bytes, json: bytes)
    ensures var p := Prefix(binary, json);
            && |p| == |binary| + |json| + 21 && p[|p| - 4..] == LE(|json|, 4)
            && p[|p| - 4 - |json|..|p| - 4] == json && p[..|binary|] == binary
  {
    hide LE;
  }

  /** Two signings with the same HMAC message have the same binary and the same four
      signed fields. */
  lemma MessageInjective(b1: bytes, m1: Metadata, b2: bytes, m2: Metadata)
    requires |CanonicalJson(m1)| < U32_LIMIT && |CanonicalJson(m2)| < U32_LIMIT
    requires Prefix(b1, CanonicalJson(m1)) == Prefix(b2, CanonicalJson(m2))
    ensures b1 == b2 && m1.(integrityTag := "") == m2.(integrityTag := "")
  {
    hide Prefix, LE, FromLE, CanonicalJson, DecodeJson;
    var j1, j2 := CanonicalJson(m1), CanonicalJson(m2);
    PrefixEnd(b1, j1);
    PrefixEnd(b2, j2);
    Widths();
    FromToLE(|j1|, 4);
    FromToLE(|j2|, 4);
    assert |j1| == |j2|;
    DecodeCanonical(m1);
    DecodeCanonical(m2);
  }
}
