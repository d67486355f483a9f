/** DER integers and ECDSA signatures (sections 8.1.3, 8.3 and 10.1 of ITU-T X.690;
    Ecdsa-Sig-Value in section 2.2.3 of RFC 3279), with a strict decoder. */
module Der {
  import opened Wrappers
  import opened Text
  import opened BigEndian

  const MAX_CONTENT := 0x100_0000 - 1
  const INTEGER: byte := 0x02
  const SEQUENCE: byte := 0x30

  datatype DerError = TooLong

  // ----- encoding -----------------------------------------------------------------------

  function TrimZeros(value: bytes): (t: bytes)
    ensures value != [] ==> Trimmed(t)
  {
    if |value| > 1 && value[0] == 0 then TrimZeros(value[1..]) else value
  }

  /** The content octets: no superfluous zero, and a pad if the top bit is set. */
  function Content(value: bytes): bytes {
    var t := TrimZeros(value);
    if t != [] && t[0] >= 0x80 then [0] + t else t
  }

  function LengthOctets(n: nat): bytes {
    if n < 0x80 then [n]
    else if n < 0x100 then [0x81, n]
    else if n < 0x10000 then [0x82, n / 256, n % 256]
    else [0x83, n / 65536 % 256, n / 256 % 256, n % 256]
  }

  function Tlv(tag: byte, content: bytes): bytes {
    [tag] + (LengthOctets(|content|) + content)
  }

  function EncodeInteger(value: bytes): Result<bytes, DerError> {
    if |Content(value)| > MAX_CONTENT then Err(TooLong) else Ok(Tlv(INTEGER, Content(value)))
  }

  function EncodeSig(r: bytes, s: bytes): Result<bytes, DerError> {
    match (EncodeInteger(r), EncodeInteger(s))
    case (Ok(x), Ok(y)) => if |x + y| > MAX_CONTENT then Err(TooLong) else Ok(Tlv(SEQUENCE, x + y))
    case _ => Err(TooLong)
  }

  /** `der_encode_integer`. */
  method DerEncodeInteger(value: bytes) returns (r: Result<bytes, DerError>)
    ensures r == EncodeInteger(value)
  {
    var start := 0;
    while start + 1 < |value| && value[start] == 0
      invariant 0 <= start <= |value| && (value != [] ==> start < |value|)
      invariant TrimZeros(value[start..]) == TrimZeros(value)
    {
      assert value[start..][1..] == value[start + 1..];
      start := start + 1;
    }
    var trimmed := value[start..];
    assert TrimZeros(value) == trimmed;
    var pad := if trimmed != [] && trimmed[0] >= 0x80 then 1 else 0;
    if |trimmed| + pad > MAX_CONTENT {
      return Err(TooLong);
    }
    var content: bytes := [];
    if trimmed != [] && trimmed[0] >= 0x80 {
      content := content + [0];
    }
    content := content + trimmed;
    assert content == Content(value);
    var out: bytes := [INTEGER];
    out := out + LengthOctets(|content|);
    out := out + content;
    assert out == Tlv(INTEGER, content);
    return Ok(out);
  }

  /** `der_encode_ecdsa_sig`. */
  method DerEncodeEcdsaSig(r: bytes, s: bytes) returns (sig: Result<bytes, DerError>)
    ensures sig == EncodeSig(r, s)
  {
    hide EncodeInteger, LengthOctets;
    var rDer := DerEncodeInteger(r);
    if rDer.Err? {
      return Err(TooLong);
    }
    var sDer := DerEncodeInteger(s);
    if sDer.Err? {
      return Err(TooLong);
    }
    if |rDer.value| + |sDer.value| > MAX_CONTENT {
      return Err(TooLong);
    }
    var content := rDer.value + sDer.value;
    var out: bytes := [SEQUENCE];
    out := out + LengthOctets(|content|);
    out := out + content;
    assert out == Tlv(SEQUENCE, content);
    return Ok(out);
  }

  // ----- strict decoding ------------------------------------------------------------------

  /** The length and what follows it; only the shortest form is taken. */
  function TakeLength(b: bytes): Option<(nat, bytes)> {
    if b == [] then None
    else if b[0] < 0x80 then Some((b[0], b[1..]))
    else if b[0] == 0x81 && |b| >= 2 && b[1] >= 0x80 then Some((b[1], b[2..]))
    else if b[0] == 0x82 && |b| >= 3 && b[1] > 0 then Some((b[1] as int * 256 + b[2] as int, b[3..]))
    else if b[0] == 0x83 && |b| >= 4 && b[1] > 0 then
      Some((b[1] as int * 65536 + b[2] as int * 256 + b[3] as int, b[4..]))
    else None
  }

  function TakeTlv(tag: byte, b: bytes): Option<(bytes, bytes)> {
    if b == [] || b[0] != tag then None
    else match TakeLength(b[1..])
      case None => None
      case Some((n, rest)) => if n <= |rest| then Some((rest[..n], rest[n..])) else None
  }

  /** Two's complement of a non-negative number, without superfluous octets. */
  predicate Minimal(c: bytes) {
    c != [] && c[0] < 0x80 && (|c| > 1 && c[0] == 0 ==> c[1] >= 0x80)
  }

  function TakeInteger(b: bytes): Option<(nat, bytes)> {
    match TakeTlv(INTEGER, b)
    case None => None
    case Some((c, rest)) => if Minimal(c) then Some((BE(c), rest)) else None
  }

  function DecodeSig(b: bytes): Option<(nat, nat)> {
    match TakeTlv(SEQUENCE, b)
    case None => None
    case Some((content, after)) =>
      match TakeInteger(content)
      case None => None
      case Some((r, rest)) =>
        match TakeInteger(rest)
        case None => None
        case Some((s, end)) => if after == [] && end == [] then Some((r, s)) else None
  }

  // ----- lengths ------------------------------------------------------------------------

  lemma TakeWrittenLength(n: nat, rest: bytes)
    requires n <= MAX_CONTENT
    ensures TakeLength(LengthOctets(n) + rest) == Some((n, rest))
  {
    var o := LengthOctets(n);
    var b := o + rest;
    assert forall k :: 0 <= k < |o| ==> b[k] == o[k];
    assert b[|o|..] == rest;
    if n >= 0x10000 {
      Split3(n);
    }
  }

  lemma Split3(n: nat)
    requires n <= MAX_CONTENT
    ensures n / 65536 < 256 && n == n / 65536 * 65536 + n / 256 % 256 * 256 + n % 256
    ensures n >= 65536 ==> n / 65536 % 256 == n / 65536 > 0
  {
    assert n == n / 256 * 256 + n % 256;
    assert n / 256 == n / 65536 * 256 + n / 256 % 256;
  }

  lemma Join3(a: byte, b: byte, c: byte)
    ensures var n := a as int * 65536 + b as int * 256 + c as int;
            n / 65536 % 256 == a && n / 256 % 256 == b && n % 256 == c
  {
    var q := a as int * 256 + b as int;
    var n := q * 256 + c as int;
    assert n / 256 == q && n % 256 == c as int;
    assert q / 256 == a as int && q % 256 == b as int;
    assert n / 65536 == q / 256;
  }

  /** The length taken is written as it was read. */
  lemma WriteTakenLength(b: bytes)
    requires TakeLength(b).Some?
    ensures var (n, rest) := TakeLength(b).value; n <= MAX_CONTENT && b == LengthOctets(n) + rest
  {
    if b[0] == 0x82 {
      assert b == [0x82, b[1], b[2]] + b[3..];
    } else if b[0] == 0x83 {
      Join3(b[1], b[2], b[3]);
      assert b == [0x83, b[1], b[2], b[3]] + b[4..];
    } else if b[0] == 0x81 {
      assert b == [0x81, b[1]] + b[2..];
    } else {
      assert b == [b[0]] + b[1..];
    }
  }

  lemma TakeWritten(tag: byte, content: bytes, rest: bytes)
    requires |content| <= MAX_CONTENT
    ensures TakeTlv(tag, Tlv(tag, content) + rest) == Some((content, rest))
  {
    hide TakeLength, LengthOctets;
    var b := Tlv(tag, content) + rest;
    assert b[1..] == LengthOctets(|content|) + (content + rest);
    TakeWrittenLength(|content|, content + rest);
  }

  lemma WriteTaken(tag: byte, b: bytes)
    requires TakeTlv(tag, b).Some?
    ensures var (content, rest) := TakeTlv(tag, b).value; |content| <= MAX_CONTENT && b == Tlv(tag, content) + rest
  {
    hide TakeLength, LengthOctets;
    WriteTakenLength(b[1..]);
    var (n, more) := TakeLength(b[1..]).value;
    assert b == [b[0]] + b[1..] && more == more[..n] + more[n..];
  }

  // ----- integers -------------------------------------------------------------------------

  lemma {:induction false} TrimKeepsValue(value: bytes)
    ensures BE(TrimZeros(value)) == BE(value)
  {
    hide BE;
    if |value| > 1 && value[0] == 0 {
      TrimKeepsValue(value[1..]);
      LeadingZero(value[1..]);
      assert value == [0] + value[1..];
    }
  }

  lemma ContentMinimal(value: bytes)
    requires value != []
    ensures Minimal(Content(value)) && BE(Content(value)) == BE(value)
  {
    hide BE, TrimZeros;
    var t := TrimZeros(value);
    TrimKeepsValue(value);
    LeadingZero(t);
  }

  /** The content is the only minimal one for its value. */
  lemma MinimalUnique(value: bytes, c: bytes)
    requires value != [] && Minimal(c) && BE(c) == BE(value)
    ensures c == Content(value)
  {
    hide BE, TrimZeros;
    var t := TrimZeros(value);
    TrimKeepsValue(value);
    var u := if |c| > 1 && c[0] == 0 then c[1..] else c;
    if |c| > 1 && c[0] == 0 {
      LeadingZero(u);
      assert c == [0] + u;
    }
    TrimmedUnique(t, u);
  }

  /** And the shortest non-negative one of all. */
  lemma {:induction false} MinimalShortest(value: bytes, c: bytes)
    requires value != [] && c != [] && c[0] < 0x80 && BE(c) == BE(value)
    ensures |Content(value)| <= |c|
    decreases |c|
  {
    hide BE, TrimZeros;
    if Minimal(c) {
      MinimalUnique(value, c);
    } else {
      LeadingZero(c[1..]);
      assert c == [0] + c[1..];
      MinimalShortest(value, c[1..]);
    }
  }

  /** An encoded integer decodes to the value that went in; the empty input is the one
      that gives no integer at all. */
  lemma IntegerRoundTrip(value: bytes, rest: bytes)
    requires EncodeInteger(value).Ok?
    ensures TakeInteger(EncodeInteger(value).value + rest) == if value == [] then None else Some((BE(value), rest))
    ensures EncodeInteger(value).value != [] && EncodeInteger(value).value[0] == 0x02
  {
    hide BE, TakeTlv, TrimZeros, LengthOctets;
    TakeWritten(INTEGER, Content(value), rest);
    if value == [] {
      assert Content(value) == [] by { EmptyContent(); }
    } else {
      ContentMinimal(value);
    }
  }

  /** An input is refused exactly when its shortest content passes 16 MiB less one byte. */
  lemma EncodableIff(value: bytes)
    requires value != []
    ensures EncodeInteger(value).Ok? <==> exists c :: Minimal(c) && BE(c) == BE(value) && |c| <= 16_777_215
  {
    hide BE, Content, Minimal, Tlv;
    ContentMinimal(value);
    forall c | Minimal(c) && BE(c) == BE(value) ensures c == Content(value) {
      MinimalUnique(value, c);
    }
  }

  lemma EmptyContent()
    ensures Content([]) == []
  {
  }

  /** Two inputs encode alike exactly when they are the same number. */
  lemma EncodeAlike(v: bytes, w: bytes)
    requires v != [] && w != [] && EncodeInteger(v).Ok? && EncodeInteger(w).Ok?
    ensures EncodeInteger(v) == EncodeInteger(w) <==> BE(v) == BE(w)
  {
    hide BE, Content, Tlv, TakeInteger;
    if BE(v) == BE(w) {
      ContentMinimal(v);
      MinimalUnique(w, Content(v));
    }
    if EncodeInteger(v) == EncodeInteger(w) {
      IntegerRoundTrip(v, []);
      IntegerRoundTrip(w, []);
    }
  }

  // ----- signatures -----------------------------------------------------------------------

  /** A signature decodes to its two numbers, for every length form. */
  lemma SigRoundTrip(r: bytes, s: bytes)
    requires r != [] && s != [] && EncodeSig(r, s).Ok?
    ensures DecodeSig(EncodeSig(r, s).value) == Some((BE(r), BE(s)))
    ensures EncodeSig(r, s).value != [] && EncodeSig(r, s).value[0] == 0x30
  {
    hide BE, EncodeInteger, TakeInteger, TakeTlv, LengthOctets;
    var x, y := EncodeInteger(r).value, EncodeInteger(s).value;
    var sig := EncodeSig(r, s).value;
    assert sig + [] == sig && y + [] == y;
    TakeWritten(SEQUENCE, x + y, []);
    IntegerRoundTrip(r, y);
    IntegerRoundTrip(s, []);
  }

  lemma WriteTakenInteger(b: bytes, value: bytes)
    requires TakeInteger(b).Some? && value != [] && BE(value) == TakeInteger(b).value.0
    ensures EncodeInteger(value).Ok? && b == EncodeInteger(value).value + TakeInteger(b).value.1
  {
    hide BE, TakeTlv, Tlv, Content;
    WriteTaken(INTEGER, b);
    MinimalUnique(value, TakeTlv(INTEGER, b).value.0);
  }

  /** Whatever the strict decoder accepts is exactly what the encoder writes. */
  lemma DecodedIsEncoded(b: bytes, r: bytes, s: bytes)
    requires r != [] && s != [] && DecodeSig(b) == Some((BE(r), BE(s)))
    ensures EncodeSig(r, s) == Ok(b)
  {
    hide BE, TakeInteger, TakeTlv, Tlv, EncodeInteger;
    WriteTaken(SEQUENCE, b);
    var content := TakeTlv(SEQUENCE, b).value.0;
    var rest := TakeInteger(content).value.1;
    WriteTakenInteger(content, r);
    WriteTakenInteger(rest, s);
    var x, y := EncodeInteger(r).value, EncodeInteger(s).value;
    assert rest == y + [] == y && content == x + y;
    assert Tlv(SEQUENCE, content) + [] == Tlv(SEQUENCE, content);
  }
}
