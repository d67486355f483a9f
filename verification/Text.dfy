/** Byte strings and the text encodings the repository reads and writes:
    UTF-8, hexadecimal and decimal.  A Dafny `string` is a sequence of Unicode
    scalar values, which is exactly what a Rust `String` holds. */
module Text {
  import opened Wrappers

  type byte = b: int | 0 <= b < 256
  type bytes = seq<byte>

  /** A SHA-256 digest, HMAC tag or key fingerprint. */
  type Block = b: bytes | |b| == 32 witness seq(32, _ => 0)

  predicate StartsWith(b: bytes, prefix: bytes) {
    |prefix| <= |b| && b[..|prefix|] == prefix
  }

  // ----- ASCII literals -------------------------------------------------------

  predicate IsAscii(s: string) {
    forall i :: 0 <= i < |s| ==> s[i] as int < 128
  }

  function Ascii(s: string): (b: bytes)
    requires IsAscii(s)
    ensures |b| == |s|
    ensures forall i :: 0 <= i < |s| ==> b[i] == s[i] as int
  {
    seq(|s|, i requires 0 <= i < |s| => s[i] as int)
  }

  // ----- UTF-8 ----------------------------------------------------------------

  function EncodeChar(c: char): (b: bytes)
    ensures 1 <= |b| <= 4
  {
    var u := c as int;
    if u < 0x80 then [u]
    else if u < 0x800 then [0xC0 + u / 64, 0x80 + u % 64]
    else if u < 0x10000 then [0xE0 + u / 4096, 0x80 + u / 64 % 64, 0x80 + u % 64]
    else [0xF0 + u / 262144, 0x80 + u / 4096 % 64, 0x80 + u / 64 % 64, 0x80 + u % 64]
  }

  function Encode(s: string): (b: bytes) {
    if s == "" then [] else EncodeChar(s[0]) + Encode(s[1..])
  }

  predicate Continuation(b: byte) {
    0x80 <= b < 0xC0
  }

  function Payload(b: byte, tag: int): int {
    b as int - tag
  }

  /** The first scalar value of `b` and its encoded length.  Overlong forms,
      surrogates and values past U+10FFFF are refused. */
  function DecodeChar(b: bytes): (r: Option<(char, nat)>)
    requires b != []
    ensures r.Some? ==> 1 <= r.value.1 <= |b|
  {
    if b[0] < 0x80 then Some((b[0] as char, 1))
    else if 0xC2 <= b[0] < 0xE0 && |b| >= 2 && Continuation(b[1]) then
      Some(((Payload(b[0], 0xC0) * 64 + Payload(b[1], 0x80)) as char, 2))
    else if 0xE0 <= b[0] < 0xF0 && |b| >= 3 && Continuation(b[1]) && Continuation(b[2]) then
      var u := Payload(b[0], 0xE0) * 4096 + Payload(b[1], 0x80) * 64 + Payload(b[2], 0x80);
      if 0x800 <= u < 0xD800 || 0xE000 <= u then Some((u as char, 3)) else None
    else if 0xF0 <= b[0] < 0xF5 && |b| >= 4 && Continuation(b[1]) && Continuation(b[2]) && Continuation(b[3]) then
      var u := Payload(b[0], 0xF0) * 262144 + Payload(b[1], 0x80) * 4096 + Payload(b[2], 0x80) * 64 + Payload(b[3], 0x80);
      if 0x10000 <= u < 0x110000 then Some((u as char, 4)) else None
    else None
  }

  function Decode(b: bytes): (r: Option<string>) {
    if b == [] then Some("")
    else match DecodeChar(b)
      case None => None
      case Some((c, n)) =>
        match Decode(b[n..])
        case None => None
        case Some(s) => Some([c] + s)
  }

  predicate IsUtf8(b: bytes) {
    Decode(b).Some?
  }

  lemma DecodeEncodeChar(c: char, rest: bytes)
    ensures DecodeChar(EncodeChar(c) + rest) == Some((c, |EncodeChar(c)|))
  {
    var u := c as int;
    var e := EncodeChar(c);
    assert forall k :: 0 <= k < |e| ==> (e + rest)[k] == e[k];
    if 0x80 <= u {
      assert u == u / 64 * 64 + u % 64;
      if 0x800 <= u {
        assert u / 64 == u / 4096 * 64 + u / 64 % 64;
        if 0x10000 <= u {
          assert u / 4096 == u / 262144 * 64 + u / 4096 % 64;
        }
      }
    }
  }

  lemma EncodeDecodeChar(b: bytes)
    requires b != [] && DecodeChar(b).Some?
    ensures EncodeChar(DecodeChar(b).value.0) == b[..DecodeChar(b).value.1]
  {
    var (c, n) := DecodeChar(b).value;
    if n == 2 {
      JoinSplit(Payload(b[0], 0xC0), Payload(b[1], 0x80));
    } else if n == 3 {
      JoinSplit3(Payload(b[0], 0xE0), Payload(b[1], 0x80), Payload(b[2], 0x80));
    } else if n == 4 {
      JoinSplit4(Payload(b[0], 0xF0), Payload(b[1], 0x80), Payload(b[2], 0x80), Payload(b[3], 0x80));
    }
  }

  lemma JoinSplit4(p: int, q: int, r: int, s: int)
    requires 0 <= q < 64 && 0 <= r < 64 && 0 <= s < 64
    ensures var u := p * 262144 + q * 4096 + r * 64 + s;
            u / 262144 == p && u / 4096 % 64 == q && u / 64 % 64 == r && u % 64 == s
  {
    JoinSplit3(p * 64 + q, r, s);
    JoinSplit(p, q);
  }

  lemma JoinSplit3(q: int, r: int, s: int)
    requires 0 <= r < 64 && 0 <= s < 64
    ensures var u := q * 4096 + r * 64 + s;
            u / 4096 == q && u / 64 == q * 64 + r && u / 64 % 64 == r && u % 64 == s
  {
    JoinSplit(q * 64 + r, s);
    JoinSplit(q, r);
  }

  lemma JoinSplit(q: int, r: int)
    requires 0 <= r < 64
    ensures (q * 64 + r) / 64 == q && (q * 64 + r) % 64 == r
  {
  }

  /** Every string survives encoding. */
  lemma {:induction false} DecodeEncode(s: string)
    ensures Decode(Encode(s)) == Some(s)
  {
    hide DecodeChar, EncodeChar;
    if s != "" {
      var e := EncodeChar(s[0]);
      DecodeEncodeChar(s[0], Encode(s[1..]));
      assert Encode(s)[|e|..] == Encode(s[1..]);
      DecodeEncode(s[1..]);
      assert s == [s[0]] + s[1..];
    }
  }

  /** Only encodings are accepted. */
  lemma {:induction false} EncodeDecode(b: bytes)
    requires IsUtf8(b)
    ensures Encode(Decode(b).value) == b
  {
    hide DecodeChar, EncodeChar;
    if b != [] {
      var (c, n) := DecodeChar(b).value;
      EncodeDecodeChar(b);
      EncodeDecode(b[n..]);
      assert b == b[..n] + b[n..];
      assert Decode(b).value[1..] == Decode(b[n..]).value;
    }
  }

  lemma {:induction false} EncodeConcat(s: string, t: string)
    ensures Encode(s + t) == Encode(s) + Encode(t)
  {
    hide EncodeChar;
    if s == "" {
      assert s + t == t;
    } else {
      assert (s + t)[1..] == s[1..] + t;
      EncodeConcat(s[1..], t);
    }
  }

  lemma {:induction false} EncodeAscii(s: string)
    requires IsAscii(s)
    ensures Encode(s) == Ascii(s)
  {
    if s != "" {
      EncodeAscii(s[1..]);
      assert EncodeChar(s[0]) == [s[0] as int];
      assert Ascii(s) == [s[0] as int] + Ascii(s[1..]);
    }
  }

  /** A decoder never reads across an ASCII byte. */
  lemma DecodeCharThenAscii(b: bytes, rest: bytes)
    requires b != [] && rest != [] && rest[0] < 0x80
    ensures DecodeChar(b + rest) == DecodeChar(b)
  {
    var all := b + rest;
    assert all[|b|] == rest[0] && !Continuation(all[|b|]);
    assert forall k :: 0 <= k < |b| ==> all[k] == b[k];
  }

  lemma DecodeFirst(b: bytes)
    requires b != []
    ensures DecodeChar(b).None? ==> Decode(b) == None
    ensures DecodeChar(b).Some? ==>
              var (c, n) := DecodeChar(b).value;
              Decode(b) == match Decode(b[n..]) case None => None case Some(s) => Some([c] + s)
  {
    hide DecodeChar;
  }

  /** Text followed by ASCII decodes exactly when the text does, and to the concatenation. */
  lemma {:induction false} DecodeThenAscii(b: bytes, t: string)
    requires IsAscii(t) && t != ""
    ensures IsUtf8(b) ==> Decode(b + Ascii(t)) == Some(Decode(b).value + t)
    ensures IsUtf8(b + Ascii(t)) <==> IsUtf8(b)
  {
    hide DecodeChar, Decode, Encode, Ascii;
    var all := b + Ascii(t);
    if b == [] {
      assert all == Ascii(t) && "" + t == t;
      EncodeAscii(t);
      DecodeEncode(t);
      assert Decode([]) == Some("") by { DecodeNothing(); }
    } else {
      DecodeCharThenAscii(b, Ascii(t));
      DecodeFirst(b);
      DecodeFirst(all);
      if DecodeChar(b).Some? {
        var (c, n) := DecodeChar(b).value;
        assert all[n..] == b[n..] + Ascii(t);
        DecodeThenAscii(b[n..], t);
        if IsUtf8(b) {
          assert [c] + Decode(b[n..]).value + t == [c] + (Decode(b[n..]).value + t);
        }
      }
    }
  }

  lemma DecodeNothing()
    ensures Decode([]) == Some("")
  {
  }

  // ----- hexadecimal ------------------------------------------------------------

  function HexDigit(n: nat): (c: char)
    requires n < 16
    ensures '0' <= c <= '9' || 'a' <= c <= 'f'
  {
    if n < 10 then (48 + n) as char else (87 + n) as char
  }

  function Nibble(b: byte): (r: Option<nat>)
    ensures r.Some? ==> r.value < 16
  {
    if 48 <= b <= 57 then Some(b - 48)
    else if 97 <= b <= 102 then Some(b - 87)
    else if 65 <= b <= 70 then Some(b - 55)
    else None
  }

  predicate IsHexText(s: string) {
    forall i :: 0 <= i < |s| ==> '0' <= s[i] <= '9' || 'a' <= s[i] <= 'f'
  }

  function Hex(b: bytes): (s: string)
    ensures |s| == 2 * |b|
    ensures IsHexText(s) && IsAscii(s)
  {
    if b == [] then "" else [HexDigit(b[0] / 16), HexDigit(b[0] % 16)] + Hex(b[1..])
  }

  /** Two digits of either case per byte; an odd digit out or any other byte is refused. */
  function UnHex(s: bytes): (r: Option<bytes>)
    ensures r.Some? ==> |s| == 2 * |r.value|
  {
    if s == [] then Some([])
    else if |s| == 1 then None
    else match (Nibble(s[0]), Nibble(s[1]), UnHex(s[2..]))
      case (Some(hi), Some(lo), Some(rest)) => Some([hi * 16 + lo] + rest)
      case _ => None
  }

  lemma NibbleDigit(n: nat)
    requires n < 16
    ensures Nibble(HexDigit(n) as int) == Some(n)
  {
  }

  lemma {:induction false} UnHexHex(b: bytes)
    ensures UnHex(Ascii(Hex(b))) == Some(b)
  {
    if b != [] {
      var s := Ascii(Hex(b));
      UnHexHex(b[1..]);
      assert s[2..] == Ascii(Hex(b[1..]));
      NibbleDigit(b[0] / 16);
      NibbleDigit(b[0] % 16);
      assert s[0] == HexDigit(b[0] / 16) as int && s[1] == HexDigit(b[0] % 16) as int;
      assert b == [b[0] / 16 * 16 + b[0] % 16] + b[1..];
    }
  }

  // ----- decimal ------------------------------------------------------------------

  const U64_LIMIT := 0x1_0000_0000_0000_0000

  function DecimalDigit(n: nat): (c: char)
    requires n < 10
    ensures '0' <= c <= '9'
  {
    (48 + n) as char
  }

  predicate IsDigits(s: string) {
    forall i :: 0 <= i < |s| ==> '0' <= s[i] <= '9'
  }

  function Decimal(n: nat): (s: string)
    ensures |s| > 0 && IsDigits(s)
  {
    if n < 10 then [DecimalDigit(n)] else Decimal(n / 10) + [DecimalDigit(n % 10)]
  }

  function DigitsValue(s: string): nat
    requires IsDigits(s)
  {
    if s == "" then 0 else 10 * DigitsValue(s[..|s| - 1]) + (s[|s| - 1] as int - 48)
  }

  /** `str::parse::<u64>`: one optional plus sign, then at least one digit, below 2^64. */
  function ParseU64(s: string): (r: Option<nat>) {
    var digits := if |s| > 1 && s[0] == '+' then s[1..] else s;
    if digits != "" && IsDigits(digits) && DigitsValue(digits) < U64_LIMIT
    then Some(DigitsValue(digits)) else None
  }

  lemma {:induction false} DecimalValue(n: nat)
    ensures DigitsValue(Decimal(n)) == n
  {
    if n >= 10 {
      DecimalValue(n / 10);
      assert Decimal(n)[..|Decimal(n)| - 1] == Decimal(n / 10);
    }
  }

  lemma ParseDecimal(n: nat)
    requires n < U64_LIMIT
    ensures ParseU64(Decimal(n)) == Some(n)
  {
    DecimalValue(n);
  }

  // ----- blanks ---------------------------------------------------------------------

  /** Unicode White_Space. */
  predicate IsSpace(c: char) {
    var u := c as int;
    0x09 <= u <= 0x0D || u == 0x20 || u == 0x85 || u == 0xA0 || u == 0x1680 || 0x2000 <= u <= 0x200A
    || u == 0x2028 || u == 0x2029 || u == 0x202F || u == 0x205F || u == 0x3000
  }

  function TrimStart(s: string): (t: string)
    ensures t != "" ==> !IsSpace(t[0])
    ensures |t| <= |s| && t == s[|s| - |t|..]
    ensures forall i :: 0 <= i < |s| - |t| ==> IsSpace(s[i])
  {
    if s != "" && IsSpace(s[0]) then TrimStart(s[1..]) else s
  }

  function TrimEnd(s: string): (t: string)
    ensures t != "" ==> !IsSpace(t[|t| - 1])
    ensures t <= s
    ensures forall i :: |t| <= i < |s| ==> IsSpace(s[i])
  {
    if s != "" && IsSpace(s[|s| - 1]) then TrimEnd(s[..|s| - 1]) else s
  }

  function Trim(s: string): string {
    TrimEnd(TrimStart(s))
  }
}
