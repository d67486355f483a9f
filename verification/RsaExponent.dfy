/** The two checks on an RSA public exponent. */
module RsaExponent {
  import opened Text
  import opened BigEndian

  const MIN_PUBLIC_EXPONENT := 65537

  lemma {:induction false} LeadingZeros(zeros: nat, b: bytes)
    ensures BE(seq(zeros, _ => 0) + b) == BE(b)
    decreases zeros
  {
    hide BE;
    if zeros == 0 {
      assert seq(zeros, _ => 0) + b == b;
    } else {
      var tail: bytes := seq(zeros - 1, _ => 0) + b;
      assert seq(zeros, _ => 0) + b == [0] + tail;
      LeadingZero(tail);
      LeadingZeros(zeros - 1, b);
    }
  }

  /** Nine bytes that start with a non-zero one exceed any u64. */
  lemma NineBytes(b: bytes)
    requires |b| > 8 && b[0] != 0
    ensures BE(b) > MIN_PUBLIC_EXPONENT
  {
    hide BE;
    var three: bytes := [1, 0, 2];
    assert BE(three) == 65538 by { ThreeBytes(); }
    LongerIsLarger(three, b);
  }

  lemma ThreeBytes()
    ensures BE([1, 0, 2]) == 65538
  {
    var b: bytes := [1, 0, 2];
    assert b[..2] == [1, 0] && b[..2][..1] == [1] && b[..2][..1][..0] == [];
    assert BE([]) == 0;
    assert BE(b[..2][..1]) == 1;
    assert BE(b[..2]) == 256;
  }

  /** `exponent_below_minimum` says what the big-integer comparison of
      `build_validated_rsa_pubkey` says, for byte strings of any length and with any
      number of leading zeros. */
  method ExponentBelowMinimum(e: bytes) returns (below: bool)
    ensures below <==> BE(e) < 65537
  {
    hide BE;
    var off := 0;
    while off < |e| && e[off] == 0
      invariant 0 <= off <= |e|
      invariant forall k :: 0 <= k < off ==> e[k] == 0
    {
      off := off + 1;
    }
    var trimmed := e[off..];
    assert e == seq(off, _ => 0) + trimmed;
    LeadingZeros(off, trimmed);
    if off == |e| {
      EmptyIsZero();
      return true;
    }
    if |trimmed| > 8 {
      NineBytes(trimmed);
      return false;
    }
    var buf := new byte[8](_ => 0);
    var i := 0;
    while i < |trimmed|
      invariant 0 <= i <= |trimmed|
      invariant buf[..] == seq(8 - |trimmed|, _ => 0) + trimmed[..i] + seq(|trimmed| - i, _ => 0)
    {
      buf[8 - |trimmed| + i] := trimmed[i];
      i := i + 1;
    }
    assert buf[..] == seq(8 - |trimmed|, _ => 0) + trimmed;
    LeadingZeros(8 - |trimmed|, trimmed);
    below := BE(buf[..]) < MIN_PUBLIC_EXPONENT;
  }

  lemma EmptyIsZero()
    ensures BE([]) == 0
  {
  }
}
