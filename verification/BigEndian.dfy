/** Unsigned big-endian numbers. */
module BigEndian {
  import opened Text

  function Pow256(k: nat): (r: nat)
    ensures r >= 1
  {
    if k == 0 then 1 else 256 * Pow256(k - 1)
  }

  function BE(b: bytes): nat {
    if b == [] then 0 else 256 * BE(b[..|b| - 1]) + b[|b| - 1] as int
  }

  lemma {:induction false} LeadingZero(b: bytes)
    ensures BE([0] + b) == BE(b)
  {
    if b == [] {
      assert BE([0]) == 256 * BE([0][..0]) + 0;
      assert [0] + b == [0];
    } else {
      LeadingZero(b[..|b| - 1]);
      assert ([0] + b)[..|b|] == [0] + b[..|b| - 1];
    }
  }

  lemma {:induction false} Bounds(b: bytes)
    ensures BE(b) < Pow256(|b|)
    ensures b != [] ==> b[0] * Pow256(|b| - 1) <= BE(b) < (b[0] + 1) * Pow256(|b| - 1)
  {
    if |b| == 1 {
      assert BE(b[..0]) == 0 && Pow256(0) == 1 && Pow256(1) == 256;
    } else if |b| > 1 {
      var init := b[..|b| - 1];
      Bounds(init);
      Scale(b[0], Pow256(|b| - 2), BE(init), b[|b| - 1]);
      assert Pow256(|b| - 1) == 256 * Pow256(|b| - 2) && Pow256(|b|) == 256 * Pow256(|b| - 1);
    }
  }

  lemma Scale(d: byte, p: nat, x: nat, last: byte)
    requires d * p <= x < (d + 1) * p
    ensures d * (256 * p) <= 256 * x + last < (d + 1) * (256 * p)
  {
    assert d * (256 * p) == 256 * (d * p) && (d + 1) * (256 * p) == 256 * ((d + 1) * p);
  }

  lemma {:induction false} SameLength(a: bytes, b: bytes)
    requires |a| == |b| && BE(a) == BE(b)
    ensures a == b
  {
    if a != [] {
      var n := |a| - 1;
      SameLength(a[..n], b[..n]);
      assert a == a[..n] + [a[n]] && b == b[..n] + [b[n]];
    }
  }

  /** No leading zero, except for the number zero itself. */
  predicate Trimmed(b: bytes) {
    b != [] && (|b| == 1 || b[0] != 0)
  }

  lemma PowMonotone(i: nat, j: nat)
    requires i <= j
    ensures Pow256(i) <= Pow256(j)
    decreases j - i
  {
    if i < j {
      PowMonotone(i, j - 1);
    }
  }

  lemma LongerIsLarger(a: bytes, b: bytes)
    requires |a| < |b| && b[0] != 0
    ensures BE(a) < BE(b)
  {
    hide BE, Pow256;
    Bounds(a);
    Bounds(b);
    PowMonotone(|a|, |b| - 1);
    AtLeastOnce(b[0], Pow256(|b| - 1));
  }

  lemma AtLeastOnce(d: nat, p: nat)
    requires d > 0
    ensures d * p >= p
  {
  }

  /** A number has one trimmed form. */
  lemma TrimmedUnique(a: bytes, b: bytes)
    requires Trimmed(a) && Trimmed(b) && BE(a) == BE(b)
    ensures a == b
  {
    hide BE;
    if |a| < |b| {
      LongerIsLarger(a, b);
    } else if |b| < |a| {
      LongerIsLarger(b, a);
    }
    SameLength(a, b);
  }
}
