/** Binary numerals as the source handles them: Python's `format(i, '0wb')`
    and `int(s, 2)`, most significant digit first, and the Hamming distance
    between two numerals. */
module Binary {

  function Pow2(k: nat): (r: nat)
    ensures r >= 1
  {
    if k == 0 then 1 else 2 * Pow2(k - 1)
  }

  predicate IsBinary(s: string)
  {
    forall j :: 0 <= j < |s| ==> s[j] == '0' || s[j] == '1'
  }

  /** The digit that stands for a bit. */
  function Digit(b: bool): char
  {
    if b then '1' else '0'
  }

  /** Python's `int(c)` on a binary digit. */
  function DigitValue(c: char): nat
  {
    if c == '1' then 1 else 0
  }

  /** The numeral of i with exactly w digits, most significant first. */
  function Padded(i: nat, w: nat): (s: string)
    requires i < Pow2(w)
    ensures |s| == w && IsBinary(s)
  {
    if w == 0 then ""
    else if i < Pow2(w - 1) then "0" + Padded(i, w - 1)
    else "1" + Padded(i - Pow2(w - 1), w - 1)
  }

  /** Python's `format(i, f'0{w}b')` for i >= 0: the binary numeral of i,
      left-padded with zeros to w digits, and never shorter than the numeral
      itself (so 0 with w == 0 gives "0", and 9 with w == 2 gives "1001"). */
  function Format(i: nat, w: nat): (s: string)
    ensures |s| >= w && |s| >= 1 && IsBinary(s)
    decreases if 0 < w && i < Pow2(w) then 0 else i + 2 - Pow2(w)
  {
    if 0 < w && i < Pow2(w) then Padded(i, w) else Format(i, w + 1)
  }

  /** Python's `int(s, 2)` on a binary numeral (the empty numeral reads as 0;
      the source never parses one). */
  function FromBinary(s: string): (v: nat)
    ensures v < Pow2(|s|)
  {
    if s == [] then 0 else (if s[0] == '1' then Pow2(|s| - 1) else 0) + FromBinary(s[1..])
  }

  /** A number below 2^w is its own w-digit numeral, read back. */
  lemma {:induction false} FromPadded(i: nat, w: nat)
    requires i < Pow2(w)
    ensures FromBinary(Padded(i, w)) == i
  {
    if w > 0 {
      if i < Pow2(w - 1) {
        FromPadded(i, w - 1);
        assert Padded(i, w)[1..] == Padded(i, w - 1);
      } else {
        FromPadded(i - Pow2(w - 1), w - 1);
        assert Padded(i, w)[1..] == Padded(i - Pow2(w - 1), w - 1);
      }
    }
  }

  /** A binary numeral is the numeral of its own value. */
  lemma {:induction false} PaddedFromBinary(s: string)
    requires IsBinary(s)
    ensures Padded(FromBinary(s), |s|) == s
  {
    if s != [] {
      var t := s[1..];
      assert IsBinary(t) by {
        forall j | 0 <= j < |t| ensures t[j] == '0' || t[j] == '1' { assert t[j] == s[j + 1]; }
      }
      PaddedFromBinary(t);
      assert FromBinary(t) < Pow2(|t|);
      assert s == [s[0]] + t;
    }
  }

  /** Below 2^w, `format` gives exactly the w-digit numeral in its first w places. */
  lemma FormatPrefix(i: nat, w: nat)
    requires i < Pow2(w)
    ensures Format(i, w)[..w] == Padded(i, w)
    ensures 0 < w ==> Format(i, w) == Padded(i, w)
  {
  }

  /** `int(format(i, '0wb'), 2) == i` for every number i >= 0. */
  lemma {:induction false} FormatRoundTrip(i: nat, w: nat)
    ensures FromBinary(Format(i, w)) == i
    decreases if 0 < w && i < Pow2(w) then 0 else i + 2 - Pow2(w)
  {
    if 0 < w && i < Pow2(w) {
      FromPadded(i, w);
    } else {
      FormatRoundTrip(i, w + 1);
    }
  }

  /** `format(int(s, 2), '0{len(s)}b') == s` for every non-empty binary numeral. */
  lemma FormatFromBinary(s: string)
    requires IsBinary(s) && s != []
    ensures Format(FromBinary(s), |s|) == s
  {
    PaddedFromBinary(s);
  }

  /** The number of places at which two numerals of one length differ. */
  function Hamming(a: string, b: string): (d: nat)
    requires |a| == |b|
    ensures d <= |a|
    ensures d == 0 <==> a == b
  {
    if a == [] then 0
    else (if a[0] != b[0] then 1 else 0) + Hamming(a[1..], b[1..])
  }

  /** Hamming distance adds up over the two parts of a concatenation. */
  lemma {:induction false} HammingAppend(a1: string, a2: string, b1: string, b2: string)
    requires |a1| == |b1| && |a2| == |b2|
    ensures Hamming(a1 + a2, b1 + b2) == Hamming(a1, b1) + Hamming(a2, b2)
    decreases |a1|
  {
    if a1 != [] {
      assert (a1 + a2)[1..] == a1[1..] + a2;
      assert (b1 + b2)[1..] == b1[1..] + b2;
      HammingAppend(a1[1..], a2, b1[1..], b2);
    } else {
      assert a1 + a2 == a2 && b1 + b2 == b2;
    }
  }
}
