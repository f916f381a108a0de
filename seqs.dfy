/** Sequence helpers shared by the K-map model: range filters and string joins. */
module Seqs {

  /** The numbers lo, lo+1, ..., hi-1 that satisfy p, in increasing order: the
      list a `for i in range(lo, hi)` loop builds when it appends every i that
      passes p. */
  function Filter(lo: nat, hi: nat, p: nat -> bool): (r: seq<nat>)
    ensures hi <= lo ==> r == []
    ensures lo <= hi ==> |r| <= hi - lo
    ensures forall k :: 0 <= k < |r| ==> lo <= r[k] < hi
    ensures forall k, k' :: 0 <= k < k' < |r| ==> r[k] < r[k']
    decreases hi - lo
  {
    if hi <= lo then [] else Filter(lo, hi - 1, p) + (if p(hi - 1) then [hi - 1] else [])
  }

  /** Every number kept passes p. */
  lemma {:induction false} FilterSound(lo: nat, hi: nat, p: nat -> bool)
    ensures forall k :: 0 <= k < |Filter(lo, hi, p)| ==> p(Filter(lo, hi, p)[k])
    decreases hi - lo
  {
    if lo < hi {
      FilterSound(lo, hi - 1, p);
    }
  }

  /** Every number of the range that passes p is kept. */
  lemma {:induction false} FilterContains(lo: nat, hi: nat, p: nat -> bool, x: nat)
    requires lo <= x < hi && p(x)
    ensures x in Filter(lo, hi, p)
    decreases hi - lo
  {
    if x < hi - 1 {
      FilterContains(lo, hi - 1, p, x);
    }
  }

  /** Filtering a range is filtering its two halves, one after the other. */
  lemma {:induction false} FilterSplit(lo: nat, mid: nat, hi: nat, p: nat -> bool)
    requires lo <= mid <= hi
    ensures Filter(lo, hi, p) == Filter(lo, mid, p) + Filter(mid, hi, p)
    decreases hi - mid
  {
    if mid < hi {
      FilterSplit(lo, mid, hi - 1, p);
    }
  }

  /** A test that nothing in the range passes keeps nothing. */
  lemma {:induction false} FilterNone(lo: nat, hi: nat, p: nat -> bool)
    requires forall x :: lo <= x < hi ==> !p(x)
    ensures Filter(lo, hi, p) == []
    decreases hi - lo
  {
    if lo < hi {
      FilterNone(lo, hi - 1, p);
    }
  }

  /** Two tests that agree on the range keep the same numbers. */
  lemma {:induction false} FilterEquiv(lo: nat, hi: nat, p: nat -> bool, q: nat -> bool)
    requires forall x :: lo <= x < hi ==> p(x) == q(x)
    ensures Filter(lo, hi, p) == Filter(lo, hi, q)
    decreases hi - lo
  {
    if lo < hi {
      FilterEquiv(lo, hi - 1, p, q);
    }
  }

  /** Shifting the range by d while shifting the test by d keeps the count. */
  lemma {:induction false} FilterShiftLength(lo: nat, hi: nat, d: nat, p: nat -> bool, q: nat -> bool)
    requires forall x :: lo <= x < hi ==> p(x + d) == q(x)
    ensures |Filter(lo + d, hi + d, p)| == |Filter(lo, hi, q)|
    decreases hi - lo
  {
    if lo < hi {
      FilterShiftLength(lo, hi - 1, d, p, q);
      assert (hi - 1) + d == hi + d - 1;
    }
  }

  /** Below h, p passes exactly the numbers that q passes when ok holds, and
      nothing otherwise. */
  ghost predicate LowerAgrees(h: nat, p: nat -> bool, q: nat -> bool, ok: bool)
  {
    forall x: nat {:trigger q(x)} :: x < h ==> p(x) == (ok && q(x))
  }

  /** From h up to 2h, p passes x exactly when q passes x - h and ok holds. */
  ghost predicate UpperAgrees(h: nat, p: nat -> bool, q: nat -> bool, ok: bool)
  {
    forall x: nat {:trigger p(x)} :: h <= x < h + h ==> p(x) == (ok && q(x - h))
  }

  /** Counting a range of 2h numbers whose halves agree with q as above:
      each half contributes the count of q below h, or nothing. */
  lemma FilterHalves(h: nat, hh: nat, p: nat -> bool, q: nat -> bool, ok0: bool, ok1: bool)
    requires hh == h + h && LowerAgrees(h, p, q, ok0) && UpperAgrees(h, p, q, ok1)
    ensures |Filter(0, hh, p)| == (if ok0 then |Filter(0, h, q)| else 0) + (if ok1 then |Filter(0, h, q)| else 0)
  {
    FilterSplit(0, h, hh, p);
    assert |Filter(0, hh, p)| == |Filter(0, h, p)| + |Filter(h, hh, p)|;
    LowerHalf(h, p, q, ok0);
    UpperHalf(h, hh, p, q, ok1);
  }

  lemma LowerHalf(h: nat, p: nat -> bool, q: nat -> bool, ok: bool)
    requires LowerAgrees(h, p, q, ok)
    ensures |Filter(0, h, p)| == if ok then |Filter(0, h, q)| else 0
  {
    if ok {
      FilterEquiv(0, h, p, q);
    } else {
      forall x: nat | x < h ensures !p(x) {
        var b := q(x);
      }
      FilterNone(0, h, p);
    }
  }

  lemma UpperHalf(h: nat, hh: nat, p: nat -> bool, q: nat -> bool, ok: bool)
    requires hh == h + h && UpperAgrees(h, p, q, ok)
    ensures |Filter(h, hh, p)| == if ok then |Filter(0, h, q)| else 0
  {
    if ok {
      UpperHalfKept(h, hh, p, q);
    } else {
      UpperHalfDropped(h, hh, p, q);
    }
  }

  lemma UpperHalfKept(h: nat, hh: nat, p: nat -> bool, q: nat -> bool)
    requires hh == h + h && UpperAgrees(h, p, q, true)
    ensures |Filter(h, hh, p)| == |Filter(0, h, q)|
  {
    ShiftedAgree(h, p, q);
    ShiftedLength(h, hh, p, q);
  }

  lemma ShiftedAgree(h: nat, p: nat -> bool, q: nat -> bool)
    requires UpperAgrees(h, p, q, true)
    ensures forall x :: 0 <= x < h ==> p(x + h) == q(x)
  {
    forall x: nat | x < h ensures p(x + h) == q(x) {
      var y: nat := x + h;
      assert p(y) == q(y - h);
      assert y - h == x;
    }
  }

  lemma ShiftedLength(h: nat, hh: nat, p: nat -> bool, q: nat -> bool)
    requires hh == h + h && forall x :: 0 <= x < h ==> p(x + h) == q(x)
    ensures |Filter(h, hh, p)| == |Filter(0, h, q)|
  {
    FilterShiftLength(0, h, h, p, q);
    assert 0 + h == h && h + h == hh;
  }

  lemma UpperHalfDropped(h: nat, hh: nat, p: nat -> bool, q: nat -> bool)
    requires hh == h + h && UpperAgrees(h, p, q, false)
    ensures Filter(h, hh, p) == []
  {
    forall x: nat | h <= x < hh ensures !p(x) { }
    FilterNone(h, hh, p);
  }

  /** Python's `sep.join(parts)`. */
  function Join(sep: string, parts: seq<string>): (r: string)
    ensures |parts| == 1 ==> r == parts[0]
    decreases |parts|
  {
    if parts == [] then ""
    else if |parts| == 1 then parts[0]
    else parts[0] + sep + Join(sep, parts[1..])
  }

  /** Joining two non-empty lists is joining each and putting one separator
      between the results. */
  lemma {:induction false} JoinAppend(sep: string, a: seq<string>, b: seq<string>)
    requires a != [] && b != []
    ensures Join(sep, a + b) == Join(sep, a) + sep + Join(sep, b)
    decreases |a|
  {
    if |a| == 1 {
      assert (a + b)[1..] == b;
    } else {
      assert (a + b)[1..] == a[1..] + b;
      JoinAppend(sep, a[1..], b);
    }
  }
}
