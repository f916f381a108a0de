/** Product terms and the groups of minterms they cover: `get_minterms_for_term`
    expands a term into the indices that agree with its literals, and
    `group_to_term` turns a group back into its simplified literal string
    (app.py). A term is a list of literals; the i-th variable of the list is
    the i-th digit, most significant first, of each index's numeral. */
module Terms {
  import opened Seqs
  import opened Binary

  /** A literal of a product term: a variable and whether it appears un-negated. */
  datatype Literal = Literal(name: string, positive: bool)

  function Names(term: seq<Literal>): set<string>
  {
    set l | l in term :: l.name
  }

  /** The polarity that `fixed_vars` ends up holding for `name`: that of the
      last literal on it, since later entries overwrite earlier ones. */
  function LastPolarity(term: seq<Literal>, name: string): (b: bool)
    requires name in Names(term)
    ensures exists k :: (0 <= k < |term| && term[k].name == name && term[k].positive == b &&
                         forall k' :: k < k' < |term| ==> term[k'].name != name)
    decreases |term|
  {
    var last := term[|term| - 1];
    if last.name == name then last.positive
    else
      assert name in Names(term[..|term| - 1]) by {
        var k :| 0 <= k < |term| && term[k].name == name;
        assert term[..|term| - 1][k] == term[k];
      }
      LastPolarity(term[..|term| - 1], name)
  }

  /** A numeral agrees with the term: at every position whose variable the
      term fixes, it carries the fixed bit. */
  predicate AgreesBits(term: seq<Literal>, variables: seq<string>, bin: string)
    requires |bin| >= |variables|
  {
    forall j :: 0 <= j < |variables| && variables[j] in Names(term) ==>
      bin[j] == Digit(LastPolarity(term, variables[j]))
  }

  /** Index i, one of the 2^n indices, agrees with the term, read digit by
      digit from the most significant: the first digit is 0 in the lower
      half of the range and 1 in the upper half, the first variable's literal
      must allow it, and the rest of i must agree over the other variables. */
  predicate Agrees(term: seq<Literal>, variables: seq<string>, i: nat)
    decreases |variables|
  {
    if variables == [] then i == 0
    else
      var h := Pow2(|variables| - 1);
      if i < h then FirstAllows(term, variables, '0') && Agrees(term, variables[1..], i)
      else i < h + h && FirstAllows(term, variables, '1') && Agrees(term, variables[1..], i - h)
  }

  /** Agreement digit by digit is agreement of the whole n-digit numeral. */
  lemma {:induction false} AgreesIsBits(term: seq<Literal>, variables: seq<string>, i: nat)
    ensures Agrees(term, variables, i) == (i < Pow2(|variables|) && AgreesBits(term, variables, Padded(i, |variables|)))
    decreases |variables|
  {
    var n := |variables|;
    if n > 0 {
      var h, tail := Pow2(n - 1), variables[1..];
      assert |tail| == n - 1 && Pow2(n) == h + h;
      if i < h {
        assert Agrees(term, variables, i) == (FirstAllows(term, variables, '0') && Agrees(term, tail, i));
        AgreesIsBits(term, tail, i);
        LowerDigit(term, variables, i);
        assert Agrees(term, variables, i) == (i < Pow2(n) && AgreesBits(term, variables, Padded(i, n)));
      } else if i < h + h {
        assert Agrees(term, variables, i) == (FirstAllows(term, variables, '1') && Agrees(term, tail, i - h));
        AgreesIsBits(term, tail, i - h);
        UpperDigit(term, variables, i);
        assert Agrees(term, variables, i) == (i < Pow2(n) && AgreesBits(term, variables, Padded(i, n)));
      } else {
        assert !Agrees(term, variables, i);
      }
    }
  }

  /** In the lower half the numeral is a 0 followed by the numeral of i. */
  lemma LowerDigit(term: seq<Literal>, variables: seq<string>, i: nat)
    requires |variables| > 0 && i < Pow2(|variables| - 1)
    ensures i < Pow2(|variables|)
    ensures AgreesBits(term, variables, Padded(i, |variables|)) ==
      (FirstAllows(term, variables, '0') && AgreesBits(term, variables[1..], Padded(i, |variables| - 1)))
  {
    var n := |variables|;
    assert Padded(i, n) == ['0'] + Padded(i, n - 1);
    BitsCons(term, variables, '0', Padded(i, n - 1));
  }

  /** In the upper half the numeral is a 1 followed by the numeral of i less 2^(n-1). */
  lemma UpperDigit(term: seq<Literal>, variables: seq<string>, i: nat)
    requires |variables| > 0 && Pow2(|variables| - 1) <= i < Pow2(|variables|)
    ensures AgreesBits(term, variables, Padded(i, |variables|)) ==
      (FirstAllows(term, variables, '1') && AgreesBits(term, variables[1..], Padded(i - Pow2(|variables| - 1), |variables| - 1)))
  {
    var n := |variables|;
    var x := i - Pow2(n - 1);
    assert Padded(i, n) == ['1'] + Padded(x, n - 1);
    BitsCons(term, variables, '1', Padded(x, n - 1));
  }

  function AgreesWith(term: seq<Literal>, variables: seq<string>): nat -> bool
  {
    (i: nat) => Agrees(term, variables, i)
  }

  /** Reference definition of what `get_minterms_for_term` returns. */
  function Covered(term: seq<Literal>, variables: seq<string>): seq<nat>
  {
    Filter(0, Pow2(|variables|), AgreesWith(term, variables))
  }

  /** The positions, in variable order, whose variable the term fixes. */
  function IsFixed(term: seq<Literal>, variables: seq<string>): nat -> bool
  {
    (j: nat) => j < |variables| && variables[j] in Names(term)
  }

  function FixedPositions(term: seq<Literal>, variables: seq<string>): (fp: seq<nat>)
    ensures forall k :: 0 <= k < |fp| ==> fp[k] < |variables| && variables[fp[k]] in Names(term)
  {
    FilterSound(0, |variables|, IsFixed(term, variables));
    Filter(0, |variables|, IsFixed(term, variables))
  }

  /** The term's literals in variable order, one per fixed position, each with
      the polarity the term records for it; variables outside the list are
      dropped. */
  function Normalized(term: seq<Literal>, variables: seq<string>): seq<Literal>
  {
    var fp := FixedPositions(term, variables);
    seq(|fp|, k requires 0 <= k < |fp| => Literal(variables[fp[k]], LastPolarity(term, variables[fp[k]])))
  }

  /** `fixed_vars` after the literals of t: the names of t, each mapped to 1
      for a positive and 0 for a negated last literal. */
  ghost predicate FixesAs(fixed: map<string, nat>, t: seq<Literal>)
  {
    && (forall name :: name in fixed <==> name in Names(t))
    && (forall name :: name in fixed && name in Names(t) ==>
          fixed[name] == if LastPolarity(t, name) then 1 else 0)
  }

  /** The last literal decides the polarity of its own variable and leaves
      the others as they were. */
  lemma LastPolaritySnoc(t: seq<Literal>, l: Literal, name: string)
    requires name in Names(t + [l])
    ensures name == l.name || name in Names(t)
    ensures LastPolarity(t + [l], name) == if name == l.name then l.positive else LastPolarity(t, name)
  {
    var t' := t + [l];
    assert t'[..|t'| - 1] == t;
    assert Names(t') == Names(t) + {l.name};
  }

  lemma FixStep(fixed: map<string, nat>, t: seq<Literal>, l: Literal)
    requires FixesAs(fixed, t)
    ensures FixesAs(fixed[l.name := if l.positive then 1 else 0], t + [l])
  {
    NamesSnoc(t, l);
    FixStepValues(fixed, t, l);
  }

  lemma NamesSnoc(t: seq<Literal>, l: Literal)
    ensures Names(t + [l]) == Names(t) + {l.name}
  {
    assert (t + [l])[..|t|] == t;
  }

  lemma FixStepValues(fixed: map<string, nat>, t: seq<Literal>, l: Literal)
    requires FixesAs(fixed, t)
    ensures var t', fixed' := t + [l], fixed[l.name := if l.positive then 1 else 0];
      forall name :: name in fixed' && name in Names(t') ==> fixed'[name] == if LastPolarity(t', name) then 1 else 0
  {
    var t', fixed' := t + [l], fixed[l.name := if l.positive then 1 else 0];
    forall name | name in fixed' && name in Names(t')
      ensures fixed'[name] == if LastPolarity(t', name) then 1 else 0
    {
      LastPolaritySnoc(t, l, name);
    }
  }

  /** The inner loop's test: every variable in `fixed` has its recorded bit in `bin`. */
  ghost predicate MatchesFixed(fixed: map<string, nat>, variables: seq<string>, bin: string)
    requires |bin| >= |variables|
  {
    forall j :: 0 <= j < |variables| && variables[j] in fixed ==> DigitValue(bin[j]) == fixed[variables[j]]
  }

  lemma FixedMatchesAgree(fixed: map<string, nat>, term: seq<Literal>, variables: seq<string>, i: nat)
    requires FixesAs(fixed, term) && i < Pow2(|variables|)
    ensures MatchesFixed(fixed, variables, Format(i, |variables|)) == AgreesBits(term, variables, Padded(i, |variables|))
  {
    var bin, pad := Format(i, |variables|), Padded(i, |variables|);
    FormatPrefix(i, |variables|);
    forall j | 0 <= j < |variables| && variables[j] in fixed
      ensures (DigitValue(bin[j]) == fixed[variables[j]]) == (pad[j] == Digit(LastPolarity(term, variables[j])))
    {
      assert bin[j] == bin[..|variables|][j] == pad[j];
      assert bin[j] == '0' || bin[j] == '1';
    }
  }

  /** The first loop of `get_minterms_for_term`: `fixed_vars` maps each
      variable of the term to 1 or 0, the last literal on it winning. */
  method FixedVars(term: seq<Literal>) returns (fixed: map<string, nat>)
    ensures FixesAs(fixed, term)
  {
    fixed := map[];
    for k := 0 to |term|
      invariant FixesAs(fixed, term[..k])
    {
      var arg := term[k];
      FixStep(fixed, term[..k], arg);
      assert term[..k + 1] == term[..k] + [arg];
      if !arg.positive {
        fixed := fixed[arg.name := 0];
      } else {
        fixed := fixed[arg.name := 1];
      }
    }
    assert term[..|term|] == term;
  }

  /** The inner loop of `get_minterms_for_term`: scans the variables and
      stops at the first fixed one whose digit in `bin` differs. */
  method MatchesFixedScan(fixed: map<string, nat>, variables: seq<string>, bin: string) returns (isCovered: bool)
    requires |bin| >= |variables|
    ensures isCovered == MatchesFixed(fixed, variables, bin)
  {
    isCovered := true;
    var j := 0;
    while j < |variables|
      invariant 0 <= j <= |variables|
      invariant forall j' :: 0 <= j' < j && variables[j'] in fixed ==> DigitValue(bin[j']) == fixed[variables[j']]
    {
      var varName := variables[j];
      if varName in fixed && DigitValue(bin[j]) != fixed[varName] {
        isCovered := false;
        break;
      }
      j := j + 1;
    }
  }

  /** `get_minterms_for_term`: records the fixed variables, then keeps every
      i in 0 .. 2^n - 1 whose numeral has the recorded bit at each fixed
      variable's position. */
  method GetMintermsForTerm(term: seq<Literal>, variables: seq<string>) returns (covered: seq<nat>)
    ensures covered == Covered(term, variables)
    ensures forall k, k' :: 0 <= k < k' < |covered| ==> covered[k] < covered[k']
    ensures forall i: nat :: i in covered <==> i < Pow2(|variables|) && AgreesBits(term, variables, Padded(i, |variables|))
  {
    var n := |variables|;
    var fixed := FixedVars(term);
    covered := [];
    for i := 0 to Pow2(n)
      invariant covered == Filter(0, i, AgreesWith(term, variables))
    {
      var binStr := Format(i, n);
      var isCovered := MatchesFixedScan(fixed, variables, binStr);
      FixedMatchesAgree(fixed, term, variables, i);
      AgreesIsBits(term, variables, i);
      if isCovered {
        covered := covered + [i];
      }
    }
    CoveredMembers(term, variables);
  }

  /** The covered indices are exactly those below 2^n whose numeral agrees
      with the term. */
  lemma CoveredMembers(term: seq<Literal>, variables: seq<string>)
    ensures forall i: nat :: i in Covered(term, variables) <==>
      i < Pow2(|variables|) && AgreesBits(term, variables, Padded(i, |variables|))
  {
    var n, p := |variables|, AgreesWith(term, variables);
    FilterSound(0, Pow2(n), p);
    forall i: nat ensures i in Covered(term, variables) <==> i < Pow2(n) && AgreesBits(term, variables, Padded(i, n)) {
      AgreesIsBits(term, variables, i);
      if i < Pow2(n) && p(i) {
        FilterContains(0, Pow2(n), p, i);
      }
    }
  }

  /** Splitting off the first digit: it must match the first variable's
      literal, if any, and the other digits must agree over the other
      variables. */
  lemma BitsCons(term: seq<Literal>, variables: seq<string>, c: char, rest: string)
    requires |variables| > 0 && |rest| >= |variables| - 1
    ensures AgreesBits(term, variables, [c] + rest) ==
      (FirstAllows(term, variables, c) && AgreesBits(term, variables[1..], rest))
  {
    var bin, tail := [c] + rest, variables[1..];
    if AgreesBits(term, variables, bin) {
      forall j | 0 <= j < |tail| && tail[j] in Names(term)
        ensures rest[j] == Digit(LastPolarity(term, tail[j]))
      {
        assert bin[j + 1] == rest[j] && variables[j + 1] == tail[j];
      }
    }
    if FirstAllows(term, variables, c) && AgreesBits(term, tail, rest) {
      forall j | 0 <= j < |variables| && variables[j] in Names(term)
        ensures bin[j] == Digit(LastPolarity(term, variables[j]))
      {
        if j > 0 {
          assert tail[j - 1] == variables[j] && bin[j] == rest[j - 1];
        }
      }
    }
  }

  /** Whether the first variable's literal, if any, allows digit c there. */
  function FirstAllows(term: seq<Literal>, variables: seq<string>, c: char): bool
    requires |variables| > 0
  {
    variables[0] in Names(term) ==> Digit(LastPolarity(term, variables[0])) == c
  }

  /** Splitting the range at 2^(n-1): the lower half keeps the indices whose
      first digit is 0, the upper half those whose first digit is 1, and each
      half's count is the count over the other variables, or 0 when the first
      variable's literal excludes that digit. */
  lemma CoveredHalves(term: seq<Literal>, variables: seq<string>)
    requires |variables| > 0
    ensures var rest := |Covered(term, variables[1..])|;
      |Covered(term, variables)| ==
        (if FirstAllows(term, variables, '0') then rest else 0) + (if FirstAllows(term, variables, '1') then rest else 0)
  {
    var n, tail := |variables|, variables[1..];
    assert |tail| == n - 1;
    var h := Pow2(n - 1);
    assert Pow2(n) == h + h;
    var p, q := AgreesWith(term, variables), AgreesWith(term, tail);
    var ok0, ok1 := FirstAllows(term, variables, '0'), FirstAllows(term, variables, '1');
    FilterHalves(h, Pow2(n), p, q, ok0, ok1);
  }

  /** The first position is fixed or not; the others are the fixed positions
      of the remaining variables, shifted by one. */
  lemma FixedPositionsCons(term: seq<Literal>, variables: seq<string>)
    requires |variables| > 0
    ensures |FixedPositions(term, variables)| ==
      (if variables[0] in Names(term) then 1 else 0) + |FixedPositions(term, variables[1..])|
  {
    var n := |variables|;
    var f, g := IsFixed(term, variables), IsFixed(term, variables[1..]);
    FilterSplit(0, 1, n, f);
    assert Filter(0, 1, f) == Filter(0, 0, f) + (if f(0) then [0] else []);
    forall x | 0 <= x < n - 1 ensures f(x + 1) == g(x) {
      assert variables[1..][x] == variables[x + 1];
    }
    FilterShiftLength(0, n - 1, 1, f, g);
  }

  /** A term fixing k of the n positions covers exactly 2^(n-k) indices. */
  lemma {:induction false} CoveredLength(term: seq<Literal>, variables: seq<string>)
    ensures |FixedPositions(term, variables)| <= |variables|
    ensures |Covered(term, variables)| == Pow2(|variables| - |FixedPositions(term, variables)|)
    decreases |variables|
  {
    var n := |variables|;
    if n == 0 {
      CoveredNoVariables(term, variables);
    } else {
      CoveredLength(term, variables[1..]);
      CoveredLengthStep(term, variables);
    }
  }

  /** The inductive step of CoveredLength, from the other variables to all. */
  lemma CoveredLengthStep(term: seq<Literal>, variables: seq<string>)
    requires |variables| > 0
    requires |FixedPositions(term, variables[1..])| <= |variables| - 1
    requires |Covered(term, variables[1..])| == Pow2(|variables| - 1 - |FixedPositions(term, variables[1..])|)
    ensures |FixedPositions(term, variables)| <= |variables|
    ensures |Covered(term, variables)| == Pow2(|variables| - |FixedPositions(term, variables)|)
  {
    var tail := variables[1..];
    CoveredHalves(term, variables);
    FixedPositionsCons(term, variables);
    CountStep(|variables|, |FixedPositions(term, tail)|, variables[0] in Names(term),
              FirstAllows(term, variables, '0'), FirstAllows(term, variables, '1'),
              |Covered(term, tail)|, |Covered(term, variables)|, |FixedPositions(term, variables)|);
  }

  /** Without variables the only index, 0, is covered and nothing is fixed. */
  lemma CoveredNoVariables(term: seq<Literal>, variables: seq<string>)
    requires variables == []
    ensures |Covered(term, variables)| == 1 && FixedPositions(term, variables) == []
  {
    var p := AgreesWith(term, variables);
    assert p(0);
    assert Covered(term, variables) == Filter(0, 0, p) + [0];
  }

  /** The counting step of CoveredLength: a fixed first variable allows one
      of the two halves, a free one both. */
  lemma CountStep(n: nat, k: nat, fixedFirst: bool, ok0: bool, ok1: bool, rest: nat, total: nat, fp: nat)
    requires 0 < n && k <= n - 1 && rest == Pow2(n - 1 - k)
    requires fixedFirst ==> ok0 != ok1
    requires !fixedFirst ==> ok0 && ok1
    requires total == (if ok0 then rest else 0) + (if ok1 then rest else 0)
    requires fp == (if fixedFirst then 1 else 0) + k
    ensures fp <= n && total == Pow2(n - fp)
  {
    if !fixedFirst {
      assert Pow2(n - k) == 2 * Pow2(n - 1 - k);
    }
  }


  /** Two terms fix the same variables of the list, each to the same bit. */
  predicate SameFixes(t: seq<Literal>, u: seq<Literal>, variables: seq<string>)
  {
    forall j :: 0 <= j < |variables| ==>
      (variables[j] in Names(t) <==> variables[j] in Names(u)) &&
      (variables[j] in Names(t) ==> LastPolarity(t, variables[j]) == LastPolarity(u, variables[j]))
  }

  /** Terms that fix the same variables to the same bits cover the same indices. */
  lemma CoveredSameFixes(t: seq<Literal>, u: seq<Literal>, variables: seq<string>)
    requires SameFixes(t, u, variables)
    ensures Covered(t, variables) == Covered(u, variables)
  {
    forall i | 0 <= i < Pow2(|variables|)
      ensures AgreesWith(t, variables)(i) == AgreesWith(u, variables)(i)
    {
      AgreesIsBits(t, variables, i);
      AgreesIsBits(u, variables, i);
    }
    FilterEquiv(0, Pow2(|variables|), AgreesWith(t, variables), AgreesWith(u, variables));
  }

  /** The term without its literals on variables outside the list. */
  function Restricted(term: seq<Literal>, variables: seq<string>): (r: seq<Literal>)
    ensures |r| <= |term|
    ensures forall k :: 0 <= k < |r| ==> r[k].name in variables
    decreases |term|
  {
    if term == [] then []
    else
      var last := term[|term| - 1];
      Restricted(term[..|term| - 1], variables) + (if last.name in variables then [last] else [])
  }

  /** Restricting keeps each listed variable fixed, and fixed to the same bit. */
  lemma {:induction false} RestrictedFixes(term: seq<Literal>, variables: seq<string>, name: string)
    requires name in variables
    ensures name in Names(Restricted(term, variables)) <==> name in Names(term)
    ensures name in Names(term) ==> LastPolarity(Restricted(term, variables), name) == LastPolarity(term, name)
    decreases |term|
  {
    if term == [] {
      assert Names(term) == {} && Restricted(term, variables) == [];
    } else {
      var init, last := term[..|term| - 1], term[|term| - 1];
      assert term == init + [last];
      var ri := Restricted(init, variables);
      RestrictedFixes(init, variables, name);
      NamesSnoc(init, last);
      if last.name in variables {
        assert Restricted(term, variables) == ri + [last];
        NamesSnoc(ri, last);
        if name in Names(term) {
          LastPolaritySnoc(ri, last, name);
          LastPolaritySnoc(init, last, name);
        }
      } else {
        assert Restricted(term, variables) == ri;
        if name in Names(term) {
          LastPolaritySnoc(init, last, name);
        }
      }
    }
  }

  /** Restricting a concatenation restricts each part. */
  lemma {:induction false} RestrictedAppend(a: seq<Literal>, b: seq<Literal>, variables: seq<string>)
    ensures Restricted(a + b, variables) == Restricted(a, variables) + Restricted(b, variables)
    decreases |b|
  {
    if b == [] {
      assert a + b == a;
    } else {
      var init, last := b[..|b| - 1], b[|b| - 1];
      assert (a + b)[..|a + b| - 1] == a + init;
      assert (a + b)[|a + b| - 1] == last;
      RestrictedAppend(a, init, variables);
    }
  }

  /** Literals on variables outside the list, wherever they stand, change
      nothing covered: the term covers what its restriction covers. */
  lemma CoveredRestricted(term: seq<Literal>, variables: seq<string>)
    ensures Covered(Restricted(term, variables), variables) == Covered(term, variables)
  {
    forall j | 0 <= j < |variables|
      ensures variables[j] in Names(Restricted(term, variables)) <==> variables[j] in Names(term)
      ensures variables[j] in Names(term) ==>
        LastPolarity(Restricted(term, variables), variables[j]) == LastPolarity(term, variables[j])
    {
      RestrictedFixes(term, variables, variables[j]);
    }
    CoveredSameFixes(Restricted(term, variables), term, variables);
  }

  /** A literal on a variable outside the list, anywhere in the term, changes
      nothing covered. */
  lemma CoveredIgnoresUnknown(t1: seq<Literal>, l: Literal, t2: seq<Literal>, variables: seq<string>)
    requires l.name !in variables
    ensures Covered(t1 + [l] + t2, variables) == Covered(t1 + t2, variables)
  {
    RestrictedAppend(t1 + [l], t2, variables);
    RestrictedAppend(t1, [l], variables);
    RestrictedAppend(t1, t2, variables);
    assert [l][..0] == [];
    assert Restricted([l], variables) == [];
    assert Restricted(t1 + [l] + t2, variables) == Restricted(t1 + t2, variables);
    CoveredRestricted(t1 + [l] + t2, variables);
    CoveredRestricted(t1 + t2, variables);
  }

  /** The numeral that carries each fixed bit and 0 elsewhere. */
  function BaseBits(term: seq<Literal>, variables: seq<string>): (s: string)
    ensures |s| == |variables| && IsBinary(s)
    ensures AgreesBits(term, variables, s)
  {
    seq(|variables|, j requires 0 <= j < |variables| =>
      if variables[j] in Names(term) then Digit(LastPolarity(term, variables[j])) else '0')
  }

  /** A non-empty agreeing numeral is the numeral of a covered index. */
  lemma BitsMember(term: seq<Literal>, variables: seq<string>, s: string)
    requires |s| == |variables| > 0 && IsBinary(s) && AgreesBits(term, variables, s)
    ensures FromBinary(s) in Covered(term, variables)
    ensures Format(FromBinary(s), |variables|) == s
  {
    FormatFromBinary(s);
    PaddedFromBinary(s);
    CoveredMembers(term, variables);
  }

  /** Every term covers at least one index. */
  lemma CoveredNonEmpty(term: seq<Literal>, variables: seq<string>)
    ensures Covered(term, variables) != []
  {
    CoveredMembers(term, variables);
    if variables == [] {
      assert 0 < Pow2(0) && AgreesBits(term, variables, Padded(0, 0));
    } else {
      BitsMember(term, variables, BaseBits(term, variables));
    }
  }

  /** A position the term fixes carries the same digit in every covered index. */
  lemma FixedIsConstant(term: seq<Literal>, variables: seq<string>, j: nat)
    requires j < |variables| && variables[j] in Names(term)
    ensures IsConstant(Covered(term, variables), |variables|)(j)
  {
    var n, g := |variables|, Covered(term, variables);
    CoveredNonEmpty(term, variables);
    CoveredMembers(term, variables);
    var bins := Bins(g, n);
    forall k | 0 <= k < |bins| ensures bins[k][j] == bins[0][j] {
      assert g[k] in g && g[0] in g;
      FormatPrefix(g[k], n);
      FormatPrefix(g[0], n);
    }
  }

  /** A position the term leaves free carries both digits among the covered
      indices. */
  lemma FreeIsNotConstant(term: seq<Literal>, variables: seq<string>, j: nat)
    requires j < |variables| && variables[j] !in Names(term)
    ensures !IsConstant(Covered(term, variables), |variables|)(j)
  {
    var n, g := |variables|, Covered(term, variables);
    var bins := Bins(g, n);
    var b0 := BaseBits(term, variables);
    var b1 := b0[j := '1'];
    assert AgreesBits(term, variables, b1);
    BitsMember(term, variables, b0);
    BitsMember(term, variables, b1);
    var k0 :| 0 <= k0 < |g| && g[k0] == FromBinary(b0);
    var k1 :| 0 <= k1 < |g| && g[k1] == FromBinary(b1);
    assert bins[k0][j] == '0' && bins[k1][j] == '1';
  }

  /** Over the indices a term covers, a position is constant exactly when
      the term fixes its variable. */
  lemma ConstantIffFixed(term: seq<Literal>, variables: seq<string>, j: nat)
    requires j < |variables|
    ensures IsConstant(Covered(term, variables), |variables|)(j) == IsFixed(term, variables)(j)
  {
    if variables[j] in Names(term) {
      FixedIsConstant(term, variables, j);
    } else {
      FreeIsNotConstant(term, variables, j);
    }
  }

  /** Round trip: the group a term covers simplifies back to the term's
      literals, in variable order, one per fixed variable, and prints as
      that term. */
  lemma RoundTrip(term: seq<Literal>, variables: seq<string>, formType: string)
    ensures Covered(term, variables) != []
    ensures GroupLiterals(Covered(term, variables), variables) == Normalized(term, variables)
    ensures TermOf(Covered(term, variables), variables, formType) == TermText(Normalized(term, variables), formType)
  {
    var n, g := |variables|, Covered(term, variables);
    CoveredNonEmpty(term, variables);
    CoveredMembers(term, variables);
    forall j: nat | 0 <= j < n ensures IsConstant(g, n)(j) == IsFixed(term, variables)(j) {
      ConstantIffFixed(term, variables, j);
    }
    FilterEquiv(0, n, IsConstant(g, n), IsFixed(term, variables));
    var fp := FixedPositions(term, variables);
    var a, b := GroupLiterals(g, variables), Normalized(term, variables);
    assert |a| == |b|;
    forall k | 0 <= k < |a| ensures a[k] == b[k] {
      assert g[0] in g;
      FormatPrefix(g[0], n);
      assert variables[fp[k]] in Names(term);
    }
  }

  predicate Distinct(variables: seq<string>)
  {
    forall j, j' :: 0 <= j < j' < |variables| ==> variables[j] != variables[j']
  }

  /** The other way round: with distinct variables, the term a group
      simplifies to covers every member of the group. */
  lemma GroupCoveredByItsTerm(group: seq<nat>, variables: seq<string>, m: nat)
    requires group != [] && m in group && m < Pow2(|variables|) && Distinct(variables)
    ensures m in Covered(GroupLiterals(group, variables), variables)
  {
    var lits := GroupLiterals(group, variables);
    CoveredMembers(lits, variables);
    forall j | 0 <= j < |variables| && variables[j] in Names(lits)
      ensures Format(m, |variables|)[j] == Digit(LastPolarity(lits, variables[j]))
    {
      GroupDigit(group, variables, m, j);
    }
    FormatPrefix(m, |variables|);
    assert AgreesBits(lits, variables, Padded(m, |variables|));
  }

  /** A member's digit at a position the group's term fixes is the digit the
      term records there. */
  lemma GroupDigit(group: seq<nat>, variables: seq<string>, m: nat, j: nat)
    requires group != [] && m in group && Distinct(variables)
    requires j < |variables| && variables[j] in Names(GroupLiterals(group, variables))
    ensures Format(m, |variables|)[j] == Digit(LastPolarity(GroupLiterals(group, variables), variables[j]))
  {
    var n := |variables|;
    var cp := Filter(0, n, IsConstant(group, n));
    var lits := GroupLiterals(group, variables);
    var bins := Bins(group, n);
    FilterSound(0, n, IsConstant(group, n));
    var km :| 0 <= km < |group| && group[km] == m;
    var b := LastPolarity(lits, variables[j]);
    var k :| 0 <= k < |lits| && lits[k].name == variables[j] && lits[k].positive == b;
    assert cp[k] == j;
    assert IsConstant(group, n)(cp[k]);
    assert bins[km][j] == bins[0][j];
  }

  /** The 4-digit numerals of 4, 5, 6 and 7. */
  lemma ExampleBins()
    ensures Bins([4, 5, 6, 7], 4) == ["0100", "0101", "0110", "0111"]
  {
    assert Pow2(4) == 16 && Pow2(3) == 8 && Pow2(2) == 4 && Pow2(1) == 2;
    assert Format(4, 4) == "0100";
    assert Format(5, 4) == "0101";
    assert Format(6, 4) == "0110";
    assert Format(7, 4) == "0111";
  }

  /** In the numerals of 4, 5, 6 and 7 only the first two positions are constant. */
  lemma ExampleConstants()
    ensures Filter(0, 4, IsConstant([4, 5, 6, 7], 4)) == [0, 1]
  {
    var g := [4, 5, 6, 7];
    var bins := Bins(g, 4);
    ExampleBins();
    var c := IsConstant(g, 4);
    assert c(0) && c(1);
    assert bins[2][2] != bins[0][2] && bins[1][3] != bins[0][3];
    assert !c(2) && !c(3);
  }

  /** [4, 5, 6, 7] over a, b, c, d fixes a to 0 and b to 1. */
  lemma ExampleLiterals()
    ensures GroupLiterals([4, 5, 6, 7], ["a", "b", "c", "d"]) == [Literal("a", false), Literal("b", true)]
  {
    var g, vs := [4, 5, 6, 7], ["a", "b", "c", "d"];
    ExampleConstants();
    ExampleBins();
    assert Format(g[0], |vs|) == Bins(g, 4)[0] == "0100";
  }

  /** The example of app.py's documentation: [4, 5, 6, 7] over a, b, c, d is a'b. */
  lemma DocExample()
    ensures TermOf([4, 5, 6, 7], ["a", "b", "c", "d"], "SOP") == "a'b"
  {
    var lits := GroupLiterals([4, 5, 6, 7], ["a", "b", "c", "d"]);
    ExampleLiterals();
    assert LiteralText(lits[0], "SOP") == "a'" && LiteralText(lits[1], "SOP") == "b";
    assert LiteralTexts(lits, "SOP") == ["a'", "b"];
    assert Join("", ["a'", "b"]) == "a'" + "" + "b";
  }

  /** `bin_strings` */
  function Bins(group: seq<nat>, n: nat): (bins: seq<string>)
    ensures |bins| == |group|
    ensures forall k :: 0 <= k < |bins| ==> bins[k] == Format(group[k], n) && |bins[k]| >= n
    ensures forall k :: 0 <= k < |bins| ==> FromBinary(bins[k]) == group[k]
  {
    var bins := seq(|group|, k requires 0 <= k < |group| => Format(group[k], n));
    assert forall k :: 0 <= k < |bins| ==> FromBinary(bins[k]) == group[k] by {
      forall k | 0 <= k < |bins| ensures FromBinary(bins[k]) == group[k] {
        FormatRoundTrip(group[k], n);
      }
    }
    bins
  }

  /** Position i is constant across the group: `all(b[i] == first_bit for b in bin_strings)`. */
  function IsConstant(group: seq<nat>, n: nat): (c: nat -> bool)
    ensures forall i: nat :: c(i) ==> i < n && group != []
    ensures |group| == 1 ==> forall i: nat :: i < n ==> c(i)
  {
    var bins := Bins(group, n);
    (i: nat) => i < n && group != [] && forall k :: 0 <= k < |bins| ==> bins[k][i] == bins[0][i]
  }

  /** The literals a group simplifies to, for the positions in cp: the
      variable of the position, positive when the group's bit there is 1. */
  function LiteralsAt(group: seq<nat>, variables: seq<string>, cp: seq<nat>): seq<Literal>
    requires group != []
    requires forall k :: 0 <= k < |cp| ==> cp[k] < |variables|
  {
    var bin := Format(group[0], |variables|);
    seq(|cp|, k requires 0 <= k < |cp| => Literal(variables[cp[k]], bin[cp[k]] == '1'))
  }

  /** One literal per position constant across the group, in variable order. */
  function GroupLiterals(group: seq<nat>, variables: seq<string>): seq<Literal>
    requires group != []
  {
    LiteralsAt(group, variables, Filter(0, |variables|, IsConstant(group, |variables|)))
  }

  /** How one literal is printed: in SOP form a negated literal is primed, in
      POS form a positive one is (the sum term of a group of zeros is the
      complement of its product term); any other form primes every literal. */
  function LiteralText(l: Literal, formType: string): (r: string)
    ensures r == l.name || r == l.name + "'"
    ensures formType == "SOP" ==> (r == l.name <==> l.positive)
    ensures formType == "POS" ==> (r == l.name <==> !l.positive)
    ensures formType != "SOP" && formType != "POS" ==> r == l.name + "'"
  {
    if (formType == "SOP" && l.positive) || (formType == "POS" && !l.positive) then l.name else l.name + "'"
  }

  function LiteralTexts(lits: seq<Literal>, formType: string): seq<string>
  {
    seq(|lits|, k requires 0 <= k < |lits| => LiteralText(lits[k], formType))
  }

  /** The printed term: "1" when nothing is fixed, juxtaposed literals in SOP
      form, and "(x + y')" in any other form. */
  function TermText(lits: seq<Literal>, formType: string): (r: string)
    ensures lits == [] ==> r == "1"
    ensures |lits| == 1 && formType == "SOP" ==> r == LiteralText(lits[0], formType)
    ensures lits != [] && formType != "SOP" ==> |r| >= 2 && r[0] == '(' && r[|r| - 1] == ')'
  {
    var parts := LiteralTexts(lits, formType);
    if parts == [] then "1"
    else if formType == "SOP" then Join("", parts)
    else "(" + Join(" + ", parts) + ")"
  }

  /** Reference definition of what `group_to_term` returns. */
  function TermOf(group: seq<nat>, variables: seq<string>, formType: string): string
  {
    if group == [] then "" else TermText(GroupLiterals(group, variables), formType)
  }

  /** One more position adds one literal at the end. */
  lemma LiteralsSnoc(group: seq<nat>, variables: seq<string>, cp: seq<nat>, i: nat)
    requires group != [] && i < |variables|
    requires forall k :: 0 <= k < |cp| ==> cp[k] < |variables|
    ensures LiteralsAt(group, variables, cp + [i]) ==
      LiteralsAt(group, variables, cp) + [Literal(variables[i], Format(group[0], |variables|)[i] == '1')]
  {
    var a, b := LiteralsAt(group, variables, cp + [i]), LiteralsAt(group, variables, cp);
    assert |a| == |b| + 1;
    forall k | 0 <= k < |b| ensures a[k] == b[k] {
      assert (cp + [i])[k] == cp[k];
    }
  }

  /** One more literal adds one printed literal at the end. */
  lemma TextsSnoc(lits: seq<Literal>, l: Literal, formType: string)
    ensures LiteralTexts(lits + [l], formType) == LiteralTexts(lits, formType) + [LiteralText(l, formType)]
  {
    var a, b := LiteralTexts(lits + [l], formType), LiteralTexts(lits, formType);
    assert |a| == |b| + 1;
    forall k | 0 <= k < |b| ensures a[k] == b[k] {
      assert (lits + [l])[k] == lits[k];
    }
  }

  /** Appending a constant position appends its printed literal. */
  lemma PartsSnoc(group: seq<nat>, variables: seq<string>, cp: seq<nat>, i: nat, formType: string)
    requires group != [] && i < |variables|
    requires forall k :: 0 <= k < |cp| ==> cp[k] < |variables|
    ensures var bit := Format(group[0], |variables|)[i];
      LiteralTexts(LiteralsAt(group, variables, cp + [i]), formType) ==
      LiteralTexts(LiteralsAt(group, variables, cp), formType) + [LiteralText(Literal(variables[i], bit == '1'), formType)]
  {
    var l := Literal(variables[i], Format(group[0], |variables|)[i] == '1');
    LiteralsSnoc(group, variables, cp, i);
    TextsSnoc(LiteralsAt(group, variables, cp), l, formType);
  }

  /** `group_to_term`: for each bit position constant across the group's
      numerals, appends the variable, primed or not by the form, then joins. */
  method GroupToTerm(group: seq<nat>, variables: seq<string>, formType: string) returns (r: string)
    ensures r == TermOf(group, variables, formType)
  {
    if group == [] {
      return "";
    }
    var n := |variables|;
    var binStrings := seq(|group|, k requires 0 <= k < |group| => Format(group[k], n));
    assert binStrings == Bins(group, n);
    var termParts: seq<string> := [];
    for i := 0 to n
      invariant termParts == LiteralTexts(LiteralsAt(group, variables, Filter(0, i, IsConstant(group, n))), formType)
    {
      var firstBit := binStrings[0][i];
      ghost var cp := Filter(0, i, IsConstant(group, n));
      if forall k :: 0 <= k < |binStrings| ==> binStrings[k][i] == firstBit {
        var varName := variables[i] + "'";
        if (formType == "SOP" && firstBit == '1') || (formType == "POS" && firstBit == '0') {
          varName := variables[i];
        }
        assert varName == LiteralText(Literal(variables[i], firstBit == '1'), formType);
        assert Filter(0, i + 1, IsConstant(group, n)) == cp + [i];
        PartsSnoc(group, variables, cp, i, formType);
        termParts := termParts + [varName];
      } else {
        assert Filter(0, i + 1, IsConstant(group, n)) == cp;
      }
    }
    if termParts == [] {
      return "1";
    }
    if formType == "SOP" {
      r := Join("", termParts);
    } else {
      r := "(" + Join(" + ", termParts) + ")";
    }
  }
}
