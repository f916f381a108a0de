/** The parts of the `/solve` route (app.py) that compute: the maxterms of a
    POS request, the terms a group is explained by, and the explanation list
    that skips groups made only of don't-cares. */
module Solve {
  import opened Seqs
  import opened Binary
  import opened KMapLayout
  import opened Terms

  /** `set(range(k))` */
  function RangeSet(k: nat): (r: set<int>)
    ensures forall i :: i in r <==> 0 <= i < k
  {
    if k == 0 then {} else RangeSet(k - 1) + {k - 1}
  }

  /** `set(range(2**n)) - set(minterms) - set(dontcares)` */
  function Maxterms(n: nat, minterms: seq<int>, dontcares: seq<int>): (r: set<int>)
    ensures forall i :: i in r ==> 0 <= i < Pow2(n)
  {
    RangeSet(Pow2(n)) - (set m | m in minterms) - (set d | d in dontcares)
  }

  /** The maxterms are disjoint from the minterms and the don't-cares, lie in
      0 .. 2^n - 1, and together with them cover that whole range. */
  lemma MaxtermsPartition(n: nat, minterms: seq<int>, dontcares: seq<int>)
    ensures forall i :: i in Maxterms(n, minterms, dontcares) ==> 0 <= i < Pow2(n)
    ensures forall i :: i in Maxterms(n, minterms, dontcares) ==> i !in minterms && i !in dontcares
    ensures forall i :: 0 <= i < Pow2(n) ==> i in Maxterms(n, minterms, dontcares) || i in minterms || i in dontcares
  {
  }

  /** The maxterms are exactly the terms whose K-map cell shows 0. */
  lemma MaxtermsAreZeroCells(variables: seq<string>, minterms: seq<int>, dontcares: seq<int>, outputName: string, i: nat)
    requires Supported(|variables|) && i < Pow2(|variables|)
    ensures var m := KMapOf(variables, minterms, dontcares, outputName).value;
      var (r, c) := Place(|variables|, i);
      r < |m.cells| && c < |m.cells[r]| &&
      (i in Maxterms(|variables|, minterms, dontcares) <==> m.cells[r][c] == "0")
  {
    KMapCellOfTerm(variables, minterms, dontcares, outputName, i);
  }

  /** `terms_to_group`: the minterms in SOP form, the maxterms otherwise. */
  function TermsToGroup(formType: string, n: nat, minterms: seq<int>, dontcares: seq<int>): (r: set<int>)
    ensures formType == "SOP" ==> forall m :: m in r <==> m in minterms
    ensures formType != "SOP" ==> forall i :: i in r <==> 0 <= i < Pow2(n) && i !in minterms && i !in dontcares
    ensures forall d :: d in dontcares && d in r ==> formType == "SOP" && d in minterms
  {
    MaxtermsPartition(n, minterms, dontcares);
    if formType == "SOP" then set m | m in minterms else Maxterms(n, minterms, dontcares)
  }

  /** `[m for m in group if m in terms]` */
  function KeepIn(group: seq<nat>, terms: set<int>): (r: seq<nat>)
    ensures |r| <= |group|
    ensures forall x :: multiset(r)[x] == if x in terms then multiset(group)[x] else 0
  {
    if group == [] then []
    else
      var init, last := group[..|group| - 1], group[|group| - 1];
      assert group == init + [last];
      KeepIn(init, terms) + (if last in terms then [last] else [])
  }

  predicate Sorted(s: seq<nat>)
  {
    forall k, k' :: 0 <= k < k' < |s| ==> s[k] <= s[k']
  }

  /** x put into its place in a sorted list. */
  function Insert(x: nat, s: seq<nat>): seq<nat>
  {
    if s == [] || x <= s[0] then [x] + s else [s[0]] + Insert(x, s[1..])
  }

  /** Inserting adds x once and keeps every other element. */
  lemma {:induction false} InsertMultiset(x: nat, s: seq<nat>)
    ensures multiset(Insert(x, s)) == multiset(s) + multiset{x}
  {
    if s != [] && x > s[0] {
      InsertMultiset(x, s[1..]);
      assert s == [s[0]] + s[1..];
    }
  }

  /** A sorted list stays sorted when an element no larger than all of it
      is put in front. */
  lemma ConsSorted(a: nat, rest: seq<nat>)
    requires Sorted(rest) && forall y :: y in rest ==> a <= y
    ensures Sorted([a] + rest)
  {
    var r := [a] + rest;
    forall k, k' | 0 <= k < k' < |r| ensures r[k] <= r[k'] {
      assert r[k'] == rest[k' - 1];
      if k > 0 {
        assert r[k] == rest[k - 1];
      } else {
        assert rest[k' - 1] in rest;
      }
    }
  }

  /** Inserting into a sorted list keeps it sorted. */
  lemma {:induction false} InsertSorted(x: nat, s: seq<nat>)
    requires Sorted(s)
    ensures Sorted(Insert(x, s))
    ensures multiset(Insert(x, s)) == multiset(s) + multiset{x}
  {
    InsertMultiset(x, s);
    if s == [] || x <= s[0] {
      forall y | y in s ensures x <= y {
        var k :| 0 <= k < |s| && s[k] == y;
        assert s[0] <= s[k];
      }
      ConsSorted(x, s);
    } else {
      var rest := Insert(x, s[1..]);
      assert Sorted(s[1..]);
      InsertSorted(x, s[1..]);
      forall y | y in rest ensures s[0] <= y {
        assert y in multiset(rest);
        assert y == x || y in multiset(s[1..]);
        if y != x {
          var k :| 0 <= k < |s[1..]| && s[1..][k] == y;
          assert s[0] <= s[k + 1];
        }
      }
      ConsSorted(s[0], rest);
    }
  }

  /** Python's `sorted` on a list of numbers. */
  function Sort(s: seq<nat>): (r: seq<nat>)
    ensures Sorted(r)
    ensures multiset(r) == multiset(s)
  {
    if s == [] then []
    else
      assert s == [s[0]] + s[1..];
      InsertSorted(s[0], Sort(s[1..]));
      Insert(s[0], Sort(s[1..]))
  }

  /** `relevant_terms = sorted([m for m in group if m in terms_to_group])` */
  function RelevantTerms(group: seq<nat>, terms: set<int>): (r: seq<nat>)
    ensures Sorted(r)
    ensures forall x :: multiset(r)[x] == if x in terms then multiset(group)[x] else 0
  {
    Sort(KeepIn(group, terms))
  }

  /** The relevant terms are the members of the group to be grouped, and
      they are empty exactly when no member of the group is one of them
      (the group covers only don't-cares). */
  lemma RelevantMembers(group: seq<nat>, terms: set<int>)
    ensures forall x :: x in RelevantTerms(group, terms) <==> x in group && x in terms
    ensures RelevantTerms(group, terms) == [] <==> forall m :: m in group ==> m !in terms
  {
    var r := RelevantTerms(group, terms);
    forall x ensures x in r <==> x in group && x in terms {
      assert x in r <==> x in multiset(r);
      assert x in group <==> x in multiset(group);
    }
    if r != [] {
      assert r[0] in r;
    }
  }

  /** One entry of `explanations`: the words for the cells grouped ("1s" or
      "0s"), the relevant terms and the group's algebraic term. The HTML
      sentence built around them is not modelled. */
  datatype Explanation = Explanation(around: string, relevant: seq<nat>, term: string)

  /** `term_name_in_explanation` */
  function Around(formType: string): (r: string)
    ensures r == "1s" <==> formType == "SOP"
    ensures r == "1s" || r == "0s"
  {
    if formType == "SOP" then "1s" else "0s"
  }

  function ExplanationFor(group: seq<nat>, variables: seq<string>, formType: string, terms: set<int>): Explanation
  {
    Explanation(Around(formType), RelevantTerms(group, terms), TermOf(group, variables, formType))
  }

  /** Group k is explained: it has a relevant term. */
  function IsRelevant(groups: seq<seq<nat>>, terms: set<int>): nat -> bool
  {
    (k: nat) => k < |groups| && RelevantTerms(groups[k], terms) != []
  }

  function ExplanationsAt(groups: seq<seq<nat>>, variables: seq<string>, formType: string, terms: set<int>, ks: seq<nat>): seq<Explanation>
    requires forall j :: 0 <= j < |ks| ==> ks[j] < |groups|
  {
    seq(|ks|, j requires 0 <= j < |ks| => ExplanationFor(groups[ks[j]], variables, formType, terms))
  }

  /** Explaining one more group appends its explanation. */
  lemma ExplanationsSnoc(groups: seq<seq<nat>>, variables: seq<string>, formType: string, terms: set<int>, ks: seq<nat>, k: nat)
    requires forall j :: 0 <= j < |ks| ==> ks[j] < |groups|
    requires k < |groups|
    ensures ExplanationsAt(groups, variables, formType, terms, ks + [k]) ==
      ExplanationsAt(groups, variables, formType, terms, ks) + [ExplanationFor(groups[k], variables, formType, terms)]
  {
    var a := ExplanationsAt(groups, variables, formType, terms, ks + [k]);
    var b := ExplanationsAt(groups, variables, formType, terms, ks);
    forall j | 0 <= j < |b| ensures a[j] == b[j] {
      assert (ks + [k])[j] == ks[j];
    }
  }

  /** Reference definition of `explanations`: one per group with a relevant
      term, in the order of the groups. */
  function ExplanationsOf(groups: seq<seq<nat>>, variables: seq<string>, formType: string, terms: set<int>): seq<Explanation>
  {
    ExplanationsAt(groups, variables, formType, terms, Filter(0, |groups|, IsRelevant(groups, terms)))
  }

  /** A group is skipped exactly when it has no relevant term; every
      explanation carries a non-empty sorted list of relevant terms. */
  lemma ExplanationsSkipExactly(groups: seq<seq<nat>>, variables: seq<string>, formType: string, terms: set<int>)
    ensures var ks := Filter(0, |groups|, IsRelevant(groups, terms));
      forall k :: 0 <= k < |groups| ==> (k in ks <==> RelevantTerms(groups[k], terms) != [])
    ensures |ExplanationsOf(groups, variables, formType, terms)| <= |groups|
    ensures forall e :: e in ExplanationsOf(groups, variables, formType, terms) ==>
      e.relevant != [] && Sorted(e.relevant) && e.around == Around(formType)
  {
    var p := IsRelevant(groups, terms);
    var ks := Filter(0, |groups|, p);
    forall k | 0 <= k < |groups| && RelevantTerms(groups[k], terms) != [] ensures k in ks {
      FilterContains(0, |groups|, p, k);
    }
    var es := ExplanationsOf(groups, variables, formType, terms);
    FilterSound(0, |groups|, p);
    forall e | e in es ensures e.relevant != [] && Sorted(e.relevant) && e.around == Around(formType) {
      var j :| 0 <= j < |es| && es[j] == e;
      assert p(ks[j]);
    }
  }

  /** The loop of the `/solve` route that builds `explanations`. */
  method Explain(groups: seq<seq<nat>>, variables: seq<string>, formType: string, termsToGroup: set<int>)
    returns (explanations: seq<Explanation>)
    ensures explanations == ExplanationsOf(groups, variables, formType, termsToGroup)
  {
    var p := IsRelevant(groups, termsToGroup);
    explanations := [];
    for k := 0 to |groups|
      invariant explanations == ExplanationsAt(groups, variables, formType, termsToGroup, Filter(0, k, p))
    {
      var group := groups[k];
      var relevantTerms := RelevantTerms(group, termsToGroup);
      ghost var ks := Filter(0, k, p);
      if relevantTerms == [] {
        assert Filter(0, k + 1, p) == ks;
        continue;
      }
      var algebraicTerm := GroupToTerm(group, variables, formType);
      assert Filter(0, k + 1, p) == ks + [k];
      ExplanationsSnoc(groups, variables, formType, termsToGroup, ks, k);
      explanations := explanations + [Explanation(Around(formType), relevantTerms, algebraicTerm)];
    }
  }
}
