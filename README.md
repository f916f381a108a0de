# K-map visualizer: a verified model of the map and term core

This project models the computing core of `app.py` of the K-map visualizer.
The web service draws Karnaugh maps for 2 to 4 Boolean variables and explains
the minimized sum-of-products (SOP) or product-of-sums (POS) form of a
function given by its minterms and don't-cares. The model covers:

- `generate_kmap`: the grid, its Gray-coded axes and labels, and the value
  ("1", "0" or "X") written in each cell;
- `get_minterms_for_term`: expanding a product term into the indices it covers;
- `group_to_term`: printing a group of indices as its simplified term;
- the parts of the `/solve` route that compute: the maxterms of a POS
  request, the sorted relevant terms of each group, and the explanation list
  that skips groups made only of don't-cares.

Modules, one per file:

- `Seqs` (seqs.dfy): range filters (`for i in range(..): if ..: append(i)`)
  and `str.join`.
- `Binary` (binary.dfy): Python's `format(i, '0wb')` and `int(s, 2)`, and the
  Hamming distance between numerals.
- `KMapLayout` (kmap.dfy): `generate_kmap`.
- `Terms` (terms.dfy): `get_minterms_for_term` and `group_to_term`.
- `Solve` (solve.dfy): maxterms, relevant terms and explanations.

Functions that only compute are Dafny functions. A loop of the source is a
method with a `while` or `for` loop, proved equal to a reference function:
`GenerateKMap` to `KMapOf`, `GetMintermsForTerm` to `Covered`, `GroupToTerm`
to `TermOf`, `Explain` to `ExplanationsOf`. The properties are lemmas about
those reference functions.

In `get_minterms_for_term` a SymPy term is a sequence of `Literal(name,
positive)` values. `fixed_vars` is rebuilt from it with the source's
overwrite behaviour: the last literal on a variable decides its bit.

A number listed both as a minterm and as a don't-care shows as "X": the code
(app.py line 100) merges the don't-cares into `all_terms` after the minterms,
so the don't-care entry overwrites the minterm entry. The model follows this
(`CellValue`).

## Model

| member | source | states |
|---|---|---|
| KMapLayout.GenerateKMap | app.py:91-106 | returns `None` unless there are 2, 3 or 4 variables, and otherwise exactly the reference map `KMapOf`: every cell holds the value of the term its labels spell, with the labels, axis variables and output name |
| KMapLayout.CellOf | app.py:102-104 | the row and column computed from term i's numeral are its place in the grid, inside the grid, and the cell's labels spell i back |
| KMapLayout.CellValue | app.py:100-102 | a cell shows "X" exactly for a don't-care (even one also listed as a minterm), "1" exactly for a minterm that is not a don't-care, "0" otherwise |
| KMapLayout.GrayGet | app.py:98-104 | `gray_map.get(x, x)` keeps 0 .. 3 inside 0 .. 3 and moves exactly 2 and 3; every other number is its own image |
| KMapLayout.Place | app.py:102-104 | for 2, 3 or 4 variables, every term below 2^n is given a row and column inside the grid |
| KMapLayout.MergedLookup | app.py:100-102 | `all_terms.get(i, "0")` on the merged dictionary is the cell value of i |
| KMapLayout.KMapShape | app.py:92-97 | the map exists exactly for 2, 3 or 4 variables; it is then 2x2, 2x4 or 4x4, with labels "0","1" on one-variable axes and "00","01","11","10" on two-variable axes |
| KMapLayout.AxisLengths | app.py:94-97 | rows and columns match the label counts and 2^(axis width); the row axis takes n/2 variables and the column axis the rest |
| KMapLayout.AxisVariables | app.py:95 | row and column variables are the variable list split after the first n/2; joined back with a comma they give the whole list |
| KMapLayout.AxisGray | app.py:96-98 | each label, read as binary and passed through the Gray permutation, gives its own position; every numeral of the axis width lands at the label that spells it |
| KMapLayout.PlaceSpellsTerm | app.py:101-105 | every term i < 2^n is written inside the grid, at the cell whose row label followed by column label is i's n-digit numeral |
| KMapLayout.PlaceOfTermAt | app.py:101-105 | the term a cell's labels spell is below 2^n and is written exactly at that cell |
| KMapLayout.PlaceBijective | app.py:101-105 | placement is a bijection from 0 .. 2^n-1 onto the cells: distinct terms get distinct cells, and every cell receives a term |
| KMapLayout.AxisAdjacency | app.py:96-98 | two labels of one axis differ in exactly one digit exactly when they are next to each other, first and last included |
| KMapLayout.AxisDistinct | app.py:96-97 | labels at different positions of an axis differ |
| KMapLayout.CellsNeighboursIffOneBit | app.py:96-98 | two cells are toroidal neighbours exactly when their label numerals differ in one place |
| KMapLayout.NeighboursIffOneBit | app.py:101-105 | two terms sit in toroidally neighbouring cells exactly when their numerals differ in one bit |
| KMapLayout.KMapCellOfTerm | app.py:100-105 | each term below 2^n appears at its Gray cell with its value |
| KMapLayout.KMapIgnoresOutOfRange | app.py:100-102 | listed numbers outside 0 .. 2^n-1, negative ones included, do not change the map |
| KMapLayout.FilledAll | app.py:101-105 | once all 2^n terms have been written, every cell holds its term's value |
| Binary.Format | app.py:102 | `format(i, '0wb')` is a binary numeral with at least w digits and at least one |
| Binary.FromBinary | app.py:103 | `int(s, 2)` of a numeral of k digits is below 2^k |
| Binary.FormatRoundTrip | app.py:102-103 | `int(format(i, '0wb'), 2) == i` for every i >= 0 and every width |
| Binary.FormatFromBinary | app.py:102-103 | `format(int(s, 2), '0{len(s)}b') == s` for every non-empty binary numeral |
| Binary.FormatPrefix | app.py:21 | below 2^w, `format` gives exactly the w-digit numeral |
| Terms.LastPolarity | app.py:57-61 | the polarity `fixed_vars` keeps for a name is that of the name's last literal in the term |
| Terms.FixedVars | app.py:55-61 | the first loop maps exactly the term's variable names, each to 1 or 0 by its last literal |
| Terms.MatchesFixedScan | app.py:64-67 | the inner loop, with its early `break`, reports whether every fixed variable has its recorded bit in the numeral |
| Terms.FixedMatchesAgree | app.py:62-67 | for i < 2^n the inner loop's test is agreement of i's numeral with the term |
| Terms.AgreesIsBits | app.py:62-67 | agreement read digit by digit (lower half: first digit 0, upper half: 1) is agreement of the whole n-digit numeral |
| Terms.GetMintermsForTerm | app.py:50-69 | returns the reference list `Covered`: strictly increasing, and containing exactly the i < 2^n whose numeral carries each fixed bit |
| Terms.CoveredMembers | app.py:62-68 | an index is covered exactly when it is below 2^n and its numeral agrees with every literal |
| Terms.CoveredLength | app.py:57-68 | a term that fixes k of the n variables covers exactly 2^(n-k) indices |
| Terms.CoveredSameFixes | app.py:55-68 | two terms that fix the same listed variables to the same bits cover the same indices |
| Terms.CoveredRestricted | app.py:55-68 | dropping every literal on a variable outside the list changes nothing covered |
| Terms.CoveredIgnoresUnknown | app.py:55-68 | a literal on a variable outside the list, anywhere in the term, changes nothing covered |
| Terms.CoveredNonEmpty | app.py:62-68 | every term covers at least one index |
| Terms.ConstantIffFixed | app.py:21-28 | over the indices a term covers, a bit position is constant exactly when the term fixes its variable |
| Terms.RoundTrip | app.py:10-46 | `group_to_term` of the group a term covers yields the term's literals in variable order, one per fixed variable, and prints as that term |
| Terms.GroupCoveredByItsTerm | app.py:21-37 | with distinct variables, the term `group_to_term` derives covers every member of the group below 2^n |
| Terms.ExampleConstants | app.py:13 | in the numerals of 4, 5, 6, 7 only the first two positions are constant |
| Terms.DocExample | app.py:13 | the documented example: [4, 5, 6, 7] over a, b, c, d gives "a'b" |
| Terms.GroupToTerm | app.py:10-46 | returns the reference `TermOf`: "" for an empty group, "1" when no position is constant, otherwise the constant positions' literals (primed by the SOP/POS rule), juxtaposed, or in POS form joined by " + " in parentheses |
| Terms.Bins | app.py:21 | `bin_strings` has one numeral per group member, of at least n digits, that reads back as that member |
| Terms.IsConstant | app.py:25-28 | a constant position lies below n in a non-empty group; in a one-member group every position is constant |
| Terms.LiteralText | app.py:29-35 | a literal prints as its name, primed or not; in SOP form unprimed exactly when positive, in POS form unprimed exactly when negative, in any other form always primed |
| Terms.TermText | app.py:39-46 | no literal gives "1"; one SOP literal prints alone; outside SOP form a non-empty term is wrapped in parentheses |
| Seqs.Filter | app.py:62-68 | a range loop that appends the numbers passing a test yields numbers of the range, strictly increasing |
| Seqs.Join | app.py:43-46 | joining a single part gives that part |
| Solve.MaxtermsPartition | app.py:143 | the maxterms lie in 0 .. 2^n-1, are disjoint from minterms and don't-cares, and together with them cover that range |
| Solve.MaxtermsAreZeroCells | app.py:143 | a term below 2^n is a maxterm exactly when its K-map cell shows "0" |
| Solve.RangeSet | app.py:143 | `set(range(k))` holds exactly 0 .. k-1 |
| Solve.Maxterms | app.py:143 | the maxterms lie in 0 .. 2^n-1 |
| Solve.TermsToGroup | app.py:137-147 | in SOP form the terms to group are the minterms; otherwise they are the numbers below 2^n that are neither minterms nor don't-cares; a don't-care is a term to group only in SOP form when it is also a minterm |
| Solve.Around | app.py:140-147 | the word is "1s" exactly in SOP form and "0s" otherwise |
| Solve.KeepIn | app.py:152 | the comprehension keeps each member of the group that is a term to group, as often as it occurs, and drops the others |
| Solve.Sort | app.py:152 | `sorted` returns an ordered permutation of its input |
| Solve.RelevantTerms | app.py:152 | the relevant terms are sorted and hold each group member that is a term to group, with its multiplicity, and nothing else |
| Solve.RelevantMembers | app.py:152-153 | x is relevant exactly when it is in the group and a term to group; the list is empty exactly when no group member is a term to group |
| Solve.ExplanationsSkipExactly | app.py:150-159 | a group gets an explanation exactly when it has a relevant term; there are at most as many explanations as groups, each with non-empty sorted relevant terms and the "1s"/"0s" word of the form |
| Solve.Explain | app.py:150-159 | the explanation loop, with its `continue`, returns the reference list `ExplanationsOf`: one explanation per group with a relevant term, in group order |

## Left out

- Flask routing, JSON request parsing, input defaults and HTTP error responses (app.py:108-174) are left out. They are I/O.
- SymPy's `SOPform`/`POSform` minimization (app.py:134-145) is left out. It is an external library. The groups it produces are inputs to the model.
- `get_implicant_groups` (app.py:71-78) is left out. It only maps `get_minterms_for_term` over the arguments of a SymPy expression. Its per-term part is modelled.
- `format_sympy_expr` (app.py:80-89) is left out. It rewrites SymPy's printed expression string with regular expressions, and the printer is outside the model.
- The HTML sentence of each explanation (app.py:156-158) is not modelled. An explanation keeps only its three computed parts: the "1s"/"0s" word, the relevant terms and the algebraic term.
- In `get_minterms_for_term`, the `isinstance(term, (And, Or))` test on SymPy objects is not modelled. A term is given directly as its list of literals.
- The browser front end (notation parsing, group borders, rendering) is not part of this model.
- Solve.TermsToGroup: the POS maxterm list is a set, because the source builds it from a set and only uses it for membership tests. Its order is not modelled. The same list is also passed to `SOPform` (app.py:144), which is outside the model.
- Solve.Sort: it is specified by its result (ordered, same multiset), not by Python's Timsort steps.
- Terms.GroupCoveredByItsTerm: it assumes distinct variable names. With repeated names, `group_to_term` can emit two literals on one variable, and the model does not state what those cover.
- Group members are modelled as natural numbers. `format` of a negative number (a "-" prefix) is not modelled. The groups come from `get_minterms_for_term`, which yields only non-negative indices.
