/** The Karnaugh-map grid of `generate_kmap` (app.py): for 2, 3 or 4
    variables, the first n/2 variables index the rows and the rest the
    columns; each axis value goes through the 2-bit Gray permutation
    {0:0, 1:1, 2:3, 3:2}, so that neighbouring cells, wrap-around included,
    hold terms whose numerals differ in a single bit. */
module KMapLayout {
  import opened Seqs
  import opened Binary

  datatype Option<T> = None | Some(value: T)

  /** The dictionary `generate_kmap` returns. */
  datatype KMap = KMap(
    cells: seq<seq<string>>,
    rowLabels: seq<string>,
    colLabels: seq<string>,
    rowVars: string,
    colVars: string,
    outputName: string)

  /** `num_vars in [2, 3, 4]` */
  predicate Supported(n: nat)
  {
    n == 2 || n == 3 || n == 4
  }

  /** `len(row_vars)` and `len(col_vars)` for n variables. */
  function RowBits(n: nat): nat { n / 2 }
  function ColBits(n: nat): nat { n - n / 2 }

  /** `rows, cols` as the source fixes them. */
  function Rows(n: nat): nat { if n == 4 then 4 else if n == 3 then 2 else 2 }
  function Cols(n: nat): nat { if n == 4 then 4 else if n == 3 then 4 else 2 }

  /** The labels of an axis that carries `bits` variables. */
  function AxisLabels(bits: nat): seq<string>
  {
    if bits == 1 then ["0", "1"] else ["00", "01", "11", "10"]
  }

  /** `gray_map.get(x, x)` with `gray_map = {0: 0, 1: 1, 2: 3, 3: 2}`. */
  function GrayGet(x: nat): (r: nat)
    ensures x < 4 ==> r < 4
    ensures r != x <==> (x == 2 || x == 3)
  {
    if x == 2 then 3 else if x == 3 then 2 else x
  }

  /** The (row, column) at which the loop of `generate_kmap` writes term i. */
  function Place(n: nat, i: nat): (p: (nat, nat))
    ensures Supported(n) && i < Pow2(n) ==> p.0 < Rows(n) && p.1 < Cols(n)
  {
    var bin := Format(i, n);
    var rBin := if 0 < RowBits(n) then FromBinary(bin[..RowBits(n)]) else 0;
    var cBin := if 0 < ColBits(n) then FromBinary(bin[RowBits(n)..]) else 0;
    assert Supported(n) && i < Pow2(n) ==> rBin < Rows(n) && cBin < Cols(n) by {
      if Supported(n) && i < Pow2(n) {
        FormatPrefix(i, n);
        AxisLengths(n);
      }
    }
    (GrayGet(rBin), GrayGet(cBin))
  }

  lemma AxisLengths(n: nat)
    requires Supported(n)
    ensures |AxisLabels(RowBits(n))| == Rows(n) && |AxisLabels(ColBits(n))| == Cols(n)
    ensures Pow2(RowBits(n)) == Rows(n) && Pow2(ColBits(n)) == Cols(n)
    ensures RowBits(n) + ColBits(n) == n && 1 <= RowBits(n) <= 2 && 1 <= ColBits(n) <= 2
  {
  }

  /** The term a reader of the map assigns to cell (r, c): the number whose
      numeral is the row label followed by the column label. */
  function TermAt(n: nat, r: nat, c: nat): nat
    requires Supported(n) && r < Rows(n) && c < Cols(n)
  {
    AxisLengths(n);
    FromBinary(AxisLabels(RowBits(n))[r] + AxisLabels(ColBits(n))[c])
  }

  /** What the cell of term t shows: "X" for a don't-care (even when t is also
      listed as a minterm, since the don't-cares are merged in last), "1" for a
      minterm, "0" otherwise. */
  function CellValue(t: int, minterms: seq<int>, dontcares: seq<int>): (v: string)
    ensures v == "X" <==> t in dontcares
    ensures v == "1" <==> t in minterms && t !in dontcares
    ensures v == "0" <==> t !in minterms && t !in dontcares
  {
    if t in dontcares then "X" else if t in minterms then "1" else "0"
  }

  /** Reference definition of the map: every cell shows the value of the term
      its labels spell; `None` unless there are 2, 3 or 4 variables. */
  function KMapOf(variables: seq<string>, minterms: seq<int>, dontcares: seq<int>, outputName: string): Option<KMap>
  {
    var n := |variables|;
    if !Supported(n) then None
    else
      Some(KMap(
        seq(Rows(n), r requires 0 <= r < Rows(n) =>
          seq(Cols(n), c requires 0 <= c < Cols(n) => CellValue(TermAt(n, r, c), minterms, dontcares))),
        AxisLabels(RowBits(n)),
        AxisLabels(ColBits(n)),
        Join(",", variables[..n / 2]),
        Join(",", variables[n / 2..]),
        outputName))
  }

  /** The labels of an axis, read back through the Gray permutation, give the
      position they stand at, and a numeral of the axis's width lands at the
      label that spells it. */
  lemma AxisGray(bits: nat)
    requires bits == 1 || bits == 2
    ensures forall j :: 0 <= j < |AxisLabels(bits)| ==> GrayGet(FromBinary(AxisLabels(bits)[j])) == j
    ensures forall s: string :: |s| == bits && IsBinary(s) ==>
      GrayGet(FromBinary(s)) < |AxisLabels(bits)| && AxisLabels(bits)[GrayGet(FromBinary(s))] == s
  {
    forall j | 0 <= j < |AxisLabels(bits)| ensures GrayGet(FromBinary(AxisLabels(bits)[j])) == j {
      AxisLabelRead(bits, j);
    }
    forall s: string | |s| == bits && IsBinary(s)
      ensures GrayGet(FromBinary(s)) < |AxisLabels(bits)| && AxisLabels(bits)[GrayGet(FromBinary(s))] == s
    {
      AxisLabelOf(bits, s);
    }
  }

  /** The label at position j reads back, through the Gray permutation, as j. */
  lemma AxisLabelRead(bits: nat, j: nat)
    requires (bits == 1 || bits == 2) && j < |AxisLabels(bits)|
    ensures |AxisLabels(bits)[j]| == bits && IsBinary(AxisLabels(bits)[j])
    ensures GrayGet(FromBinary(AxisLabels(bits)[j])) == j
  {
    if bits == 1 {
      assert FromBinary("0") == 0 && FromBinary("1") == 1;
    } else {
      FromBinary2(AxisLabels(2)[j]);
    }
  }

  /** A numeral of the axis's width lands at the label that spells it. */
  lemma AxisLabelOf(bits: nat, s: string)
    requires (bits == 1 || bits == 2) && |s| == bits && IsBinary(s)
    ensures GrayGet(FromBinary(s)) < |AxisLabels(bits)| && AxisLabels(bits)[GrayGet(FromBinary(s))] == s
  {
    var L := AxisLabels(bits);
    if bits == 1 {
      assert s[0] == '0' || s[0] == '1';
      assert s == [s[0]];
      if s[0] == '0' {
        assert FromBinary(s) == 0 && L[0] == s;
      } else {
        assert FromBinary(s) == 1 && L[1] == s;
      }
    } else {
      FromBinary2(s);
      assert s == [s[0], s[1]];
      assert s[0] == '0' || s[0] == '1';
      assert s[1] == '0' || s[1] == '1';
      if s[0] == '0' && s[1] == '0' {
        assert GrayGet(FromBinary(s)) == 0 && L[0] == s;
      } else if s[0] == '0' {
        assert GrayGet(FromBinary(s)) == 1 && L[1] == s;
      } else if s[1] == '1' {
        assert GrayGet(FromBinary(s)) == 2 && L[2] == s;
      } else {
        assert GrayGet(FromBinary(s)) == 3 && L[3] == s;
      }
    }
  }

  /** The loop writes each term in range inside the grid, at the cell whose
      labels spell the term's numeral. */
  lemma {:induction false} PlaceSpellsTerm(n: nat, i: nat)
    requires Supported(n) && i < Pow2(n)
    ensures Place(n, i).0 < Rows(n) && Place(n, i).1 < Cols(n)
    ensures AxisLabels(RowBits(n))[Place(n, i).0] + AxisLabels(ColBits(n))[Place(n, i).1] == Format(i, n)
    ensures TermAt(n, Place(n, i).0, Place(n, i).1) == i
  {
    AxisLengths(n);
    var k := RowBits(n);
    var bin := Format(i, n);
    FormatPrefix(i, n);
    var pre, suf := bin[..k], bin[k..];
    assert IsBinary(pre) && IsBinary(suf);
    AxisLabelOf(k, pre);
    AxisLabelOf(n - k, suf);
    assert pre + suf == bin;
    FormatRoundTrip(i, n);
  }

  /** The term read off cell (r, c) is in range and is written exactly there. */
  lemma {:induction false} PlaceOfTermAt(n: nat, r: nat, c: nat)
    requires Supported(n) && r < Rows(n) && c < Cols(n)
    ensures TermAt(n, r, c) < Pow2(n)
    ensures Place(n, TermAt(n, r, c)) == (r, c)
    ensures Format(TermAt(n, r, c), n) == AxisLabels(RowBits(n))[r] + AxisLabels(ColBits(n))[c]
  {
    AxisLengths(n);
    var k := RowBits(n);
    var lr, lc := AxisLabels(k)[r], AxisLabels(n - k)[c];
    TermAtNumeral(n, r, c);
    AxisLabelRead(k, r);
    AxisLabelRead(n - k, c);
    var s := Format(TermAt(n, r, c), n);
    assert s[..k] == lr && s[k..] == lc;
  }

  /** The numeral of the term read off cell (r, c) is its two labels. */
  lemma TermAtNumeral(n: nat, r: nat, c: nat)
    requires Supported(n) && r < Rows(n) && c < Cols(n)
    ensures TermAt(n, r, c) < Pow2(n)
    ensures Format(TermAt(n, r, c), n) == AxisLabels(RowBits(n))[r] + AxisLabels(ColBits(n))[c]
  {
    AxisLengths(n);
    var lr, lc := AxisLabels(RowBits(n))[r], AxisLabels(ColBits(n))[c];
    AxisLabelRead(RowBits(n), r);
    AxisLabelRead(ColBits(n), c);
    var s := lr + lc;
    assert |s| == n && IsBinary(s);
    FormatFromBinary(s);
  }

  /** Placement is a bijection from the terms 0 .. 2^n - 1 onto the cells:
      distinct terms go to distinct cells, and every cell receives a term. */
  lemma PlaceBijective(n: nat)
    requires Supported(n)
    ensures forall i, j :: 0 <= i < Pow2(n) && 0 <= j < Pow2(n) && Place(n, i) == Place(n, j) ==> i == j
    ensures forall r, c :: 0 <= r < Rows(n) && 0 <= c < Cols(n) ==>
      TermAt(n, r, c) < Pow2(n) && Place(n, TermAt(n, r, c)) == (r, c)
  {
    forall i, j | 0 <= i < Pow2(n) && 0 <= j < Pow2(n) && Place(n, i) == Place(n, j)
      ensures i == j
    {
      PlaceSpellsTerm(n, i);
      PlaceSpellsTerm(n, j);
    }
    forall r, c | 0 <= r < Rows(n) && 0 <= c < Cols(n)
      ensures TermAt(n, r, c) < Pow2(n) && Place(n, TermAt(n, r, c)) == (r, c)
    {
      PlaceOfTermAt(n, r, c);
    }
  }

  /** Toroidal neighbours: same row and adjacent columns, or same column and
      adjacent rows, where the last row or column is next to the first. */
  predicate Neighbours(n: nat, p: (nat, nat), q: (nat, nat))
    requires Supported(n)
  {
    (p.0 == q.0 && (q.1 == (p.1 + 1) % Cols(n) || p.1 == (q.1 + 1) % Cols(n))) ||
    (p.1 == q.1 && (q.0 == (p.0 + 1) % Rows(n) || p.0 == (q.0 + 1) % Rows(n)))
  }

  /** Along one axis, two labels differ in exactly one digit exactly when they
      stand next to each other, first and last included. */
  lemma AxisAdjacency(bits: nat, j: nat, j': nat)
    requires bits == 1 || bits == 2
    requires j < |AxisLabels(bits)| && j' < |AxisLabels(bits)|
    ensures Hamming(AxisLabels(bits)[j], AxisLabels(bits)[j']) == 1 <==>
      (j' == (j + 1) % |AxisLabels(bits)| || j == (j' + 1) % |AxisLabels(bits)|)
  {
    if bits == 1 {
      assert Hamming("0", "1") == 1 && Hamming("1", "0") == 1;
    } else {
      Hamming2(AxisLabels(2)[j], AxisLabels(2)[j']);
    }
  }

  /** The Hamming distance of two 2-digit numerals, place by place. */
  lemma Hamming2(a: string, b: string)
    requires |a| == 2 && |b| == 2
    ensures Hamming(a, b) == (if a[0] != b[0] then 1 else 0) + (if a[1] != b[1] then 1 else 0)
  {
    assert a[1..][1..] == [] && b[1..][1..] == [];
  }

  /** The value of a 2-digit numeral. */
  lemma FromBinary2(s: string)
    requires |s| == 2
    ensures FromBinary(s) == (if s[0] == '1' then 2 else 0) + (if s[1] == '1' then 1 else 0)
  {
    assert s[1..][1..] == [];
  }

  /** Distinct positions of an axis carry distinct labels. */
  lemma AxisDistinct(bits: nat, j: nat, j': nat)
    requires bits == 1 || bits == 2
    requires j < |AxisLabels(bits)| && j' < |AxisLabels(bits)|
    ensures AxisLabels(bits)[j] == AxisLabels(bits)[j'] <==> j == j'
  {
    AxisLabelRead(bits, j);
    AxisLabelRead(bits, j');
  }

  /** Two cells are toroidal neighbours exactly when the numerals their labels
      spell differ in one place. */
  lemma {:induction false} CellsNeighboursIffOneBit(n: nat, p: (nat, nat), q: (nat, nat))
    requires Supported(n) && p.0 < Rows(n) && p.1 < Cols(n) && q.0 < Rows(n) && q.1 < Cols(n)
    ensures |AxisLabels(RowBits(n))| == Rows(n) && |AxisLabels(ColBits(n))| == Cols(n)
    ensures Neighbours(n, p, q) <==>
      Hamming(AxisLabels(RowBits(n))[p.0] + AxisLabels(ColBits(n))[p.1],
              AxisLabels(RowBits(n))[q.0] + AxisLabels(ColBits(n))[q.1]) == 1
  {
    AxisLengths(n);
    var R, C := AxisLabels(RowBits(n)), AxisLabels(ColBits(n));
    HammingAppend(R[p.0], C[p.1], R[q.0], C[q.1]);
    AxisAdjacency(RowBits(n), p.0, q.0);
    AxisAdjacency(ColBits(n), p.1, q.1);
    AxisDistinct(RowBits(n), p.0, q.0);
    AxisDistinct(ColBits(n), p.1, q.1);
  }

  /** The Gray layout: two terms sit in toroidally neighbouring cells exactly
      when their numerals differ in one bit. */
  lemma {:induction false} NeighboursIffOneBit(n: nat, i: nat, j: nat)
    requires Supported(n) && i < Pow2(n) && j < Pow2(n)
    ensures Neighbours(n, Place(n, i), Place(n, j)) <==> Hamming(Format(i, n), Format(j, n)) == 1
  {
    PlaceSpellsTerm(n, i);
    PlaceSpellsTerm(n, j);
    CellsNeighboursIffOneBit(n, Place(n, i), Place(n, j));
  }

  /** The row and column variable groups are the variables split after the
      first n/2, order kept: joined back with a comma they give the whole list. */
  lemma AxisVariables(variables: seq<string>)
    requires Supported(|variables|)
    ensures KMapOf(variables, [], [], "").value.rowVars + "," + KMapOf(variables, [], [], "").value.colVars
      == Join(",", variables)
  {
    var n := |variables|;
    assert variables[..n / 2] + variables[n / 2..] == variables;
    JoinAppend(",", variables[..n / 2], variables[n / 2..]);
  }

  /** The map exists exactly for 2, 3 or 4 variables; it is then 2 x 2, 2 x 4
      or 4 x 4, with labels "0","1" on an axis of one variable and
      "00","01","11","10" on an axis of two. */
  lemma KMapShape(variables: seq<string>, minterms: seq<int>, dontcares: seq<int>, outputName: string)
    ensures KMapOf(variables, minterms, dontcares, outputName).Some? <==> Supported(|variables|)
    ensures Supported(|variables|) ==>
      var m := KMapOf(variables, minterms, dontcares, outputName).value;
      var n := |variables|;
      && |m.cells| == Rows(n)
      && (forall r :: 0 <= r < |m.cells| ==> |m.cells[r]| == Cols(n))
      && (n == 2 ==> Rows(n) == 2 && Cols(n) == 2 && m.rowLabels == ["0", "1"] && m.colLabels == ["0", "1"])
      && (n == 3 ==> Rows(n) == 2 && Cols(n) == 4 && m.rowLabels == ["0", "1"] && m.colLabels == ["00", "01", "11", "10"])
      && (n == 4 ==> Rows(n) == 4 && Cols(n) == 4 && m.rowLabels == ["00", "01", "11", "10"] && m.colLabels == ["00", "01", "11", "10"])
      && m.outputName == outputName
  {
  }

  /** Every term in range is written at its Gray cell with its value; a
      listed number outside 0 .. 2^n - 1 has no cell. */
  lemma {:induction false} KMapCellOfTerm(variables: seq<string>, minterms: seq<int>, dontcares: seq<int>, outputName: string, i: nat)
    requires Supported(|variables|) && i < Pow2(|variables|)
    ensures var m := KMapOf(variables, minterms, dontcares, outputName).value;
      var (r, c) := Place(|variables|, i);
      r < |m.cells| && c < |m.cells[r]| && m.cells[r][c] == CellValue(i, minterms, dontcares)
  {
    PlaceSpellsTerm(|variables|, i);
  }

  /** Only listed numbers in 0 .. 2^n - 1 matter: two lists that agree on that
      range give the same map. */
  lemma {:induction false} KMapIgnoresOutOfRange(variables: seq<string>, m1: seq<int>, d1: seq<int>, m2: seq<int>, d2: seq<int>, outputName: string)
    requires forall t :: 0 <= t < Pow2(|variables|) ==> (t in m1 <==> t in m2) && (t in d1 <==> t in d2)
    ensures KMapOf(variables, m1, d1, outputName) == KMapOf(variables, m2, d2, outputName)
  {
    var n := |variables|;
    if Supported(n) {
      var a := KMapOf(variables, m1, d1, outputName).value.cells;
      var b := KMapOf(variables, m2, d2, outputName).value.cells;
      forall r | 0 <= r < Rows(n) ensures a[r] == b[r] {
        forall c | 0 <= c < Cols(n) ensures a[r][c] == b[r][c] {
          PlaceOfTermAt(n, r, c);
        }
      }
      assert a == b;
    }
  }

  /** The grid is rows x cols and every cell whose term is below i already
      shows that term's value. */
  ghost predicate FilledUpTo(n: nat, kmap: seq<seq<string>>, i: nat, minterms: seq<int>, dontcares: seq<int>)
    requires Supported(n)
  {
    && |kmap| == Rows(n)
    && (forall r :: 0 <= r < Rows(n) ==> |kmap[r]| == Cols(n))
    && forall r, c :: 0 <= r < Rows(n) && 0 <= c < Cols(n) && TermAt(n, r, c) < i ==>
         kmap[r][c] == CellValue(TermAt(n, r, c), minterms, dontcares)
  }

  /** Writing term i's value at its cell extends the filled part by term i. */
  lemma WriteStep(n: nat, kmap: seq<seq<string>>, i: nat, r: nat, c: nat, minterms: seq<int>, dontcares: seq<int>)
    requires Supported(n) && i < Pow2(n) && FilledUpTo(n, kmap, i, minterms, dontcares)
    requires r < Rows(n) && c < Cols(n) && TermAt(n, r, c) == i
    ensures FilledUpTo(n, kmap[r := kmap[r][c := CellValue(i, minterms, dontcares)]], i + 1, minterms, dontcares)
  {
    var v := CellValue(i, minterms, dontcares);
    var k' := kmap[r := kmap[r][c := v]];
    forall r', c' | 0 <= r' < Rows(n) && 0 <= c' < Cols(n) && TermAt(n, r', c') < i + 1
      ensures k'[r'][c'] == CellValue(TermAt(n, r', c'), minterms, dontcares)
    {
      if (r', c') != (r, c) {
        TermAtInjective(n, r, c, r', c');
        assert k'[r'][c'] == kmap[r'][c'] && TermAt(n, r', c') < i;
      } else {
        assert k'[r'][c'] == v;
      }
    }
  }

  /** Two different cells stand for two different terms. */
  lemma TermAtInjective(n: nat, r: nat, c: nat, r': nat, c': nat)
    requires Supported(n) && r < Rows(n) && c < Cols(n) && r' < Rows(n) && c' < Cols(n)
    ensures TermAt(n, r, c) == TermAt(n, r', c') ==> r == r' && c == c'
  {
    PlaceOfTermAt(n, r', c');
    PlaceOfTermAt(n, r, c);
  }

  /** Once all 2^n terms are written, the grid is the reference map's. */
  lemma FilledAll(n: nat, kmap: seq<seq<string>>, minterms: seq<int>, dontcares: seq<int>)
    requires Supported(n) && FilledUpTo(n, kmap, Pow2(n), minterms, dontcares)
    ensures kmap == seq(Rows(n), r requires 0 <= r < Rows(n) =>
      seq(Cols(n), c requires 0 <= c < Cols(n) => CellValue(TermAt(n, r, c), minterms, dontcares)))
  {
    var want := seq(Rows(n), r requires 0 <= r < Rows(n) =>
      seq(Cols(n), c requires 0 <= c < Cols(n) => CellValue(TermAt(n, r, c), minterms, dontcares)));
    forall r | 0 <= r < Rows(n) ensures kmap[r] == want[r] {
      forall c | 0 <= c < Cols(n) ensures kmap[r][c] == want[r][c] {
        PlaceOfTermAt(n, r, c);
      }
    }
  }

  /** `all_terms` after the don't-cares are merged over the minterms. */
  ghost predicate MergedValues(allTerms: map<int, string>, minterms: seq<int>, dontcares: seq<int>)
  {
    && (forall t :: t in allTerms <==> t in minterms || t in dontcares)
    && (forall t :: t in allTerms ==> allTerms[t] == if t in dontcares then "X" else "1")
  }

  /** `all_terms.get(i, "0")` is the cell value of i. */
  lemma MergedLookup(allTerms: map<int, string>, minterms: seq<int>, dontcares: seq<int>, i: int)
    requires MergedValues(allTerms, minterms, dontcares)
    ensures (if i in allTerms then allTerms[i] else "0") == CellValue(i, minterms, dontcares)
  {
  }

  /** The cell the loop of `generate_kmap` writes term i to: the row and
      column digits of its numeral, each read back as a number and mapped
      through the Gray permutation. */
  method CellOf(n: nat, i: nat, rowCount: nat, colCount: nat) returns (r: nat, c: nat)
    requires Supported(n) && i < Pow2(n) && rowCount == RowBits(n) && colCount == ColBits(n)
    ensures (r, c) == Place(n, i)
    ensures r < Rows(n) && c < Cols(n) && TermAt(n, r, c) == i
  {
    var bin := Format(i, n);
    var rBin := if 0 < rowCount then FromBinary(bin[..rowCount]) else 0;
    var cBin := if 0 < colCount then FromBinary(bin[rowCount..]) else 0;
    r, c := GrayGet(rBin), GrayGet(cBin);
    PlaceSpellsTerm(n, i);
  }

  /** `generate_kmap`: fills a grid of "0"s by writing, for every term i in
      0 .. 2^n - 1, its value at row `gray[int(high bits)]` and column
      `gray[int(low bits)]`. */
  method GenerateKMap(variables: seq<string>, minterms: seq<int>, dontcares: seq<int>, outputName: string)
    returns (result: Option<KMap>)
    ensures result == KMapOf(variables, minterms, dontcares, outputName)
  {
    var n := |variables|;
    if !Supported(n) {
      return None;
    }
    var rows, cols := Rows(n), Cols(n);
    var rowVars, colVars := variables[..n / 2], variables[n / 2..];
    var rowLabels := if |rowVars| == 1 then ["0", "1"] else ["00", "01", "11", "10"];
    var colLabels := if |colVars| == 1 then ["0", "1"] else ["00", "01", "11", "10"];
    var kmap := seq(rows, _ => seq(cols, _ => "0"));
    var allTerms := map m | m in minterms :: "1";
    allTerms := allTerms + map d | d in dontcares :: "X";
    assert MergedValues(allTerms, minterms, dontcares);
    AxisLengths(n);
    assert |rowVars| == RowBits(n) && 0 < |colVars|;
    for i := 0 to Pow2(n)
      invariant FilledUpTo(n, kmap, i, minterms, dontcares)
    {
      var val := if i in allTerms then allTerms[i] else "0";
      var r, c := CellOf(n, i, |rowVars|, |colVars|);
      assert val == CellValue(i, minterms, dontcares) by { MergedLookup(allTerms, minterms, dontcares, i); }
      WriteStep(n, kmap, i, r, c, minterms, dontcares);
      kmap := kmap[r := kmap[r][c := val]];
    }
    FilledAll(n, kmap, minterms, dontcares);
    result := Some(KMap(kmap, rowLabels, colLabels, Join(",", rowVars), Join(",", colVars), outputName));
  }
}
