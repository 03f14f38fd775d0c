/** Filling missing numeric cells with the column mean: `df[numeric] = df[numeric].fillna(df[numeric].mean())`.
    The mean is taken over a column's present values; a numeric column without any present
    value has no mean and keeps its missing cells.  Arithmetic is exact. */
module MeanFill {
  import opened Results
  import opened Tables

  /** The cells of column `j`, top to bottom. */
  function ColumnCells(t: Table, j: nat): (col: seq<Cell>)
    requires WellFormed(t) && j < |t.columns|
    ensures |col| == |t.rows|
    ensures forall i :: 0 <= i < |t.rows| ==> col[i] == t.rows[i][j]
  {
    seq(|t.rows|, i requires 0 <= i < |t.rows| => t.rows[i][j])
  }

  /** The numbers among the cells, in order. */
  function Present(col: seq<Cell>): seq<real>
    decreases |col|
  {
    if |col| == 0 then []
    else
      var last := col[|col| - 1];
      Present(col[..|col| - 1]) + (if last.Num? then [last.value] else [])
  }

  /** Appending one cell adds its number, if it is one. */
  lemma PresentSnoc(col: seq<Cell>, c: Cell)
    ensures Present(col + [c]) == Present(col) + (if c.Num? then [c.value] else [])
  {
    assert (col + [c])[..|col|] == col;
  }

  function CountMissing(col: seq<Cell>): nat
    decreases |col|
  {
    if |col| == 0 then 0
    else CountMissing(col[..|col| - 1]) + (if col[|col| - 1].Missing? then 1 else 0)
  }

  function Sum(xs: seq<real>): real
    decreases |xs|
  {
    if |xs| == 0 then 0.0 else Sum(xs[..|xs| - 1]) + xs[|xs| - 1]
  }

  lemma SumAppend(xs: seq<real>, ys: seq<real>)
    requires |ys| <= 1
    ensures Sum(xs + ys) == Sum(xs) + Sum(ys)
  {
    if |ys| == 1 {
      assert (xs + ys)[..|xs|] == xs;
      assert ys[..0] == [];
    } else {
      assert xs + ys == xs;
    }
  }

  /** The arithmetic mean of the present values, or `None` when there are none (pandas' NaN). */
  function Mean(col: seq<Cell>): Option<real>
  {
    var p := Present(col);
    if |p| == 0 then None else Some(Sum(p) / (|p| as real))
  }

  /** A missing cell takes the fill value when there is one; every other cell stays. */
  function FillCell(c: Cell, m: Option<real>): Cell
  {
    if c.Missing? && m.Some? then Num(m.value) else c
  }

  function FillColumn(col: seq<Cell>, m: Option<real>): (r: seq<Cell>)
    ensures |r| == |col|
    ensures forall i :: 0 <= i < |col| ==> r[i] == FillCell(col[i], m)
  {
    seq(|col|, i requires 0 <= i < |col| => FillCell(col[i], m))
  }

  /** The value each column is filled with: its mean when it is numeric, nothing otherwise. */
  function FillValue(t: Table, j: nat): Option<real>
    requires WellFormed(t) && j < |t.columns|
  {
    if t.columns[j].numeric then Mean(ColumnCells(t, j)) else None
  }

  /** Missing cells of numeric columns that have a mean become that mean; every other cell,
      the column list and the number and order of rows are untouched. */
  function FillMissingNumeric(t: Table): (r: Table)
    requires WellFormed(t)
    ensures WellFormed(r)
    ensures r.columns == t.columns && |r.rows| == |t.rows|
  {
    var fill := seq(|t.columns|, j requires 0 <= j < |t.columns| => FillValue(t, j));
    t.(rows := seq(|t.rows|, i requires 0 <= i < |t.rows| =>
                 seq(|t.columns|, j requires 0 <= j < |t.columns| => FillCell(t.rows[i][j], fill[j]))))
  }

  /** Cell by cell: a missing cell of a numeric column that has a mean becomes that mean;
      every other cell keeps its value. */
  lemma FillMissingNumericCells(t: Table)
    requires WellFormed(t)
    ensures forall i, j :: 0 <= i < |t.rows| && 0 <= j < |t.columns| ==>
              FillMissingNumeric(t).rows[i][j]
                == (if t.rows[i][j].Missing? && t.columns[j].numeric && Mean(ColumnCells(t, j)).Some?
                    then Num(Mean(ColumnCells(t, j)).value)
                    else t.rows[i][j])
  {
  }

  /** Column `j` of the filled table is column `j` filled with its fill value. */
  lemma FilledColumn(t: Table, j: nat)
    requires WellFormed(t) && j < |t.columns|
    ensures ColumnCells(FillMissingNumeric(t), j) == FillColumn(ColumnCells(t, j), FillValue(t, j))
  {
  }

  /** Filling a column with `v` adds one copy of `v` to its present values per missing cell. */
  lemma {:induction false} FillColumnPresent(col: seq<Cell>, v: real)
    ensures |Present(FillColumn(col, Some(v)))| == |Present(col)| + CountMissing(col)
    ensures Sum(Present(FillColumn(col, Some(v)))) == Sum(Present(col)) + Times(CountMissing(col), v)
    decreases |col|
  {
    if |col| > 0 {
      var n := |col| - 1;
      var init, c := col[..n], col[n];
      FillColumnPresent(init, v);
      var fi, fc := FillColumn(init, Some(v)), FillCell(c, Some(v));
      assert col == init + [c];
      assert FillColumn(col, Some(v)) == fi + [fc];
      PresentSnoc(fi, fc);
      PresentSnoc(init, c);
      var tf := if fc.Num? then [fc.value] else [];
      var tc := if c.Num? then [c.value] else [];
      SumAppend(Present(fi), tf);
      SumAppend(Present(init), tc);
      if c.Missing? {
        assert tf == [v] && tc == [];
      } else {
        assert tf == tc;
      }
    }
  }

  /** `k` copies of `v` added up. */
  function Times(k: nat, v: real): (r: real)
  {
    if k == 0 then 0.0 else Times(k - 1, v) + v
  }

  lemma {:induction false} TimesIsProduct(k: nat, v: real)
    ensures Times(k, v) == k as real * v
  {
    if k > 0 {
      TimesIsProduct(k - 1, v);
      assert k as real * v == (k - 1) as real * v + v;
    }
  }

  /** A column filled with nothing is unchanged. */
  lemma FillColumnNone(col: seq<Cell>)
    ensures FillColumn(col, None) == col
  {
  }

  /** Adding `k` copies of the mean to `n` values leaves the mean as it was. */
  lemma MeanOfExtended(s: real, n: nat, k: nat, m: real)
    requires n > 0 && m == s / n as real
    ensures (s + k as real * m) / (n + k) as real == m
  {
    assert s == m * n as real;
    assert s + k as real * m == m * (n + k) as real;
  }

  /** Filling does not change any column's mean: the values added are the mean itself. */
  lemma FillPreservesMean(t: Table, j: nat)
    requires WellFormed(t) && j < |t.columns|
    ensures Mean(ColumnCells(FillMissingNumeric(t), j)) == Mean(ColumnCells(t, j))
  {
    var col := ColumnCells(t, j);
    FilledColumn(t, j);
    match FillValue(t, j)
    case None =>
      FillColumnNone(col);
    case Some(v) =>
      var p := Present(col);
      FillColumnPresent(col, v);
      var pf := Present(FillColumn(col, Some(v)));
      var sum, n, k := Sum(p), |p|, CountMissing(col);
      assert n > 0 && v == sum / n as real;
      MeanOfExtended(sum, n, k, v);
      TimesIsProduct(k, v);
      assert Sum(pf) == sum + k as real * v && |pf| == n + k;
      assert Sum(pf) / |pf| as real == v;
      assert Mean(FillColumn(col, Some(v))) == Some(v);
  }

  /** Filling twice is filling once. */
  lemma FillIdempotent(t: Table)
    requires WellFormed(t)
    ensures FillMissingNumeric(FillMissingNumeric(t)) == FillMissingNumeric(t)
  {
    var r := FillMissingNumeric(t);
    var rr := FillMissingNumeric(r);
    forall j | 0 <= j < |t.columns| ensures FillValue(r, j) == FillValue(t, j) {
      FillPreservesMean(t, j);
    }
    forall i | 0 <= i < |t.rows| ensures rr.rows[i] == r.rows[i] {
      forall j | 0 <= j < |t.columns| ensures rr.rows[i][j] == r.rows[i][j] {
        assert FillValue(r, j) == FillValue(t, j);
      }
    }
  }

  /** After filling, a numeric column has a missing cell exactly when it has no present value
      at all; such a column is left as it was. */
  lemma FillCompletes(t: Table, j: nat)
    requires WellFormed(t) && j < |t.columns| && t.columns[j].numeric
    ensures Mean(ColumnCells(t, j)).Some? ==> Missing !in ColumnCells(FillMissingNumeric(t), j)
    ensures Mean(ColumnCells(t, j)).None? ==> ColumnCells(FillMissingNumeric(t), j) == ColumnCells(t, j)
  {
    FilledColumn(t, j);
    if Mean(ColumnCells(t, j)).None? {
      FillColumnNone(ColumnCells(t, j));
    }
  }

  lemma PresentOne(x: Cell)
    ensures Present([x]) == if x.Num? then [x.value] else []
  {
    assert [] + [x] == [x];
    PresentSnoc([], x);
  }

  lemma PresentTwo(x: Cell, y: Cell)
    ensures Present([x, y]) == Present([x]) + (if y.Num? then [y.value] else [])
  {
    assert [x] + [y] == [x, y];
    PresentSnoc([x], y);
  }

  lemma PresentThree(x: Cell, y: Cell, z: Cell)
    ensures Present([x, y, z]) == Present([x, y]) + (if z.Num? then [z.value] else [])
  {
    assert [x, y] + [z] == [x, y, z];
    PresentSnoc([x, y], z);
  }

  lemma PresentFour(w: Cell, x: Cell, y: Cell, z: Cell)
    ensures Present([w, x, y, z]) == Present([w, x, y]) + (if z.Num? then [z.value] else [])
  {
    assert [w, x, y] + [z] == [w, x, y, z];
    PresentSnoc([w, x, y], z);
  }

  lemma SumTwo(a: real, b: real)
    ensures Sum([a, b]) == a + b
  {
    assert [a, b][..1] == [a] && [a][..0] == [];
    assert Sum([a]) == a;
  }

  lemma SumThree(a: real, b: real, c: real)
    ensures Sum([a, b, c]) == a + b + c
  {
    assert [a, b, c][..2] == [a, b];
    SumTwo(a, b);
  }

  /** The mean of `a`, missing, `b` is the mean of `a` and `b`. */
  lemma MeanGap(a: real, b: real)
    ensures Mean([Num(a), Missing, Num(b)]) == Some((a + b) / 2.0)
  {
    PresentOne(Num(a));
    PresentTwo(Num(a), Missing);
    PresentThree(Num(a), Missing, Num(b));
    assert Present([Num(a), Missing, Num(b)]) == [a, b];
    SumTwo(a, b);
  }

  /** A numeric column reading `a`, missing, `b` (2, missing, 4, say) has its gap filled with
      the mean of `a` and `b` (3), and its other cells kept. */
  lemma FillGap(name: string, a: real, b: real)
    ensures FillMissingNumeric(Table([Column(name, true)], [[Num(a)], [Missing], [Num(b)]])).rows
         == [[Num(a)], [Num((a + b) / 2.0)], [Num(b)]]
  {
    var t := Table([Column(name, true)], [[Num(a)], [Missing], [Num(b)]]);
    assert ColumnCells(t, 0) == [Num(a), Missing, Num(b)];
    MeanGap(a, b);
    FillMissingNumericCells(t);
    var r := FillMissingNumeric(t);
    assert r.rows[0] == [Num(a)] && r.rows[1] == [Num((a + b) / 2.0)] && r.rows[2] == [Num(b)];
  }

  /** A numeric column with no present value stays missing. */
  lemma FillAllMissingExample()
    ensures FillMissingNumeric(Table([Column("x", true)], [[Missing], [Missing]])).rows
         == [[Missing], [Missing]]
  {
    var t := Table([Column("x", true)], [[Missing], [Missing]]);
    var col := ColumnCells(t, 0);
    assert col == [Missing, Missing] && col[..1] == [Missing] && col[..1][..0] == [];
    assert Present(col[..1]) == [];
    assert Present(col) == [];
    var r := FillMissingNumeric(t);
    assert r.rows[0] == [Missing] && r.rows[1] == [Missing];
  }
}
