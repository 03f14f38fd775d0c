/** The in-memory table a reader produces: named, kind-tagged columns and rows of cells in
    column order, in which absence is represented by a `Missing` cell. */
module Tables {

  /** A cell: missing, a number (exact, in place of a float), or any other value by its text. */
  datatype Cell = Missing | Num(value: real) | Str(text: string)

  /** A column's name and whether its element kind is numeric. */
  datatype Column = Column(name: string, numeric: bool)

  type Row = seq<Cell>

  datatype Table = Table(columns: seq<Column>, rows: seq<Row>)

  /** Every row has one cell per column, and a numeric column holds only numbers or missing cells. */
  predicate WellFormed(t: Table)
  {
    && (forall i :: 0 <= i < |t.rows| ==> |t.rows[i]| == |t.columns|)
    && (forall i, j :: 0 <= i < |t.rows| && 0 <= j < |t.columns| && t.columns[j].numeric ==>
          !t.rows[i][j].Str?)
  }

  /** The column names, in column order. */
  function Names(t: Table): (ns: seq<string>)
    ensures |ns| == |t.columns|
    ensures forall j :: 0 <= j < |t.columns| ==> ns[j] == t.columns[j].name
  {
    seq(|t.columns|, j requires 0 <= j < |t.columns| => t.columns[j].name)
  }

  /** No two columns share a name, as the readers guarantee. */
  predicate DistinctNames(t: Table)
  {
    forall j, k :: 0 <= j < k < |t.columns| ==> t.columns[j].name != t.columns[k].name
  }

  /** The number of rows a preview shows (`head()` with its default). */
  const PreviewRows: nat := 5

  /** The first `min(n, row count)` rows, in order, under the same columns. */
  function Head(t: Table, n: nat): (h: Table)
    ensures h.columns == t.columns
    ensures |h.rows| == if |t.rows| < n then |t.rows| else n
    ensures forall i :: 0 <= i < |h.rows| ==> h.rows[i] == t.rows[i]
  {
    t.(rows := if |t.rows| < n then t.rows else t.rows[..n])
  }

  /** The preview keeps the table well formed, and a table with at most `n` rows is its own preview. */
  lemma HeadProperties(t: Table, n: nat)
    requires WellFormed(t)
    ensures WellFormed(Head(t, n))
    ensures |t.rows| <= n ==> Head(t, n) == t
    ensures t.rows == Head(t, n).rows + t.rows[|Head(t, n).rows|..]
  {
  }
}
