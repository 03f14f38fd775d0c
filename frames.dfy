/** The DataFrame `df` of one upload, which the cleaning buttons change in place. */
module Frames {
  import opened Tables
  import Duplicates
  import MeanFill

  class DataFrame {
    var columns: seq<Column>
    var rows: seq<Row>

    ghost predicate Valid()
      reads this
    {
      WellFormed(Table(columns, rows))
    }

    /** The table the frame currently holds. */
    function Value(): (t: Table)
      reads this
      ensures t.columns == columns && t.rows == rows
    {
      Table(columns, rows)
    }

    constructor (t: Table)
      requires WellFormed(t)
      ensures Valid() && Value() == t
    {
      columns := t.columns;
      rows := t.rows;
    }

    /** `df.drop_duplicates(inplace=True)`. */
    method DropDuplicates()
      requires Valid()
      modifies this
      ensures Valid()
      ensures Value() == Duplicates.DropDuplicates(old(Value()))
      ensures columns == old(columns)
    {
      rows := Duplicates.Dedup(rows);
      assert Value() == Duplicates.DropDuplicates(old(Value()));
    }

    /** `df[numeric_cols] = df[numeric_cols].fillna(df[numeric_cols].mean())`. */
    method FillMissingNumeric()
      requires Valid()
      modifies this
      ensures Valid()
      ensures Value() == MeanFill.FillMissingNumeric(old(Value()))
      ensures columns == old(columns) && |rows| == |old(rows)|
    {
      rows := MeanFill.FillMissingNumeric(Value()).rows;
    }
  }
}
