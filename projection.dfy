/** Column selection `df[columns]`: the result has exactly the selected columns, in the order
    of the selection, with every row kept in place; naming a column the table does not have
    is a `KeyError`. */
module Projection {
  import opened Results
  import opened Tables

  datatype ProjectionError = KeyError(missing: seq<string>)

  /** Position of the first column named `x`. */
  function IndexOf(names: seq<string>, x: string): (k: nat)
    requires x in names
    ensures k < |names| && names[k] == x
    ensures forall j :: 0 <= j < k ==> names[j] != x
    decreases |names|
  {
    if names[0] == x then 0 else 1 + IndexOf(names[1..], x)
  }

  /** The selected names that are not column names, in selection order. */
  function Unknown(names: seq<string>, sel: seq<string>): seq<string>
    decreases |sel|
  {
    if sel == [] then []
    else (if sel[0] in names then [] else [sel[0]]) + Unknown(names, sel[1..])
  }

  /** `Unknown` lists exactly the selected names missing from `names`. */
  lemma {:induction false} UnknownSpec(names: seq<string>, sel: seq<string>)
    ensures forall x :: x in Unknown(names, sel) <==> x in sel && x !in names
    decreases |sel|
  {
    if sel != [] {
      UnknownSpec(names, sel[1..]);
      assert sel == [sel[0]] + sel[1..];
    }
  }

  /** Nothing is unknown when every selected name is a column name. */
  lemma {:induction false} UnknownEmpty(names: seq<string>, sel: seq<string>)
    requires forall x :: x in sel ==> x in names
    ensures Unknown(names, sel) == []
    decreases |sel|
  {
    if sel != [] {
      assert sel[0] in sel;
      assert forall x :: x in sel[1..] ==> x in sel;
      UnknownEmpty(names, sel[1..]);
    }
  }

  /** The table restricted to the selected columns. */
  function Select(t: Table, sel: seq<string>): (r: Table)
    requires WellFormed(t)
    requires forall x :: x in sel ==> x in Names(t)
    ensures WellFormed(r)
    ensures Names(r) == sel && |r.rows| == |t.rows|
  {
    var names := Names(t);
    var idx := seq(|sel|, k requires 0 <= k < |sel| => IndexOf(names, sel[k]));
    Table(seq(|sel|, k requires 0 <= k < |sel| => t.columns[idx[k]]),
          seq(|t.rows|, i requires 0 <= i < |t.rows| =>
            seq(|sel|, k requires 0 <= k < |sel| => t.rows[i][idx[k]])))
  }

  /** `df[sel]`: a `KeyError` listing the unknown names when there are any, otherwise the selection. */
  function Project(t: Table, sel: seq<string>): Result<Table, ProjectionError>
    requires WellFormed(t)
  {
    var u := Unknown(Names(t), sel);
    if u != [] then Err(KeyError(u))
    else
      UnknownSpec(Names(t), sel);
      Ok(Select(t, sel))
  }

  /** Each column and each cell of a selection is the one of the first column so named. */
  lemma SelectSpec(t: Table, sel: seq<string>)
    requires WellFormed(t)
    requires forall x :: x in sel ==> x in Names(t)
    ensures forall k :: 0 <= k < |sel| ==>
              Select(t, sel).columns[k] == t.columns[IndexOf(Names(t), sel[k])]
    ensures forall i, k :: 0 <= i < |t.rows| && 0 <= k < |sel| ==>
              Select(t, sel).rows[i][k] == t.rows[i][IndexOf(Names(t), sel[k])]
  {
  }

  /** The selection fails exactly when it names a column the table does not have, and the
      error lists exactly those names. */
  lemma ProjectFails(t: Table, sel: seq<string>)
    requires WellFormed(t)
    ensures Project(t, sel).Err? <==> exists x :: x in sel && x !in Names(t)
    ensures Project(t, sel).Err? ==>
              && Project(t, sel).error.missing != []
              && forall x :: x in Project(t, sel).error.missing <==> x in sel && x !in Names(t)
  {
    var u := Unknown(Names(t), sel);
    UnknownSpec(Names(t), sel);
    if u != [] {
      assert u[0] in u;
    }
  }

  /** In a table with distinct names, the first column named after column `j` is `j` itself. */
  lemma IndexOfDistinct(t: Table, j: nat)
    requires DistinctNames(t) && j < |t.columns|
    ensures IndexOf(Names(t), t.columns[j].name) == j
  {
  }

  /** A selection of known names succeeds with the selected table. */
  lemma ProjectKnown(t: Table, sel: seq<string>)
    requires WellFormed(t)
    requires forall x :: x in sel ==> x in Names(t)
    ensures Project(t, sel) == Ok(Select(t, sel))
  {
    UnknownEmpty(Names(t), sel);
  }

  /** The default selection, every column in table order, returns the table unchanged. */
  lemma ProjectAllColumns(t: Table)
    requires WellFormed(t) && DistinctNames(t)
    ensures Project(t, Names(t)) == Ok(t)
  {
    var names := Names(t);
    ProjectKnown(t, names);
    SelectSpec(t, names);
    var r := Select(t, names);
    forall k | 0 <= k < |t.columns| ensures IndexOf(names, names[k]) == k {
      IndexOfDistinct(t, k);
    }
    assert r.columns == t.columns;
    forall i | 0 <= i < |t.rows| ensures r.rows[i] == t.rows[i] {
      forall k | 0 <= k < |t.columns| ensures r.rows[i][k] == t.rows[i][k] {
      }
    }
    assert r.rows == t.rows;
    assert r == t;
  }

  lemma SelectTwiceColumns(t: Table, a: seq<string>, b: seq<string>)
    requires WellFormed(t)
    requires forall x :: x in a ==> x in Names(t)
    requires forall x :: x in b ==> x in a
    ensures Select(Select(t, a), b).columns == Select(t, b).columns
  {
    var names, ta := Names(t), Select(t, a);
    SelectSpec(t, a);
    SelectSpec(ta, b);
    SelectSpec(t, b);
    forall k | 0 <= k < |b| ensures Select(ta, b).columns[k] == Select(t, b).columns[k] {
      var p := IndexOf(a, b[k]);
      assert ta.columns[p] == t.columns[IndexOf(names, a[p])];
    }
  }

  lemma SelectTwiceRows(t: Table, a: seq<string>, b: seq<string>)
    requires WellFormed(t)
    requires forall x :: x in a ==> x in Names(t)
    requires forall x :: x in b ==> x in a
    ensures Select(Select(t, a), b).rows == Select(t, b).rows
  {
    var names, ta := Names(t), Select(t, a);
    SelectSpec(t, a);
    SelectSpec(ta, b);
    SelectSpec(t, b);
    var l, r := Select(ta, b), Select(t, b);
    forall i | 0 <= i < |t.rows| ensures l.rows[i] == r.rows[i] {
      forall k | 0 <= k < |b| ensures l.rows[i][k] == r.rows[i][k] {
        var p := IndexOf(a, b[k]);
        assert ta.rows[i][p] == t.rows[i][IndexOf(names, a[p])];
      }
    }
  }

  /** Selecting `b` out of a selection `a` that names every column of `b` is selecting `b`
      directly, so a narrower selection never depends on the wider one before it. */
  lemma ProjectTwice(t: Table, a: seq<string>, b: seq<string>)
    requires WellFormed(t)
    requires Project(t, a).Ok?
    requires forall x :: x in b ==> x in a
    ensures Project(Project(t, a).value, b) == Project(t, b)
  {
    ProjectFails(t, a);
    ProjectKnown(t, a);
    ProjectKnown(Select(t, a), b);
    ProjectKnown(t, b);
    SelectTwiceColumns(t, a, b);
    SelectTwiceRows(t, a, b);
  }
}
