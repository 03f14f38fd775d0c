/** The two cleaning steps together, on a one-column table: the order the page applies them
    in (duplicates removed, then missing numeric cells filled) matters, and applying both a
    second time can change the table again. */
module Cleaning {
  import opened Results
  import opened Tables
  import opened Duplicates
  import opened MeanFill

  /** A table of the single numeric column `score`. */
  function Scores(rows: seq<Row>): Table
  {
    Table([Column("score", true)], rows)
  }

  /** The mean of `a`, `a`, missing, `b` counts `a` twice. */
  lemma MeanWithRepeat(a: real, b: real)
    ensures Mean([Num(a), Num(a), Missing, Num(b)]) == Some((a + a + b) / 3.0)
  {
    PresentOne(Num(a));
    PresentTwo(Num(a), Num(a));
    PresentThree(Num(a), Num(a), Missing);
    PresentFour(Num(a), Num(a), Missing, Num(b));
    assert Present([Num(a), Num(a), Missing, Num(b)]) == [a, a, b];
    SumThree(a, a, b);
  }

  /** The mean of missing, `v` is `v`. */
  lemma MeanMissingThen(v: real)
    ensures Mean([Missing, Num(v)]) == Some(v)
  {
    PresentOne(Missing);
    PresentTwo(Missing, Num(v));
    assert Present([Missing, Num(v)]) == [v];
    assert [v][..0] == [];
    assert Sum([v]) == v;
  }

  lemma DedupOne(x: Row)
    ensures Dedup([x]) == [x]
  {
    assert [] + [x] == [x];
    DedupSnoc([], x);
  }

  lemma DedupRepeat(x: Row)
    ensures Dedup([x, x]) == [x]
  {
    DedupOne(x);
    assert [x] + [x] == [x, x];
    DedupSnoc([x], x);
  }

  lemma DedupDistinctPair(a: Cell, b: Cell)
    requires a != b
    ensures Dedup([[a], [b]]) == [[a], [b]]
  {
    DedupOne([a]);
    assert [[a]] + [[b]] == [[a], [b]];
    assert [b] != [a] by { assert [b][0] != [a][0]; }
    DedupSnoc([[a]], [b]);
  }

  lemma DedupRepeatThen(a: Cell, b: Cell)
    requires a != b
    ensures Dedup([[a], [a], [b]]) == [[a], [b]]
  {
    DedupRepeat([a]);
    assert [[a], [a]] + [[b]] == [[a], [a], [b]];
    assert [b] != [a] by { assert [b][0] != [a][0]; }
    DedupSnoc([[a], [a]], [b]);
    assert [[a]] + [[b]] == [[a], [b]];
  }

  /** Rows `a`, `a`, `b`, `c` of distinct cells lose their second `a`. */
  lemma DedupRepeatThenTwo(a: Cell, b: Cell, c: Cell)
    requires a != b && a != c && b != c
    ensures Dedup([[a], [a], [b], [c]]) == [[a], [b], [c]]
  {
    DedupRepeatThen(a, b);
    assert [[a], [a], [b]] + [[c]] == [[a], [a], [b], [c]];
    assert [c] != [a] && [c] != [b] by { assert [c][0] != [a][0] && [c][0] != [b][0]; }
    DedupSnoc([[a], [a], [b]], [c]);
    assert [[a], [b]] + [[c]] == [[a], [b], [c]];
  }

  /** Removing duplicates first, as the page does: `a`, `a`, missing, `b` becomes `a`,
      missing, `b`, whose gap is filled with the mean of `a` and `b`. */
  lemma RemovalFirst(a: real, b: real)
    requires a != b
    ensures FillMissingNumeric(DropDuplicates(Scores([[Num(a)], [Num(a)], [Missing], [Num(b)]]))).rows
         == [[Num(a)], [Num((a + b) / 2.0)], [Num(b)]]
  {
    DedupRepeatThenTwo(Num(a), Missing, Num(b));
    assert DropDuplicates(Scores([[Num(a)], [Num(a)], [Missing], [Num(b)]]))
        == Table([Column("score", true)], [[Num(a)], [Missing], [Num(b)]]);
    FillGap("score", a, b);
  }

  /** Filling `a`, `a`, missing, `b` gives the gap the mean over all four rows. */
  lemma FillWithRepeat(a: real, b: real)
    ensures FillMissingNumeric(Scores([[Num(a)], [Num(a)], [Missing], [Num(b)]])).rows
         == [[Num(a)], [Num(a)], [Num((a + a + b) / 3.0)], [Num(b)]]
  {
    var t := Scores([[Num(a)], [Num(a)], [Missing], [Num(b)]]);
    assert ColumnCells(t, 0) == [Num(a), Num(a), Missing, Num(b)];
    MeanWithRepeat(a, b);
    FillMissingNumericCells(t);
    var f := FillMissingNumeric(t);
    assert f.rows[0] == [Num(a)] && f.rows[1] == [Num(a)];
    assert f.rows[2] == [Num((a + a + b) / 3.0)] && f.rows[3] == [Num(b)];
  }

  /** Filling first: the gap becomes the mean over all four rows, and then one `a` goes. */
  lemma FillFirst(a: real, b: real)
    requires a != b
    ensures DropDuplicates(FillMissingNumeric(Scores([[Num(a)], [Num(a)], [Missing], [Num(b)]]))).rows
         == [[Num(a)], [Num((a + a + b) / 3.0)], [Num(b)]]
  {
    FillWithRepeat(a, b);
    var m := (a + a + b) / 3.0;
    assert m != a && m != b;
    DedupRepeatThenTwo(Num(a), Num(m), Num(b));
  }

  /** Filling missing, `v` gives `v`, `v`. */
  lemma MissingThenFilled(v: real)
    ensures FillMissingNumeric(Scores([[Missing], [Num(v)]])).rows == [[Num(v)], [Num(v)]]
  {
    var t := Scores([[Missing], [Num(v)]]);
    assert ColumnCells(t, 0) == [Missing, Num(v)];
    MeanMissingThen(v);
    FillMissingNumericCells(t);
    var c := FillMissingNumeric(t);
    assert c.rows[0] == [Num(v)] && c.rows[1] == [Num(v)];
  }

  /** A single present cell is left as it is. */
  lemma SinglePresentKept(v: real)
    ensures FillMissingNumeric(Scores([[Num(v)]])).rows == [[Num(v)]]
  {
    var t := Scores([[Num(v)]]);
    FillMissingNumericCells(t);
    assert FillMissingNumeric(t).rows[0] == [Num(v)];
  }

  /** Both steps turn missing, `v` into the two rows `v`, `v`; both steps again leave one row. */
  lemma BothStepsTwice(v: real)
    ensures var once := FillMissingNumeric(DropDuplicates(Scores([[Missing], [Num(v)]])));
            && once.rows == [[Num(v)], [Num(v)]]
            && FillMissingNumeric(DropDuplicates(once)).rows == [[Num(v)]]
  {
    DedupDistinctPair(Missing, Num(v));
    assert DropDuplicates(Scores([[Missing], [Num(v)]])) == Scores([[Missing], [Num(v)]]);
    MissingThenFilled(v);
    var once := FillMissingNumeric(Scores([[Missing], [Num(v)]]));
    assert once == Scores([[Num(v)], [Num(v)]]);
    DedupRepeat([Num(v)]);
    assert DropDuplicates(once) == Scores([[Num(v)]]);
    SinglePresentKept(v);
  }
}
