/** Removal of duplicate rows (`drop_duplicates`): the first occurrence of every distinct row
    is kept and the kept rows stay in their original order.  Two rows are duplicates when
    they agree cell by cell, a missing cell agreeing with a missing cell. */
module Duplicates {
  import opened Tables

  /** No element occurs twice. */
  predicate NoDuplicates(s: seq<Row>)
  {
    forall i, j :: 0 <= i < j < |s| ==> s[i] != s[j]
  }

  /** `i` is the position of the first occurrence of `s[i]`. */
  predicate IsFirst(s: seq<Row>, i: int)
  {
    0 <= i < |s| && forall j :: 0 <= j < i ==> s[j] != s[i]
  }

  /** `s` without its repeated elements. */
  function Dedup(s: seq<Row>): (r: seq<Row>)
    ensures |r| <= |s|
    decreases |s|
  {
    if |s| == 0 then []
    else
      var init := s[..|s| - 1];
      var last := s[|s| - 1];
      Dedup(init) + (if last in init then [] else [last])
  }

  /** `Dedup` keeps every element of `s` and repeats none. */
  lemma {:induction false} DedupSpec(s: seq<Row>)
    ensures forall x :: x in Dedup(s) <==> x in s
    ensures NoDuplicates(Dedup(s))
    decreases |s|
  {
    if |s| > 0 {
      var init, last := s[..|s| - 1], s[|s| - 1];
      DedupSpec(init);
      assert s == init + [last];
      assert forall x :: x in s <==> x in init || x == last;
    }
  }

  /** Appending one element keeps it exactly when it is new. */
  lemma DedupSnoc(s: seq<Row>, x: Row)
    ensures Dedup(s + [x]) == Dedup(s) + (if x in s then [] else [x])
  {
    assert (s + [x])[..|s|] == s;
  }

  /** The positions `Dedup` keeps, in increasing order. */
  function KeptPositions(s: seq<Row>): (ks: seq<nat>)
    decreases |s|
  {
    if |s| == 0 then []
    else
      var init := s[..|s| - 1];
      KeptPositions(init) + (if s[|s| - 1] in init then [] else [|s| - 1])
  }

  /** `Dedup(s)` is exactly the elements of `s` at first-occurrence positions, in increasing
      order of position: the first occurrence is the one kept, and order is preserved. */
  lemma {:induction false} DedupKeepsFirst(s: seq<Row>)
    ensures |KeptPositions(s)| == |Dedup(s)|
    ensures forall k :: 0 <= k < |Dedup(s)| ==>
              KeptPositions(s)[k] < |s| && Dedup(s)[k] == s[KeptPositions(s)[k]]
    ensures forall k, l :: 0 <= k < l < |Dedup(s)| ==> KeptPositions(s)[k] < KeptPositions(s)[l]
    ensures forall i :: 0 <= i < |s| ==> (i in KeptPositions(s) <==> IsFirst(s, i))
    decreases |s|
  {
    if |s| > 0 {
      var n := |s| - 1;
      var init := s[..n];
      DedupKeepsFirst(init);
      var ks, d := KeptPositions(s), Dedup(s);
      assert ks == KeptPositions(init) + (if s[n] in init then [] else [n]);
      assert d == Dedup(init) + (if s[n] in init then [] else [s[n]]);
      forall i | 0 <= i < |s| ensures i in ks <==> IsFirst(s, i) {
        if i < n {
          assert IsFirst(s, i) <==> IsFirst(init, i);
        } else {
          assert IsFirst(s, n) <==> s[n] !in init by {
            if s[n] in init {
              var j :| 0 <= j < n && init[j] == s[n];
              assert s[j] == s[n];
            }
          }
        }
      }
    }
  }

  /** A sequence without repetitions is left unchanged. */
  lemma {:induction false} DedupOfDistinct(s: seq<Row>)
    requires NoDuplicates(s)
    ensures Dedup(s) == s
    decreases |s|
  {
    if |s| > 0 {
      var init := s[..|s| - 1];
      DedupOfDistinct(init);
      assert s[|s| - 1] !in init;
      assert init + [s[|s| - 1]] == s;
    }
  }

  /** Removing duplicates a second time changes nothing. */
  lemma DedupIdempotent(s: seq<Row>)
    ensures Dedup(Dedup(s)) == Dedup(s)
  {
    DedupSpec(s);
    DedupOfDistinct(Dedup(s));
  }

  /** `drop_duplicates` on a table: columns untouched, rows deduplicated. */
  function DropDuplicates(t: Table): (r: Table)
    ensures r.columns == t.columns
    ensures WellFormed(t) ==> WellFormed(r)
  {
    var r := t.(rows := Dedup(t.rows));
    assert WellFormed(t) ==> WellFormed(r) by {
      if WellFormed(t) {
        DedupSpec(t.rows);
        forall i | 0 <= i < |r.rows| ensures r.rows[i] in t.rows {
          assert r.rows[i] in r.rows;
        }
      }
    }
    r
  }

  /** After removal no row is repeated, and the table still holds exactly the rows it had. */
  lemma DropDuplicatesSpec(t: Table)
    ensures NoDuplicates(DropDuplicates(t).rows)
    ensures forall row :: row in t.rows <==> row in DropDuplicates(t).rows
  {
    DedupSpec(t.rows);
  }

  /** A table whose rows are already distinct is left unchanged, so a second removal is a no-op. */
  lemma DropDuplicatesIdempotent(t: Table)
    ensures DropDuplicates(DropDuplicates(t)) == DropDuplicates(t)
  {
    DedupIdempotent(t.rows);
  }

  /** The example of three rows `{a:1,b:2}`, `{a:1,b:2}`, `{a:1,b:3}`: the repeated second row goes. */
  lemma DropDuplicatesExample()
    ensures Dedup([[Num(1.0), Num(2.0)], [Num(1.0), Num(2.0)], [Num(1.0), Num(3.0)]])
         == [[Num(1.0), Num(2.0)], [Num(1.0), Num(3.0)]]
  {
    var a, b := [Num(1.0), Num(2.0)], [Num(1.0), Num(3.0)];
    var s := [a, a, b];
    assert s[..2] == [a, a] && [a, a][..1] == [a];
    assert a != b by { assert a[1] != b[1]; }
  }
}
