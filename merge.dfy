/** crawler/merge.py: read the tables named on the command line, stack
    their rows in argument order, drop the first column (the index column
    the crawler wrote), and put the rows in a random order under a fresh
    0..n-1 index. */
module Merge {
  import opened Wrappers

  type Row = seq<string>

  /** A data frame: column labels, row index labels, and one row of cells
      per index label. */
  datatype Frame = Frame(columns: seq<string>, index: seq<int>, rows: seq<Row>)

  /** Every row has one cell per column and one index label. */
  predicate WellFormed(f: Frame) {
    |f.index| == |f.rows| && forall i :: 0 <= i < |f.rows| ==> |f.rows[i]| == |f.columns|
  }

  type Table = f: Frame | WellFormed(f) witness Frame([], [], [])

  /** Where lines 13-14 raise: `pd.concat([])` (no input file), inputs
      whose columns differ (pandas would align them by label, which this
      model does not do), and `columns[0]` of a frame without columns. */
  datatype MergeError = NoObjectsToConcatenate | ColumnsDiffer | NoColumnToDrop

  /** Lines 8-11: one table per argument from the second on, in order; the
      program name is never read. */
  method CollectFrames(argv: seq<string>, readCsv: string -> Table) returns (frames: seq<Table>)
    ensures |frames| == if |argv| <= 1 then 0 else |argv| - 1
    ensures forall i :: 0 <= i < |frames| ==> frames[i] == readCsv(argv[i + 1])
  {
    frames := [];
    var index := 1;
    while index < |argv|
      invariant 1 <= index && |frames| == index - 1
      invariant index <= |argv| || index == 1
      invariant forall i :: 0 <= i < |frames| ==> frames[i] == readCsv(argv[i + 1])
    {
      var dataframe := readCsv(argv[index]);
      frames := frames + [dataframe];
      index := index + 1;
    }
  }

  /** The index labels 0, 1, ..., n-1. */
  function RangeIndex(n: nat): (r: seq<int>)
    ensures |r| == n && forall i :: 0 <= i < n ==> r[i] == i
  {
    seq(n, i => i)
  }

  /** The number of rows over all frames. */
  function TotalRows(frames: seq<Table>): nat {
    if frames == [] then 0 else |frames[0].rows| + TotalRows(frames[1..])
  }

  /** The rows of all frames, frame after frame. */
  function ConcatRows(frames: seq<Table>): (r: seq<Row>)
    ensures |r| == TotalRows(frames)
  {
    if frames == [] then [] else frames[0].rows + ConcatRows(frames[1..])
  }

  /** Frames of one width concatenate to rows of that width. */
  lemma {:induction false} ConcatRowsWidth(frames: seq<Table>, width: nat)
    requires forall k :: 0 <= k < |frames| ==> |frames[k].columns| == width
    ensures forall i :: 0 <= i < |ConcatRows(frames)| ==> |ConcatRows(frames)[i]| == width
  {
    if frames != [] {
      ConcatRowsWidth(frames[1..], width);
    }
  }

  /** Row `i` of frame `k` sits after the rows of the frames before it. */
  lemma {:induction false} ConcatRowsAt(frames: seq<Table>, k: nat, i: nat)
    requires k < |frames| && i < |frames[k].rows|
    ensures TotalRows(frames[..k]) + i < |ConcatRows(frames)|
    ensures ConcatRows(frames)[TotalRows(frames[..k]) + i] == frames[k].rows[i]
  {
    if k > 0 {
      ConcatRowsAt(frames[1..], k - 1, i);
      assert frames[1..][..k - 1] == frames[..k][1..];
      assert frames[..k][0] == frames[0];
    }
  }

  /** All frames have the columns of the first. */
  predicate SameColumns(frames: seq<Table>) {
    forall k :: 0 <= k < |frames| ==> frames[k].columns == frames[0].columns
  }

  /** Line 13: `pd.concat(frames, ignore_index=True)`. */
  function Concat(frames: seq<Table>): (r: Result<Table, MergeError>)
    ensures r.Ok? <==> frames != [] && SameColumns(frames)
    ensures r.Ok? ==> r.value.columns == frames[0].columns
    ensures r.Ok? ==> r.value.rows == ConcatRows(frames) && r.value.index == RangeIndex(TotalRows(frames))
  {
    if frames == [] then Err(NoObjectsToConcatenate)
    else if !SameColumns(frames) then Err(ColumnsDiffer)
    else
      var rows := ConcatRows(frames);
      ConcatRowsWidth(frames, |frames[0].columns|);
      Ok(Frame(frames[0].columns, RangeIndex(|rows|), rows))
  }

  /** Every row without its first cell (an empty row stays empty). */
  function DropFirstCells(rows: seq<Row>): (r: seq<Row>)
    ensures |r| == |rows|
    ensures forall i :: 0 <= i < |rows| && |rows[i]| > 0 ==> [rows[i][0]] + r[i] == rows[i]
  {
    seq(|rows|, i requires 0 <= i < |rows| => if rows[i] == [] then [] else rows[i][1..])
  }

  /** Line 14: drop the first column; a frame without columns has no
      `columns[0]`. */
  function DropFirstColumn(f: Table): (r: Result<Table, MergeError>)
    ensures r.Err? <==> f.columns == []
    ensures r.Ok? ==> [f.columns[0]] + r.value.columns == f.columns
    ensures r.Ok? ==> r.value.index == f.index && |r.value.rows| == |f.rows|
    ensures r.Ok? ==> forall i :: 0 <= i < |f.rows| ==> [f.rows[i][0]] + r.value.rows[i] == f.rows[i]
  {
    if f.columns == [] then Err(NoColumnToDrop)
    else Ok(Frame(f.columns[1..], f.index, DropFirstCells(f.rows)))
  }

  /** `order` lists every position below `n` exactly once. */
  ghost predicate IsPermutation(order: seq<nat>, n: nat) {
    && |order| == n
    && (forall i :: 0 <= i < n ==> order[i] < n)
    && (forall i, j :: 0 <= i < j < n ==> order[i] != order[j])
    && (forall k :: 0 <= k < n ==> k in order)
  }

  /** The elements of `s` in the order `order` gives. */
  function Permute<T>(s: seq<T>, order: seq<nat>): (r: seq<T>)
    requires forall i :: 0 <= i < |order| ==> order[i] < |s|
    ensures |r| == |order| && forall i :: 0 <= i < |order| ==> r[i] == s[order[i]]
  {
    seq(|order|, i requires 0 <= i < |order| => s[order[i]])
  }

  /** Taking the elements in the order of a permutation keeps every
      element as often as it was: nothing dropped, nothing duplicated. */
  lemma {:induction false} PermuteKeepsMultiset<T>(s: seq<T>, order: seq<nat>)
    requires IsPermutation(order, |s|)
    ensures multiset(Permute(s, order)) == multiset(s)
    decreases |s|
  {
    var n := |s|;
    if n > 0 {
      var j := LargestAt(order, n);
      var rest := order[..j] + order[j + 1..];
      RemoveLargest(order, n, j);
      var init := s[..n - 1];
      PermuteKeepsMultiset(init, rest);
      PermuteSplit(s, order, j);
      LastApart(s);
    }
  }

  /** Position n-1 has a place in a permutation of the positions below n. */
  lemma LargestAt(order: seq<nat>, n: nat) returns (j: nat)
    requires IsPermutation(order, n) && n > 0
    ensures j < n && order[j] == n - 1
  {
    assert n - 1 in order;
    j :| 0 <= j < |order| && order[j] == n - 1;
  }

  /** A non-empty sequence is its front and its last element. */
  lemma LastApart<T>(s: seq<T>)
    requires |s| > 0
    ensures multiset(s) == multiset(s[..|s| - 1]) + multiset([s[|s| - 1]])
  {
    assert s == s[..|s| - 1] + [s[|s| - 1]];
  }

  /** Taking the largest position out of a permutation leaves a
      permutation of the smaller positions. */
  lemma RemoveLargest(order: seq<nat>, n: nat, j: nat)
    requires IsPermutation(order, n) && j < n && order[j] == n - 1
    ensures IsPermutation(order[..j] + order[j + 1..], n - 1)
    ensures forall i :: 0 <= i < n && i != j ==> order[i] < n - 1
  {
    forall i | 0 <= i < n && i != j ensures order[i] < n - 1 {
      if i < j { assert order[i] != order[j]; } else { assert order[j] != order[i]; }
    }
    var rest := order[..j] + order[j + 1..];
    assert forall i :: 0 <= i < n - 1 ==> rest[i] == if i < j then order[i] else order[i + 1];
    forall i | 0 <= i < n - 1 ensures rest[i] < n - 1 {
      var m := if i < j then i else i + 1;
      assert rest[i] == order[m] && m != j;
    }
    forall i, i' | 0 <= i < i' < n - 1 ensures rest[i] != rest[i'] {
      var m := if i < j then i else i + 1;
      var m' := if i' < j then i' else i' + 1;
      assert m < m';
    }
    forall k | 0 <= k < n - 1 ensures k in rest {
      assert k in order;
      var m :| 0 <= m < n && order[m] == k;
      if m < j {
        assert rest[m] == k;
      } else {
        assert rest[m - 1] == k;
      }
    }
  }

  /** Permuting `s` puts its last element at position `j` and the rest of
      `s` around it, in the order of the shortened permutation. */
  lemma PermuteSplit<T>(s: seq<T>, order: seq<nat>, j: nat)
    requires |s| > 0 && j < |order|
    requires forall i :: 0 <= i < |order| ==> order[i] < |s|
    requires order[j] == |s| - 1
    requires forall i :: 0 <= i < |order| && i != j ==> order[i] < |s| - 1
    ensures multiset(Permute(s, order)) ==
      multiset(Permute(s[..|s| - 1], order[..j] + order[j + 1..])) + multiset([s[|s| - 1]])
  {
    var out := Permute(s, order);
    var shorter := Permute(s[..|s| - 1], order[..j] + order[j + 1..]);
    assert out == out[..j] + [s[|s| - 1]] + out[j + 1..];
    assert shorter == out[..j] + out[j + 1..];
  }

  /** Line 15, `sample(frac=1)`: the rows, with their index labels, in the
      order of a permutation the random generator picks. */
  function Sample(f: Table, order: seq<nat>): (r: Table)
    requires IsPermutation(order, |f.rows|)
    ensures r.columns == f.columns && |r.rows| == |f.rows|
    ensures multiset(r.rows) == multiset(f.rows)
  {
    PermuteKeepsMultiset(f.rows, order);
    Frame(f.columns, Permute(f.index, order), Permute(f.rows, order))
  }

  /** Line 15, `reset_index(drop=True)`: the rows renumbered 0..n-1. */
  function ResetIndex(f: Table): (r: Table)
    ensures r.columns == f.columns && r.rows == f.rows
    ensures forall i :: 0 <= i < |r.index| ==> r.index[i] == i
  {
    Frame(f.columns, RangeIndex(|f.rows|), f.rows)
  }

  /** Lines 13-15: concatenate, drop the first column, shuffle, renumber. */
  function MergeFrames(frames: seq<Table>, order: seq<nat>): (r: Result<Table, MergeError>)
    requires IsPermutation(order, TotalRows(frames))
    ensures r.Ok? ==> |r.value.rows| == TotalRows(frames) && r.value.index == RangeIndex(TotalRows(frames))
    ensures frames == [] ==> r == Err(NoObjectsToConcatenate)
  {
    var merged :- Concat(frames);
    var dropped :- DropFirstColumn(merged);
    Ok(ResetIndex(Sample(dropped, order)))
  }

  /** The merge succeeds exactly when there is an input, all inputs share
      their columns and there is a column to drop; then it holds every
      input row without its first cell, each exactly once, in some order,
      numbered 0..n-1, under the remaining columns. */
  lemma MergeFramesSpec(frames: seq<Table>, order: seq<nat>)
    requires IsPermutation(order, TotalRows(frames))
    ensures MergeFrames(frames, order).Ok? <==> frames != [] && SameColumns(frames) && frames[0].columns != []
    ensures MergeFrames(frames, order).Ok? ==>
      var out := MergeFrames(frames, order).value;
      && [frames[0].columns[0]] + out.columns == frames[0].columns
      && |out.rows| == TotalRows(frames)
      && (forall i :: 0 <= i < |out.rows| ==> out.index[i] == i)
      && multiset(out.rows) == multiset(DropFirstCells(ConcatRows(frames)))
  {
    if frames != [] && SameColumns(frames) && frames[0].columns != [] {
      var merged := Concat(frames).value;
      var dropped := DropFirstColumn(merged).value;
      assert dropped.rows == DropFirstCells(ConcatRows(frames));
    }
  }

  /** Two inputs of m and n rows merge into m + n rows: those of the first
      and of the second, without their first cell, each exactly once. */
  lemma MergeTwo(a: Table, b: Table, order: seq<nat>)
    requires a.columns == b.columns && a.columns != []
    requires IsPermutation(order, |a.rows| + |b.rows|)
    ensures TotalRows([a, b]) == |a.rows| + |b.rows|
    ensures MergeFrames([a, b], order).Ok?
    ensures |MergeFrames([a, b], order).value.rows| == |a.rows| + |b.rows|
    ensures multiset(MergeFrames([a, b], order).value.rows) == multiset(DropFirstCells(a.rows) + DropFirstCells(b.rows))
  {
    var frames := [a, b];
    assert frames[1..] == [b] && frames[1..][1..] == [];
    assert ConcatRows(frames) == a.rows + b.rows;
    MergeFramesSpec(frames, order);
    var dropped := DropFirstCells(a.rows + b.rows);
    assert dropped == DropFirstCells(a.rows) + DropFirstCells(b.rows);
  }
}
