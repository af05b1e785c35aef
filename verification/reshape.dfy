/**
  `transpose_and_set_index`: rows and columns swap, the first transposed row
  (the original first column) becomes the header and is dropped, and the old
  column labels become a leading column named `year`.
 */
module Reshape {
  import opened Tables

  const YearLabel: string := "year"

  /** The transposed data row for original column `i`: its label, then the
      cell of column `i` in every original row. */
  function TransposedRow(t: Table<string>, i: nat): seq<string>
    requires t.WellFormed() && i < |t.header|
  {
    [t.header[i]] + Column(t, i)
  }

  /** `transpose_and_set_index(df)`. With no columns there is no first
      transposed row (`iloc[0]` raises); if the first column already holds
      the label `year`, `reset_index` cannot insert the `year` column.
      Otherwise the result has one row per original column after the first. */
  function TransposeAndSetIndex(t: Table<string>): (r: Result<Table<string>>)
    requires t.WellFormed()
    ensures |t.header| == 0 ==> r == Failure(IndexError)
    ensures |t.header| > 0 && YearLabel in Column(t, 0) ==> r == Failure(DuplicateColumn(YearLabel))
    ensures r.Success? <==> |t.header| > 0 && YearLabel !in Column(t, 0)
    ensures r.Success? ==> r.value.WellFormed()
    ensures r.Success? ==> r.value.header == [YearLabel] + Column(t, 0)
    ensures r.Success? ==> |r.value.rows| == |t.header| - 1
    // the `year` column lists the original labels after the first, in order
    ensures r.Success? ==> Column(r.value, 0) == t.header[1..]
    // data column `j + 1` is original row `j` without its first cell
    ensures r.Success? ==> forall i, j :: 0 <= i < |t.header| - 1 && 0 <= j < |t.rows| ==>
              r.value.rows[i][j + 1] == t.rows[j][i + 1]
  {
    if |t.header| == 0 then Failure(IndexError)
    else
      var labels := Column(t, 0);
      if YearLabel in labels then Failure(DuplicateColumn(YearLabel))
      else
        Success(Table([YearLabel] + labels,
                      seq(|t.header| - 1, i requires 0 <= i < |t.header| - 1 => TransposedRow(t, i + 1))))
  }

  /** With no data rows the result keeps only the `year` column. */
  lemma TransposeNoRows(t: Table<string>)
    requires t.WellFormed() && |t.header| > 0 && |t.rows| == 0
    ensures TransposeAndSetIndex(t) ==
            Success(Table([YearLabel], seq(|t.header| - 1, i requires 0 <= i < |t.header| - 1 => [t.header[i + 1]])))
  {
    assert Column(t, 0) == [];
    var r := TransposeAndSetIndex(t).value;
    var expected := seq(|t.header| - 1, i requires 0 <= i < |t.header| - 1 => [t.header[i + 1]]);
    forall i | 0 <= i < |t.header| - 1
      ensures r.rows[i] == expected[i]
    {
      assert Column(t, i + 1) == [];
    }
    assert r == Table([YearLabel], expected);
  }

  /** Reverses the reshape, given the label of the original first column
      (the reshaped table has no place to hold it). */
  function Untranspose(r: Table<string>, firstLabel: string): Table<string>
    requires r.WellFormed() && |r.header| > 0
  {
    Table([firstLabel] + Column(r, 0),
          seq(|r.header| - 1, j requires 0 <= j < |r.header| - 1 => [r.header[j + 1]] + Column(r, j + 1)))
  }

  /** Undoing the reshape with the original first column's label gives back
      the original table: the reshaped table holds every other label and
      every cell. */
  lemma TransposeRoundTrip(t: Table<string>)
    requires t.WellFormed() && TransposeAndSetIndex(t).Success?
    ensures Untranspose(TransposeAndSetIndex(t).value, t.header[0]) == t
  {
    var r := TransposeAndSetIndex(t).value;
    var u := Untranspose(r, t.header[0]);
    assert u.header == t.header;
    assert |u.rows| == |t.rows|;
    forall j | 0 <= j < |t.rows|
      ensures u.rows[j] == t.rows[j]
    {
      assert |u.rows[j]| == |t.rows[j]|;
      forall i | 0 <= i < |t.header|
        ensures u.rows[j][i] == t.rows[j][i]
      {
        if i > 0 {
          assert u.rows[j][i] == Column(r, j + 1)[i - 1] == r.rows[i - 1][j + 1];
        }
      }
    }
  }
}
