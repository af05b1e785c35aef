/**
  `clean_columns`: in each named column every cell is read as text and loses
  every 'b' and then every 'p'.
 */
module Clean {
  import opened Text
  import opened Tables

  /** The columns the pipeline cleans: `[str(y) for y in range(2020, 2023)]`. */
  const ColumnsToClean: seq<string> := ["2020", "2021", "2022"]

  /** Strips the markers from column `k` of every row. */
  function CleanColumn(t: Table<string>, k: nat): (r: Table<string>)
    requires t.WellFormed() && k < |t.header|
    ensures r.WellFormed()
    ensures r.header == t.header && |r.rows| == |t.rows|
    ensures forall i, j :: 0 <= i < |t.rows| && 0 <= j < |t.header| && j != k ==>
              r.rows[i][j] == t.rows[i][j]
    ensures forall i :: 0 <= i < |t.rows| ==> r.rows[i][k] == StripMarkers(t.rows[i][k])
  {
    Table(t.header, seq(|t.rows|, i requires 0 <= i < |t.rows| =>
                          t.rows[i][k := StripMarkers(t.rows[i][k])]))
  }

  /** Every named column can be selected as a single column. */
  predicate Selectable(header: seq<string>, columns: seq<string>) {
    forall n :: 0 <= n < |columns| ==> columns[n] in header && !Repeated(header, columns[n])
  }

  /** A cell of column `name` after cleaning `columns`. */
  function CleanedCell(name: string, columns: seq<string>, cell: string): string {
    if name in columns then StripMarkers(cell) else cell
  }

  /** The cleaned table: header and row count as before, markers stripped in
      the named columns, every other column untouched. */
  predicate CleanedFrom(t: Table<string>, columns: seq<string>, r: Table<string>)
    requires t.WellFormed()
  {
    && r.WellFormed()
    && r.header == t.header
    && |r.rows| == |t.rows|
    && forall i, j :: 0 <= i < |t.rows| && 0 <= j < |t.header| ==>
         r.rows[i][j] == CleanedCell(t.header[j], columns, t.rows[i][j])
  }

  /** `clean_columns(df, columns)`: the named columns are cleaned one after
      the other; the first one that cannot be selected aborts the call. */
  function CleanColumns(t: Table<string>, columns: seq<string>): (r: Result<Table<string>>)
    requires t.WellFormed()
    ensures r.Success? ==> r.value.WellFormed() && r.value.header == t.header
    decreases |columns|
  {
    if columns == [] then Success(t)
    else
      var k :- ColumnIndex(t.header, columns[0]);
      CleanColumns(CleanColumn(t, k), columns[1..])
  }

  /** The first named column that cannot be selected, if any, decides the
      error. */
  predicate FailsAt(header: seq<string>, columns: seq<string>, e: Error) {
    exists n :: 0 <= n < |columns| && ColumnIndex(header, columns[n]) == Failure(e)
                && forall m :: 0 <= m < n ==> ColumnIndex(header, columns[m]).Success?
  }

  /** One cell cleaned for column `first`, then for `columns`, is the cell
      cleaned for `[first] + columns`. */
  lemma CleanCellTwice(name: string, first: string, columns: seq<string>, cell: string)
    ensures CleanedCell(name, columns, if name == first then StripMarkers(cell) else cell)
            == CleanedCell(name, [first] + columns, cell)
  {
    assert name in [first] + columns <==> name == first || name in columns;
    StripMarkersIdempotent(cell);
  }

  lemma CleanTwice(t: Table<string>, k: nat, columns: seq<string>, r: Table<string>)
    requires t.WellFormed() && k < |t.header|
    requires forall j :: 0 <= j < |t.header| && t.header[j] == t.header[k] ==> j == k
    requires CleanedFrom(CleanColumn(t, k), columns, r)
    ensures CleanedFrom(t, [t.header[k]] + columns, r)
  {
    var once := CleanColumn(t, k);
    forall i, j | 0 <= i < |t.rows| && 0 <= j < |t.header|
      ensures r.rows[i][j] == CleanedCell(t.header[j], [t.header[k]] + columns, t.rows[i][j])
    {
      assert r.rows[i][j] == CleanedCell(once.header[j], columns, once.rows[i][j]);
      assert once.rows[i][j] == if t.header[j] == t.header[k] then StripMarkers(t.rows[i][j]) else t.rows[i][j];
      CleanCellTwice(t.header[j], t.header[k], columns, t.rows[i][j]);
    }
  }

  /** `clean_columns` succeeds exactly when every named column can be
      selected. */
  lemma {:induction false} CleanColumnsSucceeds(t: Table<string>, columns: seq<string>)
    requires t.WellFormed()
    ensures CleanColumns(t, columns).Success? <==> Selectable(t.header, columns)
    decreases |columns|
  {
    if columns != [] {
      assert forall n :: 1 <= n < |columns| ==> columns[n] == columns[1..][n - 1];
      var head := ColumnIndex(t.header, columns[0]);
      if head.Success? {
        CleanColumnsSucceeds(CleanColumn(t, head.value), columns[1..]);
      }
    }
  }

  /** On failure it reports the first named column that cannot be selected. */
  lemma {:induction false} CleanColumnsError(t: Table<string>, columns: seq<string>)
    requires t.WellFormed()
    ensures CleanColumns(t, columns).Failure? ==> FailsAt(t.header, columns, CleanColumns(t, columns).error)
    decreases |columns|
  {
    if columns != [] {
      var head := ColumnIndex(t.header, columns[0]);
      if head.Failure? {
        assert FailsAt(t.header, columns, head.error);
      } else {
        var once := CleanColumn(t, head.value);
        CleanColumnsError(once, columns[1..]);
        var r := CleanColumns(once, columns[1..]);
        if r.Failure? {
          var n :| 0 <= n < |columns[1..]| && ColumnIndex(t.header, columns[1..][n]) == Failure(r.error)
                   && forall m :: 0 <= m < n ==> ColumnIndex(t.header, columns[1..][m]).Success?;
          assert forall m :: 1 <= m < n + 1 ==> columns[m] == columns[1..][m - 1];
          assert ColumnIndex(t.header, columns[n + 1]) == Failure(r.error);
        }
      }
    }
  }

  /** On success it strips the markers from the named columns and leaves
      the header, the row count and every other column alone. */
  lemma {:induction false} CleanColumnsCells(t: Table<string>, columns: seq<string>)
    requires t.WellFormed() && CleanColumns(t, columns).Success?
    ensures CleanedFrom(t, columns, CleanColumns(t, columns).value)
    decreases |columns|
  {
    if columns == [] {
      assert CleanedFrom(t, columns, t);
    } else {
      var k := ColumnIndex(t.header, columns[0]).value;
      var once := CleanColumn(t, k);
      CleanColumnsCells(once, columns[1..]);
      CleanTwice(t, k, columns[1..], CleanColumns(once, columns[1..]).value);
      assert [columns[0]] + columns[1..] == columns;
    }
  }

  /** Cleaning an already cleaned table again leaves it as it is. */
  lemma CleanedAgain(t: Table<string>, columns: seq<string>, once: Table<string>, twice: Table<string>)
    requires t.WellFormed()
    requires CleanedFrom(t, columns, once) && CleanedFrom(once, columns, twice)
    ensures twice == once
  {
    forall i | 0 <= i < |once.rows|
      ensures twice.rows[i] == once.rows[i]
    {
      forall j | 0 <= j < |once.header|
        ensures twice.rows[i][j] == once.rows[i][j]
      {
        assert once.rows[i][j] == CleanedCell(t.header[j], columns, t.rows[i][j]);
        assert twice.rows[i][j] == CleanedCell(once.header[j], columns, once.rows[i][j]);
        StripMarkersIdempotent(t.rows[i][j]);
      }
    }
  }

  /** A second clean of the same columns changes nothing. */
  lemma CleanColumnsIdempotent(t: Table<string>, columns: seq<string>)
    requires t.WellFormed() && CleanColumns(t, columns).Success?
    ensures CleanColumns(CleanColumns(t, columns).value, columns) == CleanColumns(t, columns)
  {
    CleanColumnsCells(t, columns);
    var once := CleanColumns(t, columns).value;
    CleanColumnsSucceeds(t, columns);
    CleanColumnsSucceeds(once, columns);
    CleanColumnsCells(once, columns);
    CleanedAgain(t, columns, once, CleanColumns(once, columns).value);
  }

  /** Cleaning is a no-op when the named columns hold no marker. */
  lemma CleanColumnsNoMarkers(t: Table<string>, columns: seq<string>)
    requires t.WellFormed() && Selectable(t.header, columns)
    requires forall i, j :: 0 <= i < |t.rows| && 0 <= j < |t.header| && t.header[j] in columns ==>
               HasNoMarker(t.rows[i][j])
    ensures CleanColumns(t, columns) == Success(t)
  {
    CleanColumnsSucceeds(t, columns);
    CleanColumnsCells(t, columns);
    var r := CleanColumns(t, columns).value;
    forall i | 0 <= i < |t.rows|
      ensures r.rows[i] == t.rows[i]
    {
      forall j | 0 <= j < |t.header|
        ensures r.rows[i][j] == t.rows[i][j]
      {
        assert r.rows[i][j] == CleanedCell(t.header[j], columns, t.rows[i][j]);
        if t.header[j] in columns {
          StripMarkersNoMarkers(t.rows[i][j]);
        }
      }
    }
    assert r.rows == t.rows;
  }
}
