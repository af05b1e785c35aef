/**
  The per-dataset transform chain, as the script runs it between reading a
  table and saving it: fill, normalise the labels, clean the marker columns
  (only the greenhouse-gas table), reshape, filter the years.
 */
module Pipeline {
  import opened Text
  import opened Tables
  import opened Normalize
  import opened Clean
  import opened Reshape
  import opened RangeFilter

  /** The chain for one raw table; `columns` is what `clean_columns` is given
      (`ColumnsToClean` for one dataset, nothing for the others). */
  function Process(raw: Table<Cell>, columns: seq<string>): Result<Table<string>>
    requires raw.WellFormed()
  {
    var named := NormalizeColumns(FillMissing(raw));
    var cleaned :- CleanColumns(named, columns);
    var reshaped :- TransposeAndSetIndex(cleaned);
    FilterYears(reshaped)
  }

  /** A reshaped table always has exactly one `year` column, in front, so
      the filter that follows can select it. */
  lemma YearColumnOfReshaped(t: Table<string>)
    requires t.WellFormed() && TransposeAndSetIndex(t).Success?
    ensures ColumnIndex(TransposeAndSetIndex(t).value.header, YearLabel) == Success(0)
  {
    var h := TransposeAndSetIndex(t).value.header;
    assert h[1..] == Column(t, 0);
  }

  /** Reshaping then filtering yields rows keyed by in-range years, each one
      of the table's column labels after the first. */
  lemma ReshapeThenFilter(t: Table<string>)
    requires t.WellFormed() && TransposeAndSetIndex(t).Success?
    ensures var reshaped := TransposeAndSetIndex(t).value;
            && FilterYears(reshaped).Success?
            && var r := FilterYears(reshaped).value;
               && r.header == reshaped.header
               && forall i :: 0 <= i < |r.rows| ==> InRange(r.rows[i][0]) && r.rows[i][0] in t.header[1..]
  {
    var reshaped := TransposeAndSetIndex(t).value;
    YearColumnOfReshaped(t);
    var r := FilterYears(reshaped).value;
    assert r.rows == FilterRows(reshaped.rows, 0);
    forall i | 0 <= i < |r.rows|
      ensures r.rows[i][0] in t.header[1..]
    {
      var m :| 0 <= m < |reshaped.rows| && reshaped.rows[m] == r.rows[i];
      assert reshaped.rows[m][0] == Column(reshaped, 0)[m] == t.header[1..][m];
    }
  }

  /** After a successful run the first column is `year`, and every row's
      year is in range and is one of the dataset's normalised column labels
      after the first. */
  lemma ProcessYears(raw: Table<Cell>, columns: seq<string>)
    requires raw.WellFormed()
    ensures Process(raw, columns).Success? ==>
            var r := Process(raw, columns).value;
            && r.WellFormed()
            && |r.header| > 0 && r.header[0] == YearLabel
            && forall i :: 0 <= i < |r.rows| ==>
                 InRange(r.rows[i][0]) && r.rows[i][0] in NormalizeHeader(raw.header)[1..]
  {
    if Process(raw, columns).Success? {
      var named := NormalizeColumns(FillMissing(raw));
      CleanColumnsCells(named, columns);
      var cleaned := CleanColumns(named, columns).value;
      ReshapeThenFilter(cleaned);
    }
  }

  /** If the normalised column labels are distinct, a run keeps at most
      nine rows, one per year of the range. */
  lemma ProcessAtMostNine(raw: Table<Cell>, columns: seq<string>)
    requires raw.WellFormed()
    requires forall a, b :: 0 <= a < b < |raw.header| ==>
               NormalizeName(raw.header[a]) != NormalizeName(raw.header[b])
    ensures Process(raw, columns).Success? ==> |Process(raw, columns).value.rows| <= 9
  {
    if Process(raw, columns).Success? {
      var named := NormalizeColumns(FillMissing(raw));
      CleanColumnsCells(named, columns);
      var cleaned := CleanColumns(named, columns).value;
      var reshaped := TransposeAndSetIndex(cleaned).value;
      YearColumnOfReshaped(cleaned);
      assert Column(reshaped, 0) == cleaned.header[1..];
      assert DistinctKeys(reshaped.rows, 0) by {
        forall a, b | 0 <= a < b < |reshaped.rows|
          ensures reshaped.rows[a][0] != reshaped.rows[b][0]
        {
          assert reshaped.rows[a][0] == Column(reshaped, 0)[a] == NormalizeName(raw.header[a + 1]);
          assert reshaped.rows[b][0] == Column(reshaped, 0)[b] == NormalizeName(raw.header[b + 1]);
        }
      }
      FilterYearsAtMostNine(reshaped);
    }
  }

  /** A year row of a reshaped table whose label was a cleaned column holds
      no marker in any of its data cells. */
  lemma CleanedYearRow(t: Table<string>, columns: seq<string>, m: nat)
    requires t.WellFormed() && CleanColumns(t, columns).Success?
    requires TransposeAndSetIndex(CleanColumns(t, columns).value).Success?
    requires m < |TransposeAndSetIndex(CleanColumns(t, columns).value).value.rows|
    ensures var row := TransposeAndSetIndex(CleanColumns(t, columns).value).value.rows[m];
            row[0] in columns ==> forall j :: 1 <= j < |row| ==> HasNoMarker(row[j])
  {
    var cleaned := CleanColumns(t, columns).value;
    CleanColumnsCells(t, columns);
    var reshaped := TransposeAndSetIndex(cleaned).value;
    var row := reshaped.rows[m];
    assert row[0] == Column(reshaped, 0)[m] == cleaned.header[m + 1];
    if row[0] in columns {
      forall j | 1 <= j < |row|
        ensures HasNoMarker(row[j])
      {
        assert row[j] == cleaned.rows[j - 1][m + 1];
        assert cleaned.rows[j - 1][m + 1] == CleanedCell(t.header[m + 1], columns, t.rows[j - 1][m + 1]);
      }
    }
  }

  /** Cleaning, reshaping and filtering: every kept row for a cleaned year
      holds no marker. */
  lemma CleanedYearsFiltered(t: Table<string>, columns: seq<string>)
    requires t.WellFormed() && CleanColumns(t, columns).Success?
    requires TransposeAndSetIndex(CleanColumns(t, columns).value).Success?
    ensures var reshaped := TransposeAndSetIndex(CleanColumns(t, columns).value).value;
            && FilterYears(reshaped).Success?
            && var r := FilterYears(reshaped).value;
               forall i, j :: 0 <= i < |r.rows| && r.rows[i][0] in columns && 1 <= j < |r.rows[i]| ==>
                 HasNoMarker(r.rows[i][j])
  {
    var cleaned := CleanColumns(t, columns).value;
    var reshaped := TransposeAndSetIndex(cleaned).value;
    YearColumnOfReshaped(cleaned);
    var r := FilterYears(reshaped).value;
    assert r.rows == FilterRows(reshaped.rows, 0);
    forall i | 0 <= i < |r.rows| && r.rows[i][0] in columns
      ensures forall j :: 1 <= j < |r.rows[i]| ==> HasNoMarker(r.rows[i][j])
    {
      var m :| 0 <= m < |reshaped.rows| && reshaped.rows[m] == r.rows[i];
      CleanedYearRow(t, columns, m);
    }
  }

  /** After a run, every kept row for a year whose column was cleaned holds
      no marker: the markers were stripped before the years became rows. */
  lemma ProcessCleansYears(raw: Table<Cell>, columns: seq<string>)
    requires raw.WellFormed()
    ensures Process(raw, columns).Success? ==>
            var r := Process(raw, columns).value;
            forall i, j :: 0 <= i < |r.rows| && r.rows[i][0] in columns && 1 <= j < |r.rows[i]| ==>
              HasNoMarker(r.rows[i][j])
  {
    if Process(raw, columns).Success? {
      CleanedYearsFiltered(NormalizeColumns(FillMissing(raw)), columns);
    }
  }

  /** The greenhouse-gas run, which cleans the 2020-2022 columns: its rows
      for those years carry no 'b' or 'p' marker. */
  lemma GreenhouseGasYearsClean(raw: Table<Cell>)
    requires raw.WellFormed()
    ensures Process(raw, ColumnsToClean).Success? ==>
            var r := Process(raw, ColumnsToClean).value;
            forall i, j :: 0 <= i < |r.rows| && r.rows[i][0] in ColumnsToClean && 1 <= j < |r.rows[i]| ==>
              HasNoMarker(r.rows[i][j])
  {
    ProcessCleansYears(raw, ColumnsToClean);
  }
}
