/**
  The year-range filter: `df[df['year'].isin(years_range)]` with
  `years_range = [str(y) for y in range(2014, 2023)]`.
 */
module RangeFilter {
  import opened Tables
  import Reshape

  const YearsRange: seq<string> :=
    ["2014", "2015", "2016", "2017", "2018", "2019", "2020", "2021", "2022"]

  predicate InRange(y: string) {
    y in YearsRange
  }

  /** Every row has a cell at position `k`. */
  predicate HasColumn(rows: seq<seq<string>>, k: nat) {
    forall i :: 0 <= i < |rows| ==> k < |rows[i]|
  }

  /** The rows whose cell `k` is in range, in their input order. */
  function FilterRows(rows: seq<seq<string>>, k: nat): (r: seq<seq<string>>)
    requires HasColumn(rows, k)
    ensures |r| <= |rows|
    ensures HasColumn(r, k)
    ensures forall n :: 0 <= n < |r| ==> InRange(r[n][k]) && r[n] in rows
    ensures forall i :: 0 <= i < |rows| && InRange(rows[i][k]) ==> rows[i] in r
    ensures (forall i :: 0 <= i < |rows| ==> !InRange(rows[i][k])) ==> r == []
  {
    if rows == [] then []
    else
      var rest := FilterRows(rows[1..], k);
      assert forall i :: 1 <= i < |rows| ==> rows[i] == rows[1..][i - 1];
      if InRange(rows[0][k]) then [rows[0]] + rest else rest
  }

  /** Filtering respects concatenation, so the kept rows keep their
      relative order. */
  lemma {:induction false} FilterRowsAppend(a: seq<seq<string>>, b: seq<seq<string>>, k: nat)
    requires HasColumn(a, k) && HasColumn(b, k)
    ensures HasColumn(a + b, k)
    ensures FilterRows(a + b, k) == FilterRows(a, k) + FilterRows(b, k)
    decreases |a|
  {
    assert HasColumn(a + b, k) by {
      assert forall i :: 0 <= i < |a + b| ==> (a + b)[i] == if i < |a| then a[i] else b[i - |a|];
    }
    if a == [] {
      assert a + b == b;
    } else {
      assert (a + b)[1..] == a[1..] + b;
      FilterRowsAppend(a[1..], b, k);
    }
  }

  /** `df[df['year'].isin(years_range)]`: the header is unchanged and the
      rows are those whose `year` cell is in range, in their input order. It
      fails when there is no single `year` column to select. */
  function FilterYears(t: Table<string>): (r: Result<Table<string>>)
    requires t.WellFormed()
    ensures r.Success? <==> Reshape.YearLabel in t.header && !Repeated(t.header, Reshape.YearLabel)
    ensures r.Success? ==> r.value.WellFormed() && r.value.header == t.header
    ensures r.Success? ==> r.value.rows == FilterRows(t.rows, ColumnIndex(t.header, Reshape.YearLabel).value)
  {
    var k :- ColumnIndex(t.header, Reshape.YearLabel);
    Success(Table(t.header, FilterRows(t.rows, k)))
  }

  // ---------------------------------------------------------------------------
  // At most one row per year

  /** No two rows share the same cell `k`. */
  predicate DistinctKeys(rows: seq<seq<string>>, k: nat)
    requires HasColumn(rows, k)
  {
    forall i, j :: 0 <= i < j < |rows| ==> rows[i][k] != rows[j][k]
  }

  /** Rows with distinct keys keep at most as many in-range rows as there
      are in-range keys. */
  lemma {:induction false} FilterBound(rows: seq<seq<string>>, k: nat, bound: set<string>)
    requires HasColumn(rows, k) && DistinctKeys(rows, k)
    requires forall i :: 0 <= i < |rows| && InRange(rows[i][k]) ==> rows[i][k] in bound
    ensures |FilterRows(rows, k)| <= |bound|
    decreases |rows|
  {
    if rows != [] {
      var tail := rows[1..];
      assert forall i :: 0 <= i < |tail| ==> tail[i] == rows[i + 1];
      if InRange(rows[0][k]) {
        var rest := bound - {rows[0][k]};
        FilterBound(tail, k, rest);
      } else {
        FilterBound(tail, k, bound);
      }
    }
  }

  lemma {:induction false} ElementsBound(s: seq<string>)
    ensures |set y | y in s| <= |s|
    decreases |s|
  {
    if s != [] {
      ElementsBound(s[1..]);
      assert (set y | y in s) == (set y | y in s[1..]) + {s[0]};
    }
  }

  /** If the year labels are distinct, at most nine rows survive. */
  lemma FilterYearsAtMostNine(t: Table<string>)
    requires t.WellFormed() && FilterYears(t).Success?
    requires DistinctKeys(t.rows, ColumnIndex(t.header, Reshape.YearLabel).value)
    ensures |FilterYears(t).value.rows| <= 9
  {
    var k := ColumnIndex(t.header, Reshape.YearLabel).value;
    var years := set y | y in YearsRange;
    ElementsBound(YearsRange);
    FilterBound(t.rows, k, years);
  }
}
