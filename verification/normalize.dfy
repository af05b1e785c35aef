/**
  The two steps applied to every freshly read table: `fillna(0)` and the
  `col.strip().lower()` rewrite of the column labels.
 */
module Normalize {
  import opened Text
  import opened Tables

  /** The text a filled cell takes: the 0 that `fillna` stores, as it reads
      back in a text column. A float column would hold 0.0 instead, which
      this model does not distinguish. */
  const FillValue: string := "0"

  function FillCell(c: Cell): (s: string)
    ensures c.Present? ==> s == c.text
    ensures c.Missing? ==> s == FillValue
  {
    match c
    case Missing => FillValue
    case Present(text) => text
  }

  /** `fillna(0)`: every missing cell becomes "0", every present cell keeps
      its text, and the header and shape are untouched. Once the result is
      text, no cell can be missing. */
  function FillMissing(t: Table<Cell>): (r: Table<string>)
    requires t.WellFormed()
    ensures r.WellFormed()
    ensures r.header == t.header && |r.rows| == |t.rows|
    ensures forall i, j :: 0 <= i < |t.rows| && 0 <= j < |t.header| ==>
              (t.rows[i][j].Present? ==> r.rows[i][j] == t.rows[i][j].text)
    ensures forall i, j :: 0 <= i < |t.rows| && 0 <= j < |t.header| ==>
              (t.rows[i][j].Missing? ==> r.rows[i][j] == FillValue)
  {
    Table(t.header, seq(|t.rows|, i requires 0 <= i < |t.rows| =>
                          seq(|t.rows[i]|, j requires 0 <= j < |t.rows[i]| => FillCell(t.rows[i][j]))))
  }

  /** Wraps every cell of a text table as present: a table with nothing
      missing. */
  function Lift(t: Table<string>): (r: Table<Cell>)
    requires t.WellFormed()
    ensures r.WellFormed()
  {
    Table(t.header, seq(|t.rows|, i requires 0 <= i < |t.rows| =>
                          seq(|t.rows[i]|, j requires 0 <= j < |t.rows[i]| => Present(t.rows[i][j]))))
  }

  /** Filling a table that has no missing cell gives back exactly its text. */
  lemma FillMissingComplete(t: Table<string>)
    requires t.WellFormed()
    ensures FillMissing(Lift(t)) == t
  {
    var r := FillMissing(Lift(t));
    assert |r.rows| == |t.rows|;
    forall i | 0 <= i < |t.rows|
      ensures r.rows[i] == t.rows[i]
    {
      assert |r.rows[i]| == |t.rows[i]|;
    }
  }

  /** The column-label rewrite: same number of labels, same order, each one
      stripped and lowercased. */
  function NormalizeHeader(h: seq<string>): (r: seq<string>)
    ensures |r| == |h|
    ensures forall k :: 0 <= k < |h| ==> r[k] == NormalizeName(h[k])
    ensures forall k :: 0 <= k < |r| ==> IsNormalName(r[k])
  {
    seq(|h|, k requires 0 <= k < |h| => NormalizeName(h[k]))
  }

  /** `df.columns = [col.strip().lower() for col in df.columns]`: only the
      labels change. */
  function NormalizeColumns<T>(t: Table<T>): (r: Table<T>)
    requires t.WellFormed()
    ensures r.WellFormed()
    ensures r.rows == t.rows
    ensures r.header == NormalizeHeader(t.header)
  {
    Table(NormalizeHeader(t.header), t.rows)
  }

  /** A header is left alone exactly when every label is already normal. */
  lemma NormalizeHeaderFixpoint(h: seq<string>)
    ensures NormalizeHeader(h) == h <==> forall k :: 0 <= k < |h| ==> IsNormalName(h[k])
  {
    if forall k :: 0 <= k < |h| ==> IsNormalName(h[k]) {
      forall k | 0 <= k < |h|
        ensures NormalizeName(h[k]) == h[k]
      {
        NormalizeNameFixpoint(h[k]);
      }
    }
  }

  lemma NormalizeHeaderIdempotent(h: seq<string>)
    ensures NormalizeHeader(NormalizeHeader(h)) == NormalizeHeader(h)
  {
    NormalizeHeaderFixpoint(NormalizeHeader(h));
  }
}
