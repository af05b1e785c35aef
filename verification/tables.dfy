/**
  The data model shared by every step: a table is a header of column labels
  and a sequence of rows, each as wide as the header (a pandas DataFrame with
  a default integer row index). Failures mirror the exceptions pandas raises.
 */
module Tables {

  /** A cell as read from the tab-separated file: absent (NaN) or text. */
  datatype Cell = Missing | Present(text: string)

  datatype Table<T> = Table(header: seq<string>, rows: seq<seq<T>>) {

    /** Every row has one cell per column label. */
    predicate WellFormed() {
      forall i :: 0 <= i < |rows| ==> |rows[i]| == |header|
    }
  }

  datatype Error =
    | KeyError(column: string)      // `df[name]` with no column `name`
    | NotASeries(column: string)    // `df[name]` with `name` repeated yields a frame, not a column
    | IndexError                    // `iloc[0]` on a frame with no rows
    | DuplicateColumn(column: string) // `reset_index` onto a label that already exists

  datatype Result<T> = Success(value: T) | Failure(error: Error) {

    predicate IsFailure() {
      Failure?
    }

    function PropagateFailure<U>(): Result<U>
      requires Failure?
    {
      Failure(error)
    }

    function Extract(): T
      requires Success?
    {
      value
    }
  }

  /** The cells of column `k`, top to bottom. */
  function Column<T>(t: Table<T>, k: nat): (c: seq<T>)
    requires t.WellFormed() && k < |t.header|
    ensures |c| == |t.rows|
    ensures forall j :: 0 <= j < |c| ==> c[j] == t.rows[j][k]
  {
    seq(|t.rows|, j requires 0 <= j < |t.rows| => t.rows[j][k])
  }

  /** Two distinct positions carry the same label. */
  predicate Repeated(header: seq<string>, name: string) {
    exists a, b :: 0 <= a < b < |header| && header[a] == name && header[b] == name
  }

  /** Position of the first occurrence of `name`. */
  function IndexOf(header: seq<string>, name: string): (k: nat)
    requires name in header
    ensures k < |header| && header[k] == name
    ensures name !in header[..k]
  {
    if header[0] == name then 0
    else
      assert header == [header[0]] + header[1..];
      var k := 1 + IndexOf(header[1..], name);
      assert header[..k] == [header[0]] + header[1..][..k - 1];
      k
  }

  /** Column selection `df[name]`: the position of the single column labelled
      `name`; KeyError when there is none, NotASeries when there are several. */
  function ColumnIndex(header: seq<string>, name: string): (r: Result<nat>)
    ensures r.Success? <==> name in header && !Repeated(header, name)
    ensures r.Success? ==> r.value < |header| && header[r.value] == name
    ensures name !in header ==> r == Failure(KeyError(name))
    ensures name in header && Repeated(header, name) ==> r == Failure(NotASeries(name))
  {
    if name !in header then Failure(KeyError(name))
    else
      var k := IndexOf(header, name);
      if name in header[k + 1..] then
        var b :| k + 1 <= b < |header| && header[b] == name;
        Failure(NotASeries(name))
      else
        assert !Repeated(header, name) by {
          forall a, b | 0 <= a < b < |header| && header[a] == name
            ensures header[b] != name
          {
            assert header[k + 1..][b - k - 1] == header[b];
          }
        }
        Success(k)
  }
}
