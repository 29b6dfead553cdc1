/**
 * One data row as `csv.DictReader` hands it over. Delimiter sniffing, quoting
 * and byte decoding happen before this point and are not modelled.
 */
module CsvRow {
  import opened Wrappers

  /**
   * Column name to cell. A column the header does not have is absent from
   * the map; a cell missing from a short row is present with value `None`
   * (the reader's fill-in value).
   */
  type Row = map<string, Option<string>>

  /** `row.get(col, default)`: the default only when the column is absent. */
  function GetOr(row: Row, col: string, default: string): (r: Option<string>)
    ensures col !in row ==> r == Some(default)
  {
    if col in row then row[col] else Some(default)
  }

  /** `row.get(col)`: `None` when the column is absent or the cell is missing. */
  function Get(row: Row, col: string): Option<string> {
    if col in row then row[col] else None
  }

  /** Python truthiness of a cell: `None` and the empty string are false. */
  predicate Truthy(v: Option<string>) {
    v.Some? && v.value != ""
  }

  /** No column of `cols` holds a non-empty cell. */
  predicate NoneTruthy(row: Row, cols: seq<string>) {
    forall j :: 0 <= j < |cols| ==> !Truthy(Get(row, cols[j]))
  }

  /** `row.get(c0) or row.get(c1) or ... or default`. */
  function FirstOf(row: Row, cols: seq<string>, default: string): (r: string)
    ensures NoneTruthy(row, cols) ==> r == default
    ensures |cols| > 0 && Truthy(Get(row, cols[0])) ==> r == Get(row, cols[0]).value
    ensures forall i :: 0 <= i < |cols| && Truthy(Get(row, cols[i])) && NoneTruthy(row, cols[..i]) ==>
      r == Get(row, cols[i]).value
    decreases |cols|
  {
    if cols == [] then default
    else if Truthy(Get(row, cols[0])) then Get(row, cols[0]).value
    else
      NoneTruthyTail(row, cols);
      FirstOf(row, cols[1..], default)
  }

  /** Past a first column, the columns before index `i` are the tail's columns before `i - 1`. */
  lemma NoneTruthyTail(row: Row, cols: seq<string>)
    requires |cols| > 0
    ensures forall i :: 1 <= i < |cols| && NoneTruthy(row, cols[..i]) ==>
      NoneTruthy(row, cols[1..][..i - 1]) && cols[1..][i - 1] == cols[i]
  {
    forall i | 1 <= i < |cols| && NoneTruthy(row, cols[..i])
      ensures NoneTruthy(row, cols[1..][..i - 1])
    {
      var t := cols[1..][..i - 1];
      forall j | 0 <= j < |t| ensures !Truthy(Get(row, t[j])) {
        assert t[j] == cols[..i][j + 1];
      }
    }
  }

  /** `str(v)` for a cell. */
  function StrOf(v: Option<string>): string {
    match v
    case Some(s) => s
    case None => "None"
  }
}
