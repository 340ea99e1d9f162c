/** A parsed sheet row: a JavaScript object from column name to cell text.
    A column the row has no cell for (JavaScript `undefined`) is an absent key. */
module Rows {
  import opened Wrappers
  import opened Numbers

  type Row = map<string, string>

  /** `r[k]`, with `undefined` as `None`. */
  function Get(r: Row, k: string): Option<string> {
    if k in r then Some(r[k]) else None
  }

  /** `if (r[k])`: the cell exists and is not the empty string (`"0"` is truthy). */
  predicate Truthy(r: Row, k: string) {
    k in r && r[k] != ""
  }

  /** `Number(r[k] || 0)`: a missing or empty cell counts 0. A cell that is not
      a number would be NaN in JavaScript; the model reads it as 0. */
  function Count(r: Row, k: string): (n: nat)
    ensures !Truthy(r, k) ==> n == 0
    ensures Truthy(r, k) && JsNumber(r[k]).Some? ==> n == JsNumber(r[k]).value
  {
    if Truthy(r, k) then JsNumber(r[k]).GetOr(0) else 0
  }

  /** The two idioms of the source, `Number(r.k || 0)` and
      `Number(r.k) || 0`, read the same number from every cell: a missing
      cell and `""` both give 0. */
  lemma CountIsNumberOrZero(r: Row, k: string)
    ensures Count(r, k) == NumberOrZero(Get(r, k))
  {
    if k in r && r[k] == "" {
      assert JsNumber(r[k]) == Some(0);
    }
  }

  /** `{ slug, rows, filteredRows }`: one roster player's sheet rows and,
      after filtering, the rows currently selected (`undefined` as `None`). */
  datatype PlayerRows = PlayerRows(slug: string, rows: seq<Row>, filteredRows: Option<seq<Row>>)
  {
    /** `p.filteredRows || p.rows`: an array is truthy even when empty, so a
        filtered list with no rows is kept rather than replaced by all rows. */
    function Considered(): (r: seq<Row>)
      ensures filteredRows.Some? ==> r == filteredRows.value
      ensures filteredRows.None? ==> r == rows
    {
      filteredRows.GetOr(rows)
    }
  }
}
