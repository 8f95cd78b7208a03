/** The two table rules of `my_mods.PY` beside the resolver:
    `find_value_in_column` (a per-value first-match look-up) and
    `add_pop_eligible_column` (a row-by-row eligibility flag written into
    the frame in place).

    The functions here compute; what they guarantee is proved in module
    `FrameFacts`. */
module Frames {
  import opened Wrappers
  import opened Seqs

  /** A pandas cell as these rules see it: text, a number, or an empty
      cell (NaN). */
  datatype Cell = Text(s: string) | Number(x: real) | Missing

  /** A pandas DataFrame: column labels in order and rows addressed by
      position. */
  datatype Frame = Frame(columns: seq<string>, rows: seq<seq<Cell>>)

  /** Every row has one cell per column. */
  type Table = f: Frame | forall i :: 0 <= i < |f.rows| ==> |f.rows[i]| == |f.columns|
    witness Frame([], [])

  /** `row[name]`: the cell of `row` under `name`, if the frame has that
      column. */
  function At(columns: seq<string>, row: seq<Cell>, name: string): (r: Option<Cell>)
    requires |row| == |columns|
    ensures r.Some? <==> name in columns
  {
    match FirstIndexOf(columns, name)
    case None => None
    case Some(j) => Some(row[j])
  }

  // ---------------------------------------------------------------------
  // find_value_in_column

  /** The placeholder written for a value that has no match. */
  const NotFoundCell := Text("Not Found")

  /** `df[search_column] == value` for one cell: pandas compares by value,
      and NaN equals nothing, itself included. */
  predicate Matches(cell: Cell, value: Cell) {
    value != Missing && cell == value
  }

  /** The first row whose cell in column `c` matches `value`. */
  function FirstMatch(rows: seq<seq<Cell>>, c: nat, value: Cell): (r: Option<nat>)
    requires forall i :: 0 <= i < |rows| ==> c < |rows[i]|
    ensures r.Some? ==> r.value < |rows| && Matches(rows[r.value][c], value)
  {
    if rows == [] then None
    else if Matches(rows[0][c], value) then Some(0)
    else
      match FirstMatch(rows[1..], c, value)
      case None => None
      case Some(k) => Some(k + 1)
  }

  /** One iteration of `find_value_in_column`: the `return_column` cell of
      the first row whose `search_column` cell equals `value`, or
      "Not Found" when there is none or either column is missing (the
      `KeyError` the `except` clause turns into "Not Found"). */
  function LookupFirst(df: Table, searchColumn: string, value: Cell, returnColumn: string): Cell {
    match FirstIndexOf(df.columns, searchColumn)
    case None => NotFoundCell
    case Some(s) =>
      match FirstMatch(df.rows, s, value)
      case None => NotFoundCell
      case Some(i) =>
        match FirstIndexOf(df.columns, returnColumn)
        case None => NotFoundCell
        case Some(r) => df.rows[i][r]
  }

  /** `find_value_in_column(df, search_column, search_values,
      return_column)`: one `[value, result]` row per search value, in
      order, under the columns `[search_column, return_column]`. */
  method FindValueInColumn(df: Table, searchColumn: string, searchValues: seq<Cell>, returnColumn: string)
    returns (out: Table)
    ensures out.columns == [searchColumn, returnColumn]
    ensures |out.rows| == |searchValues|
    ensures forall k :: 0 <= k < |searchValues| ==>
              out.rows[k] == [searchValues[k], LookupFirst(df, searchColumn, searchValues[k], returnColumn)]
  {
    var results: seq<seq<Cell>> := [];
    var k := 0;
    while k < |searchValues|
      invariant 0 <= k <= |searchValues|
      invariant |results| == k
      invariant forall j :: 0 <= j < k ==>
                  results[j] == [searchValues[j], LookupFirst(df, searchColumn, searchValues[j], returnColumn)]
    {
      var value := searchValues[k];
      var returnValue := LookupFirst(df, searchColumn, value, returnColumn);
      results := results + [[value, returnValue]];
      k := k + 1;
    }
    out := Frame([searchColumn, returnColumn], results);
  }

  // ---------------------------------------------------------------------
  // add_pop_eligible_column

  /** The label of the column the rule writes. */
  const PopEligible := "POP Eligible"

  const Yes := Text("Yes")
  const No := Text("No")

  /** The cell the lambda returns for a decided row. */
  function Flag(eligible: bool): Cell {
    if eligible then Yes else No
  }

  /** The lambda of `add_pop_eligible_column` on one row:
      `row[contract_column] > 200000 and row[deviated_as_column] != 'Supplier'`.
      `None` where Python raises: a missing column (`KeyError`) or a text
      amount compared with a number (`TypeError`). NaN compares false, and
      the classification is read only when the amount is large enough. */
  function RowEligibility(columns: seq<string>, row: seq<Cell>, contractColumn: string, deviatedColumn: string): Option<bool>
    requires |row| == |columns|
  {
    match At(columns, row, contractColumn)
    case None => None
    case Some(Text(_)) => None
    case Some(Missing) => Some(false)
    case Some(Number(x)) =>
      if x <= 200000.0 then Some(false)
      else
        match At(columns, row, deviatedColumn)
        case None => None
        case Some(kind) => Some(kind != Text("Supplier"))
  }

  /** `df.apply(lambda row: ..., axis=1)`: 'Yes' or 'No' per row, or `None`
      when the lambda raises on some row. */
  function EligibilityColumn(columns: seq<string>, rows: seq<seq<Cell>>, contractColumn: string, deviatedColumn: string)
    : (r: Option<seq<Cell>>)
    requires forall i :: 0 <= i < |rows| ==> |rows[i]| == |columns|
    ensures r.Some? ==> |r.value| == |rows|
  {
    if rows == [] then Some([])
    else
      match EligibilityColumn(columns, rows[..|rows| - 1], contractColumn, deviatedColumn)
      case None => None
      case Some(flags) =>
        match RowEligibility(columns, rows[|rows| - 1], contractColumn, deviatedColumn)
        case None => None
        case Some(b) => Some(flags + [Flag(b)])
  }

  /** Cell `j` of every row replaced by the matching entry of `values`. */
  function SetCells(rows: seq<seq<Cell>>, j: nat, values: seq<Cell>): (r: seq<seq<Cell>>)
    requires |values| == |rows|
    requires forall i :: 0 <= i < |rows| ==> j < |rows[i]|
    ensures |r| == |rows|
    ensures forall i :: 0 <= i < |r| ==> |r[i]| == |rows[i]|
  {
    if rows == [] then []
    else [rows[0][j := values[0]]] + SetCells(rows[1..], j, values[1..])
  }

  /** The matching entry of `values` appended to every row. */
  function AppendCells(rows: seq<seq<Cell>>, values: seq<Cell>): (r: seq<seq<Cell>>)
    requires |values| == |rows|
    ensures |r| == |rows|
    ensures forall i :: 0 <= i < |r| ==> |r[i]| == |rows[i]| + 1
  {
    if rows == [] then []
    else [rows[0] + [values[0]]] + AppendCells(rows[1..], values[1..])
  }

  /** `df[name] = values`: an existing column is overwritten in place, a
      new one is appended after the others. */
  function WithColumn(t: Table, name: string, values: seq<Cell>): (r: Table)
    requires |values| == |t.rows|
    ensures |r.rows| == |t.rows|
  {
    match FirstIndexOf(t.columns, name)
    case Some(j) => Frame(t.columns, SetCells(t.rows, j, values))
    case None => Frame(t.columns + [name], AppendCells(t.rows, values))
  }

  /** The frame `add_pop_eligible_column` leaves behind: the flags written
      into "POP Eligible", or the frame untouched when the lambda raised
      (the `except` clause returns `df` as it was). */
  function AddPopEligible(t: Table, contractColumn: string, deviatedColumn: string): Table {
    match EligibilityColumn(t.columns, t.rows, contractColumn, deviatedColumn)
    case None => t
    case Some(flags) => WithColumn(t, PopEligible, flags)
  }

  /** A DataFrame object: `add_pop_eligible_column` mutates it. */
  class DataFrame {
    var frame: Table

    constructor (frame: Table)
      ensures this.frame == frame
    {
      this.frame := frame;
    }
  }

  /** `add_pop_eligible_column(df, contract_column, deviated_as_column)`:
      evaluates the lambda row by row, stops at the first row that raises
      and then leaves `df` as it was; otherwise assigns the new column.
      Returns `df` itself. */
  method AddPopEligibleColumn(df: DataFrame, contractColumn: string, deviatedAsColumn: string)
    returns (r: DataFrame)
    modifies df
    ensures r == df
    ensures df.frame == AddPopEligible(old(df.frame), contractColumn, deviatedAsColumn)
  {
    var t := df.frame;
    var flags: seq<Cell> := [];
    var i := 0;
    while i < |t.rows|
      invariant 0 <= i <= |t.rows|
      invariant EligibilityColumn(t.columns, t.rows[..i], contractColumn, deviatedAsColumn) == Some(flags)
    {
      var e := RowEligibility(t.columns, t.rows[i], contractColumn, deviatedAsColumn);
      assert t.rows[..i + 1][..i] == t.rows[..i];
      if e.None? {
        EligibilityFailureSticks(t.columns, t.rows, i + 1, contractColumn, deviatedAsColumn);
        return df;
      }
      flags := flags + [Flag(e.value)];
      i := i + 1;
    }
    assert t.rows[..i] == t.rows;
    df.frame := WithColumn(t, PopEligible, flags);
    return df;
  }

  /** Once one row raises, the whole `apply` raises. */
  lemma {:induction false} EligibilityFailureSticks(columns: seq<string>, rows: seq<seq<Cell>>, k: nat,
                                                    contractColumn: string, deviatedColumn: string)
    requires forall i :: 0 <= i < |rows| ==> |rows[i]| == |columns|
    requires k <= |rows|
    requires EligibilityColumn(columns, rows[..k], contractColumn, deviatedColumn).None?
    ensures EligibilityColumn(columns, rows, contractColumn, deviatedColumn).None?
    decreases |rows|
  {
    if k < |rows| {
      var init := rows[..|rows| - 1];
      assert init[..k] == rows[..k];
      EligibilityFailureSticks(columns, init, k, contractColumn, deviatedColumn);
    } else {
      assert rows[..k] == rows;
    }
  }
}
