/** What the two table rules of `my_mods.PY` guarantee: the look-up of
    `find_value_in_column` returns the first match or "Not Found", and
    `add_pop_eligible_column` writes 'Yes' exactly for the rows with an
    amount above 200000 that are not suppliers, touches no other column,
    leaves the frame alone when a row raises, and can be run twice. */
module FrameFacts {
  import opened Wrappers
  import opened Frames
  import opened Seqs

  // ---------------------------------------------------------------------
  // Column look-up

  /** `j` is where `name` first occurs among the labels. */
  predicate FirstPosition(columns: seq<string>, name: string, j: nat) {
    j < |columns| && columns[j] == name && name !in columns[..j]
  }

  /** The column look-up `df[name]` uses the first position of the label,
      and a label that is absent (pandas' `KeyError`) has none. */
  lemma {:induction false} ColumnIndexSpec(columns: seq<string>, name: string, j: nat)
    ensures FirstIndexOf(columns, name) == Some(j) <==> FirstPosition(columns, name, j)
  {
    if columns != [] && columns[0] != name && j > 0 {
      ColumnIndexSpec(columns[1..], name, j - 1);
      if j <= |columns| {
        assert columns[1..][..j - 1] == columns[1..j];
        assert columns[..j] == [columns[0]] + columns[1..j];
      }
    } else if columns != [] && columns[0] == name && 0 < j <= |columns| {
      assert columns[..j][0] == name;
    }
  }

  /** Appending a label moves no other label. */
  lemma {:induction false} ColumnIndexAppend(columns: seq<string>, name: string, x: string)
    ensures FirstIndexOf(columns + [name], x)
            == if x in columns then FirstIndexOf(columns, x) else if x == name then Some(|columns|) else None
  {
    if columns != [] {
      assert (columns + [name])[1..] == columns[1..] + [name];
      ColumnIndexAppend(columns[1..], name, x);
      assert x in columns <==> x == columns[0] || x in columns[1..];
    }
  }

  // ---------------------------------------------------------------------
  // find_value_in_column

  /** `FirstMatch` returns the first matching row, and nothing only when no
      row matches. */
  lemma {:induction false} FirstMatchIsFirst(rows: seq<seq<Cell>>, c: nat, value: Cell)
    requires forall i :: 0 <= i < |rows| ==> c < |rows[i]|
    ensures FirstMatch(rows, c, value).None? <==> forall i :: 0 <= i < |rows| ==> !Matches(rows[i][c], value)
    ensures FirstMatch(rows, c, value).Some? ==>
              forall k :: 0 <= k < FirstMatch(rows, c, value).value ==> !Matches(rows[k][c], value)
  {
    if rows != [] && !Matches(rows[0][c], value) {
      FirstMatchIsFirst(rows[1..], c, value);
      assert forall i :: 1 <= i < |rows| ==> rows[i] == rows[1..][i - 1];
    }
  }

  /** A matching row and both columns present: the look-up returns the
      `return_column` cell of the first matching row. */
  lemma LookupFirstFound(df: Table, searchColumn: string, value: Cell, returnColumn: string, s: nat, r: nat, i: nat)
    requires FirstPosition(df.columns, searchColumn, s)
    requires FirstPosition(df.columns, returnColumn, r)
    requires i < |df.rows| && Matches(df.rows[i][s], value)
    requires forall k :: 0 <= k < i ==> !Matches(df.rows[k][s], value)
    ensures LookupFirst(df, searchColumn, value, returnColumn) == df.rows[i][r]
  {
    ColumnIndexSpec(df.columns, searchColumn, s);
    ColumnIndexSpec(df.columns, returnColumn, r);
    FirstMatchIsFirst(df.rows, s, value);
    var m := FirstMatch(df.rows, s, value).value;
    assert !(m < i) && !(i < m);
  }

  /** A missing column, or no matching row, gives "Not Found". */
  lemma LookupFirstNotFound(df: Table, searchColumn: string, value: Cell, returnColumn: string)
    requires searchColumn !in df.columns || returnColumn !in df.columns
             || forall i :: 0 <= i < |df.rows| ==>
                  !Matches(df.rows[i][FirstIndexOf(df.columns, searchColumn).value], value)
    ensures LookupFirst(df, searchColumn, value, returnColumn) == NotFoundCell
  {
    if searchColumn in df.columns {
      FirstMatchIsFirst(df.rows, FirstIndexOf(df.columns, searchColumn).value, value);
    }
  }

  /** Whatever the look-up returns other than "Not Found" is a cell of the
      return column in a row that matches. */
  lemma LookupFirstFromSheet(df: Table, searchColumn: string, value: Cell, returnColumn: string)
    ensures var v := LookupFirst(df, searchColumn, value, returnColumn);
      v == NotFoundCell
      || exists i: nat, s: nat, r: nat :: 0 <= i < |df.rows| && FirstPosition(df.columns, searchColumn, s)
           && FirstPosition(df.columns, returnColumn, r) && Matches(df.rows[i][s], value)
           && v == df.rows[i][r]
  {
    match FirstIndexOf(df.columns, searchColumn)
    case None =>
    case Some(s) =>
      ColumnIndexSpec(df.columns, searchColumn, s);
      match FirstMatch(df.rows, s, value)
      case None =>
      case Some(i) =>
        match FirstIndexOf(df.columns, returnColumn)
        case None =>
        case Some(r) =>
          ColumnIndexSpec(df.columns, returnColumn, r);
          assert Matches(df.rows[i][s], value);
  }

  /** An empty search value (NaN) matches no row, not even an empty cell. */
  lemma MissingNeverFound(df: Table, searchColumn: string, returnColumn: string)
    ensures LookupFirst(df, searchColumn, Missing, returnColumn) == NotFoundCell
  {
  }

  // ---------------------------------------------------------------------
  // add_pop_eligible_column: one row

  /** The eligibility rule read independently of the lambda's control
      flow: both columns exist, the amount is a number above 200000 and the
      classification is not 'Supplier'. */
  predicate PopRule(columns: seq<string>, row: seq<Cell>, contractColumn: string, deviatedColumn: string)
    requires |row| == |columns|
  {
    && At(columns, row, contractColumn).Some?
    && At(columns, row, contractColumn).value.Number?
    && At(columns, row, contractColumn).value.x > 200000.0
    && At(columns, row, deviatedColumn).Some?
    && At(columns, row, deviatedColumn).value != Text("Supplier")
  }

  /** A row is flagged 'Yes' exactly when the rule holds for it. */
  lemma RowEligibilityRule(columns: seq<string>, row: seq<Cell>, contractColumn: string, deviatedColumn: string)
    requires |row| == |columns|
    ensures RowEligibility(columns, row, contractColumn, deviatedColumn) == Some(true)
            <==> PopRule(columns, row, contractColumn, deviatedColumn)
  {
  }

  /** The lambda raises exactly on a missing amount column, a text amount,
      or a large amount with no classification column. */
  lemma RowEligibilityRaises(columns: seq<string>, row: seq<Cell>, contractColumn: string, deviatedColumn: string)
    requires |row| == |columns|
    ensures RowEligibility(columns, row, contractColumn, deviatedColumn).None?
            <==> || contractColumn !in columns
                 || At(columns, row, contractColumn).value.Text?
                 || (&& At(columns, row, contractColumn).value.Number?
                     && At(columns, row, contractColumn).value.x > 200000.0
                     && deviatedColumn !in columns)
  {
  }

  // ---------------------------------------------------------------------
  // add_pop_eligible_column: the whole column

  /** `apply` succeeds exactly when no row raises, and then holds one flag
      per row, in row order. */
  lemma {:induction false} EligibilityColumnSpec(columns: seq<string>, rows: seq<seq<Cell>>,
                                                 contractColumn: string, deviatedColumn: string)
    requires forall i :: 0 <= i < |rows| ==> |rows[i]| == |columns|
    ensures EligibilityColumn(columns, rows, contractColumn, deviatedColumn).Some?
            <==> forall i :: 0 <= i < |rows| ==> RowEligibility(columns, rows[i], contractColumn, deviatedColumn).Some?
    ensures EligibilityColumn(columns, rows, contractColumn, deviatedColumn).Some? ==>
              forall i :: 0 <= i < |rows| ==>
                EligibilityColumn(columns, rows, contractColumn, deviatedColumn).value[i]
                == Flag(RowEligibility(columns, rows[i], contractColumn, deviatedColumn).value)
  {
    if rows != [] {
      var init := rows[..|rows| - 1];
      EligibilityColumnSpec(columns, init, contractColumn, deviatedColumn);
      assert forall i :: 0 <= i < |init| ==> init[i] == rows[i];
    }
  }

  /** Overwriting column `j` changes cell `j` of each row and nothing else. */
  lemma {:induction false} SetCellsSpec(rows: seq<seq<Cell>>, j: nat, values: seq<Cell>)
    requires |values| == |rows|
    requires forall i :: 0 <= i < |rows| ==> j < |rows[i]|
    ensures forall i :: 0 <= i < |rows| ==> SetCells(rows, j, values)[i] == rows[i][j := values[i]]
  {
    if rows != [] {
      SetCellsSpec(rows[1..], j, values[1..]);
    }
  }

  /** Appending a column adds one cell at the end of each row. */
  lemma {:induction false} AppendCellsSpec(rows: seq<seq<Cell>>, values: seq<Cell>)
    requires |values| == |rows|
    ensures forall i :: 0 <= i < |rows| ==> AppendCells(rows, values)[i] == rows[i] + [values[i]]
  {
    if rows != [] {
      AppendCellsSpec(rows[1..], values[1..]);
    }
  }

  /** `df[name] = values`: the labels stay (plus `name` at the end when it
      is new), the column under `name` holds `values`, and every other cell
      is as before. */
  lemma WithColumnSpec(t: Table, name: string, values: seq<Cell>)
    requires |values| == |t.rows|
    ensures var r := WithColumn(t, name, values);
      && r.columns == (if name in t.columns then t.columns else t.columns + [name])
      && (forall i :: 0 <= i < |r.rows| ==> At(r.columns, r.rows[i], name) == Some(values[i]))
      && (forall i, x :: 0 <= i < |r.rows| && x != name ==> At(r.columns, r.rows[i], x) == At(t.columns, t.rows[i], x))
  {
    var r := WithColumn(t, name, values);
    match FirstIndexOf(t.columns, name)
    case Some(j) =>
      SetCellsSpec(t.rows, j, values);
    case None =>
      AppendCellsSpec(t.rows, values);
      ColumnIndexAppend(t.columns, name, name);
      forall x | x != name
        ensures FirstIndexOf(r.columns, x) == FirstIndexOf(t.columns, x)
      {
        ColumnIndexAppend(t.columns, name, x);
      }
  }

  /** Writing a column with the values it already holds changes nothing. */
  lemma SetCellsSame(rows: seq<seq<Cell>>, j: nat, values: seq<Cell>)
    requires |values| == |rows|
    requires forall i :: 0 <= i < |rows| ==> j < |rows[i]| && rows[i][j] == values[i]
    ensures SetCells(rows, j, values) == rows
  {
    SetCellsSpec(rows, j, values);
    assert forall i :: 0 <= i < |rows| ==> rows[i][j := values[i]] == rows[i];
  }

  // ---------------------------------------------------------------------
  // add_pop_eligible_column: what the caller sees

  /** When some row raises, `add_pop_eligible_column` hands back the frame
      unchanged. */
  lemma PopEligibleFailureKeepsFrame(t: Table, contractColumn: string, deviatedColumn: string, i: nat)
    requires i < |t.rows| && RowEligibility(t.columns, t.rows[i], contractColumn, deviatedColumn).None?
    ensures AddPopEligible(t, contractColumn, deviatedColumn) == t
  {
    EligibilityColumnSpec(t.columns, t.rows, contractColumn, deviatedColumn);
  }

  /** When no row raises, "POP Eligible" holds 'Yes' exactly for the rows
      whose amount is a number above 200000 and whose classification is not
      'Supplier', 'No' for the others, and every other column is as before. */
  lemma PopEligibleWritten(t: Table, contractColumn: string, deviatedColumn: string)
    requires forall i :: 0 <= i < |t.rows| ==> RowEligibility(t.columns, t.rows[i], contractColumn, deviatedColumn).Some?
    ensures var r := AddPopEligible(t, contractColumn, deviatedColumn);
      && |r.rows| == |t.rows|
      && r.columns == (if PopEligible in t.columns then t.columns else t.columns + [PopEligible])
      && (forall i :: 0 <= i < |r.rows| ==>
            && At(r.columns, r.rows[i], PopEligible) in {Some(Yes), Some(No)}
            && (At(r.columns, r.rows[i], PopEligible) == Some(Yes) <==>
                  PopRule(t.columns, t.rows[i], contractColumn, deviatedColumn)))
      && (forall i, x :: 0 <= i < |r.rows| && x != PopEligible ==>
            At(r.columns, r.rows[i], x) == At(t.columns, t.rows[i], x))
  {
    EligibilityColumnSpec(t.columns, t.rows, contractColumn, deviatedColumn);
    var flags := EligibilityColumn(t.columns, t.rows, contractColumn, deviatedColumn).value;
    WithColumnSpec(t, PopEligible, flags);
    forall i | 0 <= i < |t.rows|
      ensures RowEligibility(t.columns, t.rows[i], contractColumn, deviatedColumn) == Some(true) <==>
                PopRule(t.columns, t.rows[i], contractColumn, deviatedColumn)
    {
      RowEligibilityRule(t.columns, t.rows[i], contractColumn, deviatedColumn);
    }
  }

  /** The verdict on a row depends on its amount and classification cells
      alone. */
  lemma VerdictReadsTwoCells(columns1: seq<string>, row1: seq<Cell>, columns2: seq<string>, row2: seq<Cell>,
                             contractColumn: string, deviatedColumn: string)
    requires |row1| == |columns1| && |row2| == |columns2|
    requires At(columns1, row1, contractColumn) == At(columns2, row2, contractColumn)
    requires At(columns1, row1, deviatedColumn) == At(columns2, row2, deviatedColumn)
    ensures RowEligibility(columns1, row1, contractColumn, deviatedColumn)
            == RowEligibility(columns2, row2, contractColumn, deviatedColumn)
  {
  }

  /** Two frames whose rows get the same verdicts, row by row, get the same
      eligibility column. */
  lemma SameVerdictsSameColumn(columns1: seq<string>, rows1: seq<seq<Cell>>,
                               columns2: seq<string>, rows2: seq<seq<Cell>>,
                               contractColumn: string, deviatedColumn: string)
    requires forall i :: 0 <= i < |rows1| ==> |rows1[i]| == |columns1|
    requires forall i :: 0 <= i < |rows2| ==> |rows2[i]| == |columns2|
    requires |rows1| == |rows2|
    requires forall i :: 0 <= i < |rows1| ==>
               RowEligibility(columns1, rows1[i], contractColumn, deviatedColumn)
               == RowEligibility(columns2, rows2[i], contractColumn, deviatedColumn)
    ensures EligibilityColumn(columns1, rows1, contractColumn, deviatedColumn)
            == EligibilityColumn(columns2, rows2, contractColumn, deviatedColumn)
  {
    EligibilityColumnSpec(columns1, rows1, contractColumn, deviatedColumn);
    EligibilityColumnSpec(columns2, rows2, contractColumn, deviatedColumn);
    if EligibilityColumn(columns1, rows1, contractColumn, deviatedColumn).Some? {
      assert EligibilityColumn(columns1, rows1, contractColumn, deviatedColumn).value
             == EligibilityColumn(columns2, rows2, contractColumn, deviatedColumn).value;
    }
  }

  /** Writing a column other than the two the rule reads leaves each row's
      verdict as it was. */
  lemma WithColumnKeepsVerdict(t: Table, name: string, values: seq<Cell>,
                               contractColumn: string, deviatedColumn: string, i: nat)
    requires |values| == |t.rows| && i < |t.rows|
    requires contractColumn != name && deviatedColumn != name
    ensures var r := WithColumn(t, name, values);
      RowEligibility(r.columns, r.rows[i], contractColumn, deviatedColumn)
      == RowEligibility(t.columns, t.rows[i], contractColumn, deviatedColumn)
  {
    var r := WithColumn(t, name, values);
    WithColumnSpec(t, name, values);
    assert At(r.columns, r.rows[i], contractColumn) == At(t.columns, t.rows[i], contractColumn);
    assert At(r.columns, r.rows[i], deviatedColumn) == At(t.columns, t.rows[i], deviatedColumn);
    VerdictReadsTwoCells(r.columns, r.rows[i], t.columns, t.rows[i], contractColumn, deviatedColumn);
  }

  /** Writing a column other than the two the rule reads leaves the whole
      eligibility column as it was. */
  lemma WithColumnKeepsEligibility(t: Table, name: string, values: seq<Cell>,
                                   contractColumn: string, deviatedColumn: string)
    requires |values| == |t.rows|
    requires contractColumn != name && deviatedColumn != name
    ensures var r := WithColumn(t, name, values);
      EligibilityColumn(r.columns, r.rows, contractColumn, deviatedColumn)
      == EligibilityColumn(t.columns, t.rows, contractColumn, deviatedColumn)
  {
    var r := WithColumn(t, name, values);
    forall i | 0 <= i < |r.rows|
      ensures RowEligibility(r.columns, r.rows[i], contractColumn, deviatedColumn)
              == RowEligibility(t.columns, t.rows[i], contractColumn, deviatedColumn)
    {
      WithColumnKeepsVerdict(t, name, values, contractColumn, deviatedColumn, i);
    }
    SameVerdictsSameColumn(r.columns, r.rows, t.columns, t.rows, contractColumn, deviatedColumn);
  }

  /** Assigning the same column twice is assigning it once. */
  lemma WithColumnTwice(t: Table, name: string, values: seq<Cell>)
    requires |values| == |t.rows|
    ensures WithColumn(WithColumn(t, name, values), name, values) == WithColumn(t, name, values)
  {
    var r := WithColumn(t, name, values);
    WithColumnSpec(t, name, values);
    var j := FirstIndexOf(r.columns, name).value;
    forall i | 0 <= i < |r.rows|
      ensures r.rows[i][j] == values[i]
    {
      assert At(r.columns, r.rows[i], name) == Some(values[i]);
    }
    SetCellsSame(r.rows, j, values);
  }

  /** Running `add_pop_eligible_column` a second time with the same columns
      changes nothing, as long as neither column is "POP Eligible" itself. */
  lemma PopEligibleIdempotent(t: Table, contractColumn: string, deviatedColumn: string)
    requires contractColumn != PopEligible && deviatedColumn != PopEligible
    ensures AddPopEligible(AddPopEligible(t, contractColumn, deviatedColumn), contractColumn, deviatedColumn)
            == AddPopEligible(t, contractColumn, deviatedColumn)
  {
    match EligibilityColumn(t.columns, t.rows, contractColumn, deviatedColumn)
    case None =>
    case Some(flags) =>
      WithColumnKeepsEligibility(t, PopEligible, flags, contractColumn, deviatedColumn);
      WithColumnTwice(t, PopEligible, flags);
  }
}
