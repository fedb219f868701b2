/** The cleaning passes of clean_data.py as they run: each UPDATE rewrites
    one column of every row of the volleyball table in place, one column
    after another. */
module CleanData {
  import opened SqlText
  import opened Cleaning

  class VolleyballTable {
    var rows: array<Row>

    /** Every row has a value for every column. */
    ghost predicate Valid()
      reads this, rows
    {
      forall i :: 0 <= i < rows.Length ==> Complete(rows[i])
    }

    constructor (contents: Table)
      requires forall i :: 0 <= i < |contents| ==> Complete(contents[i])
      ensures Valid() && fresh(rows) && rows[..] == contents
    {
      rows := new Row[|contents|](i requires 0 <= i < |contents| => contents[i]);
    }

    /** One UPDATE of standardize_columns: rewrite column col of every row
        with the CASE expression over col's allow-list. */
    method StandardizeColumn(col: Column)
      requires Valid() && AllowListed(col)
      modifies rows
      ensures Valid()
      ensures forall i :: 0 <= i < rows.Length ==>
        rows[i] == old(rows[i])[col := StandardizeCell(old(rows[i])[col], AllowedValues(col).value)]
    {
      var vocabulary := AllowedValues(col).value;
      var i := 0;
      while i < rows.Length
        invariant 0 <= i <= rows.Length
        invariant forall j :: 0 <= j < i ==>
          rows[j] == old(rows[j])[col := StandardizeCell(old(rows[j])[col], vocabulary)]
        invariant forall j :: i <= j < rows.Length ==> rows[j] == old(rows[j])
      {
        rows[i] := rows[i][col := StandardizeCell(rows[i][col], vocabulary)];
        i := i + 1;
      }
    }

    /** standardize_columns: one UPDATE per allow-listed column, in the
        order of the allow-list map. */
    method StandardizeColumns()
      requires Valid()
      modifies rows
      ensures Valid()
      ensures rows[..] == Standardized(old(rows[..]))
    {
      StandardizedColumnsShape();
      ghost var done: set<Column> := {};
      for k := 0 to |StandardizedColumns|
        invariant Valid()
        invariant done == Elems(StandardizedColumns[..k])
        invariant forall i :: 0 <= i < rows.Length ==> rows[i] == StandardizeRowOn(old(rows[i]), done)
      {
        var col := StandardizedColumns[k];
        ElemsStep(StandardizedColumns, k);
        ghost var before := rows[..];
        StandardizeColumn(col);
        forall i | 0 <= i < rows.Length
          ensures rows[i] == StandardizeRowOn(old(rows[i]), done + {col})
        {
          assert before[i] == StandardizeRowOn(old(rows[i]), done);
          StandardizeRowStep(old(rows[i]), done, col);
        }
        done := done + {col};
      }
      assert StandardizedColumns[..|StandardizedColumns|] == StandardizedColumns;
    }

    /** One UPDATE of replace_empty_strings: set col to NULL in the rows
        where it is non-NULL and trims to ''. */
    method ReplaceEmptyString(col: Column)
      requires Valid()
      modifies rows
      ensures Valid()
      ensures forall i :: 0 <= i < rows.Length ==>
        rows[i] == old(rows[i])[col := BlankToNull(old(rows[i])[col])]
    {
      var i := 0;
      while i < rows.Length
        invariant 0 <= i <= rows.Length
        invariant forall j :: 0 <= j < i ==>
          rows[j] == old(rows[j])[col := BlankToNull(old(rows[j])[col])]
        invariant forall j :: i <= j < rows.Length ==> rows[j] == old(rows[j])
      {
        var v := rows[i][col];
        if v.Some? && Trim(v.value) == "" {
          rows[i] := rows[i][col := None];
        } else {
          assert rows[i] == rows[i][col := v];
        }
        i := i + 1;
      }
    }

    /** replace_empty_strings: one UPDATE per text column. */
    method ReplaceEmptyStrings()
      requires Valid()
      modifies rows
      ensures Valid()
      ensures rows[..] == BlanksNulled(old(rows[..]))
    {
      TextColumnsShape();
      ghost var done: set<Column> := {};
      for k := 0 to |TextColumns|
        invariant Valid()
        invariant done == Elems(TextColumns[..k])
        invariant forall i :: 0 <= i < rows.Length ==> rows[i] == BlankRowOn(old(rows[i]), done)
      {
        var col := TextColumns[k];
        ElemsStep(TextColumns, k);
        ghost var before := rows[..];
        ReplaceEmptyString(col);
        forall i | 0 <= i < rows.Length
          ensures rows[i] == BlankRowOn(old(rows[i]), done + {col})
        {
          assert before[i] == BlankRowOn(old(rows[i]), done);
          BlankRowStep(old(rows[i]), done, col);
        }
        done := done + {col};
      }
      assert TextColumns[..|TextColumns|] == TextColumns;
    }
  }
}
