/**
 * Reading a worksheet into a list of rows (data/db_updater.py, `sheet_to_list`).
 * The worksheet itself is a parameter: the rows of values the spreadsheet
 * library yields, in order.
 */
module Sheets {
  import opened Cells

  /** The row with every falsy cell replaced by the number 0. */
  function ZeroFalsy(row: Row): (r: Row)
    ensures |r| == |row|
  {
    seq(|row|, k requires 0 <= k < |row| => if Truthy(row[k]) then row[k] else Num(0.0))
  }

  /** The row has at least one truthy cell. */
  predicate HasData(row: Row) {
    exists k :: 0 <= k < |row| && Truthy(row[k])
  }

  /** A row passed through `ZeroFalsy` keeps every truthy cell and holds 0 elsewhere. */
  lemma ZeroFalsyCells(row: Row, k: nat)
    requires k < |row|
    ensures Truthy(row[k]) ==> ZeroFalsy(row)[k] == row[k]
    ensures !Truthy(row[k]) ==> ZeroFalsy(row)[k] == Num(0.0)
    ensures HasData(ZeroFalsy(row)) <==> HasData(row)
  {
    if HasData(ZeroFalsy(row)) {
      var j :| 0 <= j < |row| && Truthy(ZeroFalsy(row)[j]);
      assert Truthy(row[j]);
    }
    if HasData(row) {
      var j :| 0 <= j < |row| && Truthy(row[j]);
      assert Truthy(ZeroFalsy(row)[j]);
    }
  }

  /**
   * `sheet_to_list`: copies rows, replacing falsy cells by 0, and stops at the
   * first row without a truthy cell, which is left out together with every
   * row after it.
   */
  method SheetToList(sheet: seq<Row>) returns (c: seq<Row>)
    ensures |c| <= |sheet|
    ensures forall i :: 0 <= i < |c| ==> c[i] == ZeroFalsy(sheet[i])
    ensures forall i :: 0 <= i < |c| ==> HasData(sheet[i])
    ensures |c| < |sheet| ==> !HasData(sheet[|c|])
  {
    c := [];
    var i := 0;
    while i < |sheet|
      invariant 0 <= i <= |sheet| && |c| == i
      invariant forall k :: 0 <= k < i ==> c[k] == ZeroFalsy(sheet[k])
      invariant forall k :: 0 <= k < i ==> HasData(sheet[k])
    {
      var row := sheet[i];
      ghost var done := c;
      c := c + [[]];
      var hasData := false;
      var j := 0;
      while j < |row|
        invariant 0 <= j <= |row| && |c| == i + 1
        invariant c[..i] == done
        invariant c[i] == ZeroFalsy(row[..j])
        invariant hasData <==> HasData(row[..j])
      {
        var value := row[j];
        c := c[i := c[i] + [if Truthy(value) then value else Num(0.0)]];
        hasData := if Truthy(value) then true else hasData;
        assert row[..j + 1][j] == value;
        assert forall k :: 0 <= k < j ==> row[..j + 1][k] == row[..j][k];
        j := j + 1;
      }
      assert row[..j] == row;
      if !hasData {
        c := c[..i];
        return;
      }
      i := i + 1;
    }
  }
}
