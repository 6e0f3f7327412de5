/** SpreadSheetController, without its text interface: the row-label decoder getRowNum
    and the three commands' translation of a typed cell (row label, one-based column)
    into the store's zero-based coordinates. */
module Controller {
  import opened Cells
  import opened Store
  import opened Bulk
  import opened RowLabel
  import opened Impl

  class SpreadSheetController {
    const sheet: BetterSpreadSheetImpl

    constructor (sheet: BetterSpreadSheetImpl)
      ensures this.sheet == sheet
    {
      this.sheet := sheet;
    }

    /** getRowNum: one pass over the label, rejecting the first non-letter and
        accumulating rownumber := 26 * rownumber + digit; the result is rownumber - 1. */
    static method GetRowNum(rowLetters: string) returns (r: Result<int>)
      ensures r == Decode(rowLetters)
    {
      var rownumber := 0;
      for i := 0 to |rowLetters|
        invariant IsLabel(rowLetters[..i])
        invariant rownumber == Numeral(rowLetters[..i])
      {
        var c := rowLetters[i];
        if !IsLetter(c) {
          return Err(InvalidRow);
        }
        assert rowLetters[..i + 1][..i] == rowLetters[..i];
        rownumber := 26 * rownumber + (ToLower(c) as int - 'a' as int + 1);
      }
      assert rowLetters[..|rowLetters|] == rowLetters;
      return Ok(rownumber - 1);
    }

    /** assign-value: decode the row, then set(row, col - 1, value). */
    method AssignValue(rowLabel: string, col: int, value: real) returns (o: Outcome)
      requires sheet.Valid()
      modifies sheet
      ensures sheet.Valid()
      ensures Decode(rowLabel).Err? ==> o == Fail(InvalidRow) && sheet.State() == old(sheet.State())
      ensures Decode(rowLabel).Ok? ==>
                var row := Decode(rowLabel).value;
                && (o.Fail? <==> row < 0 || col - 1 < 0)
                && (o.Fail? ==> o.error == NegativeCell && sheet.State() == old(sheet.State()))
                && (o.Pass? ==> sheet.State() == Put(old(sheet.State()), Pos(row, col - 1), value))
    {
      var row := GetRowNum(rowLabel);
      if row.Err? {
        return Fail(row.error);
      }
      o := sheet.Set(row.value, col - 1, value);
    }

    /** print-value: decode the row, then get(row, col - 1). */
    method PrintValue(rowLabel: string, col: int) returns (r: Result<real>)
      ensures Decode(rowLabel).Err? ==> r == Err(InvalidRow)
      ensures Decode(rowLabel).Ok? ==> r == Store.Get(sheet.State(), Decode(rowLabel).value, col - 1)
    {
      var row := GetRowNum(rowLabel);
      if row.Err? {
        return Err(row.error);
      }
      r := sheet.Get(row.value, col - 1);
    }

    /** bulk-assign: decode both rows, then setInBulk(row, col - 1, row1, col1 - 1, value). */
    method BulkAssign(rowLabel: string, col: int, rowLabel1: string, col1: int, value: real)
      returns (o: Outcome)
      requires sheet.Valid()
      modifies sheet
      ensures sheet.Valid()
      ensures Decode(rowLabel).Err? || Decode(rowLabel1).Err? ==>
                o == Fail(InvalidRow) && sheet.State() == old(sheet.State())
      ensures Decode(rowLabel).Ok? && Decode(rowLabel1).Ok? ==>
                var row, row1 := Decode(rowLabel).value, Decode(rowLabel1).value;
                && o == Validate(row, col - 1, row1, col1 - 1)
                && (o.Fail? ==> sheet.State() == old(sheet.State()))
                && (o.Pass? ==> sheet.State() == Replay(old(sheet.State()), BlockWrites(row, col - 1, row1, col1 - 1, value)))
    {
      var row := GetRowNum(rowLabel);
      if row.Err? {
        return Fail(row.error);
      }
      var row1 := GetRowNum(rowLabel1);
      if row1.Err? {
        return Fail(row1.error);
      }
      o := sheet.SetInBulk(row.value, col - 1, row1.value, col1 - 1, value);
    }
  }

  /** The transcript "bulk-assign A 1 B 4 100": rows A and B are 0 and 1, the columns
      become 0 and 3, and on a fresh store exactly the cells (0, 0), (0, 1) and (0, 2)
      receive 100.0. */
  lemma BulkAssignA1B4()
    ensures Decode("A") == Ok(0) && Decode("B") == Ok(1)
    ensures Validate(0, 1 - 1, 1, 4 - 1) == Pass
    ensures var g := Replay(Fresh(), BlockWrites(0, 1 - 1, 1, 4 - 1, 100.0));
            && g.cells == map[Pos(0, 0) := 100.0, Pos(0, 1) := 100.0, Pos(0, 2) := 100.0]
            && g.height == 1 && g.width == 3
  {
    DecodeExamples();
    var g := Replay(Fresh(), BlockWrites(0, 0, 1, 3, 100.0));
    ReplayBlock(Fresh(), 0, 0, 1, 3, 100.0);
    var m := map[Pos(0, 0) := 100.0, Pos(0, 1) := 100.0, Pos(0, 2) := 100.0];
    assert forall p :: p in g.cells <==> p in m;
    assert g.cells == m;
  }
}
