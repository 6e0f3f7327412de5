/** BetterSpreadSheetImpl: the sparse store as an object whose methods update its
    `sheet` map and its `width` and `height` fields in place. */
module Impl {
  import opened Cells
  import opened Store
  import opened Bulk
  import opened BetterSpreadSheet

  class BetterSpreadSheetImpl {
    var sheet: map<Pos, real>
    var width: int
    var height: int

    /** The fields as one store value. */
    function State(): Grid
      reads this
    {
      Grid(sheet, width, height)
    }

    /** The dimensions always match the stored keys. */
    ghost predicate Valid()
      reads this
    {
      Store.Valid(State())
    }

    /** An empty store: no cells, width and height 0. */
    constructor ()
      ensures Valid() && State() == Fresh()
    {
      sheet := map[];
      width := 0;
      height := 0;
    }

    function Get(row: int, col: int): Result<real>
      reads this
    {
      Store.Get(State(), row, col)
    }

    function IsEmpty(row: int, col: int): Result<bool>
      reads this
    {
      Store.IsEmpty(State(), row, col)
    }

    function GetWidth(): int
      reads this
    {
      width
    }

    function GetHeight(): int
      reads this
    {
      height
    }

    /** set(row, col, value): rejects a negative coordinate and changes nothing then;
        otherwise stores the value and grows the dimensions to cover the cell. */
    method Set(row: int, col: int, value: real) returns (o: Outcome)
      requires Valid()
      modifies this
      ensures Valid()
      ensures o.Fail? <==> row < 0 || col < 0
      ensures o.Fail? ==> o.error == NegativeCell && State() == old(State())
      ensures o.Pass? ==> State() == Put(old(State()), Pos(row, col), value)
      ensures o.Pass? ==> Get(row, col) == Ok(value) && IsEmpty(row, col) == Ok(false)
      ensures o.Pass? ==> height == Max(old(height), row + 1) && width == Max(old(width), col + 1)
      ensures forall r, c | r != row || c != col ::
                Get(r, c) == old(Get(r, c)) && IsEmpty(r, c) == old(IsEmpty(r, c))
    {
      if row < 0 || col < 0 {
        return Fail(NegativeCell);
      }
      PutPreservesValid(State(), Pos(row, col), value);
      sheet := sheet[Pos(row, col) := value];
      if row + 1 > height {
        height := row + 1;
      }
      if col + 1 > width {
        width := col + 1;
      }
      o := Pass;
    }

    /** The inner loop of setInBulk: set(r, c, value) for c = sY, ..., eY - 1, on a row
        and columns that the checks have already found non-negative. */
    method SetRow(r: int, sY: int, eY: int, value: real)
      requires Valid() && 0 <= r && 0 <= sY <= eY
      modifies this
      ensures Valid()
      ensures State() == Replay(old(State()), RowWrites(r, sY, eY, value))
    {
      var c := sY;
      while c < eY
        invariant sY <= c <= eY
        invariant Valid() && State() == Replay(old(State()), RowWrites(r, sY, c, value))
      {
        ghost var w := Write(Pos(r, c), value);
        ReplaySnoc(old(State()), RowWrites(r, sY, c, value), w);
        var _ := Set(r, c, value);
        c := c + 1;
      }
    }

    /** setInBulk: the three checks, then set(r, c, value) for the rows sX, ..., eX - 1
        and, within each, the columns sY, ..., eY - 1. */
    method SetInBulk(sX: int, sY: int, eX: int, eY: int, value: real) returns (o: Outcome)
      requires Valid()
      modifies this
      ensures Valid()
      ensures o == Validate(sX, sY, eX, eY)
      ensures o.Fail? ==> State() == old(State())
      ensures o.Pass? ==> State() == Replay(old(State()), BlockWrites(sX, sY, eX, eY, value))
      ensures BulkContract(old(State()), State(), o, sX, sY, eX, eY, value)
    {
      if sX < 0 || sY < 0 {
        return Fail(NegativeStart);
      }
      if eX < 0 || eY < 0 {
        return Fail(NegativeEnd);
      }
      if eX < sX || eY < sY {
        return Fail(EndBeforeStart);
      }
      ghost var start := State();
      var r := sX;
      while r < eX
        invariant sX <= r <= eX
        invariant Valid() && State() == Replay(start, BlockWrites(sX, sY, r, eY, value))
      {
        SetRow(r, sY, eY, value);
        ReplayAppend(start, BlockWrites(sX, sY, r, eY, value), RowWrites(r, sY, eY, value));
        r := r + 1;
      }
      o := Pass;
      ValidateThenWriteMeetsContract(start, sX, sY, eX, eY, value);
    }
  }
}
