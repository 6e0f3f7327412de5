/** BetterSparseSpreadSheet: the same bulk assign, written against the set it inherits
    from SparseSpreadSheet. That superclass is not part of this model: its state is
    represented by the store value `base`, and its set by a method with the contract
    of BetterSpreadSheetImpl's set. The ghost `calls` records every set call in order. */
module Sparse {
  import opened Cells
  import opened Store
  import opened Bulk
  import opened BetterSpreadSheet

  class BetterSparseSpreadSheet {
    var base: Grid
    ghost var calls: seq<Write>

    /** The store invariant, and the store is the result of the logged calls. */
    ghost predicate Valid()
      reads this
    {
      Store.Valid(base) && base == Replay(Fresh(), calls)
    }

    constructor ()
      ensures Valid() && base == Fresh() && calls == []
    {
      base := Fresh();
      calls := [];
    }

    /** The inherited set: rejects a negative coordinate and changes nothing then;
        otherwise it is one recorded call that stores the value. */
    method Set(row: int, col: int, value: real) returns (o: Outcome)
      requires Valid()
      modifies this
      ensures Valid()
      ensures o.Fail? <==> row < 0 || col < 0
      ensures o.Fail? ==> o.error == NegativeCell && base == old(base) && calls == old(calls)
      ensures o.Pass? ==> base == Put(old(base), Pos(row, col), value)
      ensures o.Pass? ==> calls == old(calls) + [Write(Pos(row, col), value)]
    {
      if row < 0 || col < 0 {
        return Fail(NegativeCell);
      }
      PutPreservesValid(base, Pos(row, col), value);
      ReplaySnoc(Fresh(), calls, Write(Pos(row, col), value));
      base := Put(base, Pos(row, col), value);
      calls := calls + [Write(Pos(row, col), value)];
      o := Pass;
    }

    /** A cell is stored exactly when some set call wrote it, with the last such value. */
    lemma KeysAreWrittenCells(p: Pos)
      requires Valid()
      ensures p in base.cells <==> exists i :: 0 <= i < |calls| && calls[i].at == p
      ensures forall i | 0 <= i < |calls| && calls[i].at == p ::
                (forall j | i < j < |calls| :: calls[j].at != p) ==> base.cells[p] == calls[i].value
    {
      History(calls, p);
    }

    /** The dimensions are one more than the largest row and column any set call wrote. */
    lemma DimensionsCoverCalls()
      requires Valid()
      ensures forall i | 0 <= i < |calls| :: calls[i].at.row < base.height && calls[i].at.col < base.width
      ensures base.height == 0 || exists i :: 0 <= i < |calls| && calls[i].at.row == base.height - 1
      ensures base.width == 0 || exists i :: 0 <= i < |calls| && calls[i].at.col == base.width - 1
    {
      forall i | 0 <= i < |calls|
        ensures NonNegative(calls[i].at)
      {
        History(calls, calls[i].at);
      }
      HistoryDimensions(calls);
    }

    /** The inner loop of setInBulk: set(r, c, value) for c = sY, ..., eY - 1, on a row
        and columns that the checks have already found non-negative. */
    method SetRow(r: int, sY: int, eY: int, value: real)
      requires Valid() && 0 <= r && 0 <= sY <= eY
      modifies this
      ensures Valid()
      ensures base == Replay(old(base), RowWrites(r, sY, eY, value))
      ensures calls == old(calls) + RowWrites(r, sY, eY, value)
    {
      var c := sY;
      while c < eY
        invariant sY <= c <= eY
        invariant Valid() && base == Replay(old(base), RowWrites(r, sY, c, value))
        invariant calls == old(calls) + RowWrites(r, sY, c, value)
      {
        ghost var w := Write(Pos(r, c), value);
        ReplaySnoc(old(base), RowWrites(r, sY, c, value), w);
        AppendAssoc(old(calls), RowWrites(r, sY, c, value), [w]);
        var _ := Set(r, c, value);
        c := c + 1;
      }
    }

    /** The outer loop of setInBulk: one row of set calls for r = sX, ..., eX - 1, on a
        block that the checks have already accepted. */
    method SetRows(sX: int, sY: int, eX: int, eY: int, value: real)
      requires Valid() && 0 <= sX <= eX && 0 <= sY <= eY
      modifies this
      ensures Valid()
      ensures base == Replay(old(base), BlockWrites(sX, sY, eX, eY, value))
      ensures calls == old(calls) + BlockWrites(sX, sY, eX, eY, value)
    {
      var r := sX;
      while r < eX
        invariant sX <= r <= eX
        invariant Valid() && base == Replay(old(base), BlockWrites(sX, sY, r, eY, value))
        invariant calls == old(calls) + BlockWrites(sX, sY, r, eY, value)
      {
        ReplayAppend(old(base), BlockWrites(sX, sY, r, eY, value), RowWrites(r, sY, eY, value));
        AppendAssoc(old(calls), BlockWrites(sX, sY, r, eY, value), RowWrites(r, sY, eY, value));
        SetRow(r, sY, eY, value);
        r := r + 1;
      }
    }

    /** setInBulk: every check is made before the first set call, so a rejected call
        makes none; an accepted one calls set once per cell of the block, in row-major order. */
    method SetInBulk(sX: int, sY: int, eX: int, eY: int, value: real) returns (o: Outcome)
      requires Valid()
      modifies this
      ensures Valid()
      ensures o == Validate(sX, sY, eX, eY)
      ensures o.Fail? ==> base == old(base) && calls == old(calls)
      ensures o.Pass? ==> calls == old(calls) + BlockWrites(sX, sY, eX, eY, value)
      ensures o.Pass? ==> base == Replay(old(base), BlockWrites(sX, sY, eX, eY, value))
      ensures BulkContract(old(base), base, o, sX, sY, eX, eY, value)
    {
      if sX < 0 || sY < 0 {
        return Fail(NegativeStart);
      }
      if eX < 0 || eY < 0 {
        return Fail(NegativeEnd);
      }
      if eX < sX || eY < sY {
        return Fail(EndBeforeStart);
      }
      ghost var start := base;
      SetRows(sX, sY, eX, eY, value);
      o := Pass;
      ValidateThenWriteMeetsContract(start, sX, sY, eX, eY, value);
    }
  }
}
