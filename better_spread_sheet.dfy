/** The BetterSpreadSheet interface: what every implementation of setInBulk promises.
    Both implementations (better_spread_sheet_impl.dfy, better_sparse_spread_sheet.dfy)
    state this contract in their setInBulk postconditions. */
module BetterSpreadSheet {
  import opened Cells
  import opened Store
  import opened Bulk

  /** setInBulk(sX, sY, eX, eY, v) took the store from `before` to `after` with outcome `o`:
      it throws exactly when a start coordinate is negative, an end coordinate is
      negative, or an end lies before its start, and then changes nothing; otherwise
      every cell of the block [sX, eX) x [sY, eY) now holds the single value v. */
  ghost predicate BulkContract(before: Grid, after: Grid, o: Outcome,
                               sX: int, sY: int, eX: int, eY: int, v: real)
  {
    && (o.Fail? <==> sX < 0 || sY < 0 || eX < 0 || eY < 0 || eX < sX || eY < sY)
    && (o.Fail? ==> after == before)
    && (o.Pass? ==> forall r, c | sX <= r < eX && sY <= c < eY :: Get(after, r, c) == Ok(v))
  }

  /** Validating first and then making the row-major calls meets the interface contract,
      including for sX == eX or sY == eY, which the contract does not reject. */
  lemma ValidateThenWriteMeetsContract(g: Grid, sX: int, sY: int, eX: int, eY: int, v: real)
    ensures var o := Validate(sX, sY, eX, eY);
            BulkContract(g, if o.Pass? then Replay(g, BlockWrites(sX, sY, eX, eY, v)) else g,
                         o, sX, sY, eX, eY, v)
  {
    var g' := Replay(g, BlockWrites(sX, sY, eX, eY, v));
    ReplayBlock(g, sX, sY, eX, eY, v);
    forall r, c | sX <= r < eX && sY <= c < eY
      ensures Get(g', r, c) == Ok(v) || Validate(sX, sY, eX, eY).Fail?
    {
      assert InBlock(Pos(r, c), sX, sY, eX, eY);
    }
  }
}
