/** The bulk assign shared by BetterSpreadSheetImpl.setInBulk and
    BetterSparseSpreadSheet.setInBulk: the three argument checks, the row-major
    sequence of set calls the nested loops make, and what that sequence does to a store. */
module Bulk {
  import opened Cells
  import opened Store

  /** The three checks, in the order the source makes them; the first that fails decides. */
  function Validate(sX: int, sY: int, eX: int, eY: int): (o: Outcome)
    ensures o.Fail? <==> sX < 0 || sY < 0 || eX < 0 || eY < 0 || eX < sX || eY < sY
    ensures o == Fail(NegativeStart) <==> sX < 0 || sY < 0
    ensures o == Fail(NegativeEnd) <==> 0 <= sX && 0 <= sY && (eX < 0 || eY < 0)
    ensures o == Fail(EndBeforeStart) <==> 0 <= sX && 0 <= sY && 0 <= eX && 0 <= eY && (eX < sX || eY < sY)
  {
    if sX < 0 || sY < 0 then Fail(NegativeStart)
    else if eX < 0 || eY < 0 then Fail(NegativeEnd)
    else if eX < sX || eY < sY then Fail(EndBeforeStart)
    else Pass
  }

  /** The half-open block [sX, eX) x [sY, eY). */
  predicate InBlock(p: Pos, sX: int, sY: int, eX: int, eY: int)
  {
    sX <= p.row < eX && sY <= p.col < eY
  }

  /** The calls the inner loop makes for row r: set(r, c, v) for c = sY, ..., eY - 1. */
  function RowWrites(r: int, sY: int, eY: int, v: real): seq<Write>
    decreases eY - sY
  {
    if eY <= sY then [] else RowWrites(r, sY, eY - 1, v) + [Write(Pos(r, eY - 1), v)]
  }

  /** The calls both loops make: the rows sX, ..., eX - 1, each one in full. */
  function BlockWrites(sX: int, sY: int, eX: int, eY: int, v: real): seq<Write>
    decreases eX - sX
  {
    if eX <= sX then [] else BlockWrites(sX, sY, eX - 1, eY, v) + RowWrites(eX - 1, sY, eY, v)
  }

  /** Row-major order on positions: by row, then by column. */
  predicate Before(p: Pos, q: Pos)
  {
    p.row < q.row || (p.row == q.row && p.col < q.col)
  }

  /** Each call comes strictly after the previous ones in row-major order. */
  predicate StrictlyRowMajor(ws: seq<Write>)
  {
    forall i, j | 0 <= i < j < |ws| :: Before(ws[i].at, ws[j].at)
  }

  // ---------------------------------------------------------------------------
  // The sequence of calls

  lemma {:induction false} RowWritesShape(r: int, sY: int, eY: int, v: real)
    ensures |RowWrites(r, sY, eY, v)| == if eY <= sY then 0 else eY - sY
    ensures forall i | 0 <= i < |RowWrites(r, sY, eY, v)| ::
              RowWrites(r, sY, eY, v)[i] == Write(Pos(r, sY + i), v)
    decreases eY - sY
  {
    if sY < eY {
      RowWritesShape(r, sY, eY - 1, v);
    }
  }

  /** The loops call set once for each cell of the block: (eX - sX) * (eY - sY) calls,
      none at all when sX == eX or sY == eY. */
  lemma {:induction false} BlockSize(sX: int, sY: int, eX: int, eY: int, v: real)
    requires sX <= eX && sY <= eY
    ensures |BlockWrites(sX, sY, eX, eY, v)| == (eX - sX) * (eY - sY)
    decreases eX - sX
  {
    if sX < eX {
      BlockSize(sX, sY, eX - 1, eY, v);
      RowWritesShape(eX - 1, sY, eY, v);
      assert (eX - sX) * (eY - sY) == (eX - 1 - sX) * (eY - sY) + (eY - sY);
    }
  }

  /** Every call writes the bulk value, and a cell is written iff it lies in the block. */
  lemma {:induction false} BlockMembers(sX: int, sY: int, eX: int, eY: int, v: real, w: Write)
    ensures w in BlockWrites(sX, sY, eX, eY, v) <==> InBlock(w.at, sX, sY, eX, eY) && w.value == v
    decreases eX - sX
  {
    if sX < eX {
      BlockMembers(sX, sY, eX - 1, eY, v, w);
      RowWritesShape(eX - 1, sY, eY, v);
      var row := RowWrites(eX - 1, sY, eY, v);
      if w.at.row == eX - 1 && sY <= w.at.col < eY && w.value == v {
        assert row[w.at.col - sY] == w;
      }
    }
  }

  /** The calls are made in strictly increasing row-major order, so no cell is written twice. */
  lemma {:induction false} BlockRowMajor(sX: int, sY: int, eX: int, eY: int, v: real)
    ensures StrictlyRowMajor(BlockWrites(sX, sY, eX, eY, v))
    decreases eX - sX
  {
    if sX < eX {
      var init := BlockWrites(sX, sY, eX - 1, eY, v);
      var row := RowWrites(eX - 1, sY, eY, v);
      var ws := init + row;
      BlockRowMajor(sX, sY, eX - 1, eY, v);
      assert StrictlyRowMajor(init);
      RowWritesShape(eX - 1, sY, eY, v);
      forall i, j | 0 <= i < j < |ws|
        ensures Before(ws[i].at, ws[j].at)
      {
        if j < |init| {
          assert ws[i] == init[i] && ws[j] == init[j];
          assert Before(init[i].at, init[j].at);
        } else if i < |init| {
          assert init[i] in init;
          BlockMembers(sX, sY, eX - 1, eY, v, init[i]);
          assert ws[j] == row[j - |init|] && row[j - |init|].at.row == eX - 1;
          assert ws[i].at.row < eX - 1;
        } else {
          assert ws[i] == row[i - |init|] && ws[j] == row[j - |init|];
          assert row[i - |init|].at.col < row[j - |init|].at.col;
        }
      }
    }
  }

  // ---------------------------------------------------------------------------
  // What the calls do to a store

  /** The calls of one row write v at exactly that row's cells in [sY, eY). */
  lemma {:induction false} ReplayRow(g: Grid, r: int, sY: int, eY: int, v: real)
    ensures var g' := Replay(g, RowWrites(r, sY, eY, v));
            && (forall p :: p in g'.cells <==> p in g.cells || (p.row == r && sY <= p.col < eY))
            && (forall p | p in g'.cells ::
                  g'.cells[p] == if p.row == r && sY <= p.col < eY then v else g.cells[p])
            && (if sY < eY then g'.height == Max(g.height, r + 1) && g'.width == Max(g.width, eY)
                else g' == g)
    decreases eY - sY
  {
    if sY < eY {
      var init := RowWrites(r, sY, eY - 1, v);
      var w := Write(Pos(r, eY - 1), v);
      ReplayRow(g, r, sY, eY - 1, v);
      ReplaySnoc(g, init, w);
      var g0 := Replay(g, init);
      var g' := Put(g0, w.at, v);
      assert Replay(g, RowWrites(r, sY, eY, v)) == g';
      forall p
        ensures p in g'.cells <==> p in g.cells || (p.row == r && sY <= p.col < eY)
      {
        assert p in g'.cells <==> p in g0.cells || p == w.at;
      }
      forall p | p in g'.cells
        ensures g'.cells[p] == if p.row == r && sY <= p.col < eY then v else g.cells[p]
      {
        if p != w.at {
          assert p in g0.cells && g'.cells[p] == g0.cells[p];
        }
      }
    }
  }

  /** The calls of the whole block write v at exactly the cells of the block and touch
      nothing else (row eX and column eY are not written). The dimensions grow to cover the
      block when it is not empty; an empty block leaves the store as it was. */
  lemma {:induction false} ReplayBlock(g: Grid, sX: int, sY: int, eX: int, eY: int, v: real)
    ensures var g' := Replay(g, BlockWrites(sX, sY, eX, eY, v));
            && (forall p :: p in g'.cells <==> p in g.cells || InBlock(p, sX, sY, eX, eY))
            && (forall p | p in g'.cells ::
                  g'.cells[p] == if InBlock(p, sX, sY, eX, eY) then v else g.cells[p])
            && (if sX < eX && sY < eY then g'.height == Max(g.height, eX) && g'.width == Max(g.width, eY)
                else g' == g)
    decreases eX - sX
  {
    if sX < eX {
      var init := BlockWrites(sX, sY, eX - 1, eY, v);
      var row := RowWrites(eX - 1, sY, eY, v);
      ReplayAppend(g, init, row);
      ReplayBlock(g, sX, sY, eX - 1, eY, v);
      ReplayRow(Replay(g, init), eX - 1, sY, eY, v);
    }
  }

  /** Bulk writes at non-negative cells keep the store's invariant. */
  lemma BlockPreservesValid(g: Grid, sX: int, sY: int, eX: int, eY: int, v: real)
    requires Valid(g) && 0 <= sX && 0 <= sY
    ensures Valid(Replay(g, BlockWrites(sX, sY, eX, eY, v)))
  {
    var ws := BlockWrites(sX, sY, eX, eY, v);
    forall i | 0 <= i < |ws|
      ensures NonNegative(ws[i].at)
    {
      assert ws[i] in ws;
      BlockMembers(sX, sY, eX, eY, v, ws[i]);
    }
    ReplayPreservesValid(g, ws);
  }
}
