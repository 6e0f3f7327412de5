/** The sparse grid store on values: a map from position to value plus the two
    tracked dimensions, and what get, set and isEmpty of BetterSpreadSheetImpl
    do to it. The class in better_spread_sheet_impl.dfy is specified by these functions. */
module Store {
  import opened Cells

  /** The fields of BetterSpreadSheetImpl: `sheet`, `width` and `height`. */
  datatype Grid = Grid(cells: map<Pos, real>, width: int, height: int)

  /** One call set(at.row, at.col, value). */
  datatype Write = Write(at: Pos, value: real)

  /** The store's invariant: every key is non-negative, and the height (width) is one
      more than the largest row (column) of any stored key, or 0 when there is none. */
  ghost predicate Valid(g: Grid)
  {
    && 0 <= g.height && 0 <= g.width
    && (forall p | p in g.cells :: 0 <= p.row < g.height && 0 <= p.col < g.width)
    && (g.height > 0 ==> exists p | p in g.cells :: p.row == g.height - 1)
    && (g.width > 0 ==> exists p | p in g.cells :: p.col == g.width - 1)
  }

  /** The store as the constructor leaves it. */
  function Fresh(): (g: Grid)
    ensures Valid(g) && g.width == 0 && g.height == 0
  {
    Grid(map[], 0, 0)
  }

  /** get(row, col): the last value written there, 0.0 for a cell never written. */
  function Get(g: Grid, row: int, col: int): (r: Result<real>)
    ensures r.Err? <==> row < 0 || col < 0
    ensures r.Err? ==> r.error == NegativeCell
  {
    if row < 0 || col < 0 then Err(NegativeCell)
    else Ok(if Pos(row, col) in g.cells then g.cells[Pos(row, col)] else 0.0)
  }

  /** isEmpty(row, col): whether the cell was never written (not whether it holds 0.0). */
  function IsEmpty(g: Grid, row: int, col: int): (r: Result<bool>)
    ensures r.Err? <==> row < 0 || col < 0
    ensures r.Err? ==> r.error == NegativeCell
  {
    if row < 0 || col < 0 then Err(NegativeCell)
    else Ok(Pos(row, col) !in g.cells)
  }

  /** The effect of set once its coordinates are known non-negative: store the value
      and grow each dimension when the new key lies beyond it. */
  function Put(g: Grid, p: Pos, v: real): Grid
  {
    Grid(g.cells[p := v],
         width := if p.col + 1 > g.width then p.col + 1 else g.width,
         height := if p.row + 1 > g.height then p.row + 1 else g.height)
  }

  /** The store after a sequence of writes, applied first to last. */
  function Replay(g: Grid, ws: seq<Write>): Grid
  {
    if ws == [] then g
    else Put(Replay(g, ws[..|ws| - 1]), ws[|ws| - 1].at, ws[|ws| - 1].value)
  }

  predicate NonNegative(p: Pos)
  {
    0 <= p.row && 0 <= p.col
  }

  // ---------------------------------------------------------------------------
  // Properties of a single store

  /** A fresh store has no rows and no columns, and every cell is empty and reads 0.0. */
  lemma FreshIsEmpty(row: int, col: int)
    requires 0 <= row && 0 <= col
    ensures Fresh().width == 0 && Fresh().height == 0
    ensures IsEmpty(Fresh(), row, col) == Ok(true)
    ensures Get(Fresh(), row, col) == Ok(0.0)
  {
  }

  /** An empty cell reads 0.0. */
  lemma EmptyReadsZero(g: Grid, row: int, col: int)
    requires IsEmpty(g, row, col) == Ok(true)
    ensures Get(g, row, col) == Ok(0.0)
  {
  }

  // ---------------------------------------------------------------------------
  // Properties of one set

  /** After set(row, col, v) the cell reads v and is not empty, whatever v is (0.0 included). */
  lemma PutReadsBack(g: Grid, row: int, col: int, v: real)
    requires 0 <= row && 0 <= col
    ensures Get(Put(g, Pos(row, col), v), row, col) == Ok(v)
    ensures IsEmpty(Put(g, Pos(row, col), v), row, col) == Ok(false)
  {
  }

  /** set(row, col, v) changes no other cell, neither its value nor its emptiness. */
  lemma PutFrame(g: Grid, row: int, col: int, v: real, r: int, c: int)
    requires r != row || c != col
    ensures Get(Put(g, Pos(row, col), v), r, c) == Get(g, r, c)
    ensures IsEmpty(Put(g, Pos(row, col), v), r, c) == IsEmpty(g, r, c)
  {
  }

  /** set grows each dimension to cover the written cell, and never shrinks either. */
  lemma PutGrows(g: Grid, p: Pos, v: real)
    ensures Put(g, p, v).height == Max(g.height, p.row + 1)
    ensures Put(g, p, v).width == Max(g.width, p.col + 1)
    ensures Put(g, p, v).height >= g.height && Put(g, p, v).width >= g.width
  {
  }

  /** set keeps the dimensions equal to one more than the largest stored row and column. */
  lemma PutPreservesValid(g: Grid, p: Pos, v: real)
    requires Valid(g) && NonNegative(p)
    ensures Valid(Put(g, p, v))
  {
    var g' := Put(g, p, v);
    assert p in g'.cells;
    if g'.height > 0 && g'.height != p.row + 1 {
      var q :| q in g.cells && q.row == g.height - 1;
      assert q in g'.cells;
    }
    if g'.width > 0 && g'.width != p.col + 1 {
      var q :| q in g.cells && q.col == g.width - 1;
      assert q in g'.cells;
    }
  }

  // ---------------------------------------------------------------------------
  // Properties of a sequence of sets

  lemma AppendAssoc(a: seq<Write>, b: seq<Write>, c: seq<Write>)
    ensures a + (b + c) == a + b + c
  {
  }

  /** Replaying one more write is one more set. */
  lemma ReplaySnoc(g: Grid, ws: seq<Write>, w: Write)
    ensures Replay(g, ws + [w]) == Put(Replay(g, ws), w.at, w.value)
  {
    assert (ws + [w])[..|ws + [w]| - 1] == ws;
  }

  /** Replaying two sequences one after the other is replaying their concatenation. */
  lemma {:induction false} ReplayAppend(g: Grid, a: seq<Write>, b: seq<Write>)
    ensures Replay(g, a + b) == Replay(Replay(g, a), b)
  {
    if b == [] {
      assert a + b == a;
    } else {
      var b0 := b[..|b| - 1];
      assert (a + b)[..|a + b| - 1] == a + b0;
      assert (a + b)[|a + b| - 1] == b[|b| - 1];
      ReplayAppend(g, a, b0);
    }
  }

  /** Writes at non-negative cells keep the store's invariant. */
  lemma {:induction false} ReplayPreservesValid(g: Grid, ws: seq<Write>)
    requires Valid(g)
    requires forall i | 0 <= i < |ws| :: NonNegative(ws[i].at)
    ensures Valid(Replay(g, ws))
  {
    if ws != [] {
      ReplayPreservesValid(g, ws[..|ws| - 1]);
      PutPreservesValid(Replay(g, ws[..|ws| - 1]), ws[|ws| - 1].at, ws[|ws| - 1].value);
    }
  }

  /** Starting from a fresh store, a key is present exactly when some set wrote it,
      and it holds the value of the last such set. */
  lemma {:induction false} History(ws: seq<Write>, p: Pos)
    ensures p in Replay(Fresh(), ws).cells <==> exists i :: 0 <= i < |ws| && ws[i].at == p
    ensures forall i | 0 <= i < |ws| && ws[i].at == p ::
              (forall j | i < j < |ws| :: ws[j].at != p) ==> Replay(Fresh(), ws).cells[p] == ws[i].value
  {
    if ws != [] {
      var init := ws[..|ws| - 1];
      History(init, p);
      forall i | 0 <= i < |init| && init[i].at == p
        ensures ws[i].at == p
      {
      }
      if p != ws[|ws| - 1].at {
        forall i | 0 <= i < |ws| && ws[i].at == p
          ensures 0 <= i < |init| && init[i].at == p
        {
        }
      }
    }
  }

  /** Starting from a fresh store after any sets at non-negative cells, the height is
      one more than the largest row ever written and the width one more than the
      largest column ever written, each 0 when nothing was written. */
  lemma HistoryDimensions(ws: seq<Write>)
    requires forall i | 0 <= i < |ws| :: NonNegative(ws[i].at)
    ensures var g := Replay(Fresh(), ws);
            && (forall i | 0 <= i < |ws| :: ws[i].at.row < g.height && ws[i].at.col < g.width)
            && (g.height == 0 || exists i :: 0 <= i < |ws| && ws[i].at.row == g.height - 1)
            && (g.width == 0 || exists i :: 0 <= i < |ws| && ws[i].at.col == g.width - 1)
  {
    var g := Replay(Fresh(), ws);
    ReplayPreservesValid(Fresh(), ws);
    forall i | 0 <= i < |ws|
      ensures ws[i].at.row < g.height && ws[i].at.col < g.width
    {
      History(ws, ws[i].at);
    }
    if g.height > 0 {
      var q :| q in g.cells && q.row == g.height - 1;
      History(ws, q);
    }
    if g.width > 0 {
      var q :| q in g.cells && q.col == g.width - 1;
      History(ws, q);
    }
  }
}
