/** Gravity in the functional engine (functional/src/board.ts): `handleFloaters` lets
    one tile fall through the "*" tiles below it, and `shiftDownTiles` does that for
    every tile, bottom row first. The theorem of this module is that afterwards every
    column is in its settled form (`Lines.Compact`). */
module Gravity {
  import opened Lines
  import opened Grid

  /** `handleFloaters`: while the tile below `p` holds "*", swap the two and follow
      the tile down. */
  function HandleFloaters<T>(b: Board<T>, p: Position): (r: Board<T>)
    requires b.Valid() && InBounds(b, p)
    ensures r.Valid() && r.width == b.width && r.height == b.height
    decreases b.height - p.row
  {
    var below := Position(p.row + 1, p.col);
    if Piece(b, below).Empty? then HandleFloaters(SwapTiles(b, below, p), below) else b
  }

  /** Every position of `ps` is on the board. */
  ghost predicate OnBoard<T>(b: Board<T>, ps: seq<Position>)
  {
    forall i :: 0 <= i < |ps| ==> 0 <= ps[i].row < b.height && 0 <= ps[i].col < b.width
  }

  /** `handleFloaters` on every position of `ps` in turn. */
  function FloatAll<T>(b: Board<T>, ps: seq<Position>): (r: Board<T>)
    requires b.Valid() && OnBoard(b, ps)
    ensures r.Valid() && r.width == b.width && r.height == b.height
    decreases |ps|
  {
    if ps == [] then b else FloatAll(HandleFloaters(b, ps[0]), ps[1..])
  }

  /** `shiftDownTiles`: `handleFloaters` on every tile, the board's tiles taken in
      reverse row-major order (bottom row first, right to left). */
  function ShiftDownTiles<T>(b: Board<T>): (r: Board<T>)
    requires b.Valid()
    ensures r.Valid() && r.width == b.width && r.height == b.height
  {
    FloatAll(b, Reverse(Positions(b)))
  }

  /** The same visiting order as two nested loops: `FloatRow` handles row `r` from
      column `n - 1` down to `0`, `FloatRows` handles rows `k - 1` down to `0`. */
  function FloatRow<T>(b: Board<T>, r: nat, n: nat): (x: Board<T>)
    requires b.Valid() && r < b.height && n <= b.width
    ensures x.Valid() && x.width == b.width && x.height == b.height
    decreases n
  {
    if n == 0 then b else FloatRow(HandleFloaters(b, Position(r, n - 1)), r, n - 1)
  }

  function FloatRows<T>(b: Board<T>, k: nat): (x: Board<T>)
    requires b.Valid() && k <= b.height
    ensures x.Valid() && x.width == b.width && x.height == b.height
    decreases k
  {
    if k == 0 then b else FloatRows(FloatRow(b, k - 1, b.width), k - 1)
  }

  /** Every column of the board has settled. */
  ghost predicate AllCompact<T>(b: Board<T>)
    requires b.Valid()
  {
    forall c :: 0 <= c < b.width ==> IsCompact(Column(b, c))
  }

  /** One tile falling through a column, from index `r`: the column-level picture of
      `handleFloaters`. */
  function Fall<T>(line: seq<Cell<T>>, r: nat): (f: seq<Cell<T>>)
    requires r < |line|
    ensures |f| == |line|
    decreases |line| - r
  {
    if r + 1 < |line| && line[r + 1].Empty? then Fall(line[r := line[r + 1]][r + 1 := line[r]], r + 1)
    else line
  }

  /** If everything below index `r` has settled, the falling tile settles the column
      from `r` down and leaves the part above `r` alone. */
  lemma {:induction false} FallSettles<T>(line: seq<Cell<T>>, r: nat)
    requires r < |line| && IsCompact(line[r + 1..])
    ensures Fall(line, r) == line[..r] + Compact(line[r..])
    decreases |line| - r, 1
  {
    if r + 1 < |line| && line[r + 1].Empty? {
      FallSettlesSwap(line, r);
    } else {
      FallSettlesStop(line, r);
    }
  }

  lemma {:induction false} FallSettlesSwap<T>(line: seq<Cell<T>>, r: nat)
    requires r + 1 < |line| && line[r + 1].Empty? && IsCompact(line[r + 1..])
    ensures Fall(line, r) == line[..r] + Compact(line[r..])
    decreases |line| - r, 0
  {
    var next := line[r := line[r + 1]][r + 1 := line[r]];
    var x, t := line[r], line[r + 2..];
    var settled := Compact([x] + t);
    assert Fall(line, r) == (line[..r] + [Empty]) + settled by {
      assert Fall(line, r) == Fall(next, r + 1);
      SwapDownSlices(line, r);
      FallSettles(next, r + 1);
    }
    assert Compact(line[r..]) == [Empty] + settled by {
      SwapDownSlices(line, r);
      CompactOfSwapDown(x, t);
    }
    assert (line[..r] + [Empty]) + settled == line[..r] + ([Empty] + settled);
  }

  /** How the pieces of a column look after the tile at `r` swaps with the "*"
      below it. */
  lemma SwapDownSlices<T>(line: seq<Cell<T>>, r: nat)
    requires r + 1 < |line| && line[r + 1].Empty? && IsCompact(line[r + 1..])
    ensures var next := line[r := line[r + 1]][r + 1 := line[r]];
      && IsCompact(next[r + 2..])
      && next[..r + 1] == line[..r] + [Empty]
      && next[r + 1..] == [line[r]] + line[r + 2..]
      && line[r..] == [line[r], Empty] + line[r + 2..]
  {
    var next := line[r := line[r + 1]][r + 1 := line[r]];
    assert next[r + 2..] == line[r + 2..] == line[r + 1..][1..];
    assert next[..r + 1] == line[..r] + [Empty];
    assert next[r + 1..] == [line[r]] + line[r + 2..];
    assert line[r..] == [line[r], Empty] + line[r + 2..];
  }

  lemma FallSettlesStop<T>(line: seq<Cell<T>>, r: nat)
    requires r < |line| && IsCompact(line[r + 1..])
    requires !(r + 1 < |line| && line[r + 1].Empty?)
    ensures Fall(line, r) == line[..r] + Compact(line[r..])
  {
    assert IsCompact(line[r..]) by {
      forall i, j | 0 <= i < j < |line[r..]| && !line[r..][i].Empty?
        ensures !line[r..][j].Empty?
      {
        if i > 0 {
          assert line[r + 1..][i - 1] == line[r..][i];
          assert line[r + 1..][j - 1] == line[r..][j];
        } else if j > 1 {
          assert line[r + 1..][0] == line[r + 1];
          assert line[r + 1..][j - 1] == line[r..][j];
        }
      }
    }
    CompactOfCompact(line[r..]);
    assert line == line[..r] + line[r..];
  }

  /** Swapping a tile with the one below it exchanges the two entries of its column. */
  lemma ColumnOfSwapDown<T>(b: Board<T>, p: Position, c: nat)
    requires b.Valid() && InBounds(b, p) && p.row + 1 < b.height && c < b.width
    ensures Column(SwapTiles(b, Position(p.row + 1, p.col), p), c) ==
      if c == p.col then Column(b, c)[p.row := Column(b, c)[p.row + 1]][p.row + 1 := Column(b, c)[p.row]]
      else Column(b, c)
  {
    var x := SwapTiles(b, Position(p.row + 1, p.col), p);
    forall r | 0 <= r < b.height
      ensures Column(x, c)[r] == Piece(x, Position(r, c))
      ensures Column(b, c)[r] == Piece(b, Position(r, c))
    {
    }
  }

  /** `handleFloaters` acts on the column of `p` as `Fall` and on no other column. */
  lemma {:induction false} HandleFloatersColumn<T>(b: Board<T>, p: Position, c: nat)
    requires b.Valid() && InBounds(b, p) && c < b.width
    ensures Column(HandleFloaters(b, p), c) == if c == p.col then Fall(Column(b, c), p.row) else Column(b, c)
    decreases b.height - p.row, 1
  {
    if Piece(b, Position(p.row + 1, p.col)).Empty? {
      HandleFloatersColumnSwap(b, p, c);
    } else if c == p.col {
      var col := Column(b, c);
      assert p.row + 1 < b.height ==> col[p.row + 1] == Piece(b, Position(p.row + 1, p.col));
      assert Fall(col, p.row) == col;
    }
  }

  lemma {:induction false} HandleFloatersColumnSwap<T>(b: Board<T>, p: Position, c: nat)
    requires b.Valid() && InBounds(b, p) && c < b.width
    requires Piece(b, Position(p.row + 1, p.col)).Empty?
    ensures Column(HandleFloaters(b, p), c) == if c == p.col then Fall(Column(b, c), p.row) else Column(b, c)
    decreases b.height - p.row, 0
  {
    var below := Position(p.row + 1, p.col);
    var x := SwapTiles(b, below, p);
    assert HandleFloaters(b, p) == HandleFloaters(x, below);
    ColumnOfSwapDown(b, p, c);
    HandleFloatersColumn(x, below, c);
    if c == p.col {
      var col := Column(b, c);
      assert col[p.row + 1] == Piece(b, below);
      FallStep(col, p.row);
    }
  }

  lemma FallStep<T>(line: seq<Cell<T>>, r: nat)
    requires r + 1 < |line| && line[r + 1].Empty?
    ensures Fall(line, r) == Fall(line[r := line[r + 1]][r + 1 := line[r]], r + 1)
  {
  }

  /** `FloatRow` lets the first `n` tiles of row `r` fall, each in its own column. */
  lemma {:induction false} FloatRowColumn<T>(b: Board<T>, r: nat, n: nat, c: nat)
    requires b.Valid() && r < b.height && n <= b.width && c < b.width
    ensures Column(FloatRow(b, r, n), c) == if c < n then Fall(Column(b, c), r) else Column(b, c)
    decreases n
  {
    if n > 0 {
      var x := HandleFloaters(b, Position(r, n - 1));
      HandleFloatersColumn(b, Position(r, n - 1), c);
      FloatRowColumn(x, r, n - 1, c);
    }
  }

  /** Row `k - 1` falling into a column whose rows from `k` down have settled
      settles the rows from `k - 1` down and keeps the column's settled form. */
  lemma FloatRowSettlesColumn<T>(b: Board<T>, k: nat, c: nat)
    requires b.Valid() && 0 < k <= b.height && c < b.width
    requires IsCompact(Column(b, c)[k..])
    ensures IsCompact(Column(FloatRow(b, k - 1, b.width), c)[k - 1..])
    ensures Compact(Column(FloatRow(b, k - 1, b.width), c)) == Compact(Column(b, c))
  {
    FloatRowColumn(b, k - 1, b.width, c);
    FallKeepsSettledForm(Column(b, c), k);
  }

  /** The column-level step: a tile falling from index `k - 1` onto a settled part
      leaves the column settled from `k - 1` down, with the same settled form. */
  lemma FallKeepsSettledForm<T>(col: seq<Cell<T>>, k: nat)
    requires 0 < k <= |col| && IsCompact(col[k..])
    ensures IsCompact(Fall(col, k - 1)[k - 1..])
    ensures Compact(Fall(col, k - 1)) == Compact(col)
  {
    FallSettles(col, k - 1);
    var after := col[..k - 1] + Compact(col[k - 1..]);
    CompactFacts(col[k - 1..]);
    assert after[k - 1..] == Compact(col[k - 1..]);
    CompactOfPartlyCompact(col[..k - 1], col[k - 1..]);
    assert col[..k - 1] + col[k - 1..] == col;
  }

  /** When the rows from `k` down have settled, `FloatRows(b, k)` settles every
      column. */
  lemma {:induction false} FloatRowsSettle<T>(b: Board<T>, k: nat)
    requires b.Valid() && k <= b.height
    requires forall c :: 0 <= c < b.width ==> IsCompact(Column(b, c)[k..])
    ensures forall c :: 0 <= c < b.width ==> Column(FloatRows(b, k), c) == Compact(Column(b, c))
    decreases k
  {
    if k == 0 {
      forall c | 0 <= c < b.width ensures Column(b, c) == Compact(Column(b, c)) {
        assert Column(b, c)[0..] == Column(b, c);
        CompactOfCompact(Column(b, c));
      }
    } else {
      var x := FloatRow(b, k - 1, b.width);
      forall c | 0 <= c < b.width
        ensures IsCompact(Column(x, c)[k - 1..])
        ensures Compact(Column(x, c)) == Compact(Column(b, c))
      {
        FloatRowSettlesColumn(b, k, c);
      }
      FloatRowsSettle(x, k - 1);
      assert FloatRows(b, k) == FloatRows(x, k - 1);
    }
  }

  lemma ReverseAppend<A>(a: seq<A>, c: seq<A>)
    ensures Reverse(a + c) == Reverse(c) + Reverse(a)
  {
    assert forall i :: 0 <= i < |a + c| ==> Reverse(a + c)[i] == (Reverse(c) + Reverse(a))[i];
  }

  lemma {:induction false} FloatAllAppend<T>(b: Board<T>, xs: seq<Position>, ys: seq<Position>)
    requires b.Valid()
    requires OnBoard(b, xs) && OnBoard(b, ys)
    ensures FloatAll(b, xs + ys) == FloatAll(FloatAll(b, xs), ys)
    decreases |xs|
  {
    if xs == [] {
      assert xs + ys == ys;
    } else {
      assert (xs + ys)[1..] == xs[1..] + ys;
      FloatAllAppend(HandleFloaters(b, xs[0]), xs[1..], ys);
    }
  }

  /** Row `r` right to left, from column `n - 1` down to `0`. */
  function RowBackward(r: nat, n: nat): (ps: seq<Position>)
    ensures |ps| == n && forall i :: 0 <= i < n ==> ps[i] == Position(r, n - 1 - i)
  {
    if n == 0 then [] else [Position(r, n - 1)] + RowBackward(r, n - 1)
  }

  /** Rows `k - 1` down to `0`, each right to left. */
  function Backward(k: nat, w: nat): (ps: seq<Position>)
    ensures forall i :: 0 <= i < |ps| ==> 0 <= ps[i].row < k && 0 <= ps[i].col < w
  {
    if k == 0 then [] else RowBackward(k - 1, w) + Backward(k - 1, w)
  }

  /** Reverse row-major order is the rows bottom up, each right to left. */
  lemma {:induction false} BackwardIsReverse(k: nat, w: nat)
    ensures Backward(k, w) == Reverse(RowMajor(k, w))
  {
    if k > 0 {
      BackwardIsReverse(k - 1, w);
      assert RowMajor(k, w) == RowMajor(k - 1, w) + RowPositions(k - 1, w);
      ReverseAppend(RowMajor(k - 1, w), RowPositions(k - 1, w));
      assert RowBackward(k - 1, w) == Reverse(RowPositions(k - 1, w));
    }
  }

  lemma {:induction false} FloatRowAsFloatAll<T>(b: Board<T>, r: nat, n: nat)
    requires b.Valid() && r < b.height && n <= b.width
    ensures OnBoard(b, RowBackward(r, n))
    ensures FloatRow(b, r, n) == FloatAll(b, RowBackward(r, n))
    decreases n
  {
    if n > 0 {
      var x := HandleFloaters(b, Position(r, n - 1));
      FloatRowAsFloatAll(x, r, n - 1);
      assert RowBackward(r, n)[1..] == RowBackward(r, n - 1);
    }
  }

  lemma {:induction false} FloatRowsAsFloatAll<T>(b: Board<T>, k: nat)
    requires b.Valid() && k <= b.height
    ensures OnBoard(b, Backward(k, b.width))
    ensures FloatRows(b, k) == FloatAll(b, Backward(k, b.width))
    decreases k
  {
    if k > 0 {
      var row, above := RowBackward(k - 1, b.width), Backward(k - 1, b.width);
      var x := FloatRow(b, k - 1, b.width);
      assert OnBoard(b, row) && x == FloatAll(b, row) by {
        FloatRowAsFloatAll(b, k - 1, b.width);
      }
      assert FloatRows(x, k - 1) == FloatAll(x, above) by {
        FloatRowsAsFloatAll(x, k - 1);
      }
      FloatRowsStep(b, k);
      assert Backward(k, b.width) == row + above;
      assert OnBoard(b, above);
      FloatAllAppend(b, row, above);
    }
  }

  lemma FloatRowStep<T>(b: Board<T>, r: nat, n: nat)
    requires b.Valid() && r < b.height && 0 < n <= b.width
    ensures FloatRow(b, r, n) == FloatRow(HandleFloaters(b, Position(r, n - 1)), r, n - 1)
  {
  }

  lemma FloatRowsStep<T>(b: Board<T>, k: nat)
    requires b.Valid() && 0 < k <= b.height
    ensures FloatRows(b, k) == FloatRows(FloatRow(b, k - 1, b.width), k - 1)
  {
  }

  /** `shiftDownTiles` is the two nested loops: rows bottom up, each right to left. */
  lemma ShiftDownTilesAsRows<T>(b: Board<T>)
    requires b.Valid()
    ensures ShiftDownTiles(b) == FloatRows(b, b.height)
  {
    BackwardIsReverse(b.height, b.width);
    FloatRowsAsFloatAll(b, b.height);
  }

  /** Gravity's main property: every column of `shiftDownTiles`'s result is the
      settled form of the same column before: the "*" tiles on top, the other tiles
      below them in their original top-to-bottom order. */
  lemma ShiftDownTilesSettles<T>(b: Board<T>)
    requires b.Valid()
    ensures forall c :: 0 <= c < b.width ==> Column(ShiftDownTiles(b), c) == Compact(Column(b, c))
  {
    ShiftDownTilesAsRows(b);
    forall c | 0 <= c < b.width ensures IsCompact(Column(b, c)[b.height..]) {
      assert Column(b, c)[b.height..] == [];
    }
    FloatRowsSettle(b, b.height);
  }

  /** The consequences column by column: settled, the same tiles in the same order,
      the same number of "*" tiles, the same multiset of values. */
  lemma ShiftDownTilesKeepsTiles<T>(b: Board<T>)
    requires b.Valid()
    ensures AllCompact(ShiftDownTiles(b))
    ensures forall c :: 0 <= c < b.width ==>
      var before, after := Column(b, c), Column(ShiftDownTiles(b), c);
      NonEmpty(after) == NonEmpty(before) && Holes(after) == Holes(before) &&
      multiset(after) == multiset(before)
  {
    ShiftDownTilesSettles(b);
    forall c | 0 <= c < b.width {
      CompactFacts(Column(b, c));
    }
  }

  /** A board whose columns have all settled is left as it is. */
  lemma ShiftDownTilesOfSettled<T>(b: Board<T>)
    requires b.Valid() && AllCompact(b)
    ensures ShiftDownTiles(b) == b
  {
    ShiftDownTilesSettles(b);
    forall c | 0 <= c < b.width {
      CompactOfCompact(Column(b, c));
    }
    BoardsEqualByColumns(ShiftDownTiles(b), b);
  }

  /** Gravity twice is gravity once. */
  lemma ShiftDownTilesIdempotent<T>(b: Board<T>)
    requires b.Valid()
    ensures ShiftDownTiles(ShiftDownTiles(b)) == ShiftDownTiles(b)
  {
    ShiftDownTilesKeepsTiles(b);
    ShiftDownTilesOfSettled(ShiftDownTiles(b));
  }
}
