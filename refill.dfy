/** Refilling in the functional engine (functional/src/board.ts, `refill`): the
    helper walks the top row column by column, wrapping around, puts the generator's
    next value into every "*" it finds there and lets gravity act after each value,
    until no tile holds "*". */
module Refill {
  import opened Lines
  import opened Grid
  import opened Gravity

  /** The number of "*" tiles in columns `c ..` of the board. */
  function HolesFrom<T>(b: Board<T>, c: nat): nat
    requires b.Valid()
    decreases b.width - c
  {
    if c >= b.width then 0 else Holes(Column(b, c)) + HolesFrom(b, c + 1)
  }

  /** The number of "*" tiles on the board. */
  function TotalHoles<T>(b: Board<T>): nat
    requires b.Valid()
  {
    HolesFrom(b, 0)
  }

  /** What `refill` gives back: the full board and what the generator has left, or
      the generator ran dry. */
  datatype RefillResult<T> = Refilled(board: Board<T>, rest: seq<T>) | Exhausted

  /** Some top-row tile from column `col` rightwards holds "*". */
  ghost predicate TopHoleFrom<T>(b: Board<T>, col: nat)
    requires b.Valid()
  {
    exists c :: col <= c < b.width && 0 < b.height && b.tiles[0][c].Empty?
  }

  /** How far the helper, at column `col`, may still walk before it reaches a "*" in
      the top row: to the end of the row, or once around. */
  ghost function Gap<T>(b: Board<T>, col: nat): nat
    requires b.Valid()
  {
    if col > b.width then 0
    else if TopHoleFrom(b, col) then b.width - col
    else 2 * b.width - col
  }

  /** The `refill` helper at column `col`. Every column must have settled, as it has
      after `shiftDownTiles`; on a board with a "*" under a tile that the top row
      cannot reach, the source's helper recurses forever. */
  function RefillFrom<T>(src: seq<T>, b: Board<T>, col: nat): (r: RefillResult<T>)
    requires b.Valid() && AllCompact(b) && (col < b.width || IsFull(b))
    decreases TotalHoles(b), Gap(b, col)
  {
    if IsFull(b) then Refilled(b, src)
    else if !b.tiles[0][col].Empty? then
      SkipStep(b, col);
      RefillFrom(src, b, (col + 1) % b.width)
    else if src == [] then Exhausted
    else
      var filled := ShiftDownTiles(SetTile(b, Position(0, col), Symbol(src[0])));
      FillStep(b, col, src[0]);
      RefillFrom(src[1..], filled, (col + 1) % b.width)
  }

  /** `refill`: the helper from column `0`. */
  function Refill<T>(src: seq<T>, b: Board<T>): (r: RefillResult<T>)
    requires b.Valid() && AllCompact(b)
  {
    RefillFrom(src, b, 0)
  }

  /** A board that is not full and has settled has a "*" in its top row. */
  lemma TopHoleOfSettled<T>(b: Board<T>)
    requires b.Valid() && AllCompact(b) && !IsFull(b)
    ensures 0 < b.height && exists c :: 0 <= c < b.width && b.tiles[0][c].Empty?
  {
    var r, c :| 0 <= r < b.height && 0 <= c < b.width && b.tiles[r][c].Empty?;
    var line := Column(b, c);
    assert line[r].Empty? && line[0] == b.tiles[0][c];
    assert IsCompact(line);
  }

  /** Walking past a top-row tile that is not "*" brings the helper nearer to one
      that is. */
  lemma SkipStep<T>(b: Board<T>, col: nat)
    requires b.Valid() && AllCompact(b) && col < b.width && !IsFull(b)
    requires 0 < b.height && !b.tiles[0][col].Empty?
    ensures Gap(b, (col + 1) % b.width) < Gap(b, col)
  {
    if col + 1 < b.width {
      assert (col + 1) % b.width == col + 1;
      SkipWithin(b, col);
    } else {
      assert (col + 1) % b.width == 0;
      SkipAround(b, col);
    }
  }

  /** Stepping right along the top row. */
  lemma SkipWithin<T>(b: Board<T>, col: nat)
    requires b.Valid() && col + 1 < b.width && 0 < b.height && !b.tiles[0][col].Empty?
    ensures Gap(b, col + 1) < Gap(b, col)
  {
    if TopHoleFrom(b, col + 1) {
      var c :| col + 1 <= c < b.width && b.tiles[0][c].Empty?;
      assert TopHoleFrom(b, col);
    } else if TopHoleFrom(b, col) {
      var c :| col <= c < b.width && b.tiles[0][c].Empty?;
      assert TopHoleFrom(b, col + 1);
    }
  }

  /** Wrapping around from the last column to the first. */
  lemma SkipAround<T>(b: Board<T>, col: nat)
    requires b.Valid() && AllCompact(b) && col + 1 == b.width && !IsFull(b)
    requires 0 < b.height && !b.tiles[0][col].Empty?
    ensures Gap(b, 0) < Gap(b, col)
  {
    TopHoleOfSettled(b);
    var c :| 0 <= c < b.width && b.tiles[0][c].Empty?;
    assert TopHoleFrom(b, 0);
    assert !TopHoleFrom(b, col);
  }

  /** A settled column with a "*" on top, after the top tile receives `v` and the
      column settles again: one "*" fewer, and `v` sits right above the tiles that
      were there. */
  lemma FillColumn<T>(col: seq<Cell<T>>, v: T)
    requires IsCompact(col) && 0 < |col| && col[0].Empty?
    ensures Compact(col[0 := Symbol(v)]) == Empties(Holes(col) - 1) + [Symbol(v)] + NonEmpty(col)
    ensures Holes(Compact(col[0 := Symbol(v)])) == Holes(col) - 1
    ensures NonEmpty(Compact(col[0 := Symbol(v)])) == [Symbol(v)] + NonEmpty(col)
  {
    var k, ne := Holes(col), NonEmpty(col);
    var filled := col[0 := Symbol(v)];
    assert filled == [Symbol(v)] + (Empties(k - 1) + ne) by {
      CompactOfCompact(col);
      HolesPositive(col, 0);
      assert col == Empties(k) + ne;
    }
    assert NonEmpty(filled) == [Symbol(v)] + ne by {
      NonEmptyAppend(Empties<T>(k - 1), ne);
      NonEmptyOfEmpties<T>(k - 1);
      NonEmptyHasNoHoles(col);
      NonEmptyOfFull(ne);
      assert NonEmpty(Empties<T>(k - 1) + ne) == ne;
      assert filled[1..] == Empties(k - 1) + ne;
    }
    assert Compact(filled) == Empties(k - 1) + ([Symbol(v)] + ne);
    CompactFacts(filled);
  }

  /** The columns of a board after `setTile` at `p`. */
  lemma ColumnOfSetTile<T>(b: Board<T>, p: Position, value: Cell<T>, c: nat)
    requires b.Valid() && InBounds(b, p) && c < b.width
    ensures Column(SetTile(b, p, value), c) ==
      if c == p.col then Column(b, c)[p.row := value] else Column(b, c)
  {
    var x := SetTile(b, p, value);
    forall r | 0 <= r < b.height
      ensures Column(x, c)[r] == Piece(x, Position(r, c))
      ensures Column(b, c)[r] == Piece(b, Position(r, c))
    {
    }
  }

  /** Filling the "*" on top of column `col` with `v` and letting gravity act: the
      other columns are unchanged, that column gains `v` above its tiles, the board
      stays settled and has one "*" fewer. */
  lemma FillStep<T>(b: Board<T>, col: nat, v: T)
    requires b.Valid() && AllCompact(b) && col < b.width && 0 < b.height && b.tiles[0][col].Empty?
    ensures var filled := ShiftDownTiles(SetTile(b, Position(0, col), Symbol(v)));
      && AllCompact(filled)
      && TotalHoles(filled) == TotalHoles(b) - 1
      && (forall c :: 0 <= c < b.width && c != col ==> Column(filled, c) == Column(b, c))
      && Holes(Column(filled, col)) == Holes(Column(b, col)) - 1
      && NonEmpty(Column(filled, col)) == [Symbol(v)] + NonEmpty(Column(b, col))
  {
    var set_ := SetTile(b, Position(0, col), Symbol(v));
    var filled := ShiftDownTiles(set_);
    ShiftDownTilesSettles(set_);
    ShiftDownTilesKeepsTiles(set_);
    forall c | 0 <= c < b.width && c != col ensures Column(filled, c) == Column(b, c) {
      ColumnOfSetTile(b, Position(0, col), Symbol(v), c);
      CompactOfCompact(Column(b, c));
    }
    ColumnOfSetTile(b, Position(0, col), Symbol(v), col);
    FillColumn(Column(b, col), v);
    HolesFromOneLess(b, filled, col, 0);
  }

  /** Two boards whose columns hold the same numbers of "*" tiles except column
      `col`, which has one more in `x`. */
  lemma {:induction false} HolesFromOneLess<T>(x: Board<T>, y: Board<T>, col: nat, c: nat)
    requires x.Valid() && y.Valid() && x.width == y.width && x.height == y.height && col < x.width
    requires forall c' :: 0 <= c' < x.width && c' != col ==> Holes(Column(x, c')) == Holes(Column(y, c'))
    requires Holes(Column(x, col)) == Holes(Column(y, col)) + 1
    ensures HolesFrom(x, c) == HolesFrom(y, c) + if c <= col then 1 else 0
    decreases x.width - c
  {
    if c < x.width {
      HolesFromOneLess(x, y, col, c + 1);
    }
  }

  /** A board is full exactly when it has no "*" tile. */
  lemma {:induction false} HolesFromZero<T>(b: Board<T>, c: nat)
    requires b.Valid()
    ensures HolesFrom(b, c) == 0 <==>
      forall r, c' :: 0 <= r < b.height && c <= c' < b.width ==> !b.tiles[r][c'].Empty?
    decreases b.width - c
  {
    if c < b.width {
      HolesFromZero(b, c + 1);
      NoHoles(Column(b, c));
      if HolesFrom(b, c) != 0 && Holes(Column(b, c)) != 0 {
        var r :| 0 <= r < b.height && Column(b, c)[r].Empty?;
        assert b.tiles[r][c].Empty?;
      }
    }
  }

  lemma FullHasNoHoles<T>(b: Board<T>)
    requires b.Valid()
    ensures IsFull(b) <==> TotalHoles(b) == 0
  {
    HolesFromZero(b, 0);
  }

  /** The properties of `refill` on a settled board, each round of the helper kept
      by the next: it fails exactly when the generator has fewer values than there
      are "*" tiles; otherwise it takes exactly that many values, in order, leaves no
      "*", and in each column keeps the old tiles at the bottom, in their order, under
      the new values. */
  lemma {:induction false} RefillFromSpec<T>(src: seq<T>, b: Board<T>, col: nat)
    requires b.Valid() && AllCompact(b) && (col < b.width || IsFull(b))
    ensures RefillFrom(src, b, col).Exhausted? <==> |src| < TotalHoles(b)
    ensures RefillFrom(src, b, col).Refilled? ==>
      var r := RefillFrom(src, b, col);
      && r.board.Valid() && r.board.width == b.width && r.board.height == b.height
      && IsFull(r.board)
      && r.rest == src[TotalHoles(b)..]
      && forall c :: 0 <= c < b.width ==>
           Column(r.board, c)[Holes(Column(b, c))..] == NonEmpty(Column(b, c))
    decreases TotalHoles(b), Gap(b, col)
  {
    FullHasNoHoles(b);
    if IsFull(b) {
      forall c | 0 <= c < b.width ensures Column(b, c)[Holes(Column(b, c))..] == NonEmpty(Column(b, c)) {
        NonEmptyOfFull(Column(b, c));
      }
    } else if !b.tiles[0][col].Empty? {
      SkipStep(b, col);
      RefillFromSpec(src, b, (col + 1) % b.width);
    } else if src == [] {
    } else {
      RefillFromFill(src, b, col);
    }
  }

  lemma {:induction false} RefillFromFill<T>(src: seq<T>, b: Board<T>, col: nat)
    requires b.Valid() && AllCompact(b) && col < b.width && !IsFull(b)
    requires 0 < b.height && b.tiles[0][col].Empty? && src != []
    ensures RefillFrom(src, b, col).Exhausted? <==> |src| < TotalHoles(b)
    ensures RefillFrom(src, b, col).Refilled? ==>
      var r := RefillFrom(src, b, col);
      && r.board.Valid() && r.board.width == b.width && r.board.height == b.height
      && IsFull(r.board)
      && r.rest == src[TotalHoles(b)..]
      && forall c :: 0 <= c < b.width ==>
           Column(r.board, c)[Holes(Column(b, c))..] == NonEmpty(Column(b, c))
    decreases TotalHoles(b), 0
  {
    var filled := ShiftDownTiles(SetTile(b, Position(0, col), Symbol(src[0])));
    FillStep(b, col, src[0]);
    var next := (col + 1) % b.width;
    assert RefillFrom(src, b, col) == RefillFrom(src[1..], filled, next);
    RefillFromSpec(src[1..], filled, next);
    var r := RefillFrom(src, b, col);
    if r.Refilled? {
      assert src[1..][TotalHoles(filled)..] == src[TotalHoles(b)..];
      ColumnsUnderFill(b, filled, r.board, col, src[0]);
    }
  }

  /** One round of the helper, column by column: what lies under the new values in
      the final board after the round is what lay under them before it. */
  lemma ColumnsUnderFill<T>(b: Board<T>, filled: Board<T>, last: Board<T>, col: nat, v: T)
    requires b.Valid() && filled.Valid() && last.Valid() && col < b.width
    requires filled.width == b.width == last.width && filled.height == b.height == last.height
    requires forall c :: 0 <= c < b.width && c != col ==> Column(filled, c) == Column(b, c)
    requires Holes(Column(filled, col)) == Holes(Column(b, col)) - 1
    requires NonEmpty(Column(filled, col)) == [Symbol(v)] + NonEmpty(Column(b, col))
    requires forall c :: 0 <= c < b.width ==>
      Column(last, c)[Holes(Column(filled, c))..] == NonEmpty(Column(filled, c))
    ensures forall c :: 0 <= c < b.width ==>
      Column(last, c)[Holes(Column(b, c))..] == NonEmpty(Column(b, c))
  {
    forall c | 0 <= c < b.width
      ensures Column(last, c)[Holes(Column(b, c))..] == NonEmpty(Column(b, c))
    {
      if c == col {
        var k := Holes(Column(b, c));
        var line := Column(last, c);
        assert line[k - 1..] == [Symbol(v)] + NonEmpty(Column(b, c));
        assert line[k..] == line[k - 1..][1..];
      } else {
        assert Column(filled, c) == Column(b, c);
      }
    }
  }
}
