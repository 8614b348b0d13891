/** The board of the functional engine (functional/src/board.ts): a width × height
    grid of tiles addressed by `{row, col}`, and the operations that create it, look
    tiles up and write them. Every operation returns a new board. */
module Grid {
  import opened Lines

  datatype Position = Position(row: int, col: int)

  /** A board. The source keeps a list of `{value, position}` tiles and finds each
      tile by its position; here the tile at `{row: r, col: c}` is `tiles[r][c]`. */
  datatype Board<T> = Board(width: nat, height: nat, tiles: seq<seq<Cell<T>>>)
  {
    /** One tile per position of the rectangle, no more. */
    ghost predicate Valid()
    {
      |tiles| == height && forall r :: 0 <= r < height ==> |tiles[r]| == width
    }
  }

  predicate InBounds<T>(b: Board<T>, p: Position)
  {
    0 <= p.row < b.height && 0 <= p.col < b.width
  }

  /** A move whose two positions differ in both row and column. */
  predicate IsDiagonalMove(first: Position, second: Position)
  {
    first.col != second.col && first.row != second.row
  }

  /** `piece`: the value of the tile at `p`, or `undefined` when no tile has that
      position. */
  function Piece<T>(b: Board<T>, p: Position): Cell<T>
    requires b.Valid()
  {
    if InBounds(b, p) then b.tiles[p.row][p.col] else Undefined
  }

  /** Two boards of the same size that agree on every lookup are equal. */
  lemma BoardsEqual<T>(a: Board<T>, b: Board<T>)
    requires a.Valid() && b.Valid() && a.width == b.width && a.height == b.height
    requires forall p :: Piece(a, p) == Piece(b, p)
    ensures a == b
  {
    forall r | 0 <= r < a.height
      ensures a.tiles[r] == b.tiles[r]
    {
      forall c | 0 <= c < a.width
        ensures a.tiles[r][c] == b.tiles[r][c]
      {
        assert Piece(a, Position(r, c)) == Piece(b, Position(r, c));
      }
    }
  }

  /** The positions of row `r`, left to right, for columns `0 .. n - 1`. */
  function RowPositions(r: nat, n: nat): (ps: seq<Position>)
    ensures |ps| == n
    ensures forall i :: 0 <= i < n ==> ps[i] == Position(r, i)
  {
    if n == 0 then [] else RowPositions(r, n - 1) + [Position(r, n - 1)]
  }

  /** `s` back to front. */
  function Reverse<A>(s: seq<A>): (r: seq<A>)
    ensures |r| == |s| && forall i :: 0 <= i < |s| ==> r[i] == s[|s| - 1 - i]
  {
    if s == [] then [] else Reverse(s[1..]) + [s[0]]
  }

  /** Row-major order: by row, then by column. */
  predicate Before(p: Position, q: Position)
  {
    p.row < q.row || (p.row == q.row && p.col < q.col)
  }

  /** The positions of the first `h` rows of a board `w` tiles wide, row-major. */
  function RowMajor(h: nat, w: nat): (ps: seq<Position>)
    ensures forall i :: 0 <= i < |ps| ==> 0 <= ps[i].row < h && 0 <= ps[i].col < w
  {
    if h == 0 then [] else RowMajor(h - 1, w) + RowPositions(h - 1, w)
  }

  lemma {:induction false} RowMajorLength(h: nat, w: nat)
    ensures |RowMajor(h, w)| == h * w
  {
    if h > 0 {
      RowMajorLength(h - 1, w);
      MulStep(w, h);
    }
  }

  /** Row-major order lists every position of the rectangle. */
  lemma {:induction false} RowMajorHas(h: nat, w: nat, p: Position)
    requires 0 <= p.row < h && 0 <= p.col < w
    ensures p in RowMajor(h, w)
  {
    var top, last := RowMajor(h - 1, w), RowPositions(h - 1, w);
    assert RowMajor(h, w) == top + last;
    if p.row == h - 1 {
      assert last[p.col] == p;
      assert (top + last)[|top| + p.col] == p;
    } else {
      RowMajorHas(h - 1, w, p);
      var i :| 0 <= i < |top| && top[i] == p;
      assert (top + last)[i] == p;
    }
  }

  lemma RowMajorCovers(h: nat, w: nat)
    ensures forall p :: p in RowMajor(h, w) <==> 0 <= p.row < h && 0 <= p.col < w
  {
    forall p: Position | 0 <= p.row < h && 0 <= p.col < w ensures p in RowMajor(h, w) {
      RowMajorHas(h, w, p);
    }
  }

  /** Row-major order lists the positions in order, so each once. */
  lemma {:induction false} RowMajorSorted(h: nat, w: nat)
    ensures forall i, j :: 0 <= i < j < |RowMajor(h, w)| ==> Before(RowMajor(h, w)[i], RowMajor(h, w)[j])
  {
    if h > 0 {
      RowMajorSorted(h - 1, w);
      var top, last := RowMajor(h - 1, w), RowPositions(h - 1, w);
      var all := RowMajor(h, w);
      assert all == top + last;
      forall i, j | 0 <= i < j < |all| ensures Before(all[i], all[j]) {
        if j < |top| {
          assert all[i] == top[i] && all[j] == top[j];
        } else if i < |top| {
          assert all[i] == top[i] && all[j] == last[j - |top|];
        } else {
          assert all[i] == last[i - |top|] && all[j] == last[j - |top|];
        }
      }
    }
  }

  /** `positions`: every position of the board once, in row-major order. */
  function Positions<T>(b: Board<T>): (ps: seq<Position>)
    ensures |ps| == b.width * b.height
    ensures forall p :: p in ps <==> InBounds(b, p)
    ensures forall i, j :: 0 <= i < j < |ps| ==> Before(ps[i], ps[j])
  {
    RowMajorLength(b.height, b.width);
    RowMajorCovers(b.height, b.width);
    RowMajorSorted(b.height, b.width);
    RowMajor(b.height, b.width)
  }

  /** Generator values as tiles. */
  function Lift<T>(vs: seq<T>): (cs: seq<Cell<T>>)
    ensures |cs| == |vs| && forall i :: 0 <= i < |vs| ==> cs[i] == Symbol(vs[i])
  {
    seq(|vs|, i requires 0 <= i < |vs| => Symbol(vs[i]))
  }

  lemma MulStep(w: nat, h: nat)
    requires h > 0
    ensures w * h == w + w * (h - 1) && h * w == w + (h - 1) * w
  {
  }

  /** `generateTiles`: `h` rows of `w` tiles; each row takes the next `w` values of
      the generator. */
  function GenerateRows<T>(src: seq<T>, w: nat, h: nat): (rows: seq<seq<Cell<T>>>)
    requires |src| >= w * h
    ensures |rows| == h && forall r :: 0 <= r < h ==> |rows[r]| == w
  {
    if h == 0 then []
    else
      MulStep(w, h);
      [Lift(src[..w])] + GenerateRows(src[w..], w, h - 1)
  }

  /** The tile in row `r`, column `c` holds the generator's value number
      `r * w + c`: the board is filled row-major from successive values. */
  lemma {:induction false} GenerateRowsCell<T>(src: seq<T>, w: nat, h: nat, r: nat, c: nat)
    requires |src| >= w * h && r < h && c < w
    ensures r * w + c < |src| && GenerateRows(src, w, h)[r][c] == Symbol(src[r * w + c])
  {
    MulStep(w, h);
    var rest := GenerateRows(src[w..], w, h - 1);
    assert GenerateRows(src, w, h) == [Lift(src[..w])] + rest;
    if r == 0 {
      assert r * w == 0;
    } else {
      var k := (r - 1) * w + c;
      GenerateRowsCell(src[w..], w, h - 1, r - 1, c);
      assert k < |src| - w && rest[r - 1][c] == Symbol(src[w + k]);
      MulStep(w, r);
      assert r * w + c == w + k;
    }
  }

  /** `create`: a `width` × `height` board filled from the generator, and what the
      generator has left. The generator must not run dry. */
  function Create<T>(src: seq<T>, width: nat, height: nat): (r: (Board<T>, seq<T>))
    requires |src| >= width * height
    ensures r.0.Valid() && r.0.width == width && r.0.height == height
  {
    (Board(width, height, GenerateRows(src, width, height)), src[width * height..])
  }

  /** `create` consumes exactly `width * height` values, and the tile at
      `{row: r, col: c}` holds value number `r * width + c`. */
  lemma CreateFillsRowMajor<T>(src: seq<T>, width: nat, height: nat, r: nat, c: nat)
    requires |src| >= width * height && r < height && c < width
    ensures |src| - |Create(src, width, height).1| == width * height
    ensures Create(src, width, height).1 == src[width * height..]
    ensures r * width + c < |src|
    ensures Piece(Create(src, width, height).0, Position(r, c)) == Symbol(src[r * width + c])
  {
    GenerateRowsCell(src, width, height, r, c);
  }

  /** `setTile`: the board with the tile at `p` given `value`; a position off the
      board matches no tile and changes nothing. */
  function SetTile<T>(b: Board<T>, p: Position, value: Cell<T>): (r: Board<T>)
    requires b.Valid()
    ensures r.Valid() && r.width == b.width && r.height == b.height
    ensures forall q :: Piece(r, q) == if q == p && InBounds(b, p) then value else Piece(b, q)
  {
    if InBounds(b, p) then b.(tiles := b.tiles[p.row := b.tiles[p.row][p.col := value]]) else b
  }

  /** `swapTiles`: every tile is rebuilt; the tile at `first` takes the value found
      at `second` and the tile at `second` the value found at `first`. A partner off
      the board yields `undefined`, which is what the tile then holds. */
  function SwapTiles<T>(b: Board<T>, first: Position, second: Position): (r: Board<T>)
    requires b.Valid()
    ensures r.Valid() && r.width == b.width && r.height == b.height
    ensures forall q :: Piece(r, q) ==
              if InBounds(b, q) && q == first then Piece(b, second)
              else if InBounds(b, q) && q == second then Piece(b, first)
              else Piece(b, q)
  {
    var tiles := seq(b.height, row requires 0 <= row < b.height =>
                   seq(b.width, col requires 0 <= col < b.width =>
                     var q := Position(row, col);
                     if q == first then Piece(b, second)
                     else if q == second then Piece(b, first)
                     else b.tiles[row][col]));
    Board(b.width, b.height, tiles)
  }

  /** Swapping two tiles on the board twice gives the board back. */
  lemma SwapTwice<T>(b: Board<T>, first: Position, second: Position)
    requires b.Valid() && InBounds(b, first) && InBounds(b, second)
    ensures SwapTiles(SwapTiles(b, first, second), first, second) == b
  {
    BoardsEqual(SwapTiles(SwapTiles(b, first, second), first, second), b);
  }

  /** `removeTiles`: each listed position in turn is set to "*". */
  function RemoveTiles<T>(b: Board<T>, ps: seq<Position>): (r: Board<T>)
    requires b.Valid()
    ensures r.Valid() && r.width == b.width && r.height == b.height
    ensures forall q :: Piece(r, q) == if InBounds(b, q) && q in ps then Empty else Piece(b, q)
    decreases |ps|
  {
    if ps == [] then b else RemoveTiles(SetTile(b, ps[0], Empty), ps[1..])
  }

  /** Removal depends only on the set of listed positions: order and repetition do
      not matter. */
  lemma RemoveTilesAsSet<T>(b: Board<T>, ps: seq<Position>, qs: seq<Position>)
    requires b.Valid() && (set p | p in ps) == (set q | q in qs)
    ensures RemoveTiles(b, ps) == RemoveTiles(b, qs)
  {
    var x, y := RemoveTiles(b, ps), RemoveTiles(b, qs);
    var both := set p | p in ps;
    forall p ensures Piece(x, p) == Piece(y, p) {
      assert p in ps <==> p in both;
      assert p in qs <==> p in both;
    }
    BoardsEqual(x, y);
  }

  /** Removing one list and then another is removing their concatenation. */
  lemma {:induction false} RemoveTilesAppend<T>(b: Board<T>, ps: seq<Position>, qs: seq<Position>)
    requires b.Valid()
    ensures RemoveTiles(RemoveTiles(b, ps), qs) == RemoveTiles(b, ps + qs)
  {
    var x, y := RemoveTiles(RemoveTiles(b, ps), qs), RemoveTiles(b, ps + qs);
    forall p ensures Piece(x, p) == Piece(y, p) {
      assert p in ps + qs <==> p in ps || p in qs;
    }
    BoardsEqual(x, y);
  }

  /** Row `r` of the board, left to right. */
  function Row<T>(b: Board<T>, r: nat): (line: seq<Cell<T>>)
    requires b.Valid() && r < b.height
    ensures |line| == b.width
  {
    b.tiles[r]
  }

  /** Column `c` of the board, top to bottom. */
  function Column<T>(b: Board<T>, c: nat): (line: seq<Cell<T>>)
    requires b.Valid() && c < b.width
    ensures |line| == b.height
    ensures forall r :: 0 <= r < b.height ==> line[r] == b.tiles[r][c]
  {
    seq(b.height, r requires 0 <= r < b.height => b.tiles[r][c])
  }

  /** Two boards of the same size with the same columns are equal. */
  lemma BoardsEqualByColumns<T>(a: Board<T>, b: Board<T>)
    requires a.Valid() && b.Valid() && a.width == b.width && a.height == b.height
    requires forall c :: 0 <= c < a.width ==> Column(a, c) == Column(b, c)
    ensures a == b
  {
    forall p ensures Piece(a, p) == Piece(b, p) {
      if InBounds(a, p) {
        assert Column(a, p.col)[p.row] == Column(b, p.col)[p.row];
      }
    }
    BoardsEqual(a, b);
  }

  /** `boardIsFull`: no tile holds "*". */
  predicate IsFull<T>(b: Board<T>)
    requires b.Valid()
  {
    forall r, c :: 0 <= r < b.height && 0 <= c < b.width ==> !b.tiles[r][c].Empty?
  }
}
