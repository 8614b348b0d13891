/** The mutable engine (oo/src/board.ts): a `Board` object whose tiles change in
    place, which keeps the matches of its last scan in a field and tells its
    listeners about every match it removes and every refill. Each method is proved
    to do to the object what the corresponding function of the pure engine does to
    a board value: `Model()` is the board value the tiles spell out. */
module OoBoard {
  import opened Lines
  import opened Grid
  import opened Gravity
  import opened Refill
  import opened Detection
  import opened Cascade

  /** `BoardEvent`: a match that was removed, or a refill. Listeners are not
      modelled; the events they would receive are appended to `events`. */
  datatype Event<T> = MatchEvent(found: Match<T>) | RefillEvent

  /** The events a listener receives for the effects of the pure engine: a match
      event per match effect, a refill event per refill effect. */
  function EventsOf<T>(effects: seq<Effect<T>>): (es: seq<Event<T>>)
    ensures |es| == |effects|
  {
    if effects == [] then []
    else EventsOf(effects[..|effects| - 1]) + [EventOf(effects[|effects| - 1])]
  }

  /** The event a listener receives for one effect. */
  function EventOf<T>(e: Effect<T>): Event<T>
  {
    if e.MatchEffect? then MatchEvent(e.found) else RefillEvent
  }

  /** Event `i` is the event of effect `i`. */
  lemma {:induction false} EventsOfAt<T>(effects: seq<Effect<T>>)
    ensures forall i :: 0 <= i < |effects| ==> EventsOf(effects)[i] == EventOf(effects[i])
  {
    if effects != [] {
      var init := effects[..|effects| - 1];
      EventsOfAt(init);
      assert forall i :: 0 <= i < |init| ==> init[i] == effects[i];
    }
  }

  /** The events of one round: the round's match events, then a refill event. */
  lemma EventsOfRound<T>(effects: seq<Effect<T>>, ms: seq<Match<T>>, next: Grid.Board<T>)
    ensures EventsOf(effects + MatchEffects(ms) + [RefillEffect(next)])
         == EventsOf(effects) + EventsOf(MatchEffects(ms)) + [RefillEvent]
  {
    var all := effects + MatchEffects(ms) + [RefillEffect(next)];
    EventsOfAt(all);
    EventsOfAt(effects);
    EventsOfAt(MatchEffects(ms));
    assert forall i :: 0 <= i < |all| ==>
      EventsOf(all)[i] == (EventsOf(effects) + EventsOf(MatchEffects(ms)) + [RefillEvent])[i];
  }

  /** The events fired after `fired` by one more round, seen as the events of the
      effects logged so far and of that round. */
  lemma FiredRound<T>(fired: seq<Event<T>>, effects: seq<Effect<T>>, ms: seq<Match<T>>, next: Grid.Board<T>)
    ensures fired + EventsOf(effects) + EventsOf(MatchEffects(ms)) + [RefillEvent]
         == fired + EventsOf(effects + MatchEffects(ms) + [RefillEffect(next)])
  {
    EventsOfRound(effects, ms, next);
  }

  /** The match events of `ms` and then of `m`. */
  lemma MatchEventsAppend<T>(ms: seq<Match<T>>, m: Match<T>)
    ensures EventsOf(MatchEffects(ms + [m])) == EventsOf(MatchEffects(ms)) + [MatchEvent(m)]
  {
    EventsOfAt(MatchEffects(ms + [m]));
    EventsOfAt(MatchEffects(ms));
    MatchEffectsAt(ms + [m]);
    MatchEffectsAt(ms);
    assert forall i :: 0 <= i < |ms| + 1 ==>
      EventsOf(MatchEffects(ms + [m]))[i] == (EventsOf(MatchEffects(ms)) + [MatchEvent(m)])[i];
  }

  /** The positions of `ms` and then of `m`. */
  lemma {:induction false} AllPositionsAppend<T>(ms: seq<Match<T>>, m: Match<T>)
    ensures AllPositions(ms + [m]) == AllPositions(ms) + m.positions
  {
    if ms == [] {
      assert [m][1..] == [];
    } else {
      assert (ms + [m])[1..] == ms[1..] + [m];
      AllPositionsAppend(ms[1..], m);
    }
  }

  /** Every position `findMatches` reports is on the board. */
  lemma AllFoundOnBoard<T>(b: Grid.Board<T>)
    requires b.Valid()
    ensures forall p :: p in AllPositions(FindMatches(b)) ==> InBounds(b, p)
  {
    var ms := FindMatches(b);
    AllPositionsHas(ms);
    forall p | p in AllPositions(ms) ensures InBounds(b, p) {
      var i :| 0 <= i < |ms| && p in ms[i].positions;
      FoundMatchOnBoard(b, ms[i]);
    }
  }

  /** One match of `handleMatches`'s loop: its positions join those removed so far
      and its event those fired so far. Its positions are on the board. */
  lemma HandleStep<T>(b: Grid.Board<T>, ms: seq<Match<T>>, k: nat)
    requires b.Valid() && k < |ms| && forall p :: p in AllPositions(ms) ==> InBounds(b, p)
    ensures forall i :: 0 <= i < |ms[k].positions| ==> InBounds(b, ms[k].positions[i])
    ensures Grid.RemoveTiles(Grid.RemoveTiles(b, AllPositions(ms[..k])), ms[k].positions)
         == Grid.RemoveTiles(b, AllPositions(ms[..k + 1]))
    ensures EventsOf(MatchEffects(ms[..k])) + [MatchEvent(ms[k])] == EventsOf(MatchEffects(ms[..k + 1]))
  {
    assert ms[..k + 1] == ms[..k] + [ms[k]];
    AllPositionsHas(ms);
    RemoveTilesAppend(b, AllPositions(ms[..k]), ms[k].positions);
    AllPositionsAppend(ms[..k], ms[k]);
    MatchEventsAppend(ms[..k], ms[k]);
  }

  /** What `canMove` answers: both positions hold a tile and the swap is one the
      functional `canMove` allows. */
  predicate Allowed<T(==)>(b: Grid.Board<T>, first: Position, second: Position)
    requires b.Valid()
  {
    !Grid.Piece(b, first).Undefined? && !Grid.Piece(b, second).Undefined? && Cascade.CanMove(b, first, second)
  }

  /** `canMove` gets past its two early refusals, the diagonal move and the
      position without a tile, and scans the swapped board. */
  predicate ReachesScan<T>(b: Grid.Board<T>, first: Position, second: Position)
    requires b.Valid()
  {
    !IsDiagonalMove(first, second) && !Grid.Piece(b, first).Undefined? && !Grid.Piece(b, second).Undefined?
  }

  /** No tile of the board holds `undefined`. */
  ghost predicate Defined<T>(b: Grid.Board<T>)
    requires b.Valid()
  {
    forall r, c :: 0 <= r < b.height && 0 <= c < b.width ==> !b.tiles[r][c].Undefined?
  }

  /** On a board whose tiles all hold values, `canMove` allows a swap exactly when
      both positions are on the board, the swap is along a row or a column, and
      afterwards three equal tiles stand in a line. */
  lemma AllowedOnDefined<T>(b: Grid.Board<T>, first: Position, second: Position)
    requires b.Valid() && Defined(b)
    ensures Allowed(b, first, second) <==>
      InBounds(b, first) && InBounds(b, second) && !IsDiagonalMove(first, second)
      && HasThreeInLine(Grid.SwapTiles(b, first, second))
  {
  }

  /** One row of `shiftDownTiles`'s loop, seen from the rows still to go. */
  lemma RowSettled<T>(before: Grid.Board<T>, after: Grid.Board<T>, row: nat, target: Grid.Board<T>)
    requires before.Valid() && 0 < row <= before.height
    requires after == FloatRow(before, row - 1, before.width)
    requires FloatRows(before, row) == target
    ensures FloatRows(after, row - 1) == target
  {
    FloatRowsStep(before, row);
  }

  /** One tile of `shiftDownTiles`'s loop, seen from the rest of its row. */
  lemma TileSettled<T>(before: Grid.Board<T>, after: Grid.Board<T>, row: nat, col: nat, target: Grid.Board<T>)
    requires before.Valid() && row < before.height && 0 < col <= before.width
    requires after == Gravity.HandleFloaters(before, Position(row, col - 1))
    requires FloatRow(before, row, col) == target
    ensures FloatRow(after, row, col - 1) == target
  {
    FloatRowStep(before, row, col);
  }

  /** The column after `col` in `replaceTiles`'s passes, the first one after the last. */
  function NextColumn(col: nat, width: nat): (next: nat)
    requires col < width
    ensures next < width && next == (col + 1) % width
  {
    if col + 1 < width then col + 1 else 0
  }

  /** A visit of `replaceTiles` to the top tile of column `col` does what the
      functional `refill` helper does there: a tile with a value is passed over; a
      "*" takes the next value of the generator, and the tiles settle; with the
      generator dry the refill fails. */
  lemma RefillVisit<T>(src: seq<T>, b: Grid.Board<T>, col: nat)
    requires b.Valid() && AllCompact(b) && col < b.width && 0 < b.height
    ensures !b.tiles[0][col].Empty? ==>
      RefillFrom(src, b, col) == RefillFrom(src, b, NextColumn(col, b.width))
    ensures b.tiles[0][col].Empty? && src == [] ==> RefillFrom(src, b, col) == Exhausted
    ensures b.tiles[0][col].Empty? && src != [] ==>
      var filled := Gravity.ShiftDownTiles(Grid.SetTile(b, Position(0, col), Symbol(src[0])));
      && AllCompact(filled) && TotalHoles(filled) < TotalHoles(b)
      && RefillFrom(src, b, col) == RefillFrom(src[1..], filled, NextColumn(col, b.width))
  {
    if b.tiles[0][col].Empty? {
      assert !IsFull(b);
      if src != [] {
        FillStep(b, col, src[0]);
      }
    } else if IsFull(b) {
      assert RefillFrom(src, b, NextColumn(col, b.width)) == Refilled(b, src);
    }
  }

  /** A settled board whose top row holds no "*" is full. */
  lemma FullOfTopRow<T>(b: Grid.Board<T>)
    requires b.Valid() && AllCompact(b)
    requires forall c :: 0 <= c < b.width ==> !Grid.Piece(b, Position(0, c)).Empty?
    ensures IsFull(b)
  {
    forall r, c | 0 <= r < b.height && 0 <= c < b.width ensures !b.tiles[r][c].Empty? {
      var line := Column(b, c);
      assert IsCompact(line);
      assert line[0] == b.tiles[0][c] == Grid.Piece(b, Position(0, c));
      assert line[r] == b.tiles[r][c];
    }
  }

  /** One round of `move`'s loop, in the terms of the functional `processMove`
      helper: the refill either fails, and so does the move, or it gives a board of
      the same size, takes at least one value, and the helper goes on from there. */
  lemma RoundOnce<T>(src: seq<T>, b: Grid.Board<T>, effects: seq<Effect<T>>)
    requires b.Valid() && FindMatches(b) != []
    ensures var ms, r := FindMatches(b), Refill.Refill(src, Cleared(b, FindMatches(b)));
      && (r.Exhausted? ==> Rounds(src, b, ms, effects) == SourceExhausted)
      && (r.Refilled? ==>
            && r.board.Valid() && r.board.width == b.width && r.board.height == b.height
            && |r.rest| < |src|
            && Rounds(src, b, ms, effects)
               == Rounds(r.rest, r.board, FindMatches(r.board), effects + MatchEffects(ms) + [RefillEffect(r.board)]))
  {
    RefillFromSpec(src, Cleared(b, FindMatches(b)), 0);
    MatchesLeaveHoles(b);
  }

  class Board<T(==)> {
    const width: nat
    const height: nat
    /** The tiles, row by row: the tile at `{row: r, col: c}` is `tiles[r][c]`. */
    var tiles: seq<seq<Cell<T>>>
    /** What the generator has still to give. */
    var source: seq<T>
    /** The matches of the last scan. */
    var matches: seq<Match<T>>
    /** The events fired so far. */
    var events: seq<Event<T>>

    /** The board value the tiles spell out. */
    function Model(): Grid.Board<T>
      reads this
    {
      Grid.Board(width, height, tiles)
    }

    ghost predicate Valid()
      reads this
    {
      Model().Valid()
    }

    /** The constructor: a `width` by `height` board filled by `generateBoard`. */
    constructor(src: seq<T>, width: nat, height: nat)
      requires |src| >= width * height
      ensures Valid() && this.width == width && this.height == height
      ensures (Model(), source) == Grid.Create(src, width, height)
      ensures matches == [] && events == []
    {
      this.width := width;
      this.height := height;
      this.tiles := [];
      this.source := src;
      this.matches := [];
      this.events := [];
      new;
      GenerateBoard();
    }

    /** `generateBoard`: row by row, left to right, each tile takes the next value
        of the generator. */
    method GenerateBoard()
      requires tiles == [] && |source| >= width * height
      modifies this
      ensures Valid() && (Model(), source) == Grid.Create(old(source), width, height)
      ensures matches == old(matches) && events == old(events)
    {
      ghost var src := source;
      ghost var made := Grid.Create(src, width, height).0;
      var i := 0;
      while i < height
        invariant 0 <= i <= height && |tiles| == i
        invariant forall r :: 0 <= r < i ==> tiles[r] == made.tiles[r]
        invariant |source| <= |src| && source == src[|src| - |source|..]
        invariant |src| - |source| == width * i
        invariant matches == old(matches) && events == old(events)
      {
        var row: seq<Cell<T>> := [];
        var j := 0;
        while j < width
          invariant 0 <= j <= width && |row| == j
          invariant forall c :: 0 <= c < j ==> row[c] == made.tiles[i][c]
          invariant |tiles| == i && forall r :: 0 <= r < i ==> tiles[r] == made.tiles[r]
          invariant |source| <= |src| && source == src[|src| - |source|..]
          invariant |src| - |source| == width * i + j
          invariant matches == old(matches) && events == old(events)
        {
          CreateFillsRowMajor(src, width, height, i, j);
          assert i * width == width * i;
          row := row + [Symbol(source[0])];
          source := source[1..];
          j := j + 1;
        }
        assert row == made.tiles[i];
        tiles := tiles + [row];
        MulStep(width, i + 1);
        i := i + 1;
      }
      assert tiles == made.tiles;
    }

    /** `piece`: the value at `p`, `undefined` when no tile has that position. */
    function Piece(p: Position): (v: Cell<T>)
      reads this
      requires Valid()
      ensures v == Grid.Piece(Model(), p)
    {
      if 0 <= p.row < height && 0 <= p.col < width then tiles[p.row][p.col] else Undefined
    }

    /** `setTile`: the tile at `p` takes `value`. The source throws when no tile
        has that position. */
    method SetTile(p: Position, value: Cell<T>)
      requires Valid() && InBounds(Model(), p)
      modifies this
      ensures Valid() && Model() == Grid.SetTile(old(Model()), p, value)
      ensures source == old(source) && matches == old(matches) && events == old(events)
    {
      tiles := tiles[p.row := tiles[p.row][p.col := value]];
    }

    /** `swapTiles`: the two tiles exchange their values. */
    method SwapTiles(first: Position, second: Position)
      requires Valid() && InBounds(Model(), first) && InBounds(Model(), second)
      modifies this
      ensures Valid() && Model() == Grid.SwapTiles(old(Model()), first, second)
      ensures source == old(source) && matches == old(matches) && events == old(events)
    {
      var firstValue := Piece(first);
      var secondValue := Piece(second);
      SetTile(first, secondValue);
      SetTile(second, firstValue);
      BoardsEqual(Model(), Grid.SwapTiles(old(Model()), first, second));
    }

    /** `isOutOfBounds`: either position gives `undefined`. On a board where no
        tile holds `undefined`, that is exactly a position off the board. */
    method IsOutOfBounds(first: Position, second: Position) returns (out: bool)
      requires Valid()
      ensures out <==> Grid.Piece(Model(), first).Undefined? || Grid.Piece(Model(), second).Undefined?
      ensures !out ==> InBounds(Model(), first) && InBounds(Model(), second)
      ensures Defined(Model()) ==> (out <==> !(InBounds(Model(), first) && InBounds(Model(), second)))
    {
      var p1 := Piece(first);
      var p2 := Piece(second);
      out := p1 == Undefined || p2 == Undefined;
    }

    /** `handleFloaters`: while the tile below `p` holds "*", the two swap and the
        tile is followed down. */
    method HandleFloaters(p: Position)
      requires Valid() && InBounds(Model(), p)
      modifies this
      ensures Valid() && Model() == Gravity.HandleFloaters(old(Model()), p)
      ensures source == old(source) && matches == old(matches) && events == old(events)
      decreases height - p.row
    {
      var below := Position(p.row + 1, p.col);
      var valueBelow := Piece(below);
      if valueBelow == Empty {
        SwapTiles(below, p);
        HandleFloaters(below);
      }
    }

    /** `shiftDownTiles`: `handleFloaters` on every tile, from the last tile of the
        row-major list back to the first: rows bottom up, each right to left. */
    method ShiftDownTiles()
      requires Valid()
      modifies this
      ensures Valid() && Model() == Gravity.ShiftDownTiles(old(Model()))
      ensures source == old(source) && matches == old(matches) && events == old(events)
    {
      ghost var target := FloatRows(Model(), height);
      var row := height;
      while row > 0
        invariant 0 <= row <= height && Valid()
        invariant FloatRows(Model(), row) == target
        invariant source == old(source) && matches == old(matches) && events == old(events)
      {
        ghost var before := Model();
        SettleRow(row - 1);
        RowSettled(before, Model(), row, target);
        row := row - 1;
      }
      ShiftDownTilesAsRows(old(Model()));
    }

    /** The tiles of row `row` in `shiftDownTiles`'s loop, right to left. */
    method SettleRow(row: nat)
      requires Valid() && row < height
      modifies this
      ensures Valid() && Model() == FloatRow(old(Model()), row, width)
      ensures source == old(source) && matches == old(matches) && events == old(events)
    {
      ghost var target := FloatRow(Model(), row, width);
      var col := width;
      while col > 0
        invariant 0 <= col <= width && Valid()
        invariant FloatRow(Model(), row, col) == target
        invariant source == old(source) && matches == old(matches) && events == old(events)
      {
        ghost var before := Model();
        HandleFloaters(Position(row, col - 1));
        TileSettled(before, Model(), row, col, target);
        col := col - 1;
      }
    }

    /** `removeTiles`: every listed position in turn is set to "*". */
    method RemoveTiles(ps: seq<Position>)
      requires Valid() && forall i :: 0 <= i < |ps| ==> InBounds(Model(), ps[i])
      modifies this
      ensures Valid() && Model() == Grid.RemoveTiles(old(Model()), ps)
      ensures source == old(source) && matches == old(matches) && events == old(events)
    {
      var k := 0;
      while k < |ps|
        invariant 0 <= k <= |ps| && Valid()
        invariant Model() == Grid.RemoveTiles(old(Model()), ps[..k])
        invariant source == old(source) && matches == old(matches) && events == old(events)
      {
        SetTile(ps[k], Empty);
        RemoveTilesAppend(old(Model()), ps[..k], [ps[k]]);
        assert ps[..k + 1] == ps[..k] + [ps[k]];
        k := k + 1;
      }
      assert ps[..k] == ps;
    }

    /** `updateHorisontalMatches`: the run of `count` tiles that ends just before
        column `currentCol` of row `currentRow` becomes a match on the value of its
        last tile. The positions are listed right to left and then sorted by
        column; for that list the sort is a reversal. */
    method UpdateHorisontalMatches(currentRow: int, currentCol: int, count: nat, ms: seq<Match<T>>)
      returns (result: seq<Match<T>>)
      requires Valid() && InBounds(Model(), Position(currentRow, currentCol - 1))
      ensures result == ms + [CreateMatch(Grid.Piece(Model(), Position(currentRow, currentCol - 1)), count, currentRow, currentCol, Horizontal)]
    {
      var matchOn := tiles[currentRow][currentCol - 1];
      var positions: seq<Position> := [];
      var j := currentCol - 1;
      while j >= currentCol - count
        invariant currentCol - count - 1 <= j <= currentCol - 1
        invariant |positions| == currentCol - 1 - j
        invariant forall k :: 0 <= k < |positions| ==> positions[k] == Position(currentRow, currentCol - 1 - k)
      {
        positions := positions + [Position(currentRow, j)];
        j := j - 1;
      }
      var sorted := Reverse(positions);
      ghost var m := CreateMatch(matchOn, count, currentRow, currentCol, Horizontal);
      assert forall k :: 0 <= k < count ==> sorted[k] == m.positions[k];
      assert sorted == m.positions;
      result := ms + [Match(matchOn, sorted)];
    }

    /** `updateVerticalMatches`: the same down a column, the run ending just
        above row `currentRow` of column `currentCol`. */
    method UpdateVerticalMatches(currentRow: int, currentCol: int, count: nat, ms: seq<Match<T>>)
      returns (result: seq<Match<T>>)
      requires Valid() && InBounds(Model(), Position(currentRow - 1, currentCol))
      ensures result == ms + [CreateMatch(Grid.Piece(Model(), Position(currentRow - 1, currentCol)), count, currentRow, currentCol, Vertical)]
    {
      var matchOn := tiles[currentRow - 1][currentCol];
      var positions: seq<Position> := [];
      var j := currentRow - 1;
      while j >= currentRow - count
        invariant currentRow - count - 1 <= j <= currentRow - 1
        invariant |positions| == currentRow - 1 - j
        invariant forall k :: 0 <= k < |positions| ==> positions[k] == Position(currentRow - 1 - k, currentCol)
      {
        positions := positions + [Position(j, currentCol)];
        j := j - 1;
      }
      var sorted := Reverse(positions);
      ghost var m := CreateMatch(matchOn, count, currentRow, currentCol, Vertical);
      assert forall k :: 0 <= k < count ==> sorted[k] == m.positions[k];
      assert sorted == m.positions;
      result := ms + [Match(matchOn, sorted)];
    }

    /** `getHorisontalMatches`: the scan of every row, left to right, closing a run
        at each change of value and at the end of the row. It finds what the
        functional scan finds. */
    method GetHorisontalMatches() returns (ms: seq<Match<T>>)
      requires Valid()
      ensures ms == HorizontalMatches(Model())
    {
      ResumeFromStart(Model(), Horizontal);
      ms := [];
      var i := 0;
      while i < height
        invariant 0 <= i <= height
        invariant Resume(Model(), Horizontal, i, 0, 1, ms) == HorizontalMatches(Model())
      {
        ms := ScanRow(i, ms);
        i := i + 1;
      }
    }

    /** The body of `getHorisontalMatches`'s outer loop: row `i` scanned, its
        matches pushed after `ms`. */
    method ScanRow(i: nat, ms: seq<Match<T>>) returns (result: seq<Match<T>>)
      requires Valid() && i < height
      ensures Resume(Model(), Horizontal, i, 0, 1, ms) == Resume(Model(), Horizontal, i + 1, 0, 1, result)
    {
      ghost var b := Model();
      ghost var target := Resume(b, Horizontal, i, 0, 1, ms);
      result := ms;
      var matchCount := 1;
      var matchOnValue := Piece(Position(i, 0));
      ghost var s := 0;
      var j := 1;
      while j < width
        invariant 0 <= s < j && matchCount == j - s && (j <= width || j == 1)
        invariant matchOnValue == Grid.Piece(b, At(Horizontal, i, s))
        invariant matchOnValue == Grid.Piece(b, Position(i, j - 1))
        invariant target == Resume(b, Horizontal, i, s, j, result)
      {
        var tile := Piece(Position(i, j));
        if tile == matchOnValue {
          ResumeExtend(b, Horizontal, i, s, j, result);
          matchCount := matchCount + 1;
        } else {
          ResumeClose(b, Horizontal, i, s, j, result);
          result := CloseRowRun(i, s, j, matchCount, result);
          matchCount := 1;
          matchOnValue := tile;
          s := j;
        }
        j := j + 1;
      }
      ResumeEnd(b, Horizontal, i, s, j, result);
      result := CloseRowRun(i, s, j, matchCount, result);
    }

    /** The `if (matchCount >= 3)` step of `getHorisontalMatches`: the run of row
        `i` from column `s` up to column `j` is pushed when it has three or more
        tiles. */
    method CloseRowRun(i: nat, ghost s: nat, j: nat, matchCount: nat, ms: seq<Match<T>>)
      returns (result: seq<Match<T>>)
      requires Valid() && i < height && s < j && matchCount == j - s && (matchCount >= 3 ==> j <= width)
      requires Grid.Piece(Model(), Position(i, s)) == Grid.Piece(Model(), Position(i, j - 1))
      ensures result == Push(Model(), Horizontal, i, s, j, ms)
    {
      result := ms;
      if matchCount >= 3 {
        PushedRun(Model(), Horizontal, i, s, j, ms, Grid.Piece(Model(), Position(i, j - 1)), matchCount, i, j);
        result := UpdateHorisontalMatches(i, j, matchCount, ms);
      }
    }

    /** `getVerticalMatches`: the same scan down every column. */
    method GetVerticalMatches() returns (ms: seq<Match<T>>)
      requires Valid()
      ensures ms == VerticalMatches(Model())
    {
      ResumeFromStart(Model(), Vertical);
      ms := [];
      var i := 0;
      while i < width
        invariant 0 <= i <= width
        invariant Resume(Model(), Vertical, i, 0, 1, ms) == VerticalMatches(Model())
      {
        ms := ScanColumn(i, ms);
        i := i + 1;
      }
    }

    /** The body of `getVerticalMatches`'s outer loop: column `i` scanned, its
        matches pushed after `ms`. */
    method ScanColumn(i: nat, ms: seq<Match<T>>) returns (result: seq<Match<T>>)
      requires Valid() && i < width
      ensures Resume(Model(), Vertical, i, 0, 1, ms) == Resume(Model(), Vertical, i + 1, 0, 1, result)
    {
      ghost var b := Model();
      ghost var target := Resume(b, Vertical, i, 0, 1, ms);
      result := ms;
      var matchCount := 1;
      var matchOnValue := Piece(Position(0, i));
      ghost var s := 0;
      var j := 1;
      while j < height
        invariant 0 <= s < j && matchCount == j - s && (j <= height || j == 1)
        invariant matchOnValue == Grid.Piece(b, At(Vertical, i, s))
        invariant matchOnValue == Grid.Piece(b, Position(j - 1, i))
        invariant target == Resume(b, Vertical, i, s, j, result)
      {
        var tile := Piece(Position(j, i));
        if tile == matchOnValue {
          ResumeExtend(b, Vertical, i, s, j, result);
          matchCount := matchCount + 1;
        } else {
          ResumeClose(b, Vertical, i, s, j, result);
          result := CloseColumnRun(i, s, j, matchCount, result);
          matchCount := 1;
          matchOnValue := tile;
          s := j;
        }
        j := j + 1;
      }
      ResumeEnd(b, Vertical, i, s, j, result);
      result := CloseColumnRun(i, s, j, matchCount, result);
    }

    /** The `if (matchCount >= 3)` step of `getVerticalMatches`: the run of column
        `i` from row `s` up to row `j` is pushed when it has three or more tiles. */
    method CloseColumnRun(i: nat, ghost s: nat, j: nat, matchCount: nat, ms: seq<Match<T>>)
      returns (result: seq<Match<T>>)
      requires Valid() && i < width && s < j && matchCount == j - s && (matchCount >= 3 ==> j <= height)
      requires Grid.Piece(Model(), Position(s, i)) == Grid.Piece(Model(), Position(j - 1, i))
      ensures result == Push(Model(), Vertical, i, s, j, ms)
    {
      result := ms;
      if matchCount >= 3 {
        PushedRun(Model(), Vertical, i, s, j, ms, Grid.Piece(Model(), Position(j - 1, i)), matchCount, j, i);
        result := UpdateVerticalMatches(j, i, matchCount, ms);
      }
    }

    /** `updateMatches`: the scan of the rows, then of the columns, kept in `matches`. */
    method UpdateMatches()
      requires Valid()
      modifies this
      ensures Valid() && matches == FindMatches(Model())
      ensures Model() == old(Model()) && source == old(source) && events == old(events)
    {
      var hMatches := GetHorisontalMatches();
      var vMatches := GetVerticalMatches();
      matches := hMatches + vMatches;
    }

    /** `handleMatches`: match by match, the tiles of the match are removed and a
        match event is fired. */
    method HandleMatches()
      requires Valid() && forall p :: p in AllPositions(matches) ==> InBounds(Model(), p)
      modifies this
      ensures Valid() && Model() == Grid.RemoveTiles(old(Model()), AllPositions(matches))
      ensures events == old(events) + EventsOf(MatchEffects(matches))
      ensures source == old(source) && matches == old(matches)
    {
      ghost var b := Model();
      var ms := matches;
      var k := 0;
      while k < |ms|
        invariant 0 <= k <= |ms| && Valid()
        invariant Model() == Grid.RemoveTiles(b, AllPositions(ms[..k]))
        invariant events == old(events) + EventsOf(MatchEffects(ms[..k]))
        invariant source == old(source) && matches == ms
      {
        HandleStep(b, ms, k);
        HandleMatch(ms[k]);
        k := k + 1;
      }
      assert ms[..k] == ms;
    }

    /** The body of `handleMatches`'s loop: the tiles of `m` removed, then its
        match event fired. */
    method HandleMatch(m: Match<T>)
      requires Valid() && forall i :: 0 <= i < |m.positions| ==> InBounds(Model(), m.positions[i])
      modifies this
      ensures Valid() && Model() == Grid.RemoveTiles(old(Model()), m.positions)
      ensures events == old(events) + [MatchEvent(m)]
      ensures source == old(source) && matches == old(matches)
    {
      RemoveTiles(m.positions);
      events := events + [MatchEvent(m)];
    }

    /** `replaceTiles`: passes over the top row, left to right, until a pass finds
        no "*"; each "*" found takes the next value of the generator and the tiles
        settle; then a refill event is fired. It does what the functional `refill`
        does; `exhausted` reports the generator running dry, where the source's
        generator throws. */
    method ReplaceTiles() returns (exhausted: bool)
      requires Valid() && AllCompact(Model()) && (0 < height || width == 0)
      modifies this
      ensures Valid() && matches == old(matches)
      ensures var r := Refill.Refill(old(source), old(Model()));
        && (exhausted <==> r.Exhausted?)
        && (r.Refilled? ==> Model() == r.board && source == r.rest && events == old(events) + [RefillEvent])
    {
      ghost var target := Refill.Refill(source, Model());
      exhausted := false;
      var hasEmpty := true;
      while hasEmpty
        invariant !exhausted
        invariant Valid() && AllCompact(Model()) && matches == old(matches) && events == old(events)
        invariant RefillFrom(source, Model(), 0) == target
        invariant !hasEmpty ==> IsFull(Model())
        decreases TotalHoles(Model()) + (if hasEmpty then 1 else 0)
      {
        hasEmpty, exhausted := RefillPass();
        if exhausted {
          return;
        }
      }
      assert RefillFrom(source, Model(), 0) == Refilled(Model(), source);
      events := events + [RefillEvent];
    }

    /** One pass of `replaceTiles`'s outer loop over the top row: `hasEmpty` tells
        whether it found a "*"; a pass that found none leaves a full board. What
        the functional `refill` gives from column 0 stays the same. */
    method RefillPass() returns (hasEmpty: bool, exhausted: bool)
      requires Valid() && AllCompact(Model()) && (0 < height || width == 0)
      modifies this
      ensures Valid() && AllCompact(Model()) && matches == old(matches) && events == old(events)
      ensures exhausted ==> RefillFrom(old(source), old(Model()), 0).Exhausted?
      ensures !exhausted ==> RefillFrom(source, Model(), 0) == RefillFrom(old(source), old(Model()), 0)
      ensures !exhausted && hasEmpty ==> TotalHoles(Model()) < TotalHoles(old(Model()))
      ensures !exhausted && !hasEmpty ==> IsFull(Model()) && Model() == old(Model())
    {
      ghost var target := RefillFrom(source, Model(), 0);
      hasEmpty, exhausted := false, false;
      var i := 0;
      while i < width
        invariant 0 <= i <= width && Valid() && AllCompact(Model())
        invariant matches == old(matches) && events == old(events)
        invariant RefillFrom(source, Model(), if i < width then i else 0) == target
        invariant TotalHoles(Model()) <= TotalHoles(old(Model()))
        invariant hasEmpty ==> TotalHoles(Model()) < TotalHoles(old(Model()))
        invariant !hasEmpty ==> Model() == old(Model())
        invariant !hasEmpty ==> forall c :: 0 <= c < i ==> !Grid.Piece(Model(), Position(0, c)).Empty?
      {
        RefillVisit(source, Model(), i);
        var found, dry := VisitTop(i);
        if found {
          hasEmpty := true;
          if dry {
            return hasEmpty, true;
          }
        }
        i := i + 1;
      }
      if !hasEmpty {
        FullOfTopRow(Model());
      }
    }

    /** The body of `replaceTiles`'s inner loop: the top tile of column `col`, when
        it is "*", takes the next value of the generator and the tiles settle.
        `found` tells whether it was "*", `dry` whether the generator had nothing
        left to give it. */
    method VisitTop(col: nat) returns (found: bool, dry: bool)
      requires Valid() && col < width && 0 < height
      modifies this
      ensures Valid() && matches == old(matches) && events == old(events)
      ensures found <==> Grid.Piece(old(Model()), Position(0, col)).Empty?
      ensures dry <==> found && old(source) == []
      ensures !found || dry ==> Model() == old(Model()) && source == old(source)
      ensures found && !dry ==>
        && source == old(source)[1..]
        && Model() == Gravity.ShiftDownTiles(Grid.SetTile(old(Model()), Position(0, col), Symbol(old(source)[0])))
    {
      var tile := Piece(Position(0, col));
      found, dry := tile == Empty, false;
      if found {
        if source == [] {
          return found, true;
        }
        var value := source[0];
        source := source[1..];
        SetTile(Position(0, col), Symbol(value));
        ShiftDownTiles();
      }
    }

    /** `canMove`: a diagonal swap and a swap with a position off the board are
        refused; otherwise the tiles are swapped, the matches of the swapped board
        are kept in `matches`, and the tiles are swapped back. */
    method CanMove(first: Position, second: Position) returns (ok: bool)
      requires Valid()
      modifies this
      ensures Valid() && Model() == old(Model()) && source == old(source) && events == old(events)
      ensures ok == Allowed(old(Model()), first, second)
      ensures ok ==> InBounds(Model(), first) && InBounds(Model(), second)
      ensures ReachesScan(old(Model()), first, second) ==>
        matches == FindMatches(Grid.SwapTiles(old(Model()), first, second))
      ensures !ReachesScan(old(Model()), first, second) ==> matches == old(matches)
    {
      if IsDiagonalMove(first, second) {
        return false;
      }
      var out := IsOutOfBounds(first, second);
      if out {
        return false;
      }
      SwapTiles(first, second);
      var hMatches := GetHorisontalMatches();
      var vMatches := GetVerticalMatches();
      matches := hMatches + vMatches;
      ghost var swapped := Model();
      SwapTiles(first, second);
      SwapTwice(old(Model()), first, second);
      ok := |matches| != 0;
    }

    /** One pass of `move`'s loop: the matches removed, the tiles fallen, the board
        refilled and scanned again. It is one round of the functional
        `processMove` helper. */
    method PlayRound() returns (exhausted: bool)
      requires Valid() && matches == FindMatches(Model()) && matches != []
      modifies this
      ensures Valid()
      ensures var r := Refill.Refill(old(source), Cleared(old(Model()), old(matches)));
        && (exhausted <==> r.Exhausted?)
        && (r.Refilled? ==>
              && Model() == r.board && source == r.rest && matches == FindMatches(Model())
              && events == old(events) + EventsOf(MatchEffects(old(matches))) + [RefillEvent])
    {
      ghost var b := Model();
      FoundMatchOnBoard(b, matches[0]);
      AllFoundOnBoard(b);
      HandleMatches();
      ShiftDownTiles();
      assert Model() == Cleared(b, matches);
      exhausted := ReplaceTiles();
      if !exhausted {
        UpdateMatches();
      }
    }

    /** `move`: a swap `canMove` refuses changes nothing but `matches`, which is
        left as it was when `canMove` refused before scanning and is empty when the
        scan found nothing; otherwise the tiles are swapped and rounds are played
        while the scan finds matches. It plays the functional `move` out: the same
        board, the same generator values, one event per effect. */
    method Move(first: Position, second: Position) returns (exhausted: bool)
      requires Valid()
      modifies this
      ensures Valid()
      ensures !Allowed(old(Model()), first, second) ==>
        && !exhausted && Model() == old(Model()) && source == old(source) && events == old(events)
        && matches == (if ReachesScan(old(Model()), first, second) then [] else old(matches))
      ensures Allowed(old(Model()), first, second) ==>
        var o := Cascade.Move(old(source), old(Model()), first, second);
        && (exhausted <==> o.SourceExhausted?)
        && (o.Settled? ==>
              && Model() == o.result.board && source == o.rest && matches == []
              && events == old(events) + EventsOf(o.result.effects))
    {
      exhausted := false;
      var ok := CanMove(first, second);
      if !ok {
        return;
      }
      SwapTiles(first, second);
      exhausted := PlayRounds();
    }

    /** The `do … while` loop of `move`: rounds are played while the scan finds
        matches. `canMove` has just found matches, so the body runs at least once
        and a `while` loop does the same. It does what the functional
        `processMove` helper does. */
    method PlayRounds() returns (exhausted: bool)
      requires Valid() && matches == FindMatches(Model()) && matches != []
      modifies this
      ensures Valid()
      ensures var o := Rounds(old(source), old(Model()), old(matches), []);
        && (exhausted <==> o.SourceExhausted?)
        && (o.Settled? ==>
              && Model() == o.result.board && source == o.rest && matches == []
              && events == old(events) + EventsOf(o.result.effects))
    {
      ghost var target := Rounds(source, Model(), matches, []);
      ghost var effects: seq<Effect<T>> := [];
      exhausted := false;
      while matches != []
        invariant Valid() && matches == FindMatches(Model())
        invariant Rounds(source, Model(), matches, effects) == target
        invariant events == old(events) + EventsOf(effects)
        decreases |source|
      {
        ghost var b, ms := Model(), matches;
        RoundOnce(source, b, effects);
        exhausted := PlayRound();
        if exhausted {
          return;
        }
        FiredRound(old(events), effects, ms, Model());
        effects := effects + MatchEffects(ms) + [RefillEffect(Model())];
      }
    }
  }
}
