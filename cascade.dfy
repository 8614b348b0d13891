/** Moves in the functional engine (functional/src/board.ts, `canMove`, `move` and
    `processMove`): a legal swap is one that lines up three equal tiles; after it,
    round after round the matched tiles are removed, the tiles above fall, the
    holes are refilled from the generator and the board is scanned again, until
    no match is left. Every round is logged as one effect per match and a refill
    effect carrying the refilled board. */
module Cascade {
  import opened Lines
  import opened Runs
  import opened Grid
  import opened Gravity
  import opened Refill
  import opened Detection

  /** `Effect`: a match that was removed, or the board a refill produced. */
  datatype Effect<T> = MatchEffect(found: Match<T>) | RefillEffect(board: Board<T>)

  /** `MoveResult`: the board after the move and the effects, in order. */
  datatype MoveResult<T> = MoveResult(board: Board<T>, effects: seq<Effect<T>>)

  /** How a move ends: with its result and the values the generator has left, or
      with the generator running dry in the middle of a refill (the generator of
      the source throws then). */
  datatype Outcome<T> = Settled(result: MoveResult<T>, rest: seq<T>) | SourceExhausted

  /** `canMove`: a swap along a row or a column after which some row or column
      holds three equal tiles side by side. Out-of-board positions are not
      refused: the swap then reads `undefined` for the missing partner. The
      horizontal scan used is `getHorisontalMatches2` (see `CanMoveAsWritten`). */
  function CanMove<T(==)>(b: Board<T>, first: Position, second: Position): (ok: bool)
    requires b.Valid()
    ensures ok <==> !IsDiagonalMove(first, second) && HasThreeInLine(SwapTiles(b, first, second))
  {
    if IsDiagonalMove(first, second) then false
    else
      var swapped := SwapTiles(b, first, second);
      FindMatchesEmpty(swapped);
      FindMatches(swapped) != []
  }

  /** The positions of all matches, match by match (`flatMap`). */
  function AllPositions<T>(ms: seq<Match<T>>): seq<Position>
  {
    if ms == [] then [] else ms[0].positions + AllPositions(ms[1..])
  }

  /** A position is listed exactly when some match has it. */
  lemma {:induction false} AllPositionsHas<T>(ms: seq<Match<T>>)
    ensures forall i, p :: 0 <= i < |ms| && p in ms[i].positions ==> p in AllPositions(ms)
    ensures forall p :: p in AllPositions(ms) ==> exists i :: 0 <= i < |ms| && p in ms[i].positions
  {
    if ms != [] {
      AllPositionsHas(ms[1..]);
      assert forall i :: 1 <= i < |ms| ==> ms[i] == ms[1..][i - 1];
    }
  }

  /** One "Match" effect per match, in order. */
  function MatchEffects<T>(ms: seq<Match<T>>): (es: seq<Effect<T>>)
    ensures |es| == |ms|
  {
    seq(|ms|, i requires 0 <= i < |ms| => MatchEffect(ms[i]))
  }

  /** Effect `i` is the match effect of match `i`. */
  lemma MatchEffectsAt<T>(ms: seq<Match<T>>)
    ensures forall i :: 0 <= i < |ms| ==> MatchEffects(ms)[i] == MatchEffect(ms[i])
  {
  }

  /** The board one round leaves before its refill: the matched tiles removed and
      the tiles above them fallen. */
  function Cleared<T>(b: Board<T>, matches: seq<Match<T>>): (r: Board<T>)
    requires b.Valid()
    ensures r.Valid() && r.width == b.width && r.height == b.height && AllCompact(r)
  {
    var removed := RemoveTiles(b, AllPositions(matches));
    ShiftDownTilesKeepsTiles(removed);
    ShiftDownTiles(removed)
  }

  /** The `processMove` helper: with no matches left the move is over; otherwise
      one round is played and the helper goes on with the matches of the refilled
      board. Each round after the first takes at least one value from the
      generator, which bounds the cascade. */
  function Rounds<T(==)>(src: seq<T>, b: Board<T>, matches: seq<Match<T>>, effects: seq<Effect<T>>): (o: Outcome<T>)
    requires b.Valid()
    decreases |src|, if matches == FindMatches(b) then 0 else 1
  {
    if matches == [] then Settled(MoveResult(b, effects), src)
    else
      var cleared := Cleared(b, matches);
      match Refill.Refill(src, cleared)
      case Exhausted => SourceExhausted
      case Refilled(next, rest) =>
        RefillFromSpec(src, cleared, 0);
        if matches == FindMatches(b) then
          MatchesLeaveHoles(b);
          Rounds(rest, next, FindMatches(next), effects + MatchEffects(matches) + [RefillEffect(next)])
        else
          Rounds(rest, next, FindMatches(next), effects + MatchEffects(matches) + [RefillEffect(next)])
  }

  /** `processMove`: the helper with no effects yet. */
  function ProcessMove<T(==)>(src: seq<T>, b: Board<T>, matches: seq<Match<T>>): (o: Outcome<T>)
    requires b.Valid()
  {
    Rounds(src, b, matches, [])
  }

  /** `move`: a swap `canMove` refuses leaves the board as it is, with no effects;
      otherwise the swapped board is played out from its matches. */
  function Move<T(==)>(src: seq<T>, b: Board<T>, first: Position, second: Position): (o: Outcome<T>)
    requires b.Valid()
  {
    if !CanMove(b, first, second) then Settled(MoveResult(b, []), src)
    else
      var swapped := SwapTiles(b, first, second);
      ProcessMove(src, swapped, FindMatches(swapped))
  }

  /** Every match `findMatches` reports has three or more tiles, all on the board
      and all holding the matched value. */
  lemma FoundMatchOnBoard<T>(b: Board<T>, m: Match<T>)
    requires b.Valid() && m in FindMatches(b)
    ensures 3 <= |m.positions|
    ensures forall p :: p in m.positions ==> InBounds(b, p) && Piece(b, p) == m.matched
  {
    if m in HorizontalMatches(b) {
      ScanCorrect(b, Horizontal);
      ReportedRunTiles(b, Horizontal, m);
    } else {
      ScanCorrect(b, Vertical);
      ReportedRunTiles(b, Vertical, m);
    }
  }

  /** A round played on matches `findMatches` found leaves "*" tiles to refill. */
  lemma MatchesLeaveHoles<T>(b: Board<T>)
    requires b.Valid() && FindMatches(b) != []
    ensures TotalHoles(Cleared(b, FindMatches(b))) > 0
  {
    var ms := FindMatches(b);
    FoundMatchOnBoard(b, ms[0]);
    var p := ms[0].positions[0];
    var removed := RemoveTiles(b, AllPositions(ms));
    var cleared := Cleared(b, ms);
    assert Column(removed, p.col)[p.row] == Piece(removed, p) == Empty;
    HolesPositive(Column(removed, p.col), p.row);
    ShiftDownTilesKeepsTiles(removed);
    NoHoles(Column(cleared, p.col));
    var r :| 0 <= r < cleared.height && Column(cleared, p.col)[r].Empty?;
    assert cleared.tiles[r][p.col].Empty?;
    FullHasNoHoles(cleared);
  }

  /** The effects of a cascade that starts on board `b` and ends on `final`: when
      `b` has matches, one "Match" effect for each of them in the order
      `findMatches` reports them, then a "Refill" effect carrying a full board of
      the same size, and the cascade from that board; when it has none, nothing. */
  ghost predicate IsCascade<T>(b: Board<T>, es: seq<Effect<T>>, final: Board<T>)
    requires b.Valid()
    decreases |es|
  {
    var ms := FindMatches(b);
    if ms == [] then es == [] && final == b
    else
      && |ms| < |es|
      && es[..|ms|] == MatchEffects(ms)
      && es[|ms|].RefillEffect?
      && var next := es[|ms|].board;
      && next.Valid() && next.width == b.width && next.height == b.height && IsFull(next)
      && IsCascade(next, es[|ms| + 1..], final)
  }

  /** A cascade ends on a board of the same size with no three equal tiles in a
      line; when it played any round, that board is full and is the one carried
      by the last effect. */
  lemma {:induction false} CascadeEnd<T>(b: Board<T>, es: seq<Effect<T>>, final: Board<T>)
    requires b.Valid() && IsCascade(b, es, final)
    ensures final.Valid() && final.width == b.width && final.height == b.height
    ensures !HasThreeInLine(final)
    ensures es != [] ==> IsFull(final) && es[|es| - 1] == RefillEffect(final)
    decreases |es|
  {
    var ms := FindMatches(b);
    if ms == [] {
      FindMatchesEmpty(b);
    } else {
      var next := es[|ms|].board;
      CascadeEnd(next, es[|ms| + 1..], final);
    }
  }

  /** The generator was left with `rest` after values were taken from its front. */
  ghost predicate TakenFromFront<T>(src: seq<T>, rest: seq<T>)
  {
    |rest| <= |src| && rest == src[|src| - |rest|..]
  }

  /** One round of the helper on the matches of its board, when the generator
      lasts through its refill: the refill gives a full board of the same size,
      takes at least one value, and the helper goes on from that board. */
  lemma RoundStep<T>(src: seq<T>, b: Board<T>, effects: seq<Effect<T>>)
    requires b.Valid() && FindMatches(b) != []
    requires Rounds(src, b, FindMatches(b), effects).Settled?
    ensures var ms, r := FindMatches(b), Refill.Refill(src, Cleared(b, FindMatches(b)));
      && r.Refilled?
      && r.board.Valid() && r.board.width == b.width && r.board.height == b.height
      && IsFull(r.board)
      && |r.rest| < |src| && TakenFromFront(src, r.rest)
      && Rounds(src, b, ms, effects)
         == Rounds(r.rest, r.board, FindMatches(r.board), effects + MatchEffects(ms) + [RefillEffect(r.board)])
  {
    var ms := FindMatches(b);
    var cleared := Cleared(b, ms);
    MatchesLeaveHoles(b);
    RefillTakes(src, cleared);
    var r := Refill.Refill(src, cleared);
    assert r.Refilled?;
    assert Rounds(src, b, ms, effects)
        == Rounds(r.rest, r.board, FindMatches(r.board), effects + MatchEffects(ms) + [RefillEffect(r.board)]);
  }

  /** A refill of a board with "*" tiles that the generator lasts through gives a
      full board of the same size and takes at least one value from the front of
      the generator. */
  lemma RefillTakes<T>(src: seq<T>, b: Board<T>)
    requires b.Valid() && AllCompact(b) && TotalHoles(b) > 0
    ensures var r := Refill.Refill(src, b);
      r.Refilled? ==>
        && r.board.Valid() && r.board.width == b.width && r.board.height == b.height
        && IsFull(r.board)
        && |r.rest| < |src| && TakenFromFront(src, r.rest)
  {
    FullHasNoHoles(b);
    RefillFromSpec(src, b, 0);
  }

  /** The effects logged after `effects` by one round on matches `ms` and then by
      the rest of the cascade. */
  lemma LoggedRound<T>(effects: seq<Effect<T>>, ms: seq<Match<T>>, next: Board<T>, all: seq<Effect<T>>)
    requires var logged := effects + MatchEffects(ms) + [RefillEffect(next)];
      |logged| <= |all| && all[..|logged|] == logged
    ensures |effects| <= |all| && all[..|effects|] == effects
    ensures var es := all[|effects|..];
      && |ms| < |es| && es[..|ms|] == MatchEffects(ms) && es[|ms|] == RefillEffect(next)
      && es[|ms| + 1..] == all[|effects| + |ms| + 1..]
  {
    var logged := effects + MatchEffects(ms) + [RefillEffect(next)];
    assert all[..|effects|] == logged[..|effects|];
    var es := all[|effects|..];
    assert es[..|ms|] == logged[|effects|..|effects| + |ms|];
    assert es[|ms|] == logged[|effects| + |ms|];
  }

  /** Outcome `o` of the helper, if settled, kept the effects it was given, logged
      a cascade from `b` after them, and took its values from the front of `src`. */
  ghost predicate Continues<T>(src: seq<T>, b: Board<T>, effects: seq<Effect<T>>, o: Outcome<T>)
    requires b.Valid()
  {
    o.Settled? ==>
      && |effects| <= |o.result.effects| && o.result.effects[..|effects|] == effects
      && IsCascade(b, o.result.effects[|effects|..], o.result.board)
      && TakenFromFront(src, o.rest)
  }

  /** Played from the matches of its board, the helper keeps the effects it was
      given, logs a cascade after them, and takes its values from the front of
      the generator. */
  lemma {:induction false} RoundsSpec<T>(src: seq<T>, b: Board<T>, effects: seq<Effect<T>>)
    requires b.Valid()
    ensures Continues(src, b, effects, Rounds(src, b, FindMatches(b), effects))
    decreases |src|
  {
    var ms := FindMatches(b);
    if ms == [] {
      var o := Rounds(src, b, ms, effects);
      assert o.result.effects[|effects|..] == [];
    } else if Rounds(src, b, ms, effects).Settled? {
      RoundStep(src, b, effects);
      var r := Refill.Refill(src, Cleared(b, ms));
      var logged := effects + MatchEffects(ms) + [RefillEffect(r.board)];
      RoundsSpec(r.rest, r.board, logged);
      RoundThenCascade(src, b, effects, r.board, r.rest, Rounds(r.rest, r.board, FindMatches(r.board), logged));
    }
  }

  /** The outcome `o` of the helper after a round on the matches of `b` that took
      `src` down to `rest` and left `next`, seen from before that round. */
  lemma RoundThenCascade<T>(src: seq<T>, b: Board<T>, effects: seq<Effect<T>>, next: Board<T>, rest: seq<T>, o: Outcome<T>)
    requires b.Valid() && FindMatches(b) != []
    requires next.Valid() && next.width == b.width && next.height == b.height && IsFull(next)
    requires |rest| < |src| && TakenFromFront(src, rest)
    requires Continues(rest, next, effects + MatchEffects(FindMatches(b)) + [RefillEffect(next)], o)
    ensures Continues(src, b, effects, o)
  {
    if o.Settled? {
      var ms := FindMatches(b);
      var all, final := o.result.effects, o.result.board;
      LoggedRound(effects, ms, next, all);
      var es := all[|effects|..];
      assert es[|ms| + 1..] == all[|effects| + |ms| + 1..];
      CascadeStep(b, es, next, final);
    }
  }

  /** A round on the matches of `b` followed by a cascade from the refilled board
      is a cascade from `b`. */
  lemma CascadeStep<T>(b: Board<T>, es: seq<Effect<T>>, next: Board<T>, final: Board<T>)
    requires b.Valid() && FindMatches(b) != []
    requires |FindMatches(b)| < |es|
    requires es[..|FindMatches(b)|] == MatchEffects(FindMatches(b))
    requires es[|FindMatches(b)|] == RefillEffect(next)
    requires next.Valid()
    requires next.width == b.width && next.height == b.height
    requires IsFull(next)
    requires IsCascade(next, es[|FindMatches(b)| + 1..], final)
    ensures IsCascade(b, es, final)
  {
  }

  /** A move `canMove` refuses changes nothing, logs nothing and takes nothing
      from the generator. */
  lemma MoveRefused<T>(src: seq<T>, b: Board<T>, first: Position, second: Position)
    requires b.Valid() && !CanMove(b, first, second)
    ensures Move(src, b, first, second) == Settled(MoveResult(b, []), src)
  {
  }

  /** How a move `canMove` allowed ends, when the generator lasts: it logged the
      cascade from the swapped board, at least one round, and stopped on a full
      board of the same size with no three equal tiles in a line, having taken its
      values from the front of the generator. */
  ghost predicate EndsSettled<T>(b: Board<T>, swapped: Board<T>, src: seq<T>, o: Outcome<T>)
    requires b.Valid() && swapped.Valid()
  {
    o.Settled? ==>
      && IsCascade(swapped, o.result.effects, o.result.board)
      && o.result.effects != []
      && o.result.board.Valid() && o.result.board.width == b.width && o.result.board.height == b.height
      && IsFull(o.result.board) && !HasThreeInLine(o.result.board)
      && TakenFromFront(src, o.rest)
  }

  /** A move `canMove` allows ends as `EndsSettled` says. */
  lemma MoveCascades<T>(src: seq<T>, b: Board<T>, first: Position, second: Position)
    requires b.Valid() && CanMove(b, first, second)
    ensures EndsSettled(b, SwapTiles(b, first, second), src, Move(src, b, first, second))
  {
    var swapped := SwapTiles(b, first, second);
    FindMatchesEmpty(swapped);
    RoundsSpec(src, swapped, []);
    var o := Rounds(src, swapped, FindMatches(swapped), []);
    assert Move(src, b, first, second) == o;
    if o.Settled? {
      assert o.result.effects[0..] == o.result.effects;
      CascadeEnd(swapped, o.result.effects, o.result.board);
    }
  }

  /** A diagonal swap is never allowed. */
  lemma DiagonalMoveRefused<T>(src: seq<T>, b: Board<T>, first: Position, second: Position)
    requires b.Valid() && IsDiagonalMove(first, second)
    ensures Move(src, b, first, second) == Settled(MoveResult(b, []), src)
  {
  }

  /** What spreading a JavaScript value into an array does: a list gives its
      items; `undefined` makes the spread throw a `TypeError`. */
  datatype JsList<T> = List(items: seq<T>) | Missing
  datatype Call<R> = Returned(value: R) | Threw

  function Spread<T>(x: JsList<T>): Call<seq<T>>
  {
    if x.List? then Returned(x.items) else Threw
  }

  /** `getHorisontalMatches` as written: it builds an array, logs it and returns
      `undefined`. */
  function HorisontalMatchesAsWritten<T>(b: Board<T>): JsList<Match<T>>
  {
    Missing
  }

  /** `canMove` as written, calling `getHorisontalMatches`: the spread of its
      result throws. */
  function CanMoveAsWritten<T(==)>(b: Board<T>, first: Position, second: Position): (r: Call<bool>)
    requires b.Valid()
    ensures IsDiagonalMove(first, second) ==> r == Returned(false)
  {
    if IsDiagonalMove(first, second) then Returned(false)
    else
      var swapped := SwapTiles(b, first, second);
      var h := Spread(HorisontalMatchesAsWritten(swapped));
      if h.Threw? then Threw else Returned(h.value + VerticalMatches(swapped) != [])
  }

  /** As written, every swap along a row or a column throws, so no move can be
      played; on the row `2 1 2 2`, swapping the first two tiles lines up three
      2s, which the corrected `canMove` allows. */
  lemma AsWrittenThrowsOnRowMove()
    ensures var b := Board(4, 1, [[Symbol(2), Symbol(1), Symbol(2), Symbol(2)]]);
      && b.Valid()
      && CanMoveAsWritten(b, Position(0, 0), Position(0, 1)) == Threw
      && CanMove(b, Position(0, 0), Position(0, 1))
  {
    var b := Board(4, 1, [[Symbol(2), Symbol(1), Symbol(2), Symbol(2)]]);
    var swapped := SwapTiles(b, Position(0, 0), Position(0, 1));
    var line := Line(swapped, Horizontal, 0);
    assert line[1] == Piece(swapped, Position(0, 1)) == Symbol(2);
    assert line[2] == Piece(swapped, Position(0, 2)) == Symbol(2);
    assert line[3] == Piece(swapped, Position(0, 3)) == Symbol(2);
    assert ThreeAt(line, 1);
  }

  /** As written, a swap throws exactly when it is not diagonal. */
  lemma AsWrittenThrows<T>(b: Board<T>, first: Position, second: Position)
    requires b.Valid()
    ensures CanMoveAsWritten(b, first, second).Threw? <==> !IsDiagonalMove(first, second)
  {
  }
}
