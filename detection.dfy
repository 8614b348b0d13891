/** Match detection of the functional engine (functional/src/board.ts): every row is
    scanned left to right and every column top to bottom, and each maximal run of
    three or more equal (`===`) tiles is reported as one match. The scans are the
    loops `getHorisontalMatches2` and `getVerticalMatches`; the functions below say
    what they return, and the lemmas what that means. */
module Detection {
  import opened Lines
  import opened Runs
  import opened Grid

  /** `Match`: the value matched and the positions of its tiles. */
  datatype Match<T> = Match(matched: Cell<T>, positions: seq<Position>)

  /** The positions `createHorisontalMatchPositions` lists before it sorts them:
      `matchCount` positions of row `rowIndex`, right to left from just before
      column `colIndex`. */
  function HorizontalListed(matchCount: nat, rowIndex: int, colIndex: int): seq<Position>
  {
    seq(matchCount, i => Position(rowIndex, colIndex - i - 1))
  }

  /** `createHorisontalMatchPositions`: those positions sorted by column. */
  function CreateHorizontalMatchPositions(matchCount: nat, rowIndex: int, colIndex: int): (ps: seq<Position>)
    ensures |ps| == matchCount
  {
    seq(matchCount, k => Position(rowIndex, colIndex - matchCount + k))
  }

  /** Sorting by column is what `createHorisontalMatchPositions` does to its list:
      the result increases by column and is the listed positions, reversed. */
  lemma HorizontalPositionsSorted(matchCount: nat, rowIndex: int, colIndex: int)
    ensures var ps := CreateHorizontalMatchPositions(matchCount, rowIndex, colIndex);
            (forall k, l :: 0 <= k < l < |ps| ==> ps[k].col < ps[l].col) &&
            ps == Reverse(HorizontalListed(matchCount, rowIndex, colIndex))
  {
    var ps, listed := CreateHorizontalMatchPositions(matchCount, rowIndex, colIndex), HorizontalListed(matchCount, rowIndex, colIndex);
    assert forall k :: 0 <= k < matchCount ==> ps[k] == Reverse(listed)[k];
  }

  /** The positions `createVerticalMatchPositions` lists before it sorts them:
      `matchCount` positions of column `colIndex`, bottom to top from just above
      row `rowIndex`. */
  function VerticalListed(matchCount: nat, rowIndex: int, colIndex: int): seq<Position>
  {
    seq(matchCount, i => Position(rowIndex - i - 1, colIndex))
  }

  /** `createVerticalMatchPositions`: those positions sorted by row. */
  function CreateVerticalMatchPositions(matchCount: nat, rowIndex: int, colIndex: int): (ps: seq<Position>)
    ensures |ps| == matchCount
  {
    seq(matchCount, k => Position(rowIndex - matchCount + k, colIndex))
  }

  /** Sorting by row is what `createVerticalMatchPositions` does to its list: the
      result increases by row and is the listed positions, reversed. */
  lemma VerticalPositionsSorted(matchCount: nat, rowIndex: int, colIndex: int)
    ensures var ps := CreateVerticalMatchPositions(matchCount, rowIndex, colIndex);
            (forall k, l :: 0 <= k < l < |ps| ==> ps[k].row < ps[l].row) &&
            ps == Reverse(VerticalListed(matchCount, rowIndex, colIndex))
  {
    var ps, listed := CreateVerticalMatchPositions(matchCount, rowIndex, colIndex), VerticalListed(matchCount, rowIndex, colIndex);
    assert forall k :: 0 <= k < matchCount ==> ps[k] == Reverse(listed)[k];
  }

  /** The direction of a scan: rows left to right, or columns top to bottom. The
      source passes the positions builder of the direction to `createMatch`. */
  datatype Axis = Horizontal | Vertical

  /** How many lines a scan in this direction visits. */
  function LineCount<T>(b: Board<T>, axis: Axis): nat
  {
    if axis.Horizontal? then b.height else b.width
  }

  /** How many tiles each of those lines has. */
  function LineLength<T>(b: Board<T>, axis: Axis): nat
  {
    if axis.Horizontal? then b.width else b.height
  }

  /** The position of tile `k` of line `i`. */
  function At(axis: Axis, i: int, k: int): Position
  {
    if axis.Horizontal? then Position(i, k) else Position(k, i)
  }

  /** The line a position lies on. */
  function LineOf(axis: Axis, p: Position): int
  {
    if axis.Horizontal? then p.row else p.col
  }

  /** How far along its line a position lies. */
  function OffsetOf(axis: Axis, p: Position): int
  {
    if axis.Horizontal? then p.col else p.row
  }

  /** Line `i` in this direction: a row, or a column. */
  function Line<T>(b: Board<T>, axis: Axis, i: nat): (line: seq<Cell<T>>)
    requires b.Valid() && i < LineCount(b, axis)
    ensures |line| == LineLength(b, axis)
    ensures forall k :: 0 <= k < |line| ==> line[k] == Piece(b, At(axis, i, k))
  {
    if axis.Horizontal? then Row(b, i) else Column(b, i)
  }

  /** `createMatch`: a match on `matchOn` whose `matchCount` positions end just
      before `{rowIndex, colIndex}` along the direction of the scan, in increasing
      order. */
  function CreateMatch<T>(matchOn: Cell<T>, matchCount: nat, rowIndex: int, colIndex: int, axis: Axis): (m: Match<T>)
    ensures m.matched == matchOn && |m.positions| == matchCount
  {
    Match(matchOn, if axis.Horizontal? then CreateHorizontalMatchPositions(matchCount, rowIndex, colIndex)
                   else CreateVerticalMatchPositions(matchCount, rowIndex, colIndex))
  }

  /** The match a scan creates when run `r` of line `i` closes: the run's value and
      its positions, the position just past the run given to `createMatch`. */
  function MatchOf<T>(b: Board<T>, axis: Axis, i: nat, r: Run): (m: Match<T>)
    requires b.Valid()
    ensures m.matched == Piece(b, At(axis, i, r.start)) && |m.positions| == r.len
    ensures forall k :: 0 <= k < r.len ==> m.positions[k] == At(axis, i, r.start + k)
  {
    var past := At(axis, i, r.start + r.len);
    CreateMatch(Piece(b, At(axis, i, r.start)), r.len, past.row, past.col, axis)
  }

  /** The matches for the runs of line `i`, in order. */
  function MatchesOfRuns<T>(b: Board<T>, axis: Axis, i: nat, runs: seq<Run>): (ms: seq<Match<T>>)
    requires b.Valid()
    ensures |ms| == |runs|
    ensures forall k :: 0 <= k < |runs| ==> ms[k] == MatchOf(b, axis, i, runs[k])
  {
    seq(|runs|, k requires 0 <= k < |runs| => MatchOf(b, axis, i, runs[k]))
  }

  /** What the scan of line `i` pushes from index `j` on, when the run in progress
      began at `s` (the scan's `matchOnValue` is the tile at `s` and its
      `matchCount` is `j - s`): an equal tile extends the run; any other tile, and
      the end of the line, close it, and a run of three or more becomes a match. */
  function LineScan<T(==)>(b: Board<T>, axis: Axis, i: nat, s: nat, j: nat): seq<Match<T>>
    requires b.Valid() && s < j
    decreases LineLength(b, axis) - j
  {
    if j >= LineLength(b, axis) then Closing(b, axis, i, s, j)
    else if Piece(b, At(axis, i, j)) == Piece(b, At(axis, i, s)) then LineScan(b, axis, i, s, j + 1)
    else Closing(b, axis, i, s, j) + LineScan(b, axis, i, j, j + 1)
  }

  /** What closing the run from `s` to `j` pushes: its match when it is three or
      more long, nothing otherwise. */
  function Closing<T>(b: Board<T>, axis: Axis, i: nat, s: nat, j: nat): seq<Match<T>>
    requires b.Valid() && s < j
  {
    var past := At(axis, i, j);
    if j - s >= 3 then [CreateMatch(Piece(b, At(axis, i, s)), j - s, past.row, past.col, axis)] else []
  }

  /** What the scan of line `i` pushes: the scan starts with a run of one at index
      0 (on an empty line the run is off the board and shorter than three). */
  function LineMatches<T(==)>(b: Board<T>, axis: Axis, i: nat): seq<Match<T>>
    requires b.Valid()
  {
    LineScan(b, axis, i, 0, 1)
  }

  /** What a scan in this direction pushes for lines `i` onwards. */
  function ScanFrom<T(==)>(b: Board<T>, axis: Axis, i: nat): seq<Match<T>>
    requires b.Valid()
    decreases LineCount(b, axis) - i
  {
    if i >= LineCount(b, axis) then [] else LineMatches(b, axis, i) + ScanFrom(b, axis, i + 1)
  }

  /** What `getHorisontalMatches2` returns: the runs of every row, top row first. */
  function HorizontalMatches<T(==)>(b: Board<T>): seq<Match<T>>
    requires b.Valid()
  {
    ScanFrom(b, Horizontal, 0)
  }

  /** What `getVerticalMatches` returns: the runs of every column, left column first. */
  function VerticalMatches<T(==)>(b: Board<T>): seq<Match<T>>
    requires b.Valid()
  {
    ScanFrom(b, Vertical, 0)
  }

  /** `findMatches`: the horizontal matches, then the vertical ones. */
  function FindMatches<T(==)>(b: Board<T>): seq<Match<T>>
    requires b.Valid()
  {
    HorizontalMatches(b) + VerticalMatches(b)
  }

  /** What the scan returns when it resumes at line `i`, index `j`, with the run in
      progress begun at `s` and `acc` pushed so far: the nested loops of the scan,
      one step per call. */
  function Resume<T(==)>(b: Board<T>, axis: Axis, i: nat, s: nat, j: nat, acc: seq<Match<T>>): seq<Match<T>>
    requires b.Valid() && s < j
    decreases LineCount(b, axis) - i, LineLength(b, axis) - j
  {
    if i >= LineCount(b, axis) then acc
    else if j >= LineLength(b, axis) then Resume(b, axis, i + 1, 0, 1, Push(b, axis, i, s, j, acc))
    else if Piece(b, At(axis, i, j)) == Piece(b, At(axis, i, s)) then Resume(b, axis, i, s, j + 1, acc)
    else Resume(b, axis, i, j, j + 1, Push(b, axis, i, s, j, acc))
  }

  /** `acc` after the run from `s` to `j` closes. */
  function Push<T>(b: Board<T>, axis: Axis, i: nat, s: nat, j: nat, acc: seq<Match<T>>): seq<Match<T>>
    requires b.Valid() && s < j
  {
    var past := At(axis, i, j);
    if j - s >= 3 then acc + [CreateMatch(Piece(b, At(axis, i, s)), j - s, past.row, past.col, axis)] else acc
  }

  /** One step of the loops: a tile equal to the run in progress extends it. */
  lemma ResumeExtend<T>(b: Board<T>, axis: Axis, i: nat, s: nat, j: nat, acc: seq<Match<T>>)
    requires b.Valid() && s < j && i < LineCount(b, axis) && j < LineLength(b, axis)
    requires Piece(b, At(axis, i, j)) == Piece(b, At(axis, i, s))
    ensures Resume(b, axis, i, s, j, acc) == Resume(b, axis, i, s, j + 1, acc)
  {
  }

  /** One step of the loops: any other tile closes the run in progress. */
  lemma ResumeClose<T>(b: Board<T>, axis: Axis, i: nat, s: nat, j: nat, acc: seq<Match<T>>)
    requires b.Valid() && s < j && i < LineCount(b, axis) && j < LineLength(b, axis)
    requires Piece(b, At(axis, i, j)) != Piece(b, At(axis, i, s))
    ensures Resume(b, axis, i, s, j, acc) == Resume(b, axis, i, j, j + 1, Push(b, axis, i, s, j, acc))
  {
  }

  /** One step of the loops: the end of the line closes the run in progress. */
  lemma ResumeEnd<T>(b: Board<T>, axis: Axis, i: nat, s: nat, j: nat, acc: seq<Match<T>>)
    requires b.Valid() && s < j && i < LineCount(b, axis) && j >= LineLength(b, axis)
    ensures Resume(b, axis, i, s, j, acc) == Resume(b, axis, i + 1, 0, 1, Push(b, axis, i, s, j, acc))
  {
  }

  /** The match the loops push when a run of three or more closes at `j`: a match
      on the run's value `v`, with `{row: r, col: c}` the position just past the
      run. */
  lemma PushedRun<T>(b: Board<T>, axis: Axis, i: nat, s: nat, j: nat, acc: seq<Match<T>>,
                     v: Cell<T>, count: nat, r: int, c: int)
    requires b.Valid() && s < j && count == j - s >= 3
    requires v == Piece(b, At(axis, i, s)) && At(axis, i, j) == Position(r, c)
    ensures Push(b, axis, i, s, j, acc) == acc + [CreateMatch(v, count, r, c, axis)]
  {
    var past := At(axis, i, j);
    assert past.row == r && past.col == c;
    assert CreateMatch(Piece(b, At(axis, i, s)), j - s, past.row, past.col, axis) == CreateMatch(v, count, r, c, axis);
  }

  lemma PushClosing<T>(b: Board<T>, axis: Axis, i: nat, s: nat, j: nat, acc: seq<Match<T>>)
    requires b.Valid() && s < j
    ensures Push(b, axis, i, s, j, acc) == acc + Closing(b, axis, i, s, j)
  {
  }

  /** What the loops return once the state is past the end of line `i`. */
  lemma {:induction false} ResumeNextLine<T>(b: Board<T>, axis: Axis, i: nat, s: nat, j: nat, acc: seq<Match<T>>)
    requires b.Valid() && s < j && i < LineCount(b, axis) && j >= LineLength(b, axis)
    ensures Resume(b, axis, i, s, j, acc) == acc + LineScan(b, axis, i, s, j) + ScanFrom(b, axis, i + 1)
    decreases LineCount(b, axis) - i, LineLength(b, axis) - j, 0
  {
    var pushed := Push(b, axis, i, s, j, acc);
    ResumeEnd(b, axis, i, s, j, acc);
    PushClosing(b, axis, i, s, j, acc);
    ResumeSpec(b, axis, i + 1, 0, 1, pushed);
    var closing := Closing(b, axis, i, s, j);
    assert LineScan(b, axis, i, s, j) == closing;
    if i + 1 < LineCount(b, axis) {
      var x, y := LineScan(b, axis, i + 1, 0, 1), ScanFrom(b, axis, i + 2);
      assert ScanFrom(b, axis, i + 1) == x + y;
      assert acc + closing + x + y == acc + closing + (x + y);
    }
  }

  /** What the loops return after a tile closes the run in progress. */
  lemma {:induction false} ResumeCloseRun<T>(b: Board<T>, axis: Axis, i: nat, s: nat, j: nat, acc: seq<Match<T>>)
    requires b.Valid() && s < j && i < LineCount(b, axis) && j < LineLength(b, axis)
    requires Piece(b, At(axis, i, j)) != Piece(b, At(axis, i, s))
    ensures Resume(b, axis, i, s, j, acc) == acc + LineScan(b, axis, i, s, j) + ScanFrom(b, axis, i + 1)
    decreases LineCount(b, axis) - i, LineLength(b, axis) - j, 0
  {
    ResumeClose(b, axis, i, s, j, acc);
    PushClosing(b, axis, i, s, j, acc);
    ResumeSpec(b, axis, i, j, j + 1, Push(b, axis, i, s, j, acc));
    var closing, tail := Closing(b, axis, i, s, j), LineScan(b, axis, i, j, j + 1);
    LineScanClose(b, axis, i, s, j);
    assert acc + closing + tail == acc + (closing + tail);
  }

  /** Resuming the scan pushes what is left of line `i` and then the later lines. */
  lemma {:induction false} ResumeSpec<T>(b: Board<T>, axis: Axis, i: nat, s: nat, j: nat, acc: seq<Match<T>>)
    requires b.Valid() && s < j
    ensures Resume(b, axis, i, s, j, acc) ==
              if i >= LineCount(b, axis) then acc
              else acc + LineScan(b, axis, i, s, j) + ScanFrom(b, axis, i + 1)
    decreases LineCount(b, axis) - i, LineLength(b, axis) - j, 1
  {
    if i < LineCount(b, axis) {
      if j >= LineLength(b, axis) {
        ResumeNextLine(b, axis, i, s, j, acc);
      } else if Piece(b, At(axis, i, j)) == Piece(b, At(axis, i, s)) {
        ResumeSpec(b, axis, i, s, j + 1, acc);
      } else {
        ResumeCloseRun(b, axis, i, s, j, acc);
      }
    }
  }

  /** The loops, run from the start, return the scan of every line. */
  lemma ResumeFromStart<T>(b: Board<T>, axis: Axis)
    requires b.Valid()
    ensures Resume(b, axis, 0, 0, 1, []) == ScanFrom(b, axis, 0)
  {
    ResumeSpec(b, axis, 0, 0, 1, []);
  }

  lemma MatchesOfRunsAppend<T>(b: Board<T>, axis: Axis, i: nat, xs: seq<Run>, ys: seq<Run>)
    requires b.Valid()
    ensures MatchesOfRuns(b, axis, i, xs + ys) == MatchesOfRuns(b, axis, i, xs) + MatchesOfRuns(b, axis, i, ys)
  {
  }

  /** The runs the scan of line `i` closes from index `j` on: `LineScan` without
      the matches built. */
  function RunScan<T(==)>(b: Board<T>, axis: Axis, i: nat, s: nat, j: nat): seq<Run>
    requires b.Valid() && s < j
    decreases LineLength(b, axis) - j
  {
    var head := if j - s >= 3 then [Run(s, j - s)] else [];
    if j >= LineLength(b, axis) then head
    else if Piece(b, At(axis, i, j)) == Piece(b, At(axis, i, s)) then RunScan(b, axis, i, s, j + 1)
    else head + RunScan(b, axis, i, j, j + 1)
  }

  /** The scan of a line builds one match per run it closes. */
  lemma {:induction false} LineScanAsRunScan<T>(b: Board<T>, axis: Axis, i: nat, s: nat, j: nat)
    requires b.Valid() && s < j
    ensures LineScan(b, axis, i, s, j) == MatchesOfRuns(b, axis, i, RunScan(b, axis, i, s, j))
    decreases LineLength(b, axis) - j, 1
  {
    if j >= LineLength(b, axis) {
      ClosingAsRuns(b, axis, i, s, j);
    } else if Piece(b, At(axis, i, j)) == Piece(b, At(axis, i, s)) {
      LineScanAsRunScanExtend(b, axis, i, s, j);
    } else {
      LineScanAsRunScanClose(b, axis, i, s, j);
    }
  }

  lemma {:induction false} LineScanAsRunScanExtend<T>(b: Board<T>, axis: Axis, i: nat, s: nat, j: nat)
    requires b.Valid() && s < j < LineLength(b, axis)
    requires Piece(b, At(axis, i, j)) == Piece(b, At(axis, i, s))
    ensures LineScan(b, axis, i, s, j) == MatchesOfRuns(b, axis, i, RunScan(b, axis, i, s, j))
    decreases LineLength(b, axis) - j, 0
  {
    calc {
      LineScan(b, axis, i, s, j);
    ==
      LineScan(b, axis, i, s, j + 1);
    == { LineScanAsRunScan(b, axis, i, s, j + 1); }
      MatchesOfRuns(b, axis, i, RunScan(b, axis, i, s, j + 1));
    == { assert RunScan(b, axis, i, s, j) == RunScan(b, axis, i, s, j + 1); }
      MatchesOfRuns(b, axis, i, RunScan(b, axis, i, s, j));
    }
  }

  lemma {:induction false} LineScanAsRunScanClose<T>(b: Board<T>, axis: Axis, i: nat, s: nat, j: nat)
    requires b.Valid() && s < j < LineLength(b, axis)
    requires Piece(b, At(axis, i, j)) != Piece(b, At(axis, i, s))
    ensures LineScan(b, axis, i, s, j) == MatchesOfRuns(b, axis, i, RunScan(b, axis, i, s, j))
    decreases LineLength(b, axis) - j, 0
  {
    var head: seq<Run> := if j - s >= 3 then [Run(s, j - s)] else [];
    var tail := RunScan(b, axis, i, j, j + 1);
    calc {
      LineScan(b, axis, i, s, j);
    == { LineScanClose(b, axis, i, s, j); }
      Closing(b, axis, i, s, j) + LineScan(b, axis, i, j, j + 1);
    == { ClosingAsRuns(b, axis, i, s, j); LineScanAsRunScan(b, axis, i, j, j + 1); }
      MatchesOfRuns(b, axis, i, head) + MatchesOfRuns(b, axis, i, tail);
    == { MatchesOfRunsAppend(b, axis, i, head, tail); }
      MatchesOfRuns(b, axis, i, head + tail);
    == { assert RunScan(b, axis, i, s, j) == head + tail; }
      MatchesOfRuns(b, axis, i, RunScan(b, axis, i, s, j));
    }
  }

  /** The runs the scan closes are the runs `RunsFrom` reports for the line. */
  lemma {:induction false} RunScanAsRunsFrom<T>(b: Board<T>, axis: Axis, i: nat, s: nat, j: nat)
    requires b.Valid() && i < LineCount(b, axis) && s < j <= LineLength(b, axis)
    ensures RunScan(b, axis, i, s, j) == RunsFrom(Line(b, axis, i), s, j)
    decreases LineLength(b, axis) - j
  {
    var line := Line(b, axis, i);
    if j < LineLength(b, axis) {
      assert line[j] == Piece(b, At(axis, i, j)) && line[s] == Piece(b, At(axis, i, s));
      if line[j] == line[s] {
        RunScanAsRunsFrom(b, axis, i, s, j + 1);
        assert RunScan(b, axis, i, s, j) == RunScan(b, axis, i, s, j + 1);
        assert RunsFrom(line, s, j) == RunsFrom(line, s, j + 1);
      } else {
        RunScanAsRunsFrom(b, axis, i, j, j + 1);
        var head := if j - s >= 3 then [Run(s, j - s)] else [];
        assert RunScan(b, axis, i, s, j) == head + RunScan(b, axis, i, j, j + 1);
        RunsFromClose(line, s, j);
      }
    }
  }

  /** Any other tile closes the run in progress and starts a new one. */
  lemma LineScanClose<T>(b: Board<T>, axis: Axis, i: nat, s: nat, j: nat)
    requires b.Valid() && s < j < LineLength(b, axis)
    requires Piece(b, At(axis, i, j)) != Piece(b, At(axis, i, s))
    ensures LineScan(b, axis, i, s, j) == Closing(b, axis, i, s, j) + LineScan(b, axis, i, j, j + 1)
  {
  }

  /** What closing a run pushes is the match of the run `RunsFrom` reports. */
  lemma ClosingAsRuns<T>(b: Board<T>, axis: Axis, i: nat, s: nat, j: nat)
    requires b.Valid() && s < j
    ensures Closing(b, axis, i, s, j) ==
              MatchesOfRuns(b, axis, i, if j - s >= 3 then [Run(s, j - s)] else [])
  {
  }

  lemma LineMatchesAsRuns<T>(b: Board<T>, axis: Axis, i: nat)
    requires b.Valid() && i < LineCount(b, axis)
    ensures LineMatches(b, axis, i) == MatchesOfRuns(b, axis, i, LineRuns(Line(b, axis, i)))
  {
    LineScanAsRunScan(b, axis, i, 0, 1);
    if LineLength(b, axis) > 0 {
      RunScanAsRunsFrom(b, axis, i, 0, 1);
    }
  }

  /** `m` is the match of a maximal run of three or more equal tiles on one line:
      its positions run along that line without a gap, in increasing order, and
      `matched` is the value of the run. */
  ghost predicate IsReportedRun<T>(b: Board<T>, axis: Axis, m: Match<T>)
    requires b.Valid()
  {
    3 <= |m.positions| &&
    var i, st := LineOf(axis, m.positions[0]), OffsetOf(axis, m.positions[0]);
    && 0 <= i < LineCount(b, axis) && 0 <= st
    && IsMaximalRun(Line(b, axis, i), st, |m.positions|)
    && m.matched == Line(b, axis, i)[st]
    && forall k :: 0 <= k < |m.positions| ==> m.positions[k] == At(axis, i, st + k)
  }

  /** Every tile of a reported run is on the board and holds the matched value. */
  lemma ReportedRunTiles<T>(b: Board<T>, axis: Axis, m: Match<T>)
    requires b.Valid() && IsReportedRun(b, axis, m)
    ensures forall p :: p in m.positions ==> InBounds(b, p) && Piece(b, p) == m.matched
  {
    var i, st := LineOf(axis, m.positions[0]), OffsetOf(axis, m.positions[0]);
    var line := Line(b, axis, i);
    forall p | p in m.positions
      ensures InBounds(b, p) && Piece(b, p) == m.matched
    {
      var k :| 0 <= k < |m.positions| && m.positions[k] == p;
      assert line[st + k] == Piece(b, At(axis, i, st + k));
    }
  }

  /** The match built for a reported run of line `i` is a reported run of line `i`. */
  lemma MatchOfReported<T>(b: Board<T>, axis: Axis, i: nat, r: Run)
    requires b.Valid() && i < LineCount(b, axis)
    requires r in LineRuns(Line(b, axis, i))
    ensures IsReportedRun(b, axis, MatchOf(b, axis, i, r))
    ensures LineOf(axis, MatchOf(b, axis, i, r).positions[0]) == i
  {
    LineRunsCorrect(Line(b, axis, i));
  }

  /** A reported run is the match the scan builds for its run of its line. */
  lemma ReportedIsMatchOf<T>(b: Board<T>, axis: Axis, m: Match<T>)
    requires b.Valid() && IsReportedRun(b, axis, m)
    ensures var i := LineOf(axis, m.positions[0]);
            && 0 <= i < LineCount(b, axis)
            && Run(OffsetOf(axis, m.positions[0]), |m.positions|) in LineRuns(Line(b, axis, i))
            && m == MatchOf(b, axis, i, Run(OffsetOf(axis, m.positions[0]), |m.positions|))
  {
    var i := LineOf(axis, m.positions[0]);
    LineRunsCorrect(Line(b, axis, i));
    var n := MatchOf(b, axis, i, Run(OffsetOf(axis, m.positions[0]), |m.positions|));
    assert m.positions == n.positions;
  }

  lemma LineMatchesCorrect<T>(b: Board<T>, axis: Axis, i: nat)
    requires b.Valid() && i < LineCount(b, axis)
    ensures forall m :: m in LineMatches(b, axis, i) <==>
              IsReportedRun(b, axis, m) && LineOf(axis, m.positions[0]) == i
  {
    var runs := LineRuns(Line(b, axis, i));
    var ms := MatchesOfRuns(b, axis, i, runs);
    LineMatchesAsRuns(b, axis, i);
    forall m | m in ms
      ensures IsReportedRun(b, axis, m) && LineOf(axis, m.positions[0]) == i
    {
      var k :| 0 <= k < |ms| && ms[k] == m;
      assert runs[k] in runs;
      MatchOfReported(b, axis, i, runs[k]);
    }
    forall m | IsReportedRun(b, axis, m) && LineOf(axis, m.positions[0]) == i
      ensures m in ms
    {
      ReportedIsMatchOf(b, axis, m);
      var r := Run(OffsetOf(axis, m.positions[0]), |m.positions|);
      var k :| 0 <= k < |runs| && runs[k] == r;
      assert ms[k] == m;
    }
  }

  lemma {:induction false} ScanFromCorrect<T>(b: Board<T>, axis: Axis, i: nat)
    requires b.Valid()
    ensures forall m :: m in ScanFrom(b, axis, i) <==>
              IsReportedRun(b, axis, m) && LineOf(axis, m.positions[0]) >= i
    decreases LineCount(b, axis) - i
  {
    if i < LineCount(b, axis) {
      LineMatchesCorrect(b, axis, i);
      ScanFromCorrect(b, axis, i + 1);
    }
  }

  /** A scan reports the lines in order; a match of line `i` comes before a match of
      a later line, and matches of one line come left to right (top to bottom). */
  ghost predicate Precedes<T>(axis: Axis, m: Match<T>, n: Match<T>)
  {
    |m.positions| > 0 && |n.positions| > 0 &&
    var p, q := m.positions[0], n.positions[0];
    (LineOf(axis, p) < LineOf(axis, q) ||
     (LineOf(axis, p) == LineOf(axis, q) && OffsetOf(axis, p) < OffsetOf(axis, q)))
  }

  /** Every match comes before every later one. */
  ghost predicate InScanOrder<T>(axis: Axis, ms: seq<Match<T>>)
  {
    forall x, y :: 0 <= x < y < |ms| ==> Precedes(axis, ms[x], ms[y])
  }

  /** The matches of one line followed by those of later lines are in scan order. */
  lemma InScanOrderAppend<T>(axis: Axis, i: int, head: seq<Match<T>>, tail: seq<Match<T>>)
    requires InScanOrder(axis, head) && InScanOrder(axis, tail)
    requires forall m :: m in head ==> |m.positions| > 0 && LineOf(axis, m.positions[0]) == i
    requires forall m :: m in tail ==> |m.positions| > 0 && LineOf(axis, m.positions[0]) > i
    ensures InScanOrder(axis, head + tail)
  {
    var all := head + tail;
    forall x, y | 0 <= x < y < |all|
      ensures Precedes(axis, all[x], all[y])
    {
      if y < |head| {
        assert all[x] == head[x] && all[y] == head[y];
      } else if x < |head| {
        assert all[y] == tail[y - |head|] && tail[y - |head|] in tail;
        assert all[x] == head[x] && head[x] in head;
      } else {
        assert all[x] == tail[x - |head|];
        assert all[y] == tail[y - |head|];
      }
    }
  }

  /** The matches of one line come in increasing order along it. */
  lemma LineMatchesOrdered<T>(b: Board<T>, axis: Axis, i: nat)
    requires b.Valid() && i < LineCount(b, axis)
    ensures InScanOrder(axis, LineMatches(b, axis, i))
  {
    var runs := LineRuns(Line(b, axis, i));
    LineRunsCorrect(Line(b, axis, i));
    LineMatchesAsRuns(b, axis, i);
    var ms := MatchesOfRuns(b, axis, i, runs);
    forall x, y | 0 <= x < y < |ms|
      ensures Precedes(axis, ms[x], ms[y])
    {
      assert runs[x] in runs && runs[y] in runs;
      assert runs[x].start + runs[x].len <= runs[y].start;
    }
  }

  lemma {:induction false} ScanFromOrdered<T>(b: Board<T>, axis: Axis, i: nat)
    requires b.Valid()
    ensures InScanOrder(axis, ScanFrom(b, axis, i))
    decreases LineCount(b, axis) - i
  {
    if i < LineCount(b, axis) {
      ScanFromOrdered(b, axis, i + 1);
      LineMatchesOrdered(b, axis, i);
      ScanFromCorrect(b, axis, i + 1);
      LineMatchesCorrect(b, axis, i);
      var head, tail := LineMatches(b, axis, i), ScanFrom(b, axis, i + 1);
      forall m | m in head
        ensures |m.positions| > 0 && LineOf(axis, m.positions[0]) == i
      {
        assert IsReportedRun(b, axis, m);
      }
      forall m | m in tail
        ensures |m.positions| > 0 && LineOf(axis, m.positions[0]) > i
      {
        assert IsReportedRun(b, axis, m) && LineOf(axis, m.positions[0]) >= i + 1;
      }
      InScanOrderAppend(axis, i, head, tail);
    }
  }

  /** Each scan reports exactly the maximal runs of three or more on its lines, each
      once, in line order and along each line in increasing order. */
  lemma ScanCorrect<T>(b: Board<T>, axis: Axis)
    requires b.Valid()
    ensures forall m :: m in ScanFrom(b, axis, 0) <==> IsReportedRun(b, axis, m)
    ensures InScanOrder(axis, ScanFrom(b, axis, 0))
  {
    ScanFromCorrect(b, axis, 0);
    ScanFromOrdered(b, axis, 0);
  }

  /** Three equal tiles side by side on some row or column. */
  ghost predicate HasThreeInLine<T>(b: Board<T>)
    requires b.Valid()
  {
    exists axis, i: nat, k: nat :: i < LineCount(b, axis) && ThreeAt(Line(b, axis, i), k)
  }

  /** No line from `i` on holds a run of three or more. */
  ghost predicate QuietFrom<T>(b: Board<T>, axis: Axis, i: nat)
    requires b.Valid()
  {
    forall j: nat :: i <= j < LineCount(b, axis) ==> LineRuns(Line(b, axis, j)) == []
  }

  lemma {:induction false} ScanFromEmpty<T>(b: Board<T>, axis: Axis, i: nat)
    requires b.Valid()
    ensures ScanFrom(b, axis, i) == [] <==> QuietFrom(b, axis, i)
    decreases LineCount(b, axis) - i
  {
    if i < LineCount(b, axis) {
      var here := LineMatches(b, axis, i);
      assert here == [] <==> LineRuns(Line(b, axis, i)) == [] by {
        LineMatchesAsRuns(b, axis, i);
      }
      ScanFromEmpty(b, axis, i + 1);
      assert QuietFrom(b, axis, i) <==> LineRuns(Line(b, axis, i)) == [] && QuietFrom(b, axis, i + 1);
      assert ScanFrom(b, axis, i) == here + ScanFrom(b, axis, i + 1);
    }
  }

  /** `findMatches` finds nothing exactly when no three equal tiles stand side by side
      on any row or column. */
  lemma FindMatchesEmpty<T>(b: Board<T>)
    requires b.Valid()
    ensures FindMatches(b) == [] <==> !HasThreeInLine(b)
  {
    ScanFromEmpty(b, Horizontal, 0);
    ScanFromEmpty(b, Vertical, 0);
    forall axis, i: nat | i < LineCount(b, axis)
      ensures LineRuns(Line(b, axis, i)) == [] <==> forall k: nat :: !ThreeAt(Line(b, axis, i), k)
    {
      LineRunsEmpty(Line(b, axis, i));
    }
  }

  /** `getHorisontalMatches2`: scans every row left to right, counting the run in
      progress and pushing a match whenever a run of three or more ends. */
  method GetHorisontalMatches2<T(==)>(b: Board<T>) returns (matches: seq<Match<T>>)
    requires b.Valid()
    ensures matches == HorizontalMatches(b)
  {
    ResumeFromStart(b, Horizontal);
    matches := [];
    var matchCount := 1;
    var matchOnValue: Cell<T>;
    var i := 0;
    while i < b.height
      invariant 0 <= i <= b.height
      invariant Resume(b, Horizontal, i, 0, 1, matches) == HorizontalMatches(b)
    {
      matchCount := 1;
      matchOnValue := Piece(b, Position(i, 0));
      ghost var s := 0;
      var j := 1;
      while j < b.width
        invariant 0 <= s < j && matchCount == j - s && (j <= b.width || j == 1)
        invariant matchOnValue == Piece(b, At(Horizontal, i, s))
        invariant Resume(b, Horizontal, i, s, j, matches) == HorizontalMatches(b)
      {
        var tile := Piece(b, Position(i, j));
        if tile == matchOnValue {
          ResumeExtend(b, Horizontal, i, s, j, matches);
          matchCount := matchCount + 1;
        } else {
          ResumeClose(b, Horizontal, i, s, j, matches);
          if matchCount >= 3 {
            PushedRun(b, Horizontal, i, s, j, matches, matchOnValue, matchCount, i, j);
            matches := matches + [CreateMatch(matchOnValue, matchCount, i, j, Horizontal)];
          }
          matchCount := 1;
          matchOnValue := tile;
          s := j;
        }
        j := j + 1;
      }
      ResumeEnd(b, Horizontal, i, s, j, matches);
      if matchCount >= 3 {
        assert j == b.width;
        PushedRun(b, Horizontal, i, s, j, matches, matchOnValue, matchCount, i, b.width);
        matches := matches + [CreateMatch(matchOnValue, matchCount, i, b.width, Horizontal)];
      }
      i := i + 1;
    }
  }

  /** `getVerticalMatches`: the same scan down every column. */
  method GetVerticalMatches<T(==)>(b: Board<T>) returns (matches: seq<Match<T>>)
    requires b.Valid()
    ensures matches == VerticalMatches(b)
  {
    ResumeFromStart(b, Vertical);
    matches := [];
    var matchCount := 1;
    var matchOnValue: Cell<T>;
    var i := 0;
    while i < b.width
      invariant 0 <= i <= b.width
      invariant Resume(b, Vertical, i, 0, 1, matches) == VerticalMatches(b)
    {
      matchCount := 1;
      matchOnValue := Piece(b, Position(0, i));
      ghost var s := 0;
      var j := 1;
      while j < b.height
        invariant 0 <= s < j && matchCount == j - s && (j <= b.height || j == 1)
        invariant matchOnValue == Piece(b, At(Vertical, i, s))
        invariant Resume(b, Vertical, i, s, j, matches) == VerticalMatches(b)
      {
        var tile := Piece(b, Position(j, i));
        if tile == matchOnValue {
          ResumeExtend(b, Vertical, i, s, j, matches);
          matchCount := matchCount + 1;
        } else {
          ResumeClose(b, Vertical, i, s, j, matches);
          if matchCount >= 3 {
            PushedRun(b, Vertical, i, s, j, matches, matchOnValue, matchCount, j, i);
            matches := matches + [CreateMatch(matchOnValue, matchCount, j, i, Vertical)];
          }
          matchCount := 1;
          matchOnValue := tile;
          s := j;
        }
        j := j + 1;
      }
      ResumeEnd(b, Vertical, i, s, j, matches);
      if matchCount >= 3 {
        assert j == b.height;
        PushedRun(b, Vertical, i, s, j, matches, matchOnValue, matchCount, b.height, i);
        matches := matches + [CreateMatch(matchOnValue, matchCount, b.height, i, Vertical)];
      }
      i := i + 1;
    }
  }
}
