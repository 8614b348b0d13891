/** The runs a left-to-right (or top-to-bottom) scan of one line of tiles reports.
    Both engines scan every row and every column the same way; this module states
    what one such scan returns and proves what that means. */
module Runs {
  import opened Lines

  /** `len` consecutive tiles of a line, starting at index `start`. */
  datatype Run = Run(start: nat, len: nat)

  /** Tiles `start .. start + len - 1` are equal (`===`) and neither neighbour
      equals them: the run cannot be made longer. */
  ghost predicate IsMaximalRun<T>(line: seq<Cell<T>>, start: nat, len: nat)
  {
    && 0 < len && start + len <= |line|
    && (forall k :: start <= k < start + len ==> line[k] == line[start])
    && (start == 0 || line[start - 1] != line[start])
    && (start + len == |line| || line[start + len] != line[start])
  }

  /** Three equal tiles side by side, starting at index `k`. */
  ghost predicate ThreeAt<T>(line: seq<Cell<T>>, k: nat)
  {
    k + 2 < |line| && line[k] == line[k + 1] && line[k + 1] == line[k + 2]
  }

  /** Runs are reported left to right and do not overlap. */
  ghost predicate Ordered(rs: seq<Run>)
  {
    forall a, b :: 0 <= a < b < |rs| ==> rs[a].start + rs[a].len <= rs[b].start
  }

  /** The runs of three or more that the scan reports from index `j` on, when the
      run in progress started at `s` (`matchOnValue` is `line[s]`, `matchCount`
      is `j - s`). A different tile closes the run; so does the end of the line. */
  function RunsFrom<T(==)>(line: seq<Cell<T>>, s: nat, j: nat): (rs: seq<Run>)
    requires s < j <= |line|
    ensures forall r :: r in rs ==> s <= r.start && 3 <= r.len && r.start + r.len <= |line|
    decreases |line| - j
  {
    if j == |line| then
      (if j - s >= 3 then [Run(s, j - s)] else [])
    else if line[j] == line[s] then
      RunsFrom(line, s, j + 1)
    else
      (if j - s >= 3 then [Run(s, j - s)] else []) + RunsFrom(line, j, j + 1)
  }

  /** The runs of three or more that one scan of `line` reports, in order. */
  function LineRuns<T(==)>(line: seq<Cell<T>>): (rs: seq<Run>)
    ensures forall r :: r in rs ==> 3 <= r.len && r.start + r.len <= |line|
  {
    if line == [] then [] else RunsFrom(line, 0, 1)
  }

  lemma {:induction false} RunsFromSound<T>(line: seq<Cell<T>>, s: nat, j: nat)
    requires s < j <= |line|
    requires forall k :: s <= k < j ==> line[k] == line[s]
    requires s == 0 || line[s - 1] != line[s]
    ensures forall r :: r in RunsFrom(line, s, j) ==> IsMaximalRun(line, r.start, r.len)
    decreases |line| - j
  {
    if j == |line| {
    } else if line[j] == line[s] {
      RunsFromSound(line, s, j + 1);
    } else {
      RunsFromSound(line, j, j + 1);
    }
  }

  lemma {:induction false} RunsFromOrdered<T>(line: seq<Cell<T>>, s: nat, j: nat)
    requires s < j <= |line|
    ensures Ordered(RunsFrom(line, s, j))
    decreases |line| - j, 1
  {
    if j == |line| {
    } else if line[j] == line[s] {
      RunsFromOrdered(line, s, j + 1);
    } else {
      RunsFromOrderedClose(line, s, j);
    }
  }

  /** A tile that closes the run keeps the reported runs ordered. */
  lemma {:induction false} RunsFromOrderedClose<T>(line: seq<Cell<T>>, s: nat, j: nat)
    requires s < j < |line| && line[j] != line[s]
    ensures Ordered(RunsFrom(line, s, j))
    decreases |line| - j, 0
  {
    RunsFromOrdered(line, j, j + 1);
    var tail := RunsFrom(line, j, j + 1);
    if j - s >= 3 {
      assert RunsFrom(line, s, j) == [Run(s, j - s)] + tail;
      OrderedCons(Run(s, j - s), tail);
    } else {
      assert RunsFrom(line, s, j) == [] + tail;
    }
  }

  /** A tile that differs from the run in progress closes it. */
  lemma RunsFromClose<T>(line: seq<Cell<T>>, s: nat, j: nat)
    requires s < j < |line| && line[j] != line[s]
    ensures RunsFrom(line, s, j) == (if j - s >= 3 then [Run(s, j - s)] else []) + RunsFrom(line, j, j + 1)
  {
  }

  lemma OrderedCons(r: Run, rs: seq<Run>)
    requires Ordered(rs)
    requires forall x :: x in rs ==> r.start + r.len <= x.start
    ensures Ordered([r] + rs)
  {
    forall a, b | 0 <= a < b < |[r] + rs|
      ensures ([r] + rs)[a].start + ([r] + rs)[a].len <= ([r] + rs)[b].start
    {
      assert ([r] + rs)[b] == rs[b - 1];
      if a > 0 {
        assert ([r] + rs)[a] == rs[a - 1];
      } else {
        assert rs[b - 1] in rs;
      }
    }
  }

  lemma {:induction false} RunsFromComplete<T>(line: seq<Cell<T>>, s: nat, j: nat, st: nat, len: nat)
    requires s < j <= |line|
    requires forall k :: s <= k < j ==> line[k] == line[s]
    requires IsMaximalRun(line, st, len) && 3 <= len && s <= st
    ensures Run(st, len) in RunsFrom(line, s, j)
    decreases |line| - j
  {
    if st < j {
      RunInProgress(line, s, j, st, len);
    }
    if j == |line| {
      assert RunsFrom(line, s, j) == [Run(s, j - s)];
    } else if line[j] == line[s] {
      RunsFromComplete(line, s, j + 1, st, len);
    } else {
      RunsFromClose(line, s, j);
      var head: seq<Run> := if j - s >= 3 then [Run(s, j - s)] else [];
      if st == s {
        assert RunsFrom(line, s, j)[0] == Run(st, len);
      } else {
        RunsFromComplete(line, j, j + 1, st, len);
        assert RunsFrom(line, s, j) == head + RunsFrom(line, j, j + 1);
      }
    }
  }

  /** A maximal run that begins inside the run in progress is that run: it begins at
      `s` and, once a tile differs or the line ends at `j`, ends at `j`. */
  lemma RunInProgress<T>(line: seq<Cell<T>>, s: nat, j: nat, st: nat, len: nat)
    requires s < j <= |line|
    requires forall k :: s <= k < j ==> line[k] == line[s]
    requires IsMaximalRun(line, st, len) && s <= st < j
    ensures st == s
    ensures (j == |line| || line[j] != line[s]) ==> st + len == j
  {

  }

  /** The scan of one line reports exactly the maximal runs of three or more, each
      once, left to right. */
  lemma LineRunsCorrect<T>(line: seq<Cell<T>>)
    ensures forall st: nat, len: nat ::
              Run(st, len) in LineRuns(line) <==> 3 <= len && IsMaximalRun(line, st, len)
    ensures Ordered(LineRuns(line))
  {
    if line != [] {
      RunsFromSound(line, 0, 1);
      RunsFromOrdered(line, 0, 1);
      forall st: nat, len: nat | 3 <= len && IsMaximalRun(line, st, len)
        ensures Run(st, len) in LineRuns(line)
      {
        RunsFromComplete(line, 0, 1, st, len);
      }
    }
  }

  /** Where the run through index `k` begins. */
  ghost function RunBegin<T>(line: seq<Cell<T>>, k: nat): (b: nat)
    requires k < |line|
    ensures b <= k && (b == 0 || line[b - 1] != line[b])
    ensures forall i :: b <= i <= k ==> line[i] == line[k]
  {
    if k > 0 && line[k - 1] == line[k] then RunBegin(line, k - 1) else k
  }

  /** Where the run through index `k` ends (exclusive). */
  ghost function RunEnd<T>(line: seq<Cell<T>>, k: nat): (e: nat)
    requires k < |line|
    ensures k < e <= |line| && (e == |line| || line[e] != line[k])
    ensures forall i :: k <= i < e ==> line[i] == line[k]
    decreases |line| - k
  {
    if k + 1 < |line| && line[k + 1] == line[k] then RunEnd(line, k + 1) else k + 1
  }

  /** A reported run holds three equal tiles side by side. */
  lemma LineRunsHaveThree<T>(line: seq<Cell<T>>)
    ensures LineRuns(line) != [] ==> exists k: nat :: ThreeAt(line, k)
  {
    LineRunsCorrect(line);
    if LineRuns(line) != [] {
      var r := LineRuns(line)[0];
      assert r in LineRuns(line);
      assert ThreeAt(line, r.start);
    }
  }

  /** Three equal tiles side by side always lie in a reported run. */
  lemma ThreeInLineRuns<T>(line: seq<Cell<T>>, k: nat)
    requires ThreeAt(line, k)
    ensures exists r :: r in LineRuns(line) && r.start <= k && k + 3 <= r.start + r.len
  {
    LineRunsCorrect(line);
    var b, e := RunBegin(line, k), RunEnd(line, k + 2);
    assert line[k + 2] == line[k];
    assert IsMaximalRun(line, b, e - b);
    assert Run(b, e - b) in LineRuns(line);
  }

  /** A scan reports nothing exactly when no three equal tiles stand side by side. */
  lemma LineRunsEmpty<T>(line: seq<Cell<T>>)
    ensures LineRuns(line) == [] <==> forall k: nat :: !ThreeAt(line, k)
  {
    LineRunsHaveThree(line);
    if k: nat :| ThreeAt(line, k) {
      ThreeInLineRuns(line, k);
    }
  }
}
