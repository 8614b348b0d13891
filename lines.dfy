/** What a tile holds, and how one column of tiles settles under gravity.
    Both engines share these definitions: a column is a sequence of cells,
    top to bottom. */
module Lines {

  /** The value of one tile. `Empty` is the "*" sentinel a removed tile holds until
      it is refilled; `Undefined` is JavaScript's `undefined`, which a lookup off
      the board yields and which the functional swap can write into a tile;
      `Symbol(v)` is a value drawn from the generator. */
  datatype Cell<T> = Empty | Undefined | Symbol(value: T)

  /** `n` removed tiles. */
  function Empties<T>(n: nat): (r: seq<Cell<T>>)
    ensures |r| == n
  {
    seq(n, _ => Empty)
  }

  lemma EmptiesAreEmpty<T>(n: nat)
    ensures forall i :: 0 <= i < n ==> Empties<T>(n)[i].Empty?
  {
  }

  /** The tiles of `s` that are not "*", in their order. */
  function NonEmpty<T>(s: seq<Cell<T>>): (r: seq<Cell<T>>)
    ensures |r| <= |s|
  {
    if s == [] then [] else (if s[0].Empty? then [] else [s[0]]) + NonEmpty(s[1..])
  }

  lemma {:induction false} NonEmptyHasNoHoles<T>(s: seq<Cell<T>>)
    ensures forall i :: 0 <= i < |NonEmpty(s)| ==> !NonEmpty(s)[i].Empty?
  {
    if s != [] {
      NonEmptyHasNoHoles(s[1..]);
    }
  }

  /** The number of "*" tiles in `s`. */
  function Holes<T>(s: seq<Cell<T>>): nat
  {
    |s| - |NonEmpty(s)|
  }

  /** No tile that is not "*" lies above a "*": the column has settled. */
  ghost predicate IsCompact<T>(s: seq<Cell<T>>)
  {
    forall i, j :: 0 <= i < j < |s| && !s[i].Empty? ==> !s[j].Empty?
  }

  /** The settled form of a column: its "*" tiles on top, then its other tiles in
      their original top-to-bottom order. */
  function Compact<T>(s: seq<Cell<T>>): seq<Cell<T>>
  {
    Empties(Holes(s)) + NonEmpty(s)
  }

  lemma {:induction false} NonEmptyAppend<T>(a: seq<Cell<T>>, b: seq<Cell<T>>)
    ensures NonEmpty(a + b) == NonEmpty(a) + NonEmpty(b)
  {
    if a == [] {
      assert a + b == b;
    } else {
      assert (a + b)[0] == a[0];
      assert (a + b)[1..] == a[1..] + b;
      NonEmptyAppend(a[1..], b);
    }
  }

  lemma {:induction false} NonEmptyOfEmpties<T>(n: nat)
    ensures NonEmpty(Empties<T>(n)) == []
  {
    if n > 0 {
      assert Empties<T>(n) == [Empty] + Empties<T>(n - 1);
      NonEmptyOfEmpties<T>(n - 1);
    }
  }

  lemma {:induction false} NonEmptyOfFull<T>(s: seq<Cell<T>>)
    requires forall i :: 0 <= i < |s| ==> !s[i].Empty?
    ensures NonEmpty(s) == s
  {
    if s != [] {
      NonEmptyOfFull(s[1..]);
    }
  }

  /** A column with a "*" tile has a hole to fill. */
  lemma {:induction false} HolesPositive<T>(s: seq<Cell<T>>, i: nat)
    requires i < |s| && s[i].Empty?
    ensures Holes(s) > 0
  {
    if i > 0 {
      HolesPositive(s[1..], i - 1);
    }
  }

  /** No holes means no "*" tile, and conversely. */
  lemma NoHoles<T>(s: seq<Cell<T>>)
    ensures Holes(s) == 0 <==> forall i :: 0 <= i < |s| ==> !s[i].Empty?
  {
    if forall i :: 0 <= i < |s| ==> !s[i].Empty? {
      NonEmptyOfFull(s);
    } else {
      var i :| 0 <= i < |s| && s[i].Empty?;
      HolesPositive(s, i);
    }
  }

  /** How one tile at the top of a column adds to its tiles that are not "*". */
  lemma NonEmptyCons<T>(x: Cell<T>, t: seq<Cell<T>>)
    ensures NonEmpty([x] + t) == (if x.Empty? then [] else [x]) + NonEmpty(t)
  {
    assert ([x] + t)[0] == x;
    assert ([x] + t)[1..] == t;
  }

  /** A column splits into its "*" tiles and its other tiles. */
  lemma {:induction false} MultisetSplit<T>(s: seq<Cell<T>>)
    ensures multiset(s) == multiset(Empties<T>(Holes(s))) + multiset(NonEmpty(s))
  {
    if s != [] {
      var x, t := s[0], s[1..];
      assert s == [x] + t;
      MultisetSplit(t);
      NonEmptyCons(x, t);
      assert Holes(s) == Holes(t) + (if x.Empty? then 1 else 0);
      var k := Holes(t);
      if x.Empty? {
        EmptiesCons<T>(k);
        assert multiset(Empties<T>(k + 1)) == multiset{x} + multiset(Empties<T>(k));
      } else {
        assert multiset(NonEmpty(s)) == multiset{x} + multiset(NonEmpty(t));
      }
    }
  }

  /** Gravity's partner: the settled column has the same length, has settled, keeps
      the order of its tiles that are not "*", and holds the same multiset. */
  lemma CompactFacts<T>(s: seq<Cell<T>>)
    ensures |Compact(s)| == |s|
    ensures IsCompact(Compact(s))
    ensures NonEmpty(Compact(s)) == NonEmpty(s)
    ensures Holes(Compact(s)) == Holes(s)
    ensures multiset(Compact(s)) == multiset(s)
  {
    var e := Empties<T>(Holes(s));
    NonEmptyAppend(e, NonEmpty(s));
    NonEmptyOfEmpties<T>(Holes(s));
    EmptiesAreEmpty<T>(Holes(s));
    NonEmptyHasNoHoles(s);
    NonEmptyOfFull(NonEmpty(s));
    MultisetSplit(s);
  }

  /** A column that has settled is its own settled form. */
  lemma {:induction false} CompactOfCompact<T>(s: seq<Cell<T>>)
    requires IsCompact(s)
    ensures Compact(s) == s
  {
    if s == [] {
    } else if s[0].Empty? {
      CompactOfCompact(s[1..]);
      assert Compact(s) == [Empty] + Compact(s[1..]);
      assert s == [s[0]] + s[1..];
    } else {
      NonEmptyOfFull(s);
    }
  }

  /** The settled form is the only settled column with the same length and the same
      tiles that are not "*" in the same order. */
  lemma CompactUnique<T>(s: seq<Cell<T>>, t: seq<Cell<T>>)
    requires IsCompact(t) && |t| == |s| && NonEmpty(t) == NonEmpty(s)
    ensures t == Compact(s)
  {
    CompactOfCompact(t);
  }

  lemma CompactOfEmptyHead<T>(t: seq<Cell<T>>)
    ensures Compact([Empty] + t) == [Empty] + Compact(t)
  {
    assert ([Empty] + t)[1..] == t;
  }

  /** A tile with a "*" below it swaps with it and the settled form stays the same. */
  lemma CompactOfSwapDown<T>(x: Cell<T>, t: seq<Cell<T>>)
    ensures Compact([x, Empty] + t) == [Empty] + Compact([x] + t)
  {
    var u := [x] + t;
    var v := [x, Empty] + t;
    NonEmptySwapDown(x, t);
    var k := Holes(u);
    assert Holes(v) == k + 1;
    EmptiesCons<T>(k);
    calc {
      Compact(v);
    ==
      Empties<T>(k + 1) + NonEmpty(u);
    ==
      ([Empty] + Empties<T>(k)) + NonEmpty(u);
    ==
      [Empty] + (Empties<T>(k) + NonEmpty(u));
    }
  }

  /** A "*" moved above `x` leaves the tiles that are not "*" as they were. */
  lemma NonEmptySwapDown<T>(x: Cell<T>, t: seq<Cell<T>>)
    ensures NonEmpty([x, Empty] + t) == NonEmpty([x] + t)
  {
    var head: seq<Cell<T>> := if x.Empty? then [] else [x];
    calc {
      NonEmpty([x, Empty] + t);
    == { assert [x, Empty] + t == [x] + ([Empty] + t); }
      NonEmpty([x] + ([Empty] + t));
    == { NonEmptyCons(x, [Empty] + t); }
      head + NonEmpty([Empty] + t);
    == { NonEmptyCons(Empty, t); }
      head + NonEmpty(t);
    == { NonEmptyCons(x, t); }
      NonEmpty([x] + t);
    }
  }

  lemma EmptiesCons<T>(k: nat)
    ensures Empties<T>(k + 1) == [Empty] + Empties<T>(k)
  {
  }

  /** Settling a suffix first does not change how the whole column settles. */
  lemma CompactOfPartlyCompact<T>(a: seq<Cell<T>>, b: seq<Cell<T>>)
    ensures Compact(a + Compact(b)) == Compact(a + b)
  {
    CompactFacts(b);
    NonEmptyAppend(a, Compact(b));
    NonEmptyAppend(a, b);
  }
}
