/** Row clearing: `full_rows` finds the rows holding exactly `width` cells and
    `flushed` removes them, moving every remaining cell down by the number of
    full rows beneath it. */
module Rows {
  import opened Geometry

  /** The cells of `s` in row `y` (one group of the source's `groupby`). */
  function Row(s: CellSet, y: int): CellSet
  {
    set c | c in s && c.y == y
  }

  /** `full_rows`: the y of every row whose group has exactly `width` cells. */
  function FullRows(s: CellSet, width: int): set<int>
  {
    set c | c in s && |Row(s, c.y)| == width :: c.y
  }

  /** The full rows strictly below row `y`, that is with a greater y. */
  function FullBelow(full: set<int>, y: int): set<int>
  {
    set r | r in full && y < r
  }

  /** Where row `y` lands once the full rows are removed: `y` plus
      `n_rows_below_flushed(y)`. */
  function Lowered(full: set<int>, y: int): int
  {
    y + |FullBelow(full, y)|
  }

  /** `flushed`: drop the cells of full rows and move every other cell down
      by the number of full rows below it. */
  function Flushed(s: CellSet, width: int): CellSet
  {
    var full := FullRows(s, width);
    set c | c in s && c.y !in full :: Cell(c.x, Lowered(full, c.y))
  }

  /** Row `y` is reported full exactly when it holds `width` cells and
      `width` is positive (an empty row forms no group). */
  lemma FullRowsSpec(s: CellSet, width: int, y: int)
    ensures y in FullRows(s, width) <==> 0 < width && |Row(s, y)| == width
  {
    if y in FullRows(s, width) {
      var c :| c in s && |Row(s, c.y)| == width && c.y == y;
      assert c in Row(s, y);
    }
    if 0 < width && |Row(s, y)| == width {
      var c :| c in Row(s, y);
      assert c in s && c.y == y;
    }
  }

  /** The cells (0, y) to (n - 1, y): a complete row of a board n wide. */
  function Span(y: int, n: int): (r: CellSet)
    ensures forall c :: c in r <==> c.y == y && 0 <= c.x < n
    ensures |r| == if n < 0 then 0 else n
  {
    if n <= 0 then {} else Span(y, n - 1) + {Cell(n - 1, y)}
  }

  /** On a board whose cells lie in columns [0, width), a row holds exactly
      `width` cells when every column of it is occupied. */
  lemma FullRowComplete(s: CellSet, width: int, y: int)
    requires 0 <= width && ValidX(s, width)
    ensures |Row(s, y)| == width <==> forall x :: 0 <= x < width ==> Cell(x, y) in s
  {
    var row, span := Row(s, y), Span(y, width);
    assert row <= span;
    if |row| == width {
      SubsetSameSize(row, span);
      forall x | 0 <= x < width
        ensures Cell(x, y) in s
      {
        assert Cell(x, y) in span;
      }
    }
    if forall x :: 0 <= x < width ==> Cell(x, y) in s {
      assert span <= row;
      assert row == span;
    }
  }

  /** A subset as large as its superset is the whole superset. */
  lemma SubsetSameSize(a: CellSet, b: CellSet)
    requires a <= b && |a| == |b|
    ensures a == b
  {
    assert a - b == {};
    assert a * b == a;
    assert a + b == b;
    assert |b - a| == 0;
  }

  /** Going one row down, the count of full rows below drops by one exactly
      when that next row is full. */
  lemma FullBelowStep(full: set<int>, y: int)
    ensures |FullBelow(full, y)| == |FullBelow(full, y + 1)| + (if y + 1 in full then 1 else 0)
  {
    var lower := FullBelow(full, y + 1);
    if y + 1 in full {
      assert FullBelow(full, y) == lower + {y + 1};
    } else {
      assert FullBelow(full, y) == lower;
    }
  }

  /** Rows never change order: a lower row lands at least as low. */
  lemma {:induction false} LoweredNonDecreasing(full: set<int>, y1: int, y2: int)
    requires y1 <= y2
    ensures Lowered(full, y1) <= Lowered(full, y2)
    decreases y2 - y1
  {
    if y1 < y2 {
      FullBelowStep(full, y2 - 1);
      LoweredNonDecreasing(full, y1, y2 - 1);
    }
  }

  /** A kept row lands strictly below every row above it. */
  lemma LoweredIncreasing(full: set<int>, y1: int, y2: int)
    requires y1 < y2 && y2 !in full
    ensures Lowered(full, y1) < Lowered(full, y2)
  {
    FullBelowStep(full, y2 - 1);
    LoweredNonDecreasing(full, y1, y2 - 1);
  }

  /** Distinct kept rows land on distinct rows. */
  lemma LoweredInjective(full: set<int>, y1: int, y2: int)
    requires y1 !in full && y2 !in full
    requires Lowered(full, y1) == Lowered(full, y2)
    ensures y1 == y2
  {
    if y1 < y2 {
      LoweredIncreasing(full, y1, y2);
    } else if y2 < y1 {
      LoweredIncreasing(full, y2, y1);
    }
  }

  /** A cell on the row where kept row `y` lands came from row `y`. */
  lemma FlushedRowFrom(s: CellSet, width: int, y: int, e: Cell)
    requires y !in FullRows(s, width)
    requires e in Row(Flushed(s, width), Lowered(FullRows(s, width), y))
    ensures Cell(e.x, e.y - |FullBelow(FullRows(s, width), y)|) in Row(s, y)
  {
    var full := FullRows(s, width);
    var c :| c in s && c.y !in full && e == Cell(c.x, Lowered(full, c.y));
    LoweredInjective(full, c.y, y);
  }

  /** Every cell of kept row `y` reaches the row where `y` lands. */
  lemma FlushedRowTo(s: CellSet, width: int, y: int, c: Cell)
    requires y !in FullRows(s, width)
    requires c in Row(s, y)
    ensures Cell(c.x, c.y + |FullBelow(FullRows(s, width), y)|) in Row(Flushed(s, width), Lowered(FullRows(s, width), y))
  {
    var full := FullRows(s, width);
    assert c in s && c.y !in full;
    assert Cell(c.x, Lowered(full, c.y)) in Flushed(s, width);
  }

  /** A kept row arrives whole: the flushed row it lands on is the old row
      moved down, no more and no less. */
  lemma FlushedRow(s: CellSet, width: int, y: int)
    requires y !in FullRows(s, width)
    ensures var full := FullRows(s, width);
      Row(Flushed(s, width), Lowered(full, y)) == Translate(Row(s, y), 0, |FullBelow(full, y)|)
  {
    var full := FullRows(s, width);
    var n := |FullBelow(full, y)|;
    var landed := Row(Flushed(s, width), Lowered(full, y));
    var moved := Translate(Row(s, y), 0, n);
    forall e: Cell
      ensures e in landed <==> e in moved
    {
      TranslateMember(Row(s, y), 0, n, e);
      if e in landed {
        FlushedRowFrom(s, width, y, e);
      }
      if Cell(e.x, e.y - n) in Row(s, y) {
        FlushedRowTo(s, width, y, Cell(e.x, e.y - n));
      }
    }
    assert landed == moved;
  }

  /** Flushing leaves no full row behind. */
  lemma FlushedNoFullRows(s: CellSet, width: int)
    ensures FullRows(Flushed(s, width), width) == {}
  {
    var full := FullRows(s, width);
    var f := Flushed(s, width);
    if y' :| y' in FullRows(f, width) {
      FullRowsSpec(f, width, y');
      var e :| e in Row(f, y');
      var c :| c in s && c.y !in full && e == Cell(c.x, Lowered(full, c.y));
      FlushedRow(s, width, c.y);
      TranslateSize(Row(s, c.y), 0, |FullBelow(full, c.y)|);
      FullRowsSpec(s, width, c.y);
      assert false;
    }
  }

  /** With no full rows, flushing changes nothing. */
  lemma FlushedIdentity(s: CellSet, width: int)
    requires FullRows(s, width) == {}
    ensures Flushed(s, width) == s
  {
    forall y
      ensures FullBelow(FullRows(s, width), y) == {}
    {
    }
    forall c | c in s
      ensures c in Flushed(s, width)
    {
      assert Cell(c.x, Lowered({}, c.y)) == c;
    }
  }

  /** Flushing twice is flushing once. */
  lemma FlushedIdempotent(s: CellSet, width: int)
    ensures Flushed(Flushed(s, width), width) == Flushed(s, width)
  {
    FlushedNoFullRows(s, width);
    FlushedIdentity(Flushed(s, width), width);
  }

  /** A cell below every full row stays where it is. */
  lemma FlushedKeepsBelow(s: CellSet, width: int, c: Cell)
    requires c in s
    requires forall r :: r in FullRows(s, width) ==> r < c.y
    ensures c in Flushed(s, width)
  {
    var full := FullRows(s, width);
    assert FullBelow(full, c.y) == {};
    assert Cell(c.x, Lowered(full, c.y)) == c;
  }

  /** With exactly one full row r, flushing removes row r, moves every cell
      above it (smaller y) down by one row and leaves every cell below it
      where it was. */
  lemma FlushedOneRow(s: CellSet, width: int, r: int)
    requires FullRows(s, width) == {r}
    ensures forall e :: e in Flushed(s, width) <==>
      (r < e.y && e in s) || (e.y <= r && Cell(e.x, e.y - 1) in s)
  {
    var full := FullRows(s, width);
    forall y | y < r
      ensures Lowered(full, y) == y + 1
    {
      assert FullBelow(full, y) == {r};
    }
    forall y | r < y
      ensures Lowered(full, y) == y
    {
      assert FullBelow(full, y) == {};
    }
    forall e
      ensures e in Flushed(s, width) <==> (r < e.y && e in s) || (e.y <= r && Cell(e.x, e.y - 1) in s)
    {
      if e in Flushed(s, width) {
        var c :| c in s && c.y !in full && e == Cell(c.x, Lowered(full, c.y));
      }
      if r < e.y && e in s {
        assert Cell(e.x, Lowered(full, e.y)) in Flushed(s, width);
      }
      if e.y <= r && Cell(e.x, e.y - 1) in s {
        var c := Cell(e.x, e.y - 1);
        assert Cell(c.x, Lowered(full, c.y)) in Flushed(s, width);
      }
    }
  }

  /** On a board two wide holding (0, 0), (0, 1) and (1, 1), row 1 is full;
      flushing clears it and the lone cell above drops into it. */
  lemma FlushedExample(s: CellSet)
    requires forall c :: c in s <==> c == Cell(0, 0) || c == Cell(0, 1) || c == Cell(1, 1)
    ensures FullRows(s, 2) == {1}
    ensures Flushed(s, 2) == {Cell(0, 1)}
  {
    assert Row(s, 1) == {Cell(0, 1), Cell(1, 1)};
    assert Row(s, 0) == {Cell(0, 0)};
    FullRowsSpec(s, 2, 0);
    FullRowsSpec(s, 2, 1);
    var full := FullRows(s, 2);
    assert full == {1} by {
      forall y | y in full
        ensures y == 1
      {
        var c :| c in s && |Row(s, c.y)| == 2 && c.y == y;
      }
    }
    assert FullBelow(full, 0) == {1};
    assert Cell(0, Lowered(full, 0)) == Cell(0, 1);
  }
}
