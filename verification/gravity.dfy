/** `fall`: a piece drops one row at a time onto the static board and merges
    with it at the last position that neither overlaps the board nor leaves
    the rows [0, height).

    The source recurses on the moved piece itself; after `k` steps that set is
    the piece translated by (0, k), so the model recurses on `k` instead and
    translates once, when the piece stops. */
module Gravity {
  import opened Geometry
  import opened Shapes

  /** The piece moved `k` rows down neither overlaps the board nor leaves
      [0, h), stated cell by cell; FreeSpec ties it to `collision` and
      `valid_y` on the moved set. */
  predicate Free(board: CellSet, falling: CellSet, h: int, k: int)
  {
    forall c :: c in falling ==> Cell(c.x, c.y + k) !in board && 0 <= c.y + k < h
  }

  /** Starting `k` rows down, the piece comes to rest `d` rows down: each
      step after `k` up to `d` is free and step `d + 1` is not. */
  predicate RestsFrom(board: CellSet, falling: CellSet, h: int, k: int, d: int)
  {
    k <= d && (forall j :: k < j <= d ==> Free(board, falling, h, j)) && !Free(board, falling, h, d + 1)
  }

  /** Dropped from where it is, the piece comes to rest `d` rows down. */
  predicate Resting(board: CellSet, falling: CellSet, h: int, d: int)
  {
    RestsFrom(board, falling, h, 0, d)
  }

  /** The recursion of `fall` once the piece has moved `k` rows: take the
      next step while it is free, otherwise merge the piece as it stands
      with the board. The piece must have cells: on an empty piece every
      step is free, and the source recurses until Python raises
      `RuntimeError` (maximum recursion depth exceeded). */
  function Drop(board: CellSet, falling: CellSet, h: int, k: int): (r: CellSet)
    requires falling != {}
    ensures board <= r
    decreases h - MaxY(falling) - k
  {
    if Free(board, falling, h, k + 1) then
      Drop(board, falling, h, k + 1)
    else
      board + Translate(falling, 0, k)
  }

  /** `fall` with the same height checked at every step. */
  function Settle(board: CellSet, falling: CellSet, h: int): (r: CellSet)
    requires falling != {}
    ensures board <= r
  {
    Drop(board, falling, h, 0)
  }

  /** `fall` as written: the first step is checked against the caller's
      height, but the recursive call passes no height, so every later step
      is checked against the module-level default. */
  function Fall(board: CellSet, falling: CellSet, height: int): (r: CellSet)
    requires falling != {}
    ensures board <= r
  {
    if Free(board, falling, height, 1) then
      Drop(board, falling, Height, 1)
    else
      board + falling
  }

  /** The step test is the source's: the moved piece does not collide with
      the board and passes `valid_y`. */
  lemma FreeSpec(board: CellSet, falling: CellSet, h: int, k: int)
    ensures Free(board, falling, h, k) <==>
      !Collides(board, Translate(falling, 0, k)) && ValidY(Translate(falling, 0, k), h)
  {
    var moved := Translate(falling, 0, k);
    CollidesSpec(board, moved);
    forall c | c in falling
      ensures Cell(c.x, c.y + k) in moved
    {
      TranslateMember(falling, 0, k, Cell(c.x, c.y + k));
    }
    forall c | c in moved
      ensures Cell(c.x, c.y - k) in falling
    {
      TranslateMember(falling, 0, k, c);
    }
  }

  /** Wherever the piece comes to rest below its current depth, dropping it
      from there merges the board with the piece moved down to that rest. */
  lemma {:induction false} DropSpec(board: CellSet, falling: CellSet, h: int, k: int, d: int)
    requires falling != {}
    requires RestsFrom(board, falling, h, k, d)
    ensures Drop(board, falling, h, k) == board + Translate(falling, 0, d)
    decreases d - k
  {
    if k < d {
      assert Free(board, falling, h, k + 1);
      DropSpec(board, falling, h, k + 1, d);
    }
  }

  /** From any depth the piece comes to rest somewhere at or below it. */
  lemma {:induction false} DropRests(board: CellSet, falling: CellSet, h: int, k: int)
    requires falling != {}
    ensures exists d :: RestsFrom(board, falling, h, k, d)
    decreases h - MaxY(falling) - k
  {
    if Free(board, falling, h, k + 1) {
      DropRests(board, falling, h, k + 1);
      var d :| RestsFrom(board, falling, h, k + 1, d);
      assert RestsFrom(board, falling, h, k, d);
    } else {
      assert RestsFrom(board, falling, h, k, k);
    }
  }

  /** Whatever depth the piece rests at, settling merges the board with the
      piece moved down by exactly that many rows. */
  lemma SettleSpec(board: CellSet, falling: CellSet, h: int, d: int)
    requires falling != {}
    requires Resting(board, falling, h, d)
    ensures Settle(board, falling, h) == board + Translate(falling, 0, d)
  {
    DropSpec(board, falling, h, 0, d);
  }

  /** The piece always comes to rest: some depth d >= 0 has free steps above
      it and a blocked step below it, and the result is the board together
      with the piece moved d rows down. */
  lemma SettleRests(board: CellSet, falling: CellSet, h: int)
    requires falling != {}
    ensures exists d :: Resting(board, falling, h, d) && Settle(board, falling, h) == board + Translate(falling, 0, d)
  {
    DropRests(board, falling, h, 0);
    var d :| RestsFrom(board, falling, h, 0, d);
    SettleSpec(board, falling, h, d);
  }

  /** A blocked first step leaves the piece where it is. */
  lemma SettleBlocked(board: CellSet, falling: CellSet, h: int)
    requires falling != {}
    requires !Free(board, falling, h, 1)
    ensures Settle(board, falling, h) == board + falling
  {
    TranslateZero(falling, 0, 0);
  }

  /** A piece that starts clear of the board keeps all its cells: the result
      has as many cells as the board and the piece together. */
  lemma SettleSize(board: CellSet, falling: CellSet, h: int)
    requires falling != {}
    requires !Collides(board, falling)
    ensures |Settle(board, falling, h)| == |board| + |falling|
  {
    DropRests(board, falling, h, 0);
    var d :| RestsFrom(board, falling, h, 0, d);
    SettleSpec(board, falling, h, d);
    var moved := Translate(falling, 0, d);
    if d == 0 {
      TranslateZero(falling, 0, d);
    } else {
      assert Free(board, falling, h, d);
      FreeSpec(board, falling, h, d);
    }
    CollidesSpec(board, moved);
    assert board !! moved;
    TranslateSize(falling, 0, d);
  }

  /** A board and a piece inside rows [0, h) stay inside them. */
  lemma SettleInFrame(board: CellSet, falling: CellSet, h: int)
    requires falling != {}
    requires ValidY(board, h) && ValidY(falling, h)
    ensures ValidY(Settle(board, falling, h), h)
  {
    DropRests(board, falling, h, 0);
    var d :| RestsFrom(board, falling, h, 0, d);
    SettleSpec(board, falling, h, d);
    if d == 0 {
      TranslateZero(falling, 0, d);
    } else {
      assert Free(board, falling, h, d);
      FreeSpec(board, falling, h, d);
    }
  }

  /** `fall` as written: a blocked first step leaves the piece where it is;
      otherwise the piece takes that step and then rests where the default
      height, not the caller's, stops it. */
  lemma FallSpec(board: CellSet, falling: CellSet, height: int, d: int)
    requires falling != {}
    ensures !Free(board, falling, height, 1) ==> Fall(board, falling, height) == board + falling
    ensures Free(board, falling, height, 1) && RestsFrom(board, falling, Height, 1, d) ==>
      Fall(board, falling, height) == board + Translate(falling, 0, d)
  {
    if Free(board, falling, height, 1) && RestsFrom(board, falling, Height, 1, d) {
      DropSpec(board, falling, Height, 1, d);
    }
  }

  /** With the default height the as-written `fall` and the corrected one agree. */
  lemma FallDefaultHeight(board: CellSet, falling: CellSet)
    requires falling != {}
    ensures Fall(board, falling, Height) == Settle(board, falling, Height)
  {
    TranslateZero(falling, 0, 0);
  }

  /** As written, the piece always ends up moved straight down by some
      number of rows d >= 0 and merged with the board. */
  lemma FallRests(board: CellSet, falling: CellSet, height: int)
    requires falling != {}
    ensures exists d :: 0 <= d && Fall(board, falling, height) == board + Translate(falling, 0, d)
  {
    if Free(board, falling, height, 1) {
      DropRests(board, falling, Height, 1);
      var d :| RestsFrom(board, falling, Height, 1, d);
      FallSpec(board, falling, height, d);
    } else {
      FallSpec(board, falling, height, 0);
      TranslateZero(falling, 0, 0);
    }
  }

  /** As written, a piece that takes its first step then rests at most 32
      rows down: every later step is checked against the default 32 rows,
      so `fall` makes at most 32 recursive calls whatever the caller's
      height. */
  lemma FallDepth(board: CellSet, falling: CellSet, height: int, d: int)
    requires falling != {}
    ensures Free(board, falling, height, 1) && RestsFrom(board, falling, Height, 1, d) ==> d <= Height
  {
    var c :| c in falling;
    if Free(board, falling, height, 1) && RestsFrom(board, falling, Height, 1, d) && 1 < d {
      assert Free(board, falling, Height, d);
    }
  }

  /** As written too, a piece that starts clear of the board keeps all its
      cells, whatever height the caller passes. */
  lemma FallSize(board: CellSet, falling: CellSet, height: int)
    requires falling != {}
    requires !Collides(board, falling)
    ensures |Fall(board, falling, height)| == |board| + |falling|
  {
    var d := 0;
    if Free(board, falling, height, 1) {
      DropRests(board, falling, Height, 1);
      d :| RestsFrom(board, falling, Height, 1, d);
      FallSpec(board, falling, height, d);
      if d == 1 {
        FreeSpec(board, falling, height, 1);
      } else {
        assert Free(board, falling, Height, d);
        FreeSpec(board, falling, Height, d);
      }
    } else {
      FallSpec(board, falling, height, 0);
      TranslateZero(falling, 0, 0);
    }
    var moved := Translate(falling, 0, d);
    CollidesSpec(board, moved);
    assert board !! moved;
    TranslateSize(falling, 0, d);
  }

  /** On an empty board a piece inside [0, h) drops until its lowest cell
      reaches row h - 1. */
  lemma SettleEmpty(falling: CellSet, h: int)
    requires falling != {} && ValidY(falling, h)
    ensures Settle({}, falling, h) == Translate(falling, 0, h - 1 - MaxY(falling))
  {
    ValidYSpec(falling, h);
    var d := h - 1 - MaxY(falling);
    forall k | 1 <= k <= d + 1
      ensures Free({}, falling, h, k) <==> k <= d
    {
    }
    SettleSpec({}, falling, h, d);
  }

  /** The O block rests 30 rows down on the empty default board. */
  lemma RestingO(o: CellSet)
    requires forall c :: c in o <==> c in Bits(O)
    ensures o != {} && Resting({}, o, Height, 30)
  {
    assert forall c :: c in o ==> 0 <= c.y <= 1;
    forall j | 0 < j <= 30
      ensures Free({}, o, Height, j)
    {
    }
    assert Cell(0, 1) in o;
  }

  /** The O block moved 30 rows down. */
  lemma DroppedO(o: CellSet)
    requires forall c :: c in o <==> c in Bits(O)
    ensures Translate(o, 0, 30) == {Cell(0, 30), Cell(0, 31), Cell(1, 30), Cell(1, 31)}
  {
    TranslateIs(o, 0, 30, {Cell(0, 30), Cell(0, 31), Cell(1, 30), Cell(1, 31)});
  }

  /** The O block dropped on the empty default board lands in the bottom two rows. */
  lemma FallO(o: CellSet)
    requires forall c :: c in o <==> c in Bits(O)
    ensures Fall({}, o, Height) == {Cell(0, 30), Cell(0, 31), Cell(1, 30), Cell(1, 31)}
  {
    RestingO(o);
    SettleSpec({}, o, Height, 30);
    FallDefaultHeight({}, o);
    DroppedO(o);
  }

  /** The vertical I block rests 27 rows down on a board holding only the
      bottom-left cell. */
  lemma RestingIOnCell(v: CellSet, board: CellSet)
    requires forall c :: c in v <==> c in Bits(I)
    requires forall c :: c in board <==> c == Cell(0, 31)
    ensures v != {} && Resting(board, v, Height, 27)
  {
    assert forall c :: c in v ==> c.x == 0 && 0 <= c.y <= 3;
    forall j | 0 < j <= 27
      ensures Free(board, v, Height, j)
    {
    }
    assert Cell(0, 3) in v;
  }

  /** The vertical I block moved 27 rows down. */
  lemma DroppedI(v: CellSet)
    requires forall c :: c in v <==> c in Bits(I)
    ensures Translate(v, 0, 27) == {Cell(0, 27), Cell(0, 28), Cell(0, 29), Cell(0, 30)}
  {
    TranslateIs(v, 0, 27, {Cell(0, 27), Cell(0, 28), Cell(0, 29), Cell(0, 30)});
  }

  /** The vertical I block dropped onto a single cell in the bottom row stacks
      on top of it. */
  lemma FallIOnCell(v: CellSet, board: CellSet)
    requires forall c :: c in v <==> c in Bits(I)
    requires forall c :: c in board <==> c == Cell(0, 31)
    ensures Fall(board, v, Height) == {Cell(0, 27), Cell(0, 28), Cell(0, 29), Cell(0, 30), Cell(0, 31)}
  {
    RestingIOnCell(v, board);
    SettleSpec(board, v, Height, 27);
    FallDefaultHeight(board, v);
    DroppedI(v);
  }

  /** A single cell at the top of a 10-row frame may take its first step,
      and under the default height then rests 31 rows down. */
  lemma RestingTopCell(p: CellSet)
    requires forall c :: c in p <==> c == Cell(0, 0)
    ensures p != {} && Free({}, p, 10, 1) && RestsFrom({}, p, Height, 1, 31)
  {
    assert Cell(0, 0) in p;
    forall j | 1 < j <= 31
      ensures Free({}, p, Height, j)
    {
    }
  }

  /** As written, a single cell at the top of a 10-row frame ends in row 31. */
  lemma FallTopCell(p: CellSet)
    requires forall c :: c in p <==> c == Cell(0, 0)
    ensures p != {} && Fall({}, p, 10) == {Cell(0, 31)}
  {
    RestingTopCell(p);
    FallSpec({}, p, 10, 31);
    TranslateIs(p, 0, 31, {Cell(0, 31)});
  }

  /** As written, `fall` keeps the caller's height for one step only: a
      one-cell piece at the top of a 10-row frame passes the first check and
      then drops to row 31, outside the frame, while the corrected Settle
      keeps it inside. */
  lemma FallLeavesFrame(p: CellSet)
    requires forall c :: c in p <==> c == Cell(0, 0)
    ensures p != {} && ValidY(p, 10)
    ensures !ValidY(Fall({}, p, 10), 10)
    ensures ValidY(Settle({}, p, 10), 10)
  {
    FallTopCell(p);
    assert Cell(0, 31) in Fall({}, p, 10);
    SettleInFrame({}, p, 10);
  }
}
