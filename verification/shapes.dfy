/** The seven block shapes and their four quarter-turn rotation states. */
module Shapes {
  import opened Geometry

  /** The seven `Block` subclasses; they differ only in their cells. */
  datatype Shape = I | J | L | O | S | T | Z

  /** The class-level `bits` of each shape, in its canonical orientation. */
  function Bits(shape: Shape): CellSet
  {
    match shape
    case I => {Cell(0, 0), Cell(0, 1), Cell(0, 2), Cell(0, 3)}
    case J => {Cell(0, 2), Cell(1, 2), Cell(1, 1), Cell(1, 0)}
    case L => {Cell(1, 2), Cell(0, 2), Cell(0, 1), Cell(0, 0)}
    case O => {Cell(0, 0), Cell(0, 1), Cell(1, 0), Cell(1, 1)}
    case S => {Cell(0, 1), Cell(1, 0), Cell(1, 1), Cell(2, 0)}
    case T => {Cell(0, 1), Cell(1, 0), Cell(1, 1), Cell(2, 1)}
    case Z => {Cell(0, 0), Cell(1, 0), Cell(1, 1), Cell(2, 1)}
  }

  /** Every shape has four cells and already sits at least x 0, least y 0. */
  lemma ShapeCells(shape: Shape)
    ensures |Bits(shape)| == 4
    ensures Normalized(Bits(shape))
  {
    var b := Bits(shape);
    var (atX, atY) := match shape
      case J => (Cell(0, 2), Cell(1, 0))
      case S => (Cell(0, 1), Cell(1, 0))
      case T => (Cell(0, 1), Cell(1, 0))
      case _ => (Cell(0, 0), Cell(0, 0));
    assert atX in b && atX.x == 0;
    assert atY in b && atY.y == 0;
    assert forall c :: c in b ==> 0 <= c.x && 0 <= c.y;
  }

  /** The quarter turn (x, y) -> (y, -x) applied to every cell, before normalization. */
  function Turn(s: CellSet): CellSet
  {
    Image(s, QuarterTurn)
  }

  /** A cell is in the turned set exactly when the cell it came from is in `s`. */
  lemma TurnMember(s: CellSet, c: Cell)
    ensures c in Turn(s) <==> Cell(-c.y, c.x) in s
  {
    ImageMember(s, QuarterTurn, c);
  }

  /** The quarter turn is injective, so it keeps the number of cells. */
  lemma TurnSize(s: CellSet)
    ensures |Turn(s)| == |s|
  {
    ImageSize(s, QuarterTurn);
  }

  /** Turning a translate is translating the turn by the turned offset. */
  lemma TurnTranslate(s: CellSet, dx: int, dy: int)
    ensures Turn(Translate(s, dx, dy)) == Translate(Turn(s), dy, -dx)
  {
    forall c: Cell
      ensures c in Turn(Translate(s, dx, dy)) <==> c in Translate(Turn(s), dy, -dx)
    {
      TurnMember(Translate(s, dx, dy), c);
      TranslateMember(s, dx, dy, Cell(-c.y, c.x));
      TranslateMember(Turn(s), dy, -dx, c);
      TurnMember(s, Cell(c.x - dy, c.y + dx));
    }
  }

  /** Four quarter turns give back the set. */
  lemma TurnFour(s: CellSet)
    ensures Turn(Turn(Turn(Turn(s)))) == s
  {
    forall c: Cell
      ensures c in Turn(Turn(Turn(Turn(s)))) <==> c in s
    {
      TurnMember(Turn(Turn(Turn(s))), c);
      TurnMember(Turn(Turn(s)), Cell(-c.y, c.x));
      TurnMember(Turn(s), Cell(-c.x, -c.y));
      TurnMember(s, Cell(c.y, -c.x));
    }
  }

  /** The `rotate` helper of `Block.rotations`: a quarter turn, then normalization. */
  function Rotate(s: CellSet): CellSet
  {
    Normalize(Turn(s))
  }

  /** `Block.rotations`: the shape's own cells, then three rotation states,
      each one rotating the previous normalized state. */
  function Rotations(bits: CellSet): seq<CellSet>
  {
    var pos1 := Rotate(bits);
    var pos2 := Rotate(pos1);
    var pos3 := Rotate(pos2);
    [bits, pos1, pos2, pos3]
  }

  /** Rotating ignores where the set was. */
  lemma RotateTranslate(s: CellSet, dx: int, dy: int)
    ensures Rotate(Translate(s, dx, dy)) == Rotate(s)
  {
    calc {
      Rotate(Translate(s, dx, dy));
      Normalize(Turn(Translate(s, dx, dy)));
      { TurnTranslate(s, dx, dy); }
      Normalize(Translate(Turn(s), dy, -dx));
      { NormalizeTranslate(Turn(s), dy, -dx); }
      Normalize(Turn(s));
      Rotate(s);
    }
  }

  /** Rotating a normalized copy is rotating the set itself, so chaining
      rotation states is the same as chaining bare quarter turns. */
  lemma RotateNormalize(s: CellSet)
    ensures Rotate(Normalize(s)) == Rotate(s)
  {
    if s != {} {
      var dx, dy := -MinX(s), -MinY(s);
      assert Normalize(s) == Translate(s, dx, dy);
      RotateTranslate(s, dx, dy);
    }
  }

  /** A rotation keeps the number of cells and leaves the set normalized. */
  lemma RotateSpec(s: CellSet)
    ensures |Rotate(s)| == |s|
    ensures Normalized(Rotate(s))
  {
    TurnSize(s);
    NormalizeSpec(Turn(s));
  }

  /** Each rotation state has as many cells as the shape; positions 1 to 3
      are normalized. */
  lemma RotationsSpec(bits: CellSet)
    ensures |Rotations(bits)| == 4
    ensures Rotations(bits)[0] == bits
    ensures forall k :: 0 <= k < 4 ==> |Rotations(bits)[k]| == |bits|
    ensures forall k :: 1 <= k < 4 ==> Normalized(Rotations(bits)[k])
  {
    var r := Rotations(bits);
    forall k | 1 <= k < 4
      ensures |r[k]| == |bits| && Normalized(r[k])
    {
      if k == 1 {
        RotateSpec(bits);
      } else if k == 2 {
        RotateSpec(bits);
        RotateSpec(r[1]);
      } else {
        RotateSpec(bits);
        RotateSpec(r[1]);
        RotateSpec(r[2]);
      }
    }
  }

  /** A fourth quarter turn of the last state brings back the normalized
      shape: the four states are one full cycle. */
  lemma {:induction false} RotationsCycle(bits: CellSet)
    ensures Rotate(Rotations(bits)[3]) == Normalize(bits)
  {
    var t1 := Turn(bits);
    var t2 := Turn(t1);
    var t3 := Turn(t2);
    RotateNormalize(t1);
    RotateNormalize(t2);
    RotateNormalize(t3);
    TurnFour(bits);
  }

  /** The quarter turn of a set, established cell by cell. */
  lemma TurnIs(s: CellSet, t: CellSet)
    requires forall c :: c in t <==> Cell(-c.y, c.x) in s
    ensures Turn(s) == t
  {
    forall c: Cell
      ensures c in Turn(s) <==> c in t
    {
      TurnMember(s, c);
    }
  }

  /** Rotate, read off the quarter turn `t` of `s`, its least x and y, and the
      set `t` becomes once moved so that both are 0. */
  lemma RotateVia(s: CellSet, t: CellSet, dx: int, dy: int, r: CellSet)
    requires Turn(s) == t && t != {}
    requires MinX(t) == -dx && MinY(t) == -dy
    requires Translate(t, dx, dy) == r
    ensures Rotate(s) == r
  {
  }

  /** The least x and least y of a set, given a cell holding each and a lower bound. */
  lemma MinsAre(t: CellSet, a: Cell, b: Cell)
    requires a in t && b in t
    requires forall c :: c in t ==> a.x <= c.x && b.y <= c.y
    ensures t != {} && MinX(t) == a.x && MinY(t) == b.y
  {
  }

  /** The O block turned a quarter, before normalization. */
  lemma TurnO(o: CellSet)
    requires o == Bits(O)
    ensures Turn(o) == {Cell(0, 0), Cell(1, 0), Cell(0, -1), Cell(1, -1)}
  {
    TurnIs(o, {Cell(0, 0), Cell(1, 0), Cell(0, -1), Cell(1, -1)});
  }

  /** One quarter turn leaves the O block where it was. */
  lemma RotateO(o: CellSet)
    requires o == Bits(O)
    ensures Rotate(o) == o
  {
    var t := {Cell(0, 0), Cell(1, 0), Cell(0, -1), Cell(1, -1)};
    assert MinX(t) == 0 && MinY(t) == -1 by {
      MinsAre(t, Cell(0, 0), Cell(0, -1));
    }
    assert Translate(t, 0, 1) == o by {
      TranslateIs(t, 0, 1, o);
    }
    TurnO(o);
    RotateVia(o, t, 0, 1, o);
  }

  /** The O block looks the same in all four rotation states. */
  lemma RotationsO(o: CellSet)
    requires o == Bits(O)
    ensures Rotations(o) == [o, o, o, o]
  {
    RotateO(o);
  }

  /** The vertical I block turned a quarter is already the horizontal one. */
  lemma TurnVertical(v: CellSet, h: CellSet)
    requires v == Bits(I) && h == Horizontal()
    ensures Turn(v) == h
  {
    TurnIs(v, h);
  }

  /** The horizontal I block turned a quarter, before normalization. */
  lemma TurnHorizontal(h: CellSet)
    requires h == Horizontal()
    ensures Turn(h) == {Cell(0, 0), Cell(0, -1), Cell(0, -2), Cell(0, -3)}
  {
    TurnIs(h, {Cell(0, 0), Cell(0, -1), Cell(0, -2), Cell(0, -3)});
  }

  /** The vertical I block turns into the horizontal one. */
  lemma RotateVertical(v: CellSet, h: CellSet)
    requires v == Bits(I) && h == Horizontal()
    ensures Rotate(v) == h
  {
    assert MinX(h) == 0 && MinY(h) == 0 by {
      MinsAre(h, Cell(0, 0), Cell(0, 0));
    }
    TranslateZero(h, 0, 0);
    TurnVertical(v, h);
    RotateVia(v, h, 0, 0, h);
  }

  /** The horizontal I block turns back into the vertical one. */
  lemma RotateHorizontal(v: CellSet, h: CellSet)
    requires v == Bits(I) && h == Horizontal()
    ensures Rotate(h) == v
  {
    var t := {Cell(0, 0), Cell(0, -1), Cell(0, -2), Cell(0, -3)};
    assert MinX(t) == 0 && MinY(t) == -3 by {
      MinsAre(t, Cell(0, 0), Cell(0, -3));
    }
    assert Translate(t, 0, 3) == v by {
      TranslateIs(t, 0, 3, v);
    }
    TurnHorizontal(h);
    RotateVia(h, t, 0, 3, v);
  }

  /** The I block alternates between its vertical and horizontal states. */
  lemma RotationsI(v: CellSet, h: CellSet)
    requires v == Bits(I) && h == Horizontal()
    ensures Rotations(v) == [v, h, v, h]
  {
    RotateVertical(v, h);
    RotateHorizontal(v, h);
  }

  /** The I block lying flat: four cells along y = 0. */
  function Horizontal(): CellSet
  {
    {Cell(0, 0), Cell(1, 0), Cell(2, 0), Cell(3, 0)}
  }
}
