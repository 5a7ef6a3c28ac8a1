/** Cells, cell sets and the geometric helpers of the falling-block grid:
    translation, the independent per-axis minimum used by normalization,
    collision and the bounds checks. */
module Geometry {

  /** A grid cell; x grows to the right and y grows downward. */
  datatype Cell = Cell(x: int, y: int)

  /** A set of cells: the static board, or the cells of one piece. */
  type CellSet = set<Cell>

  /** The frame size the source fixes at module level; it is the default
      width and height of every operation that takes one. */
  const Width: int := 32
  const Height: int := 32

  /** Lexicographic order on cells; it only serves to walk a set in a fixed order. */
  predicate Precedes(a: Cell, b: Cell)
  {
    a.x < b.x || (a.x == b.x && a.y < b.y)
  }

  /** `c` is the lexicographically first cell of `s`. */
  predicate IsFirst(s: CellSet, c: Cell)
  {
    c in s && forall d :: d in s ==> d == c || Precedes(c, d)
  }

  /** Every non-empty set of cells has a lexicographically first cell. */
  lemma {:induction false} FirstExists(s: CellSet)
    requires s != {}
    ensures exists c :: IsFirst(s, c)
    decreases s
  {
    var a :| a in s;
    var rest := s - {a};
    if rest == {} {
      assert s == {a};
      assert IsFirst(s, a);
    } else {
      FirstExists(rest);
      var b :| IsFirst(rest, b);
      var f := if Precedes(a, b) then a else b;
      forall d | d in s
        ensures d == f || Precedes(f, d)
      {
        if d != a {
          assert d in rest;
        }
      }
      assert IsFirst(s, f);
    }
  }

  /** The lexicographically first cell of a non-empty set. */
  function First(s: CellSet): (c: Cell)
    requires s != {}
    ensures c in s
  {
    FirstExists(s);
    var c :| IsFirst(s, c);
    c
  }

  /** The two rigid moves the source applies to whole pieces: the translation
      built by `translation`, and the quarter turn of `Block.rotations`. */
  datatype Move = By(dx: int, dy: int) | QuarterTurn

  /** Where a move sends one cell; the quarter turn maps (x, y) to (y, -x). */
  function Apply(m: Move, c: Cell): Cell
  {
    match m
    case By(dx, dy) => Cell(c.x + dx, c.y + dy)
    case QuarterTurn => Cell(c.y, -c.x)
  }

  /** Where a cell comes from under a move. */
  function Undo(m: Move, c: Cell): Cell
  {
    match m
    case By(dx, dy) => Cell(c.x - dx, c.y - dy)
    case QuarterTurn => Cell(-c.y, c.x)
  }

  /** Undo inverts Apply on both sides. */
  lemma UndoApply(m: Move, c: Cell)
    ensures Undo(m, Apply(m, c)) == c
    ensures Apply(m, Undo(m, c)) == c
  {
  }

  /** The image of a set under a move, built one cell at a time. */
  function Image(s: CellSet, m: Move): CellSet
    decreases s
  {
    if s == {} then {}
    else
      var c := First(s);
      {Apply(m, c)} + Image(s - {c}, m)
  }

  /** A cell is in the image exactly when the cell it comes from is in `s`. */
  lemma {:induction false} ImageMember(s: CellSet, m: Move, c: Cell)
    ensures c in Image(s, m) <==> Undo(m, c) in s
    decreases s
  {
    if s != {} {
      var a := First(s);
      ImageMember(s - {a}, m, c);
      UndoApply(m, a);
      UndoApply(m, c);
    }
  }

  /** A move is injective, so the image has as many cells as the set. */
  lemma {:induction false} ImageSize(s: CellSet, m: Move)
    ensures |Image(s, m)| == |s|
    decreases s
  {
    if s != {} {
      var a := First(s);
      ImageSize(s - {a}, m);
      ImageMember(s - {a}, m, Apply(m, a));
      UndoApply(m, a);
    }
  }

  /** Every cell of `s` moved by (dx, dy). */
  function Translate(s: CellSet, dx: int, dy: int): CellSet
  {
    Image(s, By(dx, dy))
  }

  /** A cell is in the translate exactly when the cell it came from is in `s`. */
  lemma TranslateMember(s: CellSet, dx: int, dy: int, c: Cell)
    ensures c in Translate(s, dx, dy) <==> Cell(c.x - dx, c.y - dy) in s
  {
    ImageMember(s, By(dx, dy), c);
  }

  /** Translation keeps the number of cells, so the result holds the moved
      copies of the cells of `s` and nothing else. */
  lemma TranslateSize(s: CellSet, dx: int, dy: int)
    ensures |Translate(s, dx, dy)| == |s|
  {
    ImageSize(s, By(dx, dy));
  }

  /** The translate of a set, established cell by cell. */
  lemma TranslateIs(s: CellSet, dx: int, dy: int, r: CellSet)
    requires forall c :: c in r <==> Cell(c.x - dx, c.y - dy) in s
    ensures Translate(s, dx, dy) == r
  {
    forall c: Cell
      ensures c in Translate(s, dx, dy) <==> c in r
    {
      TranslateMember(s, dx, dy, c);
    }
  }

  /** Translating twice is translating once by the summed offsets. */
  lemma TranslateTwice(s: CellSet, dx1: int, dy1: int, dx2: int, dy2: int)
    ensures Translate(Translate(s, dx1, dy1), dx2, dy2) == Translate(s, dx1 + dx2, dy1 + dy2)
  {
    var once := Translate(s, dx1, dy1);
    forall c: Cell
      ensures c in Translate(once, dx2, dy2) <==> c in Translate(s, dx1 + dx2, dy1 + dy2)
    {
      TranslateMember(once, dx2, dy2, c);
      TranslateMember(s, dx1, dy1, Cell(c.x - dx2, c.y - dy2));
      TranslateMember(s, dx1 + dx2, dy1 + dy2, c);
    }
  }

  /** `m` is the least x over `s`, and some cell has it. */
  predicate IsMinX(s: CellSet, m: int)
  {
    (exists c :: c in s && c.x == m) && forall c :: c in s ==> m <= c.x
  }

  /** `m` is the least y over `s`, and some cell has it. */
  predicate IsMinY(s: CellSet, m: int)
  {
    (exists c :: c in s && c.y == m) && forall c :: c in s ==> m <= c.y
  }

  /** `m` is the greatest x over `s`, and some cell has it. */
  predicate IsMaxX(s: CellSet, m: int)
  {
    (exists c :: c in s && c.x == m) && forall c :: c in s ==> c.x <= m
  }

  /** `m` is the greatest y over `s`, and some cell has it. */
  predicate IsMaxY(s: CellSet, m: int)
  {
    (exists c :: c in s && c.y == m) && forall c :: c in s ==> c.y <= m
  }

  /** A non-empty set of cells has a least and a greatest x, and a least and
      a greatest y. */
  lemma {:induction false} CoordExtremes(s: CellSet)
    requires s != {}
    ensures exists m :: IsMinX(s, m)
    ensures exists m :: IsMinY(s, m)
    ensures exists m :: IsMaxX(s, m)
    ensures exists m :: IsMaxY(s, m)
    decreases s
  {
    var a :| a in s;
    var rest := s - {a};
    if rest == {} {
      assert s == {a};
      assert IsMinX(s, a.x) && IsMaxX(s, a.x) && IsMinY(s, a.y) && IsMaxY(s, a.y);
    } else {
      CoordExtremes(rest);
      var x0 :| IsMinX(rest, x0);
      var x1 :| IsMaxX(rest, x1);
      var y0 :| IsMinY(rest, y0);
      var y1 :| IsMaxY(rest, y1);
      var lx, hx := if a.x < x0 then a.x else x0, if x1 < a.x then a.x else x1;
      var ly, hy := if a.y < y0 then a.y else y0, if y1 < a.y then a.y else y1;
      forall c | c in s
        ensures lx <= c.x <= hx && ly <= c.y <= hy
      {
        if c != a {
          assert c in rest;
        }
      }
      assert IsMinX(s, lx) && IsMaxX(s, hx) && IsMinY(s, ly) && IsMaxY(s, hy);
    }
  }

  /** The least x over the set; `normalize_bits` reads it off the cell that
      `min(bits, key=itemgetter(0))` picks, which has that same x. */
  function MinX(s: CellSet): (m: int)
    requires s != {}
    ensures exists c :: c in s && c.x == m
    ensures forall c :: c in s ==> m <= c.x
  {
    CoordExtremes(s);
    var m :| IsMinX(s, m);
    m
  }

  /** The least y over the set, taken independently of MinX. */
  function MinY(s: CellSet): (m: int)
    requires s != {}
    ensures exists c :: c in s && c.y == m
    ensures forall c :: c in s ==> m <= c.y
  {
    CoordExtremes(s);
    var m :| IsMinY(s, m);
    m
  }

  /** The greatest x over the set. */
  function MaxX(s: CellSet): (m: int)
    requires s != {}
    ensures exists c :: c in s && c.x == m
    ensures forall c :: c in s ==> c.x <= m
  {
    CoordExtremes(s);
    var m :| IsMaxX(s, m);
    m
  }

  /** The greatest y over the set. */
  function MaxY(s: CellSet): (m: int)
    requires s != {}
    ensures exists c :: c in s && c.y == m
    ensures forall c :: c in s ==> c.y <= m
  {
    CoordExtremes(s);
    var m :| IsMaxY(s, m);
    m
  }

  /** Translation moves the least x and the least y by the offset. */
  lemma TranslateMins(s: CellSet, dx: int, dy: int)
    requires s != {}
    ensures Translate(s, dx, dy) != {}
    ensures MinX(Translate(s, dx, dy)) == MinX(s) + dx
    ensures MinY(Translate(s, dx, dy)) == MinY(s) + dy
  {
    var t := Translate(s, dx, dy);
    var a :| a in s && a.x == MinX(s);
    var b :| b in s && b.y == MinY(s);
    TranslateMember(s, dx, dy, Cell(a.x + dx, a.y + dy));
    TranslateMember(s, dx, dy, Cell(b.x + dx, b.y + dy));
    var p :| p in t && p.x == MinX(t);
    var q :| q in t && q.y == MinY(t);
    TranslateMember(s, dx, dy, p);
    TranslateMember(s, dx, dy, q);
  }

  /** Translation moves the greatest x and the greatest y by the offset. */
  lemma TranslateMaxs(s: CellSet, dx: int, dy: int)
    requires s != {}
    ensures Translate(s, dx, dy) != {}
    ensures MaxX(Translate(s, dx, dy)) == MaxX(s) + dx
    ensures MaxY(Translate(s, dx, dy)) == MaxY(s) + dy
  {
    var t := Translate(s, dx, dy);
    var a :| a in s && a.x == MaxX(s);
    var b :| b in s && b.y == MaxY(s);
    TranslateMember(s, dx, dy, Cell(a.x + dx, a.y + dy));
    TranslateMember(s, dx, dy, Cell(b.x + dx, b.y + dy));
    var p :| p in t && p.x == MaxX(t);
    var q :| q in t && q.y == MaxY(t);
    TranslateMember(s, dx, dy, p);
    TranslateMember(s, dx, dy, q);
  }

  /** A set whose least x and least y are both 0 (the empty set counts). */
  predicate Normalized(s: CellSet)
  {
    s != {} ==> MinX(s) == 0 && MinY(s) == 0
  }

  /** `normalize_bits`: shift the set so that its least x and its least y,
      each taken over the whole set, become 0; the empty set stays empty. */
  function Normalize(s: CellSet): CellSet
  {
    if s == {} then {} else Translate(s, -MinX(s), -MinY(s))
  }

  /** Normalization keeps the number of cells, leaves the empty set empty,
      and otherwise brings both the least x and the least y to 0. */
  lemma NormalizeSpec(s: CellSet)
    ensures s == {} ==> Normalize(s) == {}
    ensures s != {} ==> Normalize(s) != {} && MinX(Normalize(s)) == 0 && MinY(Normalize(s)) == 0
    ensures |Normalize(s)| == |s|
  {
    if s != {} {
      TranslateMins(s, -MinX(s), -MinY(s));
      TranslateSize(s, -MinX(s), -MinY(s));
    }
  }

  /** Translates by equal offsets are equal; lets a caller hand over offsets
      that are only provably, not syntactically, the same. */
  lemma TranslateSameOffset(s: CellSet, dx1: int, dy1: int, dx2: int, dy2: int)
    requires dx1 == dx2 && dy1 == dy2
    ensures Translate(s, dx1, dy1) == Translate(s, dx2, dy2)
  {
  }

  /** Normalizing ignores where the set was: every translate of a set
      normalizes to the same set. */
  lemma NormalizeTranslate(s: CellSet, dx: int, dy: int)
    ensures Normalize(Translate(s, dx, dy)) == Normalize(s)
  {
    if s != {} {
      var t := Translate(s, dx, dy);
      TranslateMins(s, dx, dy);
      assert t != {};
      var ex, ey := -MinX(t), -MinY(t);
      assert Normalize(t) == Translate(t, ex, ey);
      TranslateTwice(s, dx, dy, ex, ey);
      assert dx + ex == -MinX(s) && dy + ey == -MinY(s);
      assert Normalize(s) == Translate(s, -MinX(s), -MinY(s));
      TranslateSameOffset(s, dx + ex, dy + ey, -MinX(s), -MinY(s));
    } else {
      TranslateSize(s, dx, dy);
    }
  }

  /** The zero translation changes nothing. */
  lemma TranslateZero(s: CellSet, dx: int, dy: int)
    requires dx == 0 && dy == 0
    ensures Translate(s, dx, dy) == s
  {
    forall c: Cell
      ensures c in Translate(s, dx, dy) <==> c in s
    {
      TranslateMember(s, dx, dy, c);
    }
  }

  /** A normalized set is left alone by normalization. */
  lemma NormalizeFixesNormalized(s: CellSet)
    requires Normalized(s)
    ensures Normalize(s) == s
  {
    if s != {} {
      TranslateZero(s, -MinX(s), -MinY(s));
    }
  }

  /** Normalization is idempotent. */
  lemma NormalizeIdempotent(s: CellSet)
    ensures Normalize(Normalize(s)) == Normalize(s)
  {
    NormalizeSpec(s);
    NormalizeFixesNormalized(Normalize(s));
  }

  /** `collision`: the two sets have a non-empty intersection. */
  predicate Collides(a: CellSet, b: CellSet)
  {
    |a * b| > 0
  }

  /** Two sets collide exactly when some cell lies in both. */
  lemma CollidesSpec(a: CellSet, b: CellSet)
    ensures Collides(a, b) <==> exists c :: c in a && c in b
  {
    if exists c :: c in a && c in b {
      var c :| c in a && c in b;
      assert c in a * b;
    }
  }

  /** `valid_x`: every cell has 0 <= x < width. */
  predicate ValidX(s: CellSet, width: int)
  {
    forall c :: c in s ==> 0 <= c.x < width
  }

  /** `valid_y`: every cell has 0 <= y < height. */
  predicate ValidY(s: CellSet, height: int)
  {
    forall c :: c in s ==> 0 <= c.y < height
  }

  /** `valid`: both axis checks. */
  predicate Valid(s: CellSet, width: int, height: int)
  {
    ValidX(s, width) && ValidY(s, height)
  }

  /** `valid_x` holds exactly when the set is empty or its x extent lies in [0, width). */
  lemma ValidXSpec(s: CellSet, width: int)
    ensures ValidX(s, width) <==> s == {} || (0 <= MinX(s) && MaxX(s) < width)
  {
  }

  /** `valid_y` holds exactly when the set is empty or its y extent lies in [0, height). */
  lemma ValidYSpec(s: CellSet, height: int)
    ensures ValidY(s, height) <==> s == {} || (0 <= MinY(s) && MaxY(s) < height)
  {
  }

  /** `valid` holds exactly when the set is empty or its extents lie inside
      the frame: x in [0, width) and y in [0, height). */
  lemma ValidSpec(s: CellSet, width: int, height: int)
    ensures Valid(s, width, height) <==>
      s == {} || (0 <= MinX(s) && MaxX(s) < width && 0 <= MinY(s) && MaxY(s) < height)
  {
    ValidXSpec(s, width);
    ValidYSpec(s, height);
  }
}
