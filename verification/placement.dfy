/** Where a block may be placed on the board: `choices` enumerates every
    rotation state shifted to every column offset and keeps the candidates
    that fit the frame horizontally and do not overlap the board. */
module Placement {
  import opened Geometry
  import opened Shapes

  /** The translates of one rotation state by x offsets 0, 1, ..., width - 1;
      `range(width)` is empty when width is not positive. */
  function Offsets(rot: CellSet, width: int): (r: seq<CellSet>)
    ensures |r| == if width < 0 then 0 else width
  {
    if width <= 0 then [] else Offsets(rot, width - 1) + [Translate(rot, width - 1, 0)]
  }

  /** Every candidate placement, rotation-major: all offsets of the first
      rotation state, then all offsets of the second, and so on. */
  function Candidates(rots: seq<CellSet>, width: int): seq<CellSet>
  {
    if |rots| == 0 then [] else Offsets(rots[0], width) + Candidates(rots[1..], width)
  }

  /** The two filters of `choices`, in order: `valid_x` against `checkWidth`,
      then dropping every candidate that collides with the board. */
  function Keep(cands: seq<CellSet>, board: CellSet, checkWidth: int): seq<CellSet>
  {
    if |cands| == 0 then []
    else
      var rest := Keep(cands[1..], board, checkWidth);
      if ValidX(cands[0], checkWidth) && !Collides(board, cands[0]) then [cands[0]] + rest else rest
  }

  /** `choices` with the horizontal bound checked against `checkWidth`, while
      the offsets range over `width`. */
  function ChoicesWithin(bits: CellSet, board: CellSet, width: int, checkWidth: int): seq<CellSet>
  {
    Keep(Candidates(Rotations(bits), width), board, checkWidth)
  }

  /** `choices(block, bits, width)` as written, for the block whose cells are
      `bits`: the offsets range over `width`, but `valid_x` is called with its
      default bound, the module-level frame width. */
  function Choices(bits: CellSet, board: CellSet, width: int): seq<CellSet>
  {
    ChoicesWithin(bits, board, width, Width)
  }

  /** `choices` with `valid_x` bounded by the `width` argument, as the
      parameter evidently intends. */
  function ChoicesFixed(bits: CellSet, board: CellSet, width: int): seq<CellSet>
  {
    ChoicesWithin(bits, board, width, width)
  }

  /** The offsets of one rotation state are its translates by 0, 1, ...,
      width - 1, in that order. */
  lemma {:induction false} OffsetsIndex(rot: CellSet, width: int)
    ensures forall dx :: 0 <= dx < |Offsets(rot, width)| ==> Offsets(rot, width)[dx] == Translate(rot, dx, 0)
  {
    if width > 0 {
      OffsetsIndex(rot, width - 1);
    }
  }

  /** A candidate is the translate of some rotation state by some offset in
      range, and every such translate is a candidate. */
  lemma {:induction false} CandidatesMember(rots: seq<CellSet>, width: int, p: CellSet)
    ensures p in Candidates(rots, width) <==>
      exists i, dx :: 0 <= i < |rots| && 0 <= dx < width && p == Translate(rots[i], dx, 0)
  {
    if |rots| > 0 {
      CandidatesMember(rots[1..], width, p);
      var head := Offsets(rots[0], width);
      OffsetsIndex(rots[0], width);
      assert Candidates(rots, width) == head + Candidates(rots[1..], width);
      if p in head {
        var dx :| 0 <= dx < |head| && head[dx] == p;
        assert p == Translate(rots[0], dx, 0);
      }
      if exists i, dx :: 0 <= i < |rots| && 0 <= dx < width && p == Translate(rots[i], dx, 0) {
        var i, dx :| 0 <= i < |rots| && 0 <= dx < width && p == Translate(rots[i], dx, 0);
        if i == 0 {
          assert head[dx] == p;
        } else {
          assert rots[1..][i - 1] == rots[i];
        }
      }
    }
  }

  /** A candidate survives the filters exactly when it fits the checked width
      and shares no cell with the board. */
  lemma {:induction false} KeepMember(cands: seq<CellSet>, board: CellSet, checkWidth: int, p: CellSet)
    ensures p in Keep(cands, board, checkWidth) <==>
      p in cands && ValidX(p, checkWidth) && !Collides(board, p)
  {
    if |cands| > 0 {
      KeepMember(cands[1..], board, checkWidth, p);
      assert cands == [cands[0]] + cands[1..];
    }
  }

  /** Filtering keeps the candidates' order: it distributes over concatenation. */
  lemma {:induction false} KeepAppend(a: seq<CellSet>, b: seq<CellSet>, board: CellSet, checkWidth: int)
    ensures Keep(a + b, board, checkWidth) == Keep(a, board, checkWidth) + Keep(b, board, checkWidth)
  {
    if |a| > 0 {
      KeepAppend(a[1..], b, board, checkWidth);
      assert (a + b)[1..] == a[1..] + b;
      assert (a + b)[0] == a[0];
    } else {
      assert a + b == b;
    }
  }

  /** A placement is returned exactly when it is a rotation state moved by
      an offset in range, fits `checkWidth`, and avoids the board. */
  lemma ChoicesWithinMember(bits: CellSet, board: CellSet, width: int, checkWidth: int, p: CellSet)
    ensures p in ChoicesWithin(bits, board, width, checkWidth) <==>
      (exists i, dx :: 0 <= i < 4 && 0 <= dx < width && p == Translate(Rotations(bits)[i], dx, 0)) &&
      ValidX(p, checkWidth) && !Collides(board, p)
  {
    var rots := Rotations(bits);
    KeepMember(Candidates(rots, width), board, checkWidth, p);
    CandidatesMember(rots, width, p);
  }

  /** Every placement `choices` returns fits the 32-column frame and avoids
      the board, and every candidate that does is returned. */
  lemma ChoicesMember(bits: CellSet, board: CellSet, width: int, p: CellSet)
    ensures p in Choices(bits, board, width) <==>
      (exists i, dx :: 0 <= i < 4 && 0 <= dx < width && p == Translate(Rotations(bits)[i], dx, 0)) &&
      ValidX(p, Width) && !Collides(board, p)
  {
    ChoicesWithinMember(bits, board, width, Width, p);
  }

  /** With the bound taken from `width`, every placement lies inside columns
      0 to width - 1, and every candidate that does and avoids the board is
      returned. */
  lemma ChoicesFixedMember(bits: CellSet, board: CellSet, width: int, p: CellSet)
    ensures p in ChoicesFixed(bits, board, width) <==>
      (exists i, dx :: 0 <= i < 4 && 0 <= dx < width && p == Translate(Rotations(bits)[i], dx, 0)) &&
      ValidX(p, width) && !Collides(board, p)
  {
    ChoicesWithinMember(bits, board, width, width, p);
  }

  /** Four rotation states give four blocks of candidates, in order. */
  lemma CandidatesFour(r: seq<CellSet>, width: int)
    requires |r| == 4
    ensures Candidates(r, width) ==
      Offsets(r[0], width) + Offsets(r[1], width) + Offsets(r[2], width) + Offsets(r[3], width)
  {
    var r1, r2, r3 := r[1..], r[2..], r[3..];
    assert r1[1..] == r2 && r2[1..] == r3 && r3[1..] == [];
    assert Candidates(r3, width) == Offsets(r[3], width);
    assert Candidates(r2, width) == Offsets(r[2], width) + Offsets(r[3], width);
  }

  /** Filtering four blocks filters each block on its own. */
  lemma KeepFour(a: seq<CellSet>, b: seq<CellSet>, c: seq<CellSet>, d: seq<CellSet>, board: CellSet, w: int)
    ensures Keep(a + b + c + d, board, w) == Keep(a, board, w) + Keep(b, board, w) + Keep(c, board, w) + Keep(d, board, w)
  {
    KeepAppend(a + b + c, d, board, w);
    KeepAppend(a + b, c, board, w);
    KeepAppend(a, b, board, w);
  }

  /** The placements come rotation by rotation: the kept offsets of state 0,
      then of state 1, 2 and 3, each in increasing offset order. */
  lemma ChoicesWithinOrder(bits: CellSet, board: CellSet, width: int, checkWidth: int)
    ensures var r := Rotations(bits);
      ChoicesWithin(bits, board, width, checkWidth) ==
        Keep(Offsets(r[0], width), board, checkWidth) + Keep(Offsets(r[1], width), board, checkWidth) +
        Keep(Offsets(r[2], width), board, checkWidth) + Keep(Offsets(r[3], width), board, checkWidth)
  {
    var r := Rotations(bits);
    CandidatesFour(r, width);
    KeepFour(Offsets(r[0], width), Offsets(r[1], width), Offsets(r[2], width), Offsets(r[3], width), board, checkWidth);
  }

  /** `choices` as written lists its placements rotation by rotation. */
  lemma ChoicesOrder(bits: CellSet, board: CellSet, width: int)
    ensures var r := Rotations(bits);
      Choices(bits, board, width) ==
        Keep(Offsets(r[0], width), board, Width) + Keep(Offsets(r[1], width), board, Width) +
        Keep(Offsets(r[2], width), board, Width) + Keep(Offsets(r[3], width), board, Width)
  {
    ChoicesWithinOrder(bits, board, width, Width);
  }

  /** The translate of a set that starts at x 0 and ends at x m, by dx, fits
      a frame of width w exactly when 0 <= dx and dx + m < w. */
  lemma ShiftFits(rot: CellSet, m: int, dx: int, w: int)
    requires rot != {} && MinX(rot) == 0 && MaxX(rot) == m
    ensures ValidX(Translate(rot, dx, 0), w) <==> 0 <= dx && dx + m < w
  {
    TranslateMins(rot, dx, 0);
    TranslateMaxs(rot, dx, 0);
    ValidXSpec(Translate(rot, dx, 0), w);
  }

  /** When the first k candidates pass both filters and the rest fail, the
      filters keep exactly those first k. */
  lemma {:induction false} KeepPrefix(cands: seq<CellSet>, board: CellSet, w: int, k: nat)
    requires k <= |cands|
    requires forall i :: 0 <= i < k ==> ValidX(cands[i], w) && !Collides(board, cands[i])
    requires forall i :: k <= i < |cands| ==> !(ValidX(cands[i], w) && !Collides(board, cands[i]))
    ensures Keep(cands, board, w) == cands[..k]
  {
    if |cands| > 0 {
      var tail := cands[1..];
      assert forall i :: 0 <= i < |tail| ==> tail[i] == cands[i + 1];
      if k > 0 {
        KeepPrefix(tail, board, w, k - 1);
        assert cands[..k] == [cands[0]] + tail[..k - 1];
      } else {
        KeepPrefix(tail, board, w, 0);
      }
    }
  }

  /** The first k offsets of a rotation state are its offsets for width k. */
  lemma OffsetsPrefix(rot: CellSet, n: nat, k: nat)
    requires k <= n
    ensures Offsets(rot, n)[..k] == Offsets(rot, k)
  {
    OffsetsIndex(rot, n);
    OffsetsIndex(rot, k);
  }

  /** On an empty board, a rotation state starting at x 0 and ending at x m
      keeps exactly the offsets 0, 1, ..., w - m - 1 that are in range, and
      none when it is at least as wide as the board. */
  lemma KeepOffsetsEmpty(rot: CellSet, m: int, n: nat, w: int)
    requires rot != {} && MinX(rot) == 0 && MaxX(rot) == m
    ensures Keep(Offsets(rot, n), {}, w) == Offsets(rot, if w <= m then 0 else if n < w - m then n else w - m)
  {
    var cands := Offsets(rot, n);
    var k := if w <= m then 0 else if n < w - m then n else w - m;
    OffsetsIndex(rot, n);
    forall i | 0 <= i < n
      ensures ValidX(cands[i], w) && !Collides({}, cands[i]) <==> i < w - m
    {
      ShiftFits(rot, m, i, w);
      CollidesSpec({}, cands[i]);
    }
    KeepPrefix(cands, {}, w, k);
    OffsetsPrefix(rot, n, k);
  }

  /** The O block spans columns 0 and 1. */
  lemma OExtent(o: CellSet)
    requires o == Bits(O)
    ensures o != {} && MinX(o) == 0 && MaxX(o) == 1
  {
    assert Cell(0, 0) in o && Cell(1, 0) in o;
  }

  /** On the empty 32-wide board, `choices` gives the O block 31 placements
      per rotation state, 124 in all, and keeps the repeats: its four states
      coincide, so placement 31 is placement 0 again. */
  lemma ChoicesO(o: CellSet)
    requires o == Bits(O)
    ensures |Choices(o, {}, Width)| == 124
    ensures Choices(o, {}, Width)[0] == o && Choices(o, {}, Width)[31] == o
  {
    var k := Offsets(o, 31);
    EmptyBoardO(o, Width, Width);
    assert k[0] == o by {
      OffsetsIndex(o, 31);
      TranslateZero(o, 0, 0);
    }
  }

  /** On an empty board the O block's four identical states each keep the
      offsets that fit `checkWidth`. */
  lemma EmptyBoardO(o: CellSet, width: nat, checkWidth: int)
    requires o == Bits(O)
    requires 1 < checkWidth
    ensures var k := Offsets(o, if width < checkWidth - 1 then width else checkWidth - 1);
      ChoicesWithin(o, {}, width, checkWidth) == k + k + k + k
  {
    RotationsO(o);
    ChoicesWithinOrder(o, {}, width, checkWidth);
    OExtent(o);
    KeepOffsetsEmpty(o, 1, width, checkWidth);
  }

  /** As written, `choices` on a 10-wide board still offers the O block at
      offset 9, whose right column is x = 10, outside the board. */
  lemma ChoicesEscapesWidth(o: CellSet)
    requires o == Bits(O)
    ensures Translate(o, 9, 0) in Choices(o, {}, 10)
    ensures !ValidX(Translate(o, 9, 0), 10)
  {
    var p := Translate(o, 9, 0);
    RotationsO(o);
    OExtent(o);
    ShiftFits(o, 1, 9, Width);
    ShiftFits(o, 1, 9, 10);
    CollidesSpec({}, p);
    assert Rotations(o)[0] == o;
    ChoicesMember(o, {}, 10, p);
  }

  /** With the bound taken from `width`, the O block on an empty 10-wide
      board has 9 placements per rotation state, all inside the board. */
  lemma ChoicesFixedO(o: CellSet)
    requires o == Bits(O)
    ensures |ChoicesFixed(o, {}, 10)| == 36
  {
    EmptyBoardO(o, 10, 10);
  }
}
