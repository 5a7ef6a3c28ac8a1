# Falling-block grid engine in Dafny

This project models the logic of `main.py`, a small falling-block game written in Python 2, and proves properties of the model. The board and every piece are sets of integer cells `(x, y)`, where y grows downward. The frame is 32 by 32 (`width, height = 32, 32`). The model covers five parts, one module each:

- **Geometry** (`geometry.dfy`): cells and cell sets, and `translation`. `normalize_bits` shifts a set so that its least x and least y are both 0. `collision` tests whether two sets share a cell. `valid_x`, `valid_y` and `valid` are the bounds checks.
  - Translation and the quarter turn are two rigid `Move`s.
  - `Image` applies a move cell by cell. It walks the set in lexicographic order.
- **Shapes** (`shapes.dfy`): the seven `Block` shapes I, J, L, O, S, T and Z, and `Block.rotations`.
  - `rotations` maps `(x, y)` to `(y, -x)` and normalizes. It applies this three times, each time to the previous normalized state.
- **Placement** (`placement.dfy`): `choices`. It lists every rotation state shifted by x offsets `0 .. width-1`, rotation-major. It keeps the candidates that pass `valid_x` and do not collide with the board.
- **Gravity** (`gravity.dfy`): `fall`. It moves the piece down one row at a time while the next row neither collides nor leaves `[0, height)`, then returns `board | piece`.
  - The source recurses on the moved piece.
  - After `k` steps that moved piece is the original translated by `(0, k)`, so `Drop` recurses on `k` instead.
  - `Free` states the step test cell by cell. `FreeSpec` proves that this test equals the source's collision-and-`valid_y` test on the moved set.
- **Rows** (`rows.dfy`): `full_rows` and `flushed`.
  - `full_rows` returns the rows whose `groupby` group has exactly `width` cells.
  - `flushed` drops those rows. Every other cell moves down by the number of full rows with a greater y.

Two defects in the source are modelled twice (see Findings). The as-written member keeps the defect, the corrected member repairs it, and both carry lemmas. The concrete cases (`Placement.ChoicesO`, `Gravity.FallO`, `Gravity.FallIOnCell`, `Gravity.FallTopCell`) are about the as-written members. The general rest and frame properties of `fall` are proved for the corrected `Gravity.Settle`, and the rest, size and depth properties for the as-written `Gravity.Fall` as well.

- **`fall`:** the as-written model is `Gravity.Fall`; the corrected one is `Gravity.Settle`.
- **`choices`:** the as-written model is `Placement.Choices`; the corrected one is `Placement.ChoicesFixed`. Both are instances of `Placement.ChoicesWithin`, which takes the horizontal bound as a separate argument.

One consequence of the code is easy to miss. On the empty 32-wide board, the 2-wide O block gets 31 offsets per rotation state, not 32. At offset 31 its right column is x = 32, which `valid_x` rejects. See `Placement.ChoicesO`.

## Model

| member | source | states |
|---|---|---|
| Geometry.ImageMember | main.py:27-31 | a cell is in the image of a set under a move exactly when the cell it came from is in the set |
| Geometry.ImageSize | main.py:27-31 | applying a move to every cell keeps the number of cells |
| Geometry.TranslateMember | main.py:27-31 | (x, y) is in the translate by (dx, dy) exactly when (x - dx, y - dy) is in the set |
| Geometry.TranslateSize | main.py:27-31 | translating a set keeps its number of cells |
| Geometry.TranslateTwice | main.py:27-31 | translating by one offset and then another is translating by their sum |
| Geometry.TranslateZero | main.py:27-31 | the zero translation leaves the set unchanged |
| Geometry.MinX | main.py:36-41 | the least x of a non-empty set belongs to one of its cells and bounds every cell |
| Geometry.MinY | main.py:36-41 | the least y is found independently of the least x: it belongs to some cell and bounds every cell |
| Geometry.TranslateMins | main.py:34-50 | translation moves the least x and the least y by the offset |
| Geometry.NormalizeSpec | main.py:34-50 | the empty set stays empty; otherwise the result has least x 0 and least y 0; the number of cells is kept |
| Geometry.NormalizeTranslate | main.py:34-50 | normalization forgets position: every translate of a set normalizes to the same set |
| Geometry.NormalizeFixesNormalized | main.py:34-50 | a set already at least x 0 and least y 0 is left alone |
| Geometry.NormalizeIdempotent | main.py:34-50 | normalizing twice is normalizing once |
| Geometry.ValidSpec | main.py:129-130 | `valid` holds exactly when the set is empty or its x extent lies in [0, width) and its y extent in [0, height) |
| Geometry.CollidesSpec | main.py:80-81 | two sets collide exactly when some cell lies in both |
| Geometry.ValidXSpec | main.py:111-117 | `valid_x` holds exactly when the set is empty or its x extent lies in [0, width) |
| Geometry.ValidYSpec | main.py:120-126 | `valid_y` holds exactly when the set is empty or its y extent lies in [0, height) |
| Shapes.ShapeCells | main.py:156-216 | each of the seven shapes has four cells and already has least x 0 and least y 0 |
| Shapes.TurnMember | main.py:135-141 | a cell is in the turned set exactly when the cell that (x, y) -> (y, -x) sends to it is in the set |
| Shapes.TurnSize | main.py:135-141 | the quarter turn keeps the number of cells |
| Shapes.TurnTranslate | main.py:135-141 | turning a translate is translating the turn by the turned offset |
| Shapes.TurnFour | main.py:135-141 | four quarter turns give back the set |
| Shapes.RotateTranslate | main.py:135-141 | a rotation state does not depend on where the previous state sat |
| Shapes.RotateNormalize | main.py:143-146 | rotating a normalized state is rotating the raw set, so the chain of states is a chain of quarter turns |
| Shapes.RotateSpec | main.py:135-141 | a rotation keeps the number of cells and yields a normalized set |
| Shapes.RotationsSpec | main.py:134-153 | four states; state 0 is the shape's own cells; every state has as many cells as the shape; states 1 to 3 are normalized |
| Shapes.RotationsCycle | main.py:143-153 | one more rotation after state 3 gives the normalized shape back: the states form a full cycle |
| Shapes.RotationsO | main.py:183-189 | all four rotation states of the O block are the O block itself |
| Shapes.RotationsI | main.py:156-162 | the I block alternates vertical, horizontal, vertical, horizontal |
| Placement.OffsetsIndex | main.py:229-235 | offset dx of a rotation state is that state translated by (dx, 0), for dx = 0 .. width-1 in order |
| Placement.CandidatesMember | main.py:237-248 | a candidate is exactly some rotation state translated by some dx in [0, width) |
| Placement.KeepMember | main.py:250-256 | a candidate is kept exactly when it passes `valid_x` and does not collide with the board |
| Placement.KeepAppend | main.py:250-256 | the filters keep candidate order: filtering a concatenation concatenates the filtered parts |
| Placement.ChoicesWithinMember | main.py:222-258 | a placement is returned exactly when it is a rotation state moved by an in-range offset, fits the checked width and avoids the board |
| Placement.ChoicesMember | main.py:222-258 | as written, the placements are the in-range candidates that fit 32 columns and avoid the board |
| Placement.ChoicesOrder | main.py:237-256 | the result is rotation-major: the kept offsets of state 0, then of states 1, 2 and 3 |
| Placement.ShiftFits | main.py:250-255 | a state spanning x 0 to m, shifted by dx, passes `valid_x` for w exactly when 0 <= dx and dx + m < w |
| Placement.KeepOffsetsEmpty | main.py:250-256 | on an empty board a state spanning x 0 to m keeps exactly the first w - m offsets (all n if fewer, none if w <= m) |
| Placement.ChoicesO | main.py:222-258 | on the empty 32-wide board the O block gets 31 placements per state, 124 in all, repeats included |
| Placement.ChoicesEscapesWidth | main.py:250-255 | as written, on a 10-wide board the O block at offset 9 is returned although its right column is x = 10 |
| Placement.ChoicesFixedMember | main.py:222-258 | with the bound taken from `width`, every placement lies in columns [0, width), and each such candidate clear of the board is returned |
| Placement.ChoicesFixedO | main.py:222-258 | with the bound taken from `width`, the O block on an empty 10-wide board gets 9 placements per state |
| Gravity.FreeSpec | main.py:101-103 | the cell-by-cell step test is exactly: the moved piece does not collide with the board and passes `valid_y` |
| Gravity.Drop | main.py:84-108 | the board is always part of the result |
| Gravity.DropSpec | main.py:101-106 | wherever the piece rests below its current depth, the result is the board plus the piece moved down to that rest |
| Gravity.DropRests | main.py:101-106 | the recursion ends: from any depth the piece comes to rest at or below it |
| Gravity.SettleSpec | main.py:84-108 | if the piece rests d rows down (steps 1..d free, step d + 1 blocked), the result is the board plus the piece moved d rows down |
| Gravity.SettleRests | main.py:84-108 | some resting depth d >= 0 exists and the result is the board plus the piece moved d rows down |
| Gravity.SettleBlocked | main.py:101-106 | a blocked first step returns the board plus the piece where it is |
| Gravity.SettleSize | main.py:101-108 | a piece that starts clear of the board keeps all its cells: the result has as many cells as board and piece together |
| Gravity.SettleInFrame | main.py:103-106 | with the height checked at every step, a board and piece inside [0, h) stay inside [0, h) |
| Gravity.FallSpec | main.py:101-106 | as written: blocked first step gives board plus piece; otherwise the piece takes that step and rests where the default height 32 stops it |
| Gravity.FallRests | main.py:84-108 | as written, the result is always the board plus the piece moved straight down by some d >= 0 rows |
| Gravity.FallDepth | main.py:103-105 | as written, once the first step is taken every later step is checked against 32 rows, so the piece rests at most 32 rows down and `fall` makes at most 32 recursive calls |
| Gravity.FallSize | main.py:84-108 | as written, at any caller height, a piece that starts clear of the board keeps all its cells: the result has as many cells as board and piece together |
| Gravity.FallDefaultHeight | main.py:84-105 | at the default height the as-written `fall` and the corrected one agree |
| Gravity.SettleEmpty | main.py:84-108 | on an empty board a piece inside [0, h) drops until its lowest cell is in row h - 1 |
| Gravity.FallO | main.py:84-108 | the O block on the empty board lands on (0,30), (0,31), (1,30), (1,31) |
| Gravity.FallIOnCell | main.py:84-108 | the vertical I block dropped onto the single cell (0,31) gives (0,27) to (0,31) |
| Gravity.FallTopCell | main.py:105 | as written, a single cell (0,0) dropped in a 10-row frame ends at (0,31) |
| Gravity.FallLeavesFrame | main.py:103-105 | as written, a piece inside a 10-row frame ends outside it, while the corrected Settle keeps it inside |
| Rows.FullRowsSpec | main.py:261-280 | row y is full exactly when width is positive and row y holds exactly `width` cells |
| Rows.Span | main.py:271 | a complete row of a board n wide: the cells (0, y) .. (n - 1, y), n of them |
| Rows.FullRowComplete | main.py:271 | on a board inside columns [0, width), a row holds `width` cells exactly when every column of it is occupied |
| Rows.FullBelowStep | main.py:290-298 | one row further down, the count of full rows below drops by one exactly when that row is full |
| Rows.LoweredNonDecreasing | main.py:290-303 | flushing never changes the order of rows |
| Rows.LoweredIncreasing | main.py:290-303 | a kept row lands strictly below every row above it |
| Rows.LoweredInjective | main.py:290-303 | distinct kept rows land on distinct rows |
| Rows.FlushedRow | main.py:283-305 | a kept row arrives whole: the row it lands on is exactly the old row moved down by the full rows below it |
| Rows.FlushedNoFullRows | main.py:283-305 | no row of the flushed board is full |
| Rows.FlushedIdentity | main.py:283-305 | with no full rows, flushing changes nothing |
| Rows.FlushedIdempotent | main.py:283-305 | flushing twice is flushing once |
| Rows.FlushedKeepsBelow | main.py:290-303 | a cell below every full row stays where it is |
| Rows.FlushedOneRow | main.py:283-305 | with exactly one full row r: row r disappears, cells above it move down one row, cells below it stay |
| Rows.FlushedExample | main.py:261-305 | on a 2-wide board holding (0,0), (0,1), (1,1), row 1 is full and flushing leaves only (0,1) |

## Left out

- `render_bits` (main.py:53-77) is text formatting for display only.
- The driver loop (main.py:308-325) is left out. It relies on random sampling, sleeping, terminal escapes and printing, and it restarts the game by swallowing every exception.
- `apply` and the `itertools`/`partial` plumbing are not modelled as such. Their effect appears directly as sequence and set operations.
- The `Blocks` list (main.py:219) appears only as the `Shape` datatype.
- The `update` parameter of `fall` is fixed to one row down. Every caller uses the default, and the recursive call drops it anyway.
- `fall` on an empty falling set has no result in the source. Every step is free: `valid_y` of the empty set holds and nothing collides. The source therefore recurses until Python raises `RuntimeError` (maximum recursion depth exceeded). Every gravity member requires a non-empty piece, so that error is not modelled.
- Gravity.FallO, Gravity.FallIOnCell, Gravity.FallTopCell and Gravity.FallLeavesFrame take the piece as a parameter described cell by cell, not as a set literal. The verifier would otherwise unfold the recursive set functions on the literal without bound. The statements are the same.
- Rows.FullRowComplete: requires `0 <= width`. With a negative width the row count can never equal it, while "every column occupied" holds vacuously.
- Rows.FullRowsSpec: also says that `width = 0` marks no row as full. The source groups only rows that hold cells, so an empty row is never a group.
- Python's `min` returns the first minimal cell. The model takes the least coordinate itself, which is all `normalize_bits` uses.

## Findings

| source | as written | input that shows it | evidently intended | confidence | as-written member | corrected member |
|---|---|---|---|---|---|---|
| main.py:105 | the recursive call `fall(bits, fallen_bits)` drops `height`; only the first step checks the caller's height, and later steps check 32 | `fall(set(), {(0,0)}, height=10)` returns `{(0,31)}`, outside the 10-row frame | every step checks the same `height`, so a piece inside the frame stays inside it | not executed | Gravity.FallLeavesFrame | Gravity.SettleInFrame |
| main.py:252-255 | `filter(valid_x, ...)` calls `valid_x` with its default width 32, not the `width` of `choices` | `choices(O(), set(), width=10)` contains O shifted by 9, with cells at x = 10 | placements lie in columns [0, width) | not executed | Placement.ChoicesEscapesWidth | Placement.ChoicesFixedMember |
