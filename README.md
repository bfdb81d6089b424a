# Text to 2D shape (sdfx, `sdf/text.go`) in Dafny

This project models how sdfx turns a string and a TrueType font into one 2D
signed-distance shape, and proves properties of that model. It has four stages:

1. **glyph_curve** walks one contour of a glyph cyclically. It pushes every
   point into a Bezier builder, marking off-curve points as control points.
   Between two adjacent off-curve points it first pushes their midpoint, the
   implicit on-curve point of the TrueType outline format. Along the way it
   accumulates the winding sum Σ (x − x_prev)·(y + y_prev). The contour is
   flagged when that sum is positive.
2. **glyph_convert** folds a glyph's contours left to right, starting from nil.
   A flagged contour is unioned in and any other contour is cut out.
3. **lineSDF2** lays out one line. A cursor starts at 0. For each rune it adds
   the kerning value, places the glyph at the cursor and adds the advance width.
   A glyph without a shape is skipped but still moves the cursor. A glyph that
   fails to load aborts the line.
4. **TextSDF2** and **NewText** handle a whole text. The text is split at
   `'\n'`. Each line is shifted for left, right or centre alignment and lowered
   by one advance height per line. The lines are concatenated in order, unioned,
   and centred and scaled by `h / ah`.

Modules, one per file:

- `Shapes` (`shapes.dfy`): the shape vocabulary as a symbolic `Region` term
  (`Empty` is nil, `Polygon`, `UnionOf`, `Difference`, `Translate`,
  `CenterAndScale`).
- `Sums` (`sums.dfy`): sequence helpers.
- `GlyphOutline` (`glyph.dfy`): `glyph_curve` and `glyph_convert`.
- `LineLayout` (`line.dfy`): the font queries and `lineSDF2`.
- `TextLayout` (`text.dfy`): `NewText`, the split, and `TextSDF2`.

Each loop of the source is a Dafny `method` with its own loop. That method is
proved equal to a specification function: `Emit`/`WindingUpTo`, `Compose`,
`Placed`/`Pen`, `PlaceLines`. The lemmas then state what the source promises
about those functions.

The font is a value `Font` of five functions. They stand for `f.Index`,
`HMetric(..).AdvanceWidth`, `VMetric(..).AdvanceHeight`, `Kern` and
`GlyphBuf.Load`, all at the font's own units-per-em scale. A load returns
`Ok(glyph)` or `Err(error)`. `ValidFont` asks that every glyph the font loads,
at any glyph index and not only those the text uses, has non-empty contours
whose ends strictly increase and lie inside its point array.

Coordinates, kerning values, advances, cursors and winding sums are integers,
which are font units. Midpoints and alignment shifts are reals.

## Behaviour worth knowing

- **No implicit point between a contour's last and first points.** The
  TrueType glyf format puts an implicit on-curve point between any two
  consecutive off-curve points of a contour, the last and the first included.
  The code skips that pair: `off_prev` starts as `false` (sdf/text.go:59), so
  the test at sdf/text.go:68 never holds for the first point, although `v_prev`
  does start at the last point (sdf/text.go:60). The model follows the code:
  `Implicit(pts, 0)` is false, and `GlyphCurve`'s loop invariant
  `offPrev == (i > start && Off(pPrev))` records it. `ImplicitPointExample`
  proves it on a contour of two off-curve points: the glyf rule gives two
  midpoints, one between them and one at the wrap, but the pushed curve has
  only the first.
- **The flag means clockwise.** glyph_convert calls the flag `cw`
  (sdf/text.go:92). The sum is positive exactly for clockwise contours, with y
  pointing up: `WindingIsShoelace` proves that the sum is minus twice the
  signed area, and `UnitSquareWinding` shows the counter-clockwise unit square
  summing to −2 and the clockwise one to +2.

## Model

| member | source | states |
|---|---|---|
| GlyphOutline.PointToV2 | sdf/text.go:39-42 | a truetype point becomes the vector with the same coordinates |
| GlyphOutline.Midpoint | sdf/text.go:68-71 | the implicit on-curve point lies halfway between the two off-curve points, in x and in y |
| GlyphOutline.ContourPoints | sdf/text.go:48-53 | contour n holds Ends[n] − start points, where start is 0 for n = 0 and Ends[n−1] otherwise; there is at least one |
| GlyphOutline.ContourPointAt | sdf/text.go:49-63 | the contour's i-th point is point start + i of the glyph |
| GlyphOutline.EmitNext | sdf/text.go:62-76 | one loop step pushes the midpoint exactly when the point and the previous one are both off-curve, then pushes the point, marked as a control point iff bit 0 of its flags is 0 |
| GlyphOutline.EmitLayout | sdf/text.go:62-82 | after k points, every point has been pushed once, in order, with its mark; each midpoint sits right before its point; the count is k plus the number of midpoints |
| GlyphOutline.OutlineLayout | sdf/text.go:59-83 | the whole pushed curve starts with the first point and ends with the last; consecutive points keep their order; the length is the point count plus the off/off pairs |
| GlyphOutline.ImplicitPointExample | sdf/text.go:59-76 | two control points (0,0) and (2,2) get the on-curve point (1,1) pushed between them, and no second midpoint at the wrap from (2,2) back to (0,0) |
| GlyphOutline.WindingUpToIsSum | sdf/text.go:58-80 | the running sum after k points is the sum of the first k edges, the first edge running from the last point to the first |
| GlyphOutline.WindingSumOfEdges | sdf/text.go:58-80 | the final sum is the sum over all cyclic edges, including the closing edge |
| GlyphOutline.EdgeAntisymmetric | sdf/text.go:78 | an edge's term changes sign when the edge is reversed |
| GlyphOutline.EdgePlusCross | sdf/text.go:78 | an edge's term plus its cross product is the difference of the endpoints' x·y |
| GlyphOutline.Telescope | sdf/text.go:58-80 | the running sum plus the running cross products telescopes to two endpoint products |
| GlyphOutline.WindingIsShoelace | sdf/text.go:78-85 | the winding sum is minus twice the signed area; the flag is set iff the signed area is negative (clockwise) |
| GlyphOutline.EdgesOfReverse | sdf/text.go:78 | the edges of the reversed contour are the original edges, reversed and negated |
| GlyphOutline.WindingReverse | sdf/text.go:58-80 | reversing the point order negates the winding sum |
| GlyphOutline.ReverseFlipsFlag | sdf/text.go:85 | for a contour with a nonzero sum, reversing it flips the flag |
| GlyphOutline.UnitSquareWinding | sdf/text.go:78-85 | the unit square sums to −2 counter-clockwise and to +2 clockwise |
| GlyphOutline.Off | sdf/text.go:66 | a point is off-curve iff bit 0 of its flags is 0 |
| GlyphOutline.ContourStart | sdf/text.go:49-52 | contour n starts at 0 for n = 0 and at Ends[n−1] otherwise |
| GlyphOutline.Implicit | sdf/text.go:59-71 | a midpoint goes before the contour's i-th point iff i > 0 and that point and the one before it are both off-curve |
| GlyphOutline.Emit | sdf/text.go:62-76 | the curve pushed after the first k points: for each, the midpoint when implicit, then the point with its off-curve mark |
| GlyphOutline.Outline | sdf/text.go:57-83 | the curve pushed for the whole contour |
| GlyphOutline.Prev | sdf/text.go:60-80 | the point before the contour's i-th point: the last point for i = 0, point i − 1 otherwise |
| GlyphOutline.Edge | sdf/text.go:78 | the sum's term for the edge from p to q, (q.x − p.x)·(q.y + p.y) |
| GlyphOutline.WindingUpTo | sdf/text.go:58-80 | the sum after the first k points: each point's edge term from its predecessor, added in order |
| GlyphOutline.WindingSum | sdf/text.go:58-80 | the sum after the whole contour |
| GlyphOutline.Compose | sdf/text.go:89-98 | the accumulator after k contours: nil for k = 0, then a union with contour k − 1 when its flag is set and a difference otherwise |
| GlyphOutline.GlyphShape | sdf/text.go:88-100 | the accumulator after every contour |
| GlyphOutline.ContourShape | sdf/text.go:83-85 | contour n's shape: the polygon of the curve pushed for it |
| GlyphOutline.Outer | sdf/text.go:85-93 | contour n's flag: its winding sum is positive; glyph_convert reads it as `cw` |
| GlyphOutline.GlyphCurve | sdf/text.go:46-86 | glyph_curve returns the polygon of the pushed curve, and the flag holds iff the winding sum of the contour is positive |
| GlyphOutline.GlyphConvert | sdf/text.go:88-100 | glyph_convert returns the fold of all contours |
| GlyphOutline.ComposeSpine | sdf/text.go:89-100 | after k contours the shape is a chain from nil through contours 0 .. k−1 in order, each unioned when flagged and subtracted otherwise |
| GlyphOutline.GlyphShapeSpine | sdf/text.go:89-100 | the glyph's shape is that chain over every contour |
| GlyphOutline.GlyphShapeEmpty | sdf/text.go:90-99 | the glyph's shape is nil exactly when it has no contours |
| LineLayout.FirstFailure | sdf/text.go:123-128 | the first rune at or after j whose glyph fails to load, with every rune before it loading |
| LineLayout.FirstFailureAt | sdf/text.go:123-128 | a rune that fails after runes that all load is the first failure |
| LineLayout.Kern | sdf/text.go:113-120 | rune j's kerning value: the font's kern between the previous glyph index and rune j's glyph index |
| LineLayout.Advance | sdf/text.go:113-136 | rune j's advance: the advance width of rune j's glyph |
| LineLayout.Loaded | sdf/text.go:113-125 | rune j's glyph as the font loads it, or the load error |
| LineLayout.ShapeAt | sdf/text.go:130 | rune j's shape: the fold of its loaded glyph's contours |
| LineLayout.PrevGlyph | sdf/text.go:106-121 | the glyph index used as "previous" for rune j: 0 for the first rune, the index of rune j − 1 otherwise |
| LineLayout.Pen | sdf/text.go:108-136 | the cursor after k runes: 0, then for each rune its kerning value and its advance |
| LineLayout.XAt | sdf/text.go:119-132 | rune j's glyph is placed at the cursor before it plus its own kerning value |
| LineLayout.Placed | sdf/text.go:130-134 | the glyphs appended after k runes: each non-nil shape, translated to its x and y = 0, in order |
| LineLayout.LayoutLine | sdf/text.go:104-140 | lineSDF2's result: the first load error, or the placed glyphs and the final cursor |
| LineLayout.LineSDF2 | sdf/text.go:104-140 | lineSDF2 returns the first load error, or the inked glyphs placed at their cursors together with the final cursor |
| LineLayout.PenIsSum | sdf/text.go:106-136 | after k runes the cursor is the sum of their kerning values and advances |
| LineLayout.GlyphPosition | sdf/text.go:113-132 | glyph j sits at the sum of the advances before it plus the kerning values up to and including its own |
| LineLayout.LineWidth | sdf/text.go:136-139 | the returned width is the sum of all kerning values plus all advances |
| LineLayout.InkedRunes | sdf/text.go:130-134 | the indices of runes with ink are in range, strictly increasing, and include exactly the runes whose shape is not nil |
| LineLayout.InkedStep | sdf/text.go:130-134 | one more rune adds its index to the inked runes iff its shape is not nil |
| LineLayout.PlacedInOrder | sdf/text.go:130-134 | the m-th placed glyph is the m-th inked rune's shape, translated to that rune's x and to y = 0 |
| LineLayout.LineFails | sdf/text.go:123-128 | a line fails iff one of its glyphs fails to load, and then with the error of the first glyph that fails |
| LineLayout.EmptyLine | sdf/text.go:106-139 | an empty line returns no glyphs and width 0 |
| LineLayout.KerningExample | sdf/text.go:113-136 | "ab" with advances 10 and 12 and kerning −2 places b at 8 and has width 20 |
| TextLayout.NewText | sdf/text.go:145-151 | NewText keeps the string unchanged and centres it |
| TextLayout.Lines | sdf/text.go:166 | the split gives at least one line, and no line contains '\n' |
| TextLayout.JoinLines | sdf/text.go:166 | joining the lines with '\n' gives the text back |
| TextLayout.LinesJoin | sdf/text.go:166 | splitting '\n'-free pieces joined with '\n' gives the pieces back |
| TextLayout.LinesAfterNewline | sdf/text.go:166 | a leading '\n' yields an empty first line |
| TextLayout.LinesOfPieceThen | sdf/text.go:166 | a '\n'-free prefix becomes part of the first line |
| TextLayout.LinesCount | sdf/text.go:166 | there is one more line than there are '\n' characters |
| TextLayout.LinesChars | sdf/text.go:166 | the characters of the lines are exactly the text's characters other than '\n' |
| TextLayout.SplitExamples | sdf/text.go:166 | "" splits into one empty line; "ab\n\nc" splits into "ab", "" and "c" |
| TextLayout.AlignShift | sdf/text.go:178-183 | the shift puts the line's left end (L_ALIGN), right end (R_ALIGN) or centre (C_ALIGN) at x = 0 |
| TextLayout.LineYIsMultiple | sdf/text.go:167-188 | line k sits at y = −k·ah |
| TextLayout.ShiftLine | sdf/text.go:184-186 | the inner loop translates every glyph of the line by the same offset and keeps their order |
| TextLayout.Shift | sdf/text.go:184-186 | every glyph of a line translated by the same offset, in order |
| TextLayout.LineGlyphs | sdf/text.go:178-186 | a laid-out line's glyphs as line k: shifted by its alignment and lowered to line k's height |
| TextLayout.LineResults | sdf/text.go:173-174 | lineSDF2's result for each line of the text, in order |
| TextLayout.LineY | sdf/text.go:167-188 | line k's vertical offset: 0 for the first line, one advance height lower for each line after it |
| TextLayout.AdvanceHeight | sdf/text.go:168-169 | ah is the advance height of the glyph for '\n' |
| TextLayout.PlaceLines | sdf/text.go:173-189 | the glyphs of the first k lines, each line aligned and lowered, concatenated in order, or the error of the first line that fails |
| TextLayout.LayoutText | sdf/text.go:163-192 | TextSDF2's result: that error, or CenterAndScale of the union of all placed glyphs with factor h / ah |
| TextLayout.TextSDF2 | sdf/text.go:163-192 | TextSDF2 returns the first line's load error, or the centred and scaled union of every placed glyph |
| TextLayout.ErrorSticks | sdf/text.go:174-177 | once a line fails, the result is that error whatever the later lines are |
| TextLayout.PlaceLinesFails | sdf/text.go:173-177 | the placement fails iff some line fails, and then with the error of the first line that fails |
| TextLayout.TextFails | sdf/text.go:174-177 | the text fails iff some character other than '\n' has a glyph that cannot be loaded; no partial shape is returned |
| TextLayout.EarlierLinesFirst | sdf/text.go:187 | the glyphs of earlier lines form a prefix of the glyphs of all lines |
| TextLayout.LineBlock | sdf/text.go:178-188 | line k's glyphs follow those of the earlier lines, each translated by the line's alignment shift and lowered to line k's height |
| TextLayout.CenteredLinesExample | sdf/text.go:178-188 | two centred lines of widths 10 and 4 with ah = 20 move their glyphs by (−5, 0) and (−2, −20) |

## Left out

- `LoadFont` (sdf/text.go:153-161) reads a file and parses it. That is I/O.
- The truetype library is not modelled:
  - `Index`, `HMetric`, `VMetric`, `Kern` and `GlyphBuf.Load` are functions
    the caller supplies, as the fields of `Font`.
  - The `FUnitsPerEm` scale is assumed to be already applied inside them.
  - Why a load fails is not modelled; a failure is just `LoadError`.
- The Bezier builder (`NewBezier`, `AddV2`, `Mid`, `Close`,
  `Polygon().Vertices()`) is not modelled. Only the sequence of points and
  control marks pushed into it is modelled, and `Polygon(curve)` stands for the
  shape built from that sequence. The tessellation is not.
- The shape library is not modelled:
  - `Polygon2D`, `Union2D`, `Difference2D`, `Transform2D`/`Translate2d` and
    `CenterAndScale2D` are constructors of `Region`.
  - Their geometry and distance evaluation are not modelled, including the
    claim that the result is h tall.
  - How `Union2D` and `Difference2D` treat a nil operand is not modelled.
    `UnionOf([Empty, c])` records the call itself.
  - Which calls can return nil is not modelled. A glyph's shape is nil exactly
    when it has no contours (`GlyphShapeEmpty`).
- `TextSDF2`: the factor `h / ah` is carried as the pair `(h, ah)` in
  `CenterAndScale`. The float64 division, and its result when `ah` is 0, are
  not modelled.
- float64 rounding is not modelled. Font units are integers, and only the
  midpoint and the alignment shift need halves, which reals hold exactly.
- UTF-8 decoding in `range l` (sdf/text.go:112) is not modelled. A text is a
  sequence of characters.
- `strings.Split(s, "\n")` is replaced by `Lines`, a direct definition of the
  split on `'\n'`, together with its round-trip and counting lemmas.
- `lineSDF2`'s error return is modelled as `Err(error)`. All that is kept of
  `(nil, 0, err)` and `(nil, err)` is that no partial result comes back.
- The numeric values 0, 1, 2 of `L_ALIGN`, `R_ALIGN` and `C_ALIGN` are not
  modelled. `Align` keeps only that the three values are distinct, plus what
  each one means.
- `glyph_curve`: a contour with no points (`Ends[n] <= start`) is outside the
  model; `ValidContour` requires at least one point. The code behaves in two
  ways here. When `Ends[n] == 0`, `end` is −1 and `Points[end]` at
  sdf/text.go:60 is out of range. When n > 0 and `Ends[n] <= Ends[n-1]`,
  `end` is a valid index, the loop at sdf/text.go:62 runs zero times, the sum
  stays 0 and the flag is false, so glyph_convert subtracts the polygon of an
  empty curve. The model does not capture that second case: a glyph with an
  empty later contour has no `GlyphShape`.
- `TextSDF2` overwrites `ss_line[i]` in place. The model uses a functional
  sequence update in `ShiftLine`, because that slice is not shared with
  anything else.
