/**
 * Laying out one line of text (lineSDF2 of sdf/text.go): kerning and advance
 * widths move a cursor along x, and every glyph with ink is placed at the
 * cursor.
 */
module LineLayout {
  import opened Shapes
  import opened Sums
  import opened GlyphOutline

  /** Why the font could not produce a glyph's outline. */
  datatype LoadError = LoadError(reason: string)

  datatype Result<T> = Ok(value: T) | Err(error: LoadError)

  /**
   * The queries the layout makes of a truetype.Font, already at the font's own
   * units-per-em scale, in font units.
   */
  datatype Font = Font(
    index: char -> nat,               // f.Index(r)
    advanceWidth: nat -> int,         // f.HMetric(scale, i).AdvanceWidth
    advanceHeight: nat -> int,        // f.VMetric(scale, i).AdvanceHeight
    kern: (nat, nat) -> int,          // f.Kern(scale, iPrev, i)
    load: nat -> Result<GlyphBuf>)    // GlyphBuf.Load(f, scale, i, font.HintingNone)

  /** Every outline the font loads has its contours inside its point array. */
  ghost predicate ValidFont(f: Font)
  {
    forall i: nat :: f.load(i).Ok? ==> ValidGlyph(f.load(i).value)
  }

  /** What lineSDF2 returns on success: the placed glyphs and the final cursor. */
  datatype Line = Line(glyphs: seq<Region>, width: int)

  // ---------------------------------------------------------------------------
  // Per-rune quantities of line l

  /** The glyph index used as "previous" for rune j's kerning: index 0 before the first rune. */
  function PrevGlyph(f: Font, l: string, j: int): nat
    requires 0 <= j <= |l|
  {
    if j == 0 then 0 else f.index(l[j - 1])
  }

  function Kern(f: Font, l: string, j: int): int
    requires 0 <= j < |l|
  {
    f.kern(PrevGlyph(f, l, j), f.index(l[j]))
  }

  function Advance(f: Font, l: string, j: int): int
    requires 0 <= j < |l|
  {
    f.advanceWidth(f.index(l[j]))
  }

  function Loaded(f: Font, l: string, j: int): Result<GlyphBuf>
    requires 0 <= j < |l|
  {
    f.load(f.index(l[j]))
  }

  /** The first k runes' glyphs all load. */
  predicate LoadsOk(f: Font, l: string, k: int)
    requires 0 <= k <= |l|
  {
    forall j :: 0 <= j < k ==> Loaded(f, l, j).Ok?
  }

  /** The composed shape of rune j's glyph. */
  function ShapeAt(f: Font, l: string, j: int): Region
    requires ValidFont(f) && 0 <= j < |l| && Loaded(f, l, j).Ok?
  {
    GlyphShape(Loaded(f, l, j).value)
  }

  /** The cursor once the first k runes are done: their kerning and advances. */
  function Pen(f: Font, l: string, k: int): int
    requires 0 <= k <= |l|
  {
    if k == 0 then 0 else Pen(f, l, k - 1) + Kern(f, l, k - 1) + Advance(f, l, k - 1)
  }

  /** Where rune j's glyph is placed: the cursor after its kerning is applied. */
  function XAt(f: Font, l: string, j: int): int
    requires 0 <= j < |l|
  {
    Pen(f, l, j) + Kern(f, l, j)
  }

  /** The glyphs placed for the first k runes: those with ink, translated to their x, in order. */
  function Placed(f: Font, l: string, k: int): seq<Region>
    requires ValidFont(f) && 0 <= k <= |l| && LoadsOk(f, l, k)
  {
    if k == 0 then []
    else
      var s := ShapeAt(f, l, k - 1);
      Placed(f, l, k - 1) + (if s == Empty then [] else [Translate(s, XAt(f, l, k - 1) as real, 0.0)])
  }

  /** The first rune at or after j whose glyph fails to load, or |l| when there is none. */
  function FirstFailure(f: Font, l: string, j: int): (k: int)
    requires 0 <= j <= |l|
    ensures j <= k <= |l|
    ensures forall i :: j <= i < k ==> Loaded(f, l, i).Ok?
    ensures k < |l| ==> Loaded(f, l, k).Err?
    decreases |l| - j
  {
    if j == |l| then |l|
    else if Loaded(f, l, j).Err? then j
    else FirstFailure(f, l, j + 1)
  }

  /** The result of lineSDF2: the first load error, or every inked glyph placed and the final cursor. */
  function LayoutLine(f: Font, l: string): Result<Line>
    requires ValidFont(f)
  {
    var k := FirstFailure(f, l, 0);
    if k < |l| then Err(Loaded(f, l, k).error)
    else Ok(Line(Placed(f, l, |l|), Pen(f, l, |l|)))
  }

  /** lineSDF2. */
  method LineSDF2(f: Font, l: string) returns (r: Result<Line>)
    requires ValidFont(f)
    ensures r == LayoutLine(f, l)
  {
    var iPrev: nat := 0;
    var xOfs := 0;
    var ss: seq<Region> := [];
    var j := 0;
    while j < |l|
      invariant 0 <= j <= |l|
      invariant LoadsOk(f, l, j)
      invariant iPrev == PrevGlyph(f, l, j)
      invariant xOfs == Pen(f, l, j)
      invariant ss == Placed(f, l, j)
    {
      var i := f.index(l[j]);
      var advance := f.advanceWidth(i);
      var k := f.kern(iPrev, i);
      xOfs := xOfs + k;
      iPrev := i;
      var g := f.load(i);
      if g.Err? {
        FirstFailureAt(f, l, 0, j);
        return Err(g.error);
      }
      var s := GlyphConvert(g.value);
      if s != Empty {
        ss := ss + [Translate(s, xOfs as real, 0.0)];
      }
      xOfs := xOfs + advance;
      j := j + 1;
    }
    FirstFailureAt(f, l, 0, |l|);
    return Ok(Line(ss, xOfs));
  }

  /** When the runes from j up to k all load and k fails (or is the end), k is the first failure from j. */
  lemma {:induction false} FirstFailureAt(f: Font, l: string, j: int, k: int)
    requires 0 <= j <= k <= |l|
    requires forall i :: j <= i < k ==> Loaded(f, l, i).Ok?
    requires k < |l| ==> Loaded(f, l, k).Err?
    ensures FirstFailure(f, l, j) == k
    decreases k - j
  {
    if j < k {
      FirstFailureAt(f, l, j + 1, k);
    }
  }

  // ---------------------------------------------------------------------------
  // Properties of a line

  /** The kerning values and the advance widths of all runes. */
  function Kerns(f: Font, l: string): seq<int>
  {
    seq(|l|, j requires 0 <= j < |l| => Kern(f, l, j))
  }

  function Advances(f: Font, l: string): seq<int>
  {
    seq(|l|, j requires 0 <= j < |l| => Advance(f, l, j))
  }

  lemma {:induction false} PenIsSum(f: Font, l: string, k: int)
    requires 0 <= k <= |l|
    ensures Pen(f, l, k) == Sum(Kerns(f, l)[..k]) + Sum(Advances(f, l)[..k])
  {
    if k > 0 {
      PenIsSum(f, l, k - 1);
      SumPrefix(Kerns(f, l), k - 1);
      SumPrefix(Advances(f, l), k - 1);
    }
  }

  /**
   * Rune j's glyph sits at the sum of the advances of the runes before it and
   * of the kerning values up to and including its own.
   */
  lemma GlyphPosition(f: Font, l: string, j: int)
    requires 0 <= j < |l|
    ensures XAt(f, l, j) == Sum(Advances(f, l)[..j]) + Sum(Kerns(f, l)[..j + 1])
  {
    PenIsSum(f, l, j);
    SumPrefix(Kerns(f, l), j);
  }

  /** A line that lays out reports the sum of every kerning value and every advance as its width. */
  lemma LineWidth(f: Font, l: string)
    requires ValidFont(f) && LayoutLine(f, l).Ok?
    ensures LayoutLine(f, l).value.width == Sum(Kerns(f, l)) + Sum(Advances(f, l))
  {
    PenIsSum(f, l, |l|);
    assert Kerns(f, l)[..|l|] == Kerns(f, l);
    assert Advances(f, l)[..|l|] == Advances(f, l);
  }

  /** For each of the first k runes, whether its glyph has ink. */
  function Inks(f: Font, l: string, k: int): seq<bool>
    requires ValidFont(f) && 0 <= k <= |l| && LoadsOk(f, l, k)
  {
    seq(k, j requires 0 <= j < k => ShapeAt(f, l, j) != Empty)
  }

  /** The runes before k whose glyph has ink. */
  function Inked(f: Font, l: string, k: int): seq<int>
    requires ValidFont(f) && 0 <= k <= |l| && LoadsOk(f, l, k)
  {
    TrueIndices(Inks(f, l, k))
  }

  /** Inked lists, in increasing order, exactly the runes before k whose glyph has ink. */
  lemma InkedRunes(f: Font, l: string, k: int)
    requires ValidFont(f) && 0 <= k <= |l| && LoadsOk(f, l, k)
    ensures forall m :: 0 <= m < |Inked(f, l, k)| ==> 0 <= Inked(f, l, k)[m] < k
    ensures forall m, n :: 0 <= m < n < |Inked(f, l, k)| ==> Inked(f, l, k)[m] < Inked(f, l, k)[n]
    ensures forall j :: 0 <= j < k ==> (j in Inked(f, l, k) <==> ShapeAt(f, l, j) != Empty)
  {
    TrueIndicesSpec(Inks(f, l, k));
  }

  /** Extending the line by one rune appends that rune to Inked when its glyph has ink. */
  lemma InkedStep(f: Font, l: string, k: int)
    requires ValidFont(f) && 0 < k <= |l| && LoadsOk(f, l, k)
    ensures Inked(f, l, k) == Inked(f, l, k - 1) + (if ShapeAt(f, l, k - 1) != Empty then [k - 1] else [])
  {
    assert Inks(f, l, k)[..k - 1] == Inks(f, l, k - 1);
  }

  /**
   * The placed glyphs are exactly the inked runes' shapes, in input order, each
   * translated to its own x and to y = 0; glyphs without ink are skipped.
   */
  lemma {:induction false} PlacedInOrder(f: Font, l: string, k: int)
    requires ValidFont(f) && 0 <= k <= |l| && LoadsOk(f, l, k)
    ensures |Placed(f, l, k)| == |Inked(f, l, k)|
    ensures forall m :: 0 <= m < |Inked(f, l, k)| ==>
      0 <= Inked(f, l, k)[m] < k &&
      Placed(f, l, k)[m] == Translate(ShapeAt(f, l, Inked(f, l, k)[m]), XAt(f, l, Inked(f, l, k)[m]) as real, 0.0)
  {
    if k > 0 {
      PlacedInOrder(f, l, k - 1);
      var before, js := Placed(f, l, k - 1), Inked(f, l, k - 1);
      var now, js' := Placed(f, l, k), Inked(f, l, k);
      InkedStep(f, l, k);
      forall m | 0 <= m < |js'|
        ensures 0 <= js'[m] < k && now[m] == Translate(ShapeAt(f, l, js'[m]), XAt(f, l, js'[m]) as real, 0.0)
      {
        if m < |js| {
          assert now[m] == before[m] && js'[m] == js[m];
        }
      }
    }
  }

  /** A line fails exactly when one of its glyphs fails to load, and then with the error of the first such glyph. */
  lemma LineFails(f: Font, l: string)
    requires ValidFont(f)
    ensures LayoutLine(f, l).Err? <==> exists j :: 0 <= j < |l| && Loaded(f, l, j).Err?
    ensures LayoutLine(f, l).Err? ==>
      exists j :: 0 <= j < |l| && LoadsOk(f, l, j) && Loaded(f, l, j).Err? && LayoutLine(f, l).error == Loaded(f, l, j).error
  {
    var k := FirstFailure(f, l, 0);
    if k < |l| {
      assert LoadsOk(f, l, k);
    }
  }

  /** An empty line places nothing and has width 0. */
  lemma EmptyLine(f: Font)
    requires ValidFont(f)
    ensures LayoutLine(f, "") == Ok(Line([], 0))
  {
  }

  /** A one-triangle glyph, for the example below. */
  function Triangle(): GlyphBuf
  {
    GlyphBuf([Point(0, 0, 1), Point(0, 10, 1), Point(10, 0, 1)], [3])
  }

  /** Runes 'a' and 'b' with advances 10 and 12 and kerning -2 between them. */
  function ExampleFont(): Font
  {
    Font(
      c => if c == 'a' then 1 else if c == 'b' then 2 else 0,
      i => if i == 1 then 10 else if i == 2 then 12 else 0,
      i => 0,
      (p, i) => if p == 1 && i == 2 then -2 else 0,
      i => Ok(Triangle()))
  }

  /** "ab": the first glyph at x = 0, the second at 10 - 2 = 8, and the line 8 + 12 = 20 wide. */
  lemma KerningExample()
    ensures ValidFont(ExampleFont())
    ensures XAt(ExampleFont(), "ab", 0) == 0 && XAt(ExampleFont(), "ab", 1) == 8
    ensures LayoutLine(ExampleFont(), "ab").Ok? && LayoutLine(ExampleFont(), "ab").value.width == 20
  {
    var f := ExampleFont();
    assert ValidContour(Triangle(), 0);
    FirstFailureAt(f, "ab", 0, 2);
  }
}
