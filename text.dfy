/**
 * Laying out a whole text (NewText and TextSDF2 of sdf/text.go): the string is
 * split into lines at '\n', each line is laid out, shifted by its alignment and
 * moved down by one advance height per line, and the union of every glyph is
 * centred and scaled.
 */
module TextLayout {
  import opened Shapes
  import opened LineLayout

  /** L_ALIGN (left hand side at x = 0), R_ALIGN (right hand side at x = 0), C_ALIGN (centre at x = 0). */
  datatype Align = LeftAlign | RightAlign | CenterAlign

  /** The Text object: the string and its horizontal alignment. */
  datatype Text = Text(s: string, halign: Align)

  /** NewText: the string as given, centred. */
  function NewText(s: string): (t: Text)
    ensures t.s == s && t.halign == CenterAlign
  {
    Text(s, CenterAlign)
  }

  // ---------------------------------------------------------------------------
  // Splitting at '\n' (strings.Split(s, "\n"))

  /** The pieces of s between its '\n' characters: one more piece than there are '\n's. */
  function Lines(s: string): (ls: seq<string>)
    ensures |ls| >= 1
    ensures forall i :: 0 <= i < |ls| ==> '\n' !in ls[i]
  {
    if s == [] then [[]]
    else
      var rest := Lines(s[1..]);
      if s[0] == '\n' then [[]] + rest
      else [[s[0]] + rest[0]] + rest[1..]
  }

  /** The pieces joined back with '\n' between neighbours. */
  function Join(ls: seq<string>): string
    requires |ls| >= 1
  {
    if |ls| == 1 then ls[0] else ls[0] + "\n" + Join(ls[1..])
  }

  function Newlines(s: string): nat
  {
    if s == [] then 0 else (if s[0] == '\n' then 1 else 0) + Newlines(s[1..])
  }

  /** Joining the lines of s gives s back. */
  lemma {:induction false} JoinLines(s: string)
    ensures Join(Lines(s)) == s
  {
    if s != [] {
      JoinLines(s[1..]);
      var rest := Lines(s[1..]);
      if s[0] == '\n' {
        assert ([[]] + rest)[1..] == rest;
      } else {
        var ls := Lines(s);
        assert ls[1..] == rest[1..];
        if |rest| > 1 {
          assert rest == [rest[0]] + rest[1..];
          assert Join(rest) == rest[0] + "\n" + Join(rest[1..]);
        }
      }
    }
  }

  /** Splitting pieces free of '\n' after joining them gives the same pieces back. */
  lemma {:induction false} LinesJoin(ls: seq<string>)
    requires |ls| >= 1
    requires forall i :: 0 <= i < |ls| ==> '\n' !in ls[i]
    ensures Lines(Join(ls)) == ls
  {
    if |ls| > 1 {
      LinesJoin(ls[1..]);
    }
    LinesOfPieceThen(ls[0], if |ls| == 1 then [] else "\n" + Join(ls[1..]));
    if |ls| > 1 {
      var nl := Lines("\n" + Join(ls[1..]));
      LinesAfterNewline(Join(ls[1..]));
      assert Join(ls) == ls[0] + ("\n" + Join(ls[1..]));
      assert nl[0] == [] && nl[1..] == ls[1..];
      assert ls[0] + nl[0] == ls[0];
      assert ls == [ls[0]] + ls[1..];
    } else {
      assert ls[0] + [] == ls[0];
    }
  }

  /** A '\n' starts a new, empty first piece. */
  lemma LinesAfterNewline(s: string)
    ensures Lines("\n" + s) == [[]] + Lines(s)
  {
    assert ("\n" + s)[1..] == s;
  }

  /** A piece p free of '\n' in front of r is glued onto the first line of r. */
  lemma {:induction false} LinesOfPieceThen(p: string, r: string)
    requires '\n' !in p
    ensures Lines(p + r) == [p + Lines(r)[0]] + Lines(r)[1..]
  {
    var lr := Lines(r);
    if p == [] {
      assert p + r == r && p + lr[0] == lr[0];
      assert lr == [lr[0]] + lr[1..];
    } else {
      LinesOfPieceThen(p[1..], r);
      var rest := Lines(p[1..] + r);
      assert (p + r)[1..] == p[1..] + r;
      assert rest[0] == p[1..] + lr[0] && rest[1..] == lr[1..];
      assert [p[0]] + (p[1..] + lr[0]) == p + lr[0];
    }
  }

  /** There are exactly one more lines than '\n' characters. */
  lemma {:induction false} LinesCount(s: string)
    ensures |Lines(s)| == Newlines(s) + 1
  {
    if s != [] {
      LinesCount(s[1..]);
    }
  }

  /** The characters of the joined text: those of the pieces, and '\n' when there are two or more pieces. */
  lemma {:induction false} JoinChars(ls: seq<string>, c: char)
    requires |ls| >= 1
    ensures c in Join(ls) <==> (|ls| > 1 && c == '\n') || exists i :: 0 <= i < |ls| && c in ls[i]
  {
    if |ls| > 1 {
      JoinChars(ls[1..], c);
      if c in Join(ls[1..]) && c != '\n' {
        var i :| 0 <= i < |ls[1..]| && c in ls[1..][i];
        assert c in ls[i + 1];
      }
      if exists i :: 0 <= i < |ls| && c in ls[i] {
        var i :| 0 <= i < |ls| && c in ls[i];
        if i > 0 {
          assert c in ls[1..][i - 1];
        }
      }
    }
  }

  /** Every character of s other than '\n' is in one of its lines, and the lines hold nothing else. */
  lemma LinesChars(s: string, c: char)
    ensures (c in s && c != '\n') <==> exists i :: 0 <= i < |Lines(s)| && c in Lines(s)[i]
  {
    JoinLines(s);
    JoinChars(Lines(s), c);
  }

  // ---------------------------------------------------------------------------
  // Placing the lines

  /** The horizontal shift of a line of width w, so that its left end, right end or centre is at x = 0. */
  function AlignShift(a: Align, w: int): (dx: real)
    ensures a == LeftAlign ==> dx == 0.0
    ensures a == RightAlign ==> dx + w as real == 0.0
    ensures a == CenterAlign ==> dx + (dx + w as real) == 0.0
  {
    match a
    case LeftAlign => 0.0
    case RightAlign => -(w as real)
    case CenterAlign => -(w as real) / 2.0
  }

  /** The vertical offset of line k: the cursor lowered by one advance height per line before it. */
  function LineY(k: int, ah: int): real
    requires k >= 0
  {
    if k == 0 then 0.0 else LineY(k - 1, ah) - ah as real
  }

  /** Every region of rs translated by (dx, dy). */
  function Shift(rs: seq<Region>, dx: real, dy: real): seq<Region>
  {
    seq(|rs|, i requires 0 <= i < |rs| => Translate(rs[i], dx, dy))
  }

  /** The glyphs of a laid-out line as line k of the text: aligned, and lowered to its own height. */
  function LineGlyphs(line: Line, a: Align, ah: int, k: int): seq<Region>
    requires k >= 0
  {
    Shift(line.glyphs, AlignShift(a, line.width), LineY(k, ah))
  }

  /** The outcome of laying out each line on its own. */
  function LineResults(f: Font, ls: seq<string>): (rs: seq<Result<Line>>)
    requires ValidFont(f)
    ensures |rs| == |ls|
  {
    if ls == [] then [] else [LayoutLine(f, ls[0])] + LineResults(f, ls[1..])
  }

  lemma {:induction false} LineResultsAt(f: Font, ls: seq<string>, i: int)
    requires ValidFont(f) && 0 <= i < |ls|
    ensures LineResults(f, ls)[i] == LayoutLine(f, ls[i])
  {
    if i > 0 {
      LineResultsAt(f, ls[1..], i - 1);
    }
  }

  /** The glyphs of the first k laid-out lines in order, or the error of the first line that failed. */
  function PlaceLines(rs: seq<Result<Line>>, a: Align, ah: int, k: int): Result<seq<Region>>
    requires 0 <= k <= |rs|
  {
    if k == 0 then Ok([])
    else
      match PlaceLines(rs, a, ah, k - 1)
      case Err(e) => Err(e)
      case Ok(ss) =>
        if rs[k - 1].Err? then Err(rs[k - 1].error) else Ok(ss + LineGlyphs(rs[k - 1].value, a, ah, k - 1))
  }

  /** The advance height of the font: that of the glyph for '\n'. */
  function AdvanceHeight(f: Font): int
  {
    f.advanceHeight(f.index('\n'))
  }

  /** The result of TextSDF2: every glyph of every line, unioned, centred and scaled by h / ah. */
  function LayoutText(f: Font, t: Text, h: real): Result<Region>
    requires ValidFont(f)
  {
    var ls := Lines(t.s);
    match PlaceLines(LineResults(f, ls), t.halign, AdvanceHeight(f), |ls|)
    case Err(e) => Err(e)
    case Ok(ss) => Ok(CenterAndScale(UnionOf(ss), h, AdvanceHeight(f) as real))
  }

  /** TextSDF2. */
  method TextSDF2(f: Font, t: Text, h: real) returns (r: Result<Region>)
    requires ValidFont(f)
    ensures r == LayoutText(f, t, h)
  {
    var lines := Lines(t.s);
    ghost var rs := LineResults(f, lines);
    var yOfs := 0.0;
    var ah := f.advanceHeight(f.index('\n'));
    var ss: seq<Region> := [];
    var i := 0;
    while i < |lines|
      invariant 0 <= i <= |lines|
      invariant PlaceLines(rs, t.halign, ah, i) == Ok(ss)
      invariant yOfs == LineY(i, ah)
    {
      var line := LineSDF2(f, lines[i]);
      LineResultsAt(f, lines, i);
      if line.Err? {
        ErrorSticks(rs, t.halign, ah, i + 1, |lines|);
        return Err(line.error);
      }
      var glyphs, hlen := line.value.glyphs, line.value.width;
      var xOfs := 0.0;
      if t.halign == RightAlign {
        xOfs := -(hlen as real);
      } else if t.halign == CenterAlign {
        xOfs := -(hlen as real) / 2.0;
      }
      assert xOfs == AlignShift(t.halign, hlen);
      var ssLine := ShiftLine(glyphs, xOfs, yOfs);
      ss := ss + ssLine;
      yOfs := yOfs - ah as real;
      i := i + 1;
    }
    return Ok(CenterAndScale(UnionOf(ss), h, ah as real));
  }

  /** The loop of TextSDF2 that overwrites each glyph of a line with its translate by (dx, dy). */
  method ShiftLine(rs: seq<Region>, dx: real, dy: real) returns (out: seq<Region>)
    ensures out == Shift(rs, dx, dy)
  {
    out := rs;
    var m := 0;
    while m < |out|
      invariant 0 <= m <= |out| == |rs|
      invariant forall j :: 0 <= j < m ==> out[j] == Translate(rs[j], dx, dy)
      invariant forall j :: m <= j < |out| ==> out[j] == rs[j]
    {
      out := out[m := Translate(out[m], dx, dy)];
      m := m + 1;
    }
  }

  /** Line k sits k advance heights below the first. */
  lemma {:induction false} LineYIsMultiple(k: int, ah: int)
    requires k >= 0
    ensures LineY(k, ah) == -((k * ah) as real)
  {
    if k > 0 {
      LineYIsMultiple(k - 1, ah);
      assert k * ah == (k - 1) * ah + ah;
    }
  }

  /** Once a line has failed, so does every longer prefix, with the same error. */
  lemma {:induction false} ErrorSticks(rs: seq<Result<Line>>, a: Align, ah: int, k: int, n: int)
    requires 0 <= k <= n <= |rs|
    requires PlaceLines(rs, a, ah, k).Err?
    ensures PlaceLines(rs, a, ah, n) == PlaceLines(rs, a, ah, k)
    decreases n - k
  {
    if k < n {
      ErrorSticks(rs, a, ah, k + 1, n);
    }
  }

  // ---------------------------------------------------------------------------
  // Properties of the text layout

  /** Lines are placed in order: the glyphs of the first k lines come before those of any later line. */
  lemma {:induction false} EarlierLinesFirst(rs: seq<Result<Line>>, a: Align, ah: int, k: int, n: int)
    requires 0 <= k <= n <= |rs|
    requires PlaceLines(rs, a, ah, n).Ok?
    ensures PlaceLines(rs, a, ah, k).Ok?
    ensures PlaceLines(rs, a, ah, k).value <= PlaceLines(rs, a, ah, n).value
    decreases n - k
  {
    if k < n {
      EarlierLinesFirst(rs, a, ah, k + 1, n);
    }
  }

  /**
   * The glyphs of line k follow those of lines 0 .. k-1: its own laid-out glyphs,
   * each shifted by the same alignment offset and lowered to LineY(k, ah).
   */
  lemma LineBlock(rs: seq<Result<Line>>, a: Align, ah: int, k: int)
    requires 0 <= k < |rs|
    requires PlaceLines(rs, a, ah, k + 1).Ok?
    ensures PlaceLines(rs, a, ah, k).Ok? && rs[k].Ok?
    ensures
      var line := rs[k].value;
      var before := PlaceLines(rs, a, ah, k).value;
      var all := PlaceLines(rs, a, ah, k + 1).value;
      |all| == |before| + |line.glyphs| &&
      all[..|before|] == before &&
      forall j :: 0 <= j < |line.glyphs| ==>
        all[|before| + j] == Translate(line.glyphs[j], AlignShift(a, line.width), LineY(k, ah))
  {
    var before := PlaceLines(rs, a, ah, k).value;
    var all := PlaceLines(rs, a, ah, k + 1).value;
    var own := LineGlyphs(rs[k].value, a, ah, k);
    assert all == before + own;
    assert all[..|before|] == before;
  }

  /** The first k lines are placed exactly when none of them failed, and otherwise with the first failure's error. */
  lemma {:induction false} PlaceLinesFails(rs: seq<Result<Line>>, a: Align, ah: int, k: int)
    requires 0 <= k <= |rs|
    ensures PlaceLines(rs, a, ah, k).Err? <==> exists i :: 0 <= i < k && rs[i].Err?
    ensures PlaceLines(rs, a, ah, k).Err? ==>
      exists i :: 0 <= i < k && rs[i].Err? && PlaceLines(rs, a, ah, k).error == rs[i].error &&
        forall j :: 0 <= j < i ==> rs[j].Ok?
  {
    if k > 0 {
      PlaceLinesFails(rs, a, ah, k - 1);
    }
  }

  /**
   * A text fails to lay out exactly when one of its characters other than '\n'
   * has a glyph the font cannot load; there is then no partial shape.
   */
  lemma TextFails(f: Font, t: Text, h: real)
    requires ValidFont(f)
    ensures LayoutText(f, t, h).Err? <==> exists c :: c in t.s && c != '\n' && f.load(f.index(c)).Err?
  {
    var ls := Lines(t.s);
    var rs := LineResults(f, ls);
    PlaceLinesFails(rs, t.halign, AdvanceHeight(f), |ls|);
    if LayoutText(f, t, h).Err? {
      var i :| 0 <= i < |ls| && rs[i].Err?;
      LineResultsAt(f, ls, i);
      LineFails(f, ls[i]);
      var j :| 0 <= j < |ls[i]| && Loaded(f, ls[i], j).Err?;
      var c := ls[i][j];
      LinesChars(t.s, c);
      assert c in t.s && c != '\n' && f.load(f.index(c)).Err?;
    }
    if exists c :: c in t.s && c != '\n' && f.load(f.index(c)).Err? {
      var c :| c in t.s && c != '\n' && f.load(f.index(c)).Err?;
      LinesChars(t.s, c);
      var i :| 0 <= i < |ls| && c in ls[i];
      var j :| 0 <= j < |ls[i]| && ls[i][j] == c;
      assert Loaded(f, ls[i], j).Err?;
      LineFails(f, ls[i]);
      LineResultsAt(f, ls, i);
    }
  }

  /** Splitting keeps empty pieces: an empty text is one empty line, and "ab\n\nc" is three lines. */
  lemma SplitExamples()
    ensures Lines("") == [""]
    ensures Lines("ab\n\nc") == ["ab", "", "c"]
  {
    assert "c"[1..] == "" && ['c'] + "" == "c";
    assert Lines("c") == ["c"];
    assert "\nc"[1..] == "c";
    assert Lines("\nc") == ["", "c"];
    assert "\n\nc"[1..] == "\nc";
    assert Lines("\n\nc") == ["", "", "c"];
    assert "b\n\nc"[1..] == "\n\nc" && ['b'] + "" == "b" && ["", "", "c"][1..] == ["", "c"];
    assert Lines("b\n\nc") == ["b", "", "c"];
    assert "ab\n\nc"[1..] == "b\n\nc" && ['a'] + "b" == "ab" && ["b", "", "c"][1..] == ["", "c"];
  }

  /**
   * Two centred lines of widths 10 and 4 with an advance height of 20: the first
   * glyph moves left by 5, the second left by 2 and down by 20.
   */
  lemma CenteredLinesExample(g: Region)
    ensures PlaceLines([Ok(Line([g], 10)), Ok(Line([g], 4))], CenterAlign, 20, 2) ==
      Ok([Translate(g, -5.0, 0.0), Translate(g, -2.0, -20.0)])
  {
    var rs := [Ok(Line([g], 10)), Ok(Line([g], 4))];
    assert Shift([g], -5.0, 0.0) == [Translate(g, -5.0, 0.0)];
    assert LineGlyphs(rs[0].value, CenterAlign, 20, 0) == [Translate(g, -5.0, 0.0)];
    assert [] + [Translate(g, -5.0, 0.0)] == [Translate(g, -5.0, 0.0)];
    assert PlaceLines(rs, CenterAlign, 20, 1) == Ok([Translate(g, -5.0, 0.0)]);
    assert LineY(1, 20) == -20.0;
    assert Shift([g], -2.0, -20.0) == [Translate(g, -2.0, -20.0)];
    assert LineGlyphs(rs[1].value, CenterAlign, 20, 1) == [Translate(g, -2.0, -20.0)];
    assert PlaceLines(rs, CenterAlign, 20, 2) == Ok([Translate(g, -5.0, 0.0)] + [Translate(g, -2.0, -20.0)]);
    assert [Translate(g, -5.0, 0.0)] + [Translate(g, -2.0, -20.0)] == [Translate(g, -5.0, 0.0), Translate(g, -2.0, -20.0)];
  }
}
