/**
 * The cell attributes of a canvas and the ANSI serialisation of a grid of
 * cells, as pure functions: which SGR ("Select Graphic Rendition", section
 * 8.3.117 of ECMA-48) parameters are emitted between two cells, and the text
 * a rectangle of cells turns into. The imperative serialiser in module
 * Surface is proved to produce exactly `Serialize` of the rectangle it reads.
 */
module Ansi {
  import opened Wrappers
  import opened Strings

  /**
   * A terminal colour. Colours are opaque: `id` tells two colours apart, and
   * every colour has an SGR parameter for the foreground and one for the
   * background.
   */
  datatype Color = Color(id: nat, fg: int, bg: int)

  /** The six independent style flags of a `TextStyle`. */
  datatype StyleFlag = Bold | Dim | Italic | Underline | Invert | Strikethrough

  /** A `TextStyle` is a set of flags; `TextStyle.None` is the empty set. */
  type TextStyle = set<StyleFlag>

  /** A `TextPixel`: one cell's text and attributes. */
  datatype TextPixel = TextPixel(
    value: Text,
    background: Option<Color>,
    foreground: Option<Color>,
    style: TextStyle)

  /** `TextPixel(' ')`: a space with default colours and no style. */
  const BlankPixel: TextPixel := TextPixel([Space], None, None, {})

  /** A rectangle of cells, row by row. */
  type Grid = seq<seq<TextPixel>>

  /** True if the pixel has a colour or a style, i.e. a reset is needed after it. */
  predicate IsStyled(p: TextPixel) {
    p.background.Some? || p.foreground.Some? || p.style != {}
  }

  /** True if the two pixels look the same apart from their text. */
  predicate SameAttributes(p: TextPixel, q: TextPixel) {
    p.foreground == q.foreground && p.background == q.background && p.style == q.style
  }

  /** The foreground parameter: the colour's own, or 39 (default foreground). */
  function ForegroundParameter(c: Option<Color>): int {
    match c
    case Some(color) => color.fg
    case None => 39
  }

  /** The background parameter: the colour's own, or 49 (default background). */
  function BackgroundParameter(c: Option<Color>): int {
    match c
    case Some(color) => color.bg
    case None => 49
  }

  /** The SGR parameter that switches `flag` on. */
  function OnParameter(flag: StyleFlag): int {
    match flag
    case Bold => 1
    case Dim => 2
    case Italic => 3
    case Underline => 4
    case Invert => 7
    case Strikethrough => 9
  }

  /** The SGR parameter that switches `flag` off. */
  function OffParameter(flag: StyleFlag): int {
    match flag
    case Bold => 22
    case Dim => 22
    case Italic => 23
    case Underline => 24
    case Invert => 27
    case Strikethrough => 29
  }

  /** `maybeToggleStyle`: the parameter for one flag, if it changes. */
  function Toggle(flag: StyleFlag, style: TextStyle, last: TextStyle): seq<int> {
    if flag in style then
      if flag !in last then [OnParameter(flag)] else []
    else if flag in last then [OffParameter(flag)]
    else []
  }

  /** The colour part of `Parameters`: the foreground's, then the background's, for each that changed. */
  function ColorParameters(last: TextPixel, pixel: TextPixel): seq<int> {
    (if pixel.foreground != last.foreground then [ForegroundParameter(pixel.foreground)] else [])
    + (if pixel.background != last.background then [BackgroundParameter(pixel.background)] else [])
  }

  /**
   * The SGR parameters queued before `pixel` when `last` was emitted before
   * it: the foreground if it changed, the background if it changed, then,
   * if the style changed, one parameter per changed flag in the order Bold,
   * Dim, Italic, Underline, Invert, Strikethrough.
   */
  function Parameters(last: TextPixel, pixel: TextPixel): seq<int> {
    var colors := ColorParameters(last, pixel);
    var style, lastStyle := pixel.style, last.style;
    if style == lastStyle then colors
    else
      colors + Toggle(Bold, style, lastStyle) + Toggle(Dim, style, lastStyle)
      + Toggle(Italic, style, lastStyle) + Toggle(Underline, style, lastStyle)
      + Toggle(Invert, style, lastStyle) + Toggle(Strikethrough, style, lastStyle)
  }

  /** The decimal forms of the parameters. */
  function Decimals(ps: seq<int>): (r: seq<Text>)
    ensures |r| == |ps|
    ensures forall i :: 0 <= i < |ps| ==> r[i] == Decimal(ps[i])
  {
    seq(|ps|, i requires 0 <= i < |ps| => Decimal(ps[i]))
  }

  /** `joinTo(separator = ";", prefix = ESC[, postfix = m)`: the escape sequence carrying the parameters. */
  function JoinTo(ps: seq<int>): Text {
    [Escape, LeftBracket] + Join(Decimals(ps), Semicolon) + [LowerM]
  }

  /** The escape sequence for the parameters, or nothing when there are none. */
  function Sgr(ps: seq<int>): Text {
    if |ps| == 0 then [] else JoinTo(ps)
  }

  /** `ESC[0m`, the full reset. */
  const Reset: Text := [Escape, LeftBracket, 0x30, LowerM]

  /** The reset appended after a row whose last emitted pixel is styled. */
  function ResetAfter(p: TextPixel): Text {
    if IsStyled(p) then Reset else []
  }

  /** `;` followed by the decimal form of `p`, or nothing when the parameter is not queued. */
  function Field(queued: bool, p: int): Text {
    if queued then [Semicolon] + Decimal(p) else []
  }

  /** The field for one style flag, if it changes. */
  function ToggleField(flag: StyleFlag, style: TextStyle, last: TextStyle): Text {
    if flag in style then Field(flag !in last, OnParameter(flag))
    else Field(flag in last, OffParameter(flag))
  }

  /**
   * The queued parameters written out field by field, each after a `;`:
   * foreground, background, then the style flags in order.
   */
  function Fields(last: TextPixel, pixel: TextPixel): Text {
    var colors :=
      Field(pixel.foreground != last.foreground, ForegroundParameter(pixel.foreground))
      + Field(pixel.background != last.background, BackgroundParameter(pixel.background));
    var style, lastStyle := pixel.style, last.style;
    if style == lastStyle then colors
    else
      colors + ToggleField(Bold, style, lastStyle) + ToggleField(Dim, style, lastStyle)
      + ToggleField(Italic, style, lastStyle) + ToggleField(Underline, style, lastStyle)
      + ToggleField(Invert, style, lastStyle) + ToggleField(Strikethrough, style, lastStyle)
  }

  /**
   * The escape emitted between two cells, written without a parameter
   * list: nothing if no field is queued, otherwise `ESC[`, the fields
   * without the leading `;`, and `m`. `TransitionIsSgr` proves it is the
   * `joinTo` of the parameter list.
   */
  function Transition(last: TextPixel, pixel: TextPixel): Text {
    var fields := Fields(last, pixel);
    if |fields| == 0 then [] else [Escape, LeftBracket] + fields[1..] + [LowerM]
  }

  /** What one cell contributes: the escape for its attribute changes, then its text. */
  function Chunk(last: TextPixel, pixel: TextPixel): Text {
    Transition(last, pixel) + pixel.value
  }

  /** The last pixel emitted in a row, the blank pixel for an empty row. */
  function LastEmitted(row: seq<TextPixel>): TextPixel {
    if |row| == 0 then BlankPixel else row[|row| - 1]
  }

  /** The cells of one row, each after the escape for its change from the cell before it. */
  function RowText(row: seq<TextPixel>): Text
    decreases |row|
  {
    if |row| == 0 then []
    else
      var init := row[..|row| - 1];
      RowText(init) + Chunk(LastEmitted(init), row[|row| - 1])
  }

  /** The rows, each but the last closed by its reset and a line feed, in the order the serialiser appends them. */
  function Body(grid: Grid): Text
    decreases |grid|
  {
    if |grid| == 0 then []
    else if |grid| == 1 then RowText(grid[0])
    else
      Body(grid[..|grid| - 1]) + ResetAfter(LastEmitted(grid[|grid| - 2])) + [LineFeed]
      + RowText(grid[|grid| - 1])
  }

  /** `Body` with the rows' texts given rather than computed. */
  function BodyWith(grid: Grid, texts: seq<Text>): Text
    requires |texts| == |grid|
    decreases |grid|
  {
    if |grid| == 0 then []
    else if |grid| == 1 then texts[0]
    else
      BodyWith(grid[..|grid| - 1], texts[..|grid| - 1]) + ResetAfter(LastEmitted(grid[|grid| - 2])) + [LineFeed]
      + texts[|grid| - 1]
  }

  /** Given the rows' own texts, `BodyWith` is `Body`. */
  lemma {:induction false} BodyWithRowTexts(grid: Grid, texts: seq<Text>)
    requires |texts| == |grid|
    requires forall i :: 0 <= i < |grid| ==> texts[i] == RowText(grid[i])
    ensures BodyWith(grid, texts) == Body(grid)
    decreases |grid|
  {
    if |grid| > 1 {
      var n := |grid|;
      BodyWithRowTexts(grid[..n - 1], texts[..n - 1]);
    }
  }

  /** The serialisation of a rectangle of cells: the body, then the final reset. */
  function Serialize(grid: Grid): Text {
    Body(grid) + ResetAfter(LastOfGrid(grid))
  }

  /** One output line: a row's cells followed by its reset. */
  function Line(row: seq<TextPixel>): Text {
    RowText(row) + ResetAfter(LastEmitted(row))
  }

  function Lines(grid: Grid): (r: seq<Text>)
    ensures |r| == |grid|
    ensures forall i :: 0 <= i < |grid| ==> r[i] == Line(grid[i])
  {
    seq(|grid|, i requires 0 <= i < |grid| => Line(grid[i]))
  }

  /** The concatenated texts of a row's cells, with no escapes. */
  function Values(row: seq<TextPixel>): Text
    decreases |row|
  {
    if |row| == 0 then [] else Values(row[..|row| - 1]) + row[|row| - 1].value
  }

  /** True if no cell of the grid has a colour or a style. */
  predicate IsPlain(grid: Grid) {
    forall i, j :: 0 <= i < |grid| && 0 <= j < |grid[i]| ==> !IsStyled(grid[i][j])
  }

  /** True if no cell text of the grid contains a line feed. */
  predicate HasSingleLineCells(grid: Grid) {
    forall i, j :: 0 <= i < |grid| && 0 <= j < |grid[i]| ==> Free(grid[i][j].value, LineFeed)
  }

  /**
   * An escape is emitted before a cell exactly when its foreground,
   * background or style differs from the cell emitted before it.
   */
  lemma ParametersEmptyIff(last: TextPixel, pixel: TextPixel)
    ensures Parameters(last, pixel) == [] <==> SameAttributes(last, pixel)
  {
    if pixel.style != last.style {
      var a, b := pixel.style, last.style;
      assert exists f :: (f in a) != (f in b);
      var f :| (f in a) != (f in b);
      assert Toggle(f, a, b) != [];
      var p := Parameters(last, pixel);
      match f
      case Bold => assert |p| >= |Toggle(Bold, a, b)|;
      case Dim => assert |p| >= |Toggle(Dim, a, b)|;
      case Italic => assert |p| >= |Toggle(Italic, a, b)|;
      case Underline => assert |p| >= |Toggle(Underline, a, b)|;
      case Invert => assert |p| >= |Toggle(Invert, a, b)|;
      case Strikethrough => assert |p| >= |Toggle(Strikethrough, a, b)|;
    }
  }

  /** The parameters written out, each after a `;`. */
  function Prefixed(ps: seq<int>): Text {
    Flatten(Prefix(Decimals(ps), Semicolon))
  }

  /** Writing out two lists of parameters one after the other writes out their concatenation. */
  lemma PrefixedAppend(a: seq<int>, b: seq<int>)
    ensures Prefixed(a + b) == Prefixed(a) + Prefixed(b)
  {
    var pa, pb := Prefix(Decimals(a), Semicolon), Prefix(Decimals(b), Semicolon);
    assert Prefix(Decimals(a + b), Semicolon) == pa + pb;
    FlattenAppend(pa, pb);
  }

  /** A single queued field is its one-parameter list written out. */
  lemma FieldIsPrefixed(queued: bool, p: int)
    ensures Field(queued, p) == Prefixed(if queued then [p] else [])
  {
    var t := Prefix(Decimals([p]), Semicolon);
    if queued {
      assert t[..0] == [];
      assert t[0] == [Semicolon] + Decimal(p);
      assert Flatten(t) == Flatten(t[..0]) + t[0];
    } else {
      assert Decimals([]) == [];
    }
  }

  /** A flag's field is its toggle written out. */
  lemma ToggleFieldIsPrefixed(flag: StyleFlag, style: TextStyle, last: TextStyle)
    ensures ToggleField(flag, style, last) == Prefixed(Toggle(flag, style, last))
  {
    if flag in style {
      FieldIsPrefixed(flag !in last, OnParameter(flag));
    } else {
      FieldIsPrefixed(flag in last, OffParameter(flag));
    }
  }

  /** The fields of a transition are its parameter list written out. */
  lemma FieldsArePrefixed(last: TextPixel, pixel: TextPixel)
    ensures Fields(last, pixel) == Prefixed(Parameters(last, pixel))
  {
    var fgChanged, bgChanged := pixel.foreground != last.foreground, pixel.background != last.background;
    var fg := if fgChanged then [ForegroundParameter(pixel.foreground)] else [];
    var bg := if bgChanged then [BackgroundParameter(pixel.background)] else [];
    FieldIsPrefixed(fgChanged, ForegroundParameter(pixel.foreground));
    FieldIsPrefixed(bgChanged, BackgroundParameter(pixel.background));
    PrefixedAppend(fg, bg);
    var s, l := pixel.style, last.style;
    if s != l {
      var p0 := fg + bg;
      var p1 := p0 + Toggle(Bold, s, l);
      var p2 := p1 + Toggle(Dim, s, l);
      var p3 := p2 + Toggle(Italic, s, l);
      var p4 := p3 + Toggle(Underline, s, l);
      var p5 := p4 + Toggle(Invert, s, l);
      ToggleFieldIsPrefixed(Bold, s, l);
      ToggleFieldIsPrefixed(Dim, s, l);
      ToggleFieldIsPrefixed(Italic, s, l);
      ToggleFieldIsPrefixed(Underline, s, l);
      ToggleFieldIsPrefixed(Invert, s, l);
      ToggleFieldIsPrefixed(Strikethrough, s, l);
      PrefixedAppend(p0, Toggle(Bold, s, l));
      PrefixedAppend(p1, Toggle(Dim, s, l));
      PrefixedAppend(p2, Toggle(Italic, s, l));
      PrefixedAppend(p3, Toggle(Underline, s, l));
      PrefixedAppend(p4, Toggle(Invert, s, l));
      PrefixedAppend(p5, Toggle(Strikethrough, s, l));
    }
  }

  /** An empty parameter list, and only that, writes out to nothing. */
  lemma PrefixedEmptyIff(ps: seq<int>)
    ensures Prefixed(ps) == [] <==> ps == []
  {
    if ps != [] {
      var t := Prefix(Decimals(ps), Semicolon);
      assert Flatten(t) == Flatten(t[..|t| - 1]) + t[|t| - 1];
    }
  }

  /** The escape between two cells is the `joinTo` of their parameter list, or nothing when that list is empty. */
  lemma TransitionIsSgr(last: TextPixel, pixel: TextPixel)
    ensures Transition(last, pixel) == Sgr(Parameters(last, pixel))
  {
    var ps := Parameters(last, pixel);
    FieldsArePrefixed(last, pixel);
    PrefixedEmptyIff(ps);
    if ps != [] {
      FlattenPrefixIsJoin(Decimals(ps), Semicolon);
      assert Fields(last, pixel)[1..] == Join(Decimals(ps), Semicolon);
    }
  }

  /** Between two adjacent cells with the same attributes nothing but the second cell's text is emitted. */
  lemma NoEscapeBetweenAlike(row: seq<TextPixel>, i: nat)
    requires 0 < i < |row|
    requires SameAttributes(row[i - 1], row[i])
    ensures RowText(row[..i + 1]) == RowText(row[..i]) + row[i].value
  {
    assert row[..i + 1][..i] == row[..i];
    ParametersEmptyIff(row[i - 1], row[i]);
    TransitionIsSgr(row[i - 1], row[i]);
  }

  /** The last pixel emitted in a grid, the blank pixel for an empty grid. */
  function LastOfGrid(grid: Grid): TextPixel {
    if |grid| == 0 then BlankPixel else LastEmitted(grid[|grid| - 1])
  }

  /** The given row texts, each followed by the reset its row needs. */
  function LinesWith(grid: Grid, texts: seq<Text>): (r: seq<Text>)
    requires |texts| == |grid|
    ensures |r| == |grid|
    ensures forall i :: 0 <= i < |grid| ==> r[i] == texts[i] + ResetAfter(LastEmitted(grid[i]))
  {
    seq(|grid|, i requires 0 <= i < |grid| => texts[i] + ResetAfter(LastEmitted(grid[i])))
  }

  /** Whatever the row texts, the body and its final reset are the closed lines joined by line feeds. */
  lemma {:induction false} BodyWithIsJoin(grid: Grid, texts: seq<Text>)
    requires |texts| == |grid|
    ensures BodyWith(grid, texts) + ResetAfter(LastOfGrid(grid)) == Join(LinesWith(grid, texts), LineFeed)
    decreases |grid|
  {
    var n := |grid|;
    if n > 1 {
      var init, initTexts := grid[..n - 1], texts[..n - 1];
      BodyWithIsJoin(init, initTexts);
      var lines := LinesWith(grid, texts);
      assert lines[..n - 1] == LinesWith(init, initTexts);
      assert init[n - 2] == grid[n - 2];
      var head := BodyWith(init, initTexts) + ResetAfter(LastEmitted(grid[n - 2])) + [LineFeed];
      Associative(head, texts[n - 1], ResetAfter(LastOfGrid(grid)));
    }
  }

  /** The serialisation is the grid's lines, one per row, joined by single line feeds. */
  lemma SerializeIsJoinedLines(grid: Grid)
    ensures Serialize(grid) == Join(Lines(grid), LineFeed)
  {
    var texts := seq(|grid|, i requires 0 <= i < |grid| => RowText(grid[i]));
    BodyWithRowTexts(grid, texts);
    BodyWithIsJoin(grid, texts);
    assert LinesWith(grid, texts) == Lines(grid);
  }

  /** A row without colours or styles serialises to its cells' texts alone. */
  lemma {:induction false} PlainRowText(row: seq<TextPixel>)
    requires forall j :: 0 <= j < |row| ==> !IsStyled(row[j])
    ensures RowText(row) == Values(row)
    decreases |row|
  {
    if |row| != 0 {
      var init, last := row[..|row| - 1], row[|row| - 1];
      PlainRowText(init);
      ParametersEmptyIff(LastEmitted(init), last);
      TransitionIsSgr(LastEmitted(init), last);
      assert Chunk(LastEmitted(init), last) == last.value;
    }
  }

  /** A canvas without colours or styles serialises to its rows' texts joined by line feeds, with no escapes. */
  lemma PlainSerialize(grid: Grid)
    requires IsPlain(grid)
    ensures Serialize(grid) == Join(seq(|grid|, i requires 0 <= i < |grid| => Values(grid[i])), LineFeed)
  {
    SerializeIsJoinedLines(grid);
    forall i | 0 <= i < |grid|
      ensures Line(grid[i]) == Values(grid[i])
    {
      PlainRowText(grid[i]);
    }
    assert Lines(grid) == seq(|grid|, i requires 0 <= i < |grid| => Values(grid[i]));
  }

  /** No escape sequence contains a line feed. */
  lemma SgrSingleLine(ps: seq<int>)
    ensures Free(Sgr(ps), LineFeed)
  {
    if ps != [] {
      forall i | 0 <= i < |ps| {
        DecimalSingleLine(ps[i]);
      }
      JoinFree(Decimals(ps), Semicolon, LineFeed);
    }
  }

  /** A row whose cells are single-line serialises to a single line. */
  lemma {:induction false} RowTextSingleLine(row: seq<TextPixel>)
    requires forall j :: 0 <= j < |row| ==> Free(row[j].value, LineFeed)
    ensures Free(RowText(row), LineFeed)
    decreases |row|
  {
    if row != [] {
      var init := row[..|row| - 1];
      RowTextSingleLine(init);
      SgrSingleLine(Parameters(LastEmitted(init), row[|row| - 1]));
      TransitionIsSgr(LastEmitted(init), row[|row| - 1]);
    }
  }

  /** A row whose cells are single-line gives a single output line. */
  lemma LineSingleLine(row: seq<TextPixel>)
    requires forall j :: 0 <= j < |row| ==> Free(row[j].value, LineFeed)
    ensures Free(Line(row), LineFeed)
  {
    RowTextSingleLine(row);
    var r := ResetAfter(LastEmitted(row));
    assert Free(r, LineFeed);
  }

  /**
   * Splitting the serialisation at line feeds gives back exactly one line per
   * row, each ending in a reset iff its last cell is styled; an empty grid
   * gives one empty line.
   */
  lemma SplitSerialize(grid: Grid)
    requires HasSingleLineCells(grid)
    ensures grid != [] ==> Split(Serialize(grid), LineFeed) == Lines(grid)
    ensures grid == [] ==> Split(Serialize(grid), LineFeed) == [[]]
    ensures |Split(Serialize(grid), LineFeed)| == if grid == [] then 1 else |grid|
  {
    if grid != [] {
      SerializeIsJoinedLines(grid);
      var lines := Lines(grid);
      forall i | 0 <= i < |grid|
        ensures Free(lines[i], LineFeed)
      {
        LineSingleLine(grid[i]);
      }
      SplitJoin(lines, LineFeed);
    }
  }
}
