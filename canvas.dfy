/**
 * `TextCanvas`: either a `TextSurface` itself or a `ClippedTextCanvas`, a
 * rectangular view onto another canvas. Every cell of a view is a cell of
 * the surface at the root of its chain of views, so a cell is addressed by
 * its row and column in that surface.
 */
module Canvas {
  import opened Wrappers
  import opened Strings
  import opened Ansi
  import opened Surface

  /** A canvas: a surface, or a view showing columns `left..right` and rows `top..bottom` of `delegate`. */
  datatype TextCanvas =
    | Whole(surface: TextSurface)
    | Clipped(delegate: TextCanvas, left: int, top: int, right: int, bottom: int)

  /** A cell of a surface: its row and column. */
  datatype Address = Address(row: int, column: int)

  /** `width`: a view's is `right - left + 1`, which is 0 or negative for an empty or reversed column range. */
  function Width(c: TextCanvas): int {
    match c
    case Whole(s) => s.width
    case Clipped(_, left, _, right, _) => right - left + 1
  }

  /** `height`: a view's is `bottom - top + 1`. */
  function Height(c: TextCanvas): int {
    match c
    case Whole(s) => s.height
    case Clipped(_, _, top, _, bottom) => bottom - top + 1
  }

  /** The surface at the end of the chain of views. */
  function Root(c: TextCanvas): TextSurface {
    match c
    case Whole(s) => s
    case Clipped(d, _, _, _, _) => Root(d)
  }

  /** The row of the root surface that row 0 of `c` shows. */
  function RootTop(c: TextCanvas): int {
    match c
    case Whole(_) => 0
    case Clipped(d, _, top, _, _) => RootTop(d) + top
  }

  /** The column of the root surface that column 0 of `c` shows. */
  function RootLeft(c: TextCanvas): int {
    match c
    case Whole(_) => 0
    case Clipped(d, left, _, _, _) => RootLeft(d) + left
  }

  /**
   * `get(row, column)`: the cell at `row`, `column` of `c`. A surface fails
   * with an index error outside its arrays; a view `require`s the cell to
   * be inside it and then asks its delegate for the translated cell.
   */
  function Locate(c: TextCanvas, row: int, column: int): (r: Result<Address>)
    ensures r.Ok? ==> r.value == Address(row + RootTop(c), column + RootLeft(c))
    ensures r.Ok? ==> 0 <= row < Height(c) && 0 <= column < Width(c)
    ensures r.Ok? ==> 0 <= r.value.row < Root(c).height && 0 <= r.value.column < Root(c).width
  {
    match c
    case Whole(s) =>
      if 0 <= row < s.height && 0 <= column < s.width then Ok(Address(row, column)) else Err(IndexOutOfBounds)
    case Clipped(d, left, top, _, _) =>
      if !(0 <= row < Height(c)) then Err(IllegalArgument)
      else if !(0 <= column < Width(c)) then Err(IllegalArgument)
      else Locate(d, top + row, left + column)
  }

  /**
   * True if every view in the chain lies inside its delegate the way the
   * checks of `get(rows, columns)` place it: its first row and column are not
   * negative and its last row and column are inside the delegate.
   */
  predicate WellFormed(c: TextCanvas) {
    match c
    case Whole(_) => true
    case Clipped(d, left, top, right, bottom) =>
      WellFormed(d) && 0 <= top && 0 <= left && bottom < Height(d) && right < Width(d)
  }

  /**
   * `get(rows = top..bottom, columns = left..right)`: a view of that
   * rectangle, after `require`ing the first row and column to be inside the
   * canvas and the last ones to be below its height and width. A range whose
   * last value is before its first is not rejected.
   */
  function View(c: TextCanvas, top: int, bottom: int, left: int, right: int): (r: Result<TextCanvas>)
    ensures r.Ok? <==> 0 <= top < Height(c) && bottom < Height(c) && 0 <= left < Width(c) && right < Width(c)
    ensures r.Err? ==> r.error == IllegalArgument
  {
    if !(0 <= top < Height(c)) then Err(IllegalArgument)
    else if !(bottom < Height(c)) then Err(IllegalArgument)
    else if !(0 <= left < Width(c)) then Err(IllegalArgument)
    else if !(right < Width(c)) then Err(IllegalArgument)
    else Ok(Clipped(c, left, top, right, bottom))
  }

  /** `empty()`: a view of no rows and no columns at the canvas's origin. */
  function Empty(c: TextCanvas): (r: TextCanvas)
    ensures Width(r) == 0 && Height(r) == 0
    ensures Root(r) == Root(c)
    ensures forall row, column :: Locate(r, row, column) == Err(IllegalArgument)
  {
    Clipped(c, 0, 0, -1, -1)
  }

  /** A view made by `get(rows, columns)` has the size of its ranges and shows the same surface from the given offsets. */
  lemma ViewShape(c: TextCanvas, top: int, bottom: int, left: int, right: int)
    requires View(c, top, bottom, left, right).Ok?
    ensures var v := View(c, top, bottom, left, right).value;
      Width(v) == right - left + 1 && Height(v) == bottom - top + 1
      && Root(v) == Root(c) && RootTop(v) == RootTop(c) + top && RootLeft(v) == RootLeft(c) + left
  {
  }

  /** A view made by `get(rows, columns)` of a well-formed canvas is well formed. */
  lemma ViewWellFormed(c: TextCanvas, top: int, bottom: int, left: int, right: int)
    requires WellFormed(c)
    requires View(c, top, bottom, left, right).Ok?
    ensures WellFormed(View(c, top, bottom, left, right).value)
  {
  }

  /** `empty()` of a well-formed canvas of non-negative size is well formed. */
  lemma EmptyWellFormed(c: TextCanvas)
    requires WellFormed(c) && 0 <= Width(c) && 0 <= Height(c)
    ensures WellFormed(Empty(c))
  {
  }

  /** The rows and the columns a well-formed canvas shows are inside its root surface. */
  lemma {:induction false} InsideRoot(c: TextCanvas)
    requires WellFormed(c)
    ensures 1 <= Height(c) ==> 0 <= RootTop(c) && RootTop(c) + Height(c) <= Root(c).height
    ensures 1 <= Width(c) ==> 0 <= RootLeft(c) && RootLeft(c) + Width(c) <= Root(c).width
  {
    match c
    case Whole(s) =>
    case Clipped(d, left, top, right, bottom) =>
      InsideRoot(d);
  }

  /** In a well-formed canvas, exactly the cells inside it can be addressed, at their translated place in the root surface. */
  lemma {:induction false} LocateWellFormed(c: TextCanvas, row: int, column: int)
    requires WellFormed(c)
    ensures Locate(c, row, column).Ok? <==> 0 <= row < Height(c) && 0 <= column < Width(c)
  {
    match c
    case Whole(s) =>
    case Clipped(d, left, top, right, bottom) =>
      if 0 <= row < Height(c) && 0 <= column < Width(c) {
        LocateWellFormed(d, top + row, left + column);
      }
  }

  /**
   * `render(top, left, bottom, right)`: a surface serialises the rectangle;
   * a view asks its delegate for the same rectangle moved by its own offsets.
   */
  ghost function Rendered(c: TextCanvas, top: int, left: int, bottom: int, right: int): Result<Text>
    requires Root(c).Valid()
    reads Root(c).rows
  {
    match c
    case Whole(s) => s.Rendered(top, left, bottom, right)
    case Clipped(d, dLeft, dTop, _, _) => Rendered(d, dTop + top, dLeft + left, dTop + bottom, dLeft + right)
  }

  /** Whatever chain of views it goes through, a rectangle is rendered from the root surface, moved by the chain's offsets. */
  lemma {:induction false} RenderedFromRoot(c: TextCanvas, top: int, left: int, bottom: int, right: int)
    requires Root(c).Valid()
    ensures Rendered(c, top, left, bottom, right)
      == Root(c).Rendered(RootTop(c) + top, RootLeft(c) + left, RootTop(c) + bottom, RootLeft(c) + right)
  {
    hide Serialize, Region;
    match c
    case Whole(s) =>
    case Clipped(d, dLeft, dTop, _, _) =>
      RenderedFromRoot(d, dTop + top, dLeft + left, dTop + bottom, dLeft + right);
  }

  /** `render(top, left, bottom, right)` on any canvas. */
  method Render(c: TextCanvas, top: int, left: int, bottom: int, right: int) returns (r: Result<Text>)
    requires Root(c).Valid()
    ensures r == Rendered(c, top, left, bottom, right)
  {
    hide Serialize, Region;
    match c
    case Whole(s) =>
      r := s.Render(top, left, bottom, right);
    case Clipped(d, dLeft, dTop, _, _) =>
      r := Render(d, dTop + top, dLeft + left, dTop + bottom, dLeft + right);
  }

  /** `toString()`: `render()` with its default arguments, the whole canvas. */
  method ToString(c: TextCanvas) returns (r: Result<Text>)
    requires Root(c).Valid()
    ensures r == Rendered(c, 0, 0, Height(c) - 1, Width(c) - 1)
  {
    r := Render(c, 0, 0, Height(c) - 1, Width(c) - 1);
  }

  /**
   * A well-formed canvas's whole rectangle lies inside its root surface, so
   * `toString()` can only fail on its size estimate: it succeeds, as the
   * serialisation of that rectangle of the root surface, exactly when the
   * canvas does not have rows together with a width below -1, or a height
   * below 0 together with a width above -1.
   */
  lemma WholeCanvasRenders(c: TextCanvas)
    requires WellFormed(c) && Root(c).Valid()
    ensures var top, left := RootTop(c), RootLeft(c);
      Root(c).CanRender(top, left, top + Height(c) - 1, left + Width(c) - 1)
      && Rendered(c, 0, 0, Height(c) - 1, Width(c) - 1) == Root(c).Rendered(top, left, top + Height(c) - 1, left + Width(c) - 1)
    ensures Rendered(c, 0, 0, Height(c) - 1, Width(c) - 1).Ok?
      <==> !((0 < Height(c) && Width(c) < -1) || (Height(c) < 0 && -1 < Width(c)))
    ensures Rendered(c, 0, 0, Height(c) - 1, Width(c) - 1).Err? ==> Rendered(c, 0, 0, Height(c) - 1, Width(c) - 1).error == NegativeArraySize
  {
    hide Serialize, Region;
    RenderedFromRoot(c, 0, 0, Height(c) - 1, Width(c) - 1);
    InsideRoot(c);
    var top, left := RootTop(c), RootLeft(c);
    assert SizeEstimate(top, left, top + Height(c) - 1, left + Width(c) - 1) == SizeEstimate(0, 0, Height(c) - 1, Width(c) - 1);
    NegativeEstimate(0, 0, Height(c) - 1, Width(c) - 1);
  }

  /**
   * `canvas[0..0, 3..0]` of a surface one row high and four columns wide is
   * a view of width -2, and its `toString()` throws.
   */
  lemma ReversedViewThrows(s: TextSurface)
    requires s.Valid() && s.height == 1 && s.width == 4
    ensures View(Whole(s), 0, 0, 3, 0).Ok?
    ensures var c := View(Whole(s), 0, 0, 3, 0).value;
      Width(c) == -2 && Rendered(c, 0, 0, Height(c) - 1, Width(c) - 1) == Err(NegativeArraySize)
  {
    var c := View(Whole(s), 0, 0, 3, 0).value;
    ViewWellFormed(Whole(s), 0, 0, 3, 0);
    WholeCanvasRenders(c);
  }

  /** `g` with the pixel at `a` replaced by `p`. */
  function Put(g: Grid, a: Address, p: TextPixel): (r: Grid)
    requires 0 <= a.row < |g| && 0 <= a.column < |g[a.row]|
    ensures |r| == |g| && forall k :: 0 <= k < |g| ==> |r[k]| == |g[k]|
  {
    g[a.row := g[a.row][a.column := p]]
  }

  /**
   * A pixel after `write` gave it `value`: each of the foreground, the
   * background and the style is replaced only when its argument is not null.
   */
  function Paint(p: TextPixel, value: Text, foreground: Option<Color>, background: Option<Color>, style: Option<TextStyle>): TextPixel {
    p.(value := value,
       background := if background.Some? then background else p.background,
       foreground := if foreground.Some? then foreground else p.foreground,
       style := if style.Some? then style.value else p.style)
  }

  /** Where the cell that starts at index `i` of `s` ends: after a high surrogate, the code unit after it belongs to it too. */
  function CellEnd(s: Text, i: nat): nat
    requires i < |s|
  {
    if IsHighSurrogate(s[i]) then i + 2 else i + 1
  }

  /**
   * The values `write` gives to consecutive cells from index `i` of `s` on:
   * one code unit each, a high surrogate together with the unit after it,
   * or nothing if `s` ends in a high surrogate that has no unit after it.
   */
  function CellValuesFrom(s: Text, i: nat): Option<seq<Text>>
    requires i <= |s|
    decreases |s| - i
  {
    if i == |s| then Some([])
    else
      var end := CellEnd(s, i);
      if end > |s| then None
      else match CellValuesFrom(s, end)
        case None => None
        case Some(rest) => Some([s[i..end]] + rest)
  }

  /** The cell values put back together are the string, and each is one code unit, or two starting with a high surrogate. */
  lemma {:induction false} CellValuesRoundTrip(s: Text, i: nat)
    requires i <= |s| && CellValuesFrom(s, i).Some?
    ensures Flatten(CellValuesFrom(s, i).value) == s[i..]
    ensures forall v <- CellValuesFrom(s, i).value :: |v| == 1 || (|v| == 2 && IsHighSurrogate(v[0]))
    decreases |s| - i
  {
    if i < |s| {
      var end := CellEnd(s, i);
      var rest := CellValuesFrom(s, end).value;
      CellValuesRoundTrip(s, end);
      FlattenAppend([s[i..end]], rest);
      assert Flatten([s[i..end]]) == s[i..end] by {
        assert [s[i..end]][..0] == [];
      }
      assert s[i..] == s[i..end] + s[end..];
    }
  }

  /**
   * The loop of `write` from index `i` of `s` and column `column` on, as a
   * value: each step asks the canvas for the cell (which may fail), fails
   * if the string ends inside a surrogate pair, and otherwise paints the
   * cell. Returns the new pixels and how the call ends.
   */
  ghost function WriteFrom(c: TextCanvas, g: Grid, row: int, column: int, s: Text, i: nat,
                           foreground: Option<Color>, background: Option<Color>, style: Option<TextStyle>): (r: (Grid, Outcome))
    requires IsRectangle(g, Root(c).height, Root(c).width)
    requires i <= |s|
    ensures IsRectangle(r.0, Root(c).height, Root(c).width)
    decreases |s| - i
  {
    if i == |s| then (g, Pass)
    else match Locate(c, row, column)
      case Err(e) => (g, Fail(e))
      case Ok(a) =>
        var end := CellEnd(s, i);
        if end > |s| then (g, Fail(IndexOutOfBounds))
        else
          var painted := Put(g, a, Paint(g[a.row][a.column], s[i..end], foreground, background, style));
          WriteFrom(c, painted, row, column + 1, s, end, foreground, background, style)
  }

  /**
   * `write(row, column, string, foreground, background, style)`: the
   * string's cell values go into consecutive cells of `row` from `column` on.
   */
  method Write(c: TextCanvas, row: int, column: int, s: Text,
               foreground: Option<Color>, background: Option<Color>, style: Option<TextStyle>) returns (outcome: Outcome)
    requires Root(c).Valid()
    modifies Root(c).rows
    ensures (Root(c).Cells(), outcome) == WriteFrom(c, old(Root(c).Cells()), row, column, s, 0, foreground, background, style)
  {
    var surface := Root(c);
    var pixelIndex := 0;
    var characterColumn := column;
    while pixelIndex < |s|
      invariant 0 <= pixelIndex <= |s|
      invariant WriteFrom(c, surface.Cells(), row, characterColumn, s, pixelIndex, foreground, background, style)
             == WriteFrom(c, old(surface.Cells()), row, column, s, 0, foreground, background, style)
      decreases |s| - pixelIndex
    {
      var located := Locate(c, row, characterColumn);
      if located.Err? {
        return Fail(located.error);
      }
      var a := located.value;
      characterColumn := characterColumn + 1;
      var pixelEnd := if IsHighSurrogate(s[pixelIndex]) then pixelIndex + 2 else pixelIndex + 1;
      if pixelEnd > |s| {
        return Fail(IndexOutOfBounds);
      }
      var character := surface.rows[a.row, a.column];
      character := character.(value := s[pixelIndex..pixelEnd]);
      if background.Some? {
        character := character.(background := background);
      }
      if foreground.Some? {
        character := character.(foreground := foreground);
      }
      if style.Some? {
        character := character.(style := style.value);
      }
      surface.Set(a.row, a.column, character);
      pixelIndex := pixelEnd;
    }
    return Pass;
  }

  /** `write` ends normally exactly when the string has no dangling high surrogate and every cell it needs can be addressed. */
  lemma {:induction false} WritePasses(c: TextCanvas, g: Grid, row: int, column: int, s: Text, i: nat,
                                       foreground: Option<Color>, background: Option<Color>, style: Option<TextStyle>)
    requires IsRectangle(g, Root(c).height, Root(c).width)
    requires i <= |s|
    ensures WriteFrom(c, g, row, column, s, i, foreground, background, style).1 == Pass
      <==> CellValuesFrom(s, i).Some?
           && forall x :: column <= x < column + |CellValuesFrom(s, i).value| ==> Locate(c, row, x).Ok?
    decreases |s| - i
  {
    hide Put, Paint;
    if i < |s| && Locate(c, row, column).Ok? && CellEnd(s, i) <= |s| {
      var a, end := Locate(c, row, column).value, CellEnd(s, i);
      var painted := Put(g, a, Paint(g[a.row][a.column], s[i..end], foreground, background, style));
      WritePasses(c, painted, row, column + 1, s, end, foreground, background, style);
      if CellValuesFrom(s, end).Some? {
        var rest := CellValuesFrom(s, end).value;
        assert |CellValuesFrom(s, i).value| == 1 + |rest|;
      }
    } else if i < |s| && CellValuesFrom(s, i).Some? {
      assert 1 <= |CellValuesFrom(s, i).value|;
      assert !Locate(c, row, column).Ok?;
    }
  }

  /**
   * When `write` ends normally, the cells of `row` from `column` on, one per
   * cell value, hold those values, with the attributes replaced only where
   * an argument is given; every other cell is unchanged.
   */
  lemma {:induction false} WriteCells(c: TextCanvas, g: Grid, row: int, column: int, s: Text, i: nat,
                                      foreground: Option<Color>, background: Option<Color>, style: Option<TextStyle>)
    requires IsRectangle(g, Root(c).height, Root(c).width)
    requires i <= |s|
    requires WriteFrom(c, g, row, column, s, i, foreground, background, style).1 == Pass
    ensures CellValuesFrom(s, i).Some?
    ensures var g', values := WriteFrom(c, g, row, column, s, i, foreground, background, style).0, CellValuesFrom(s, i).value;
      var top, left := row + RootTop(c), column + RootLeft(c);
      IsRectangle(g', |g|, Root(c).width)
      && forall r, q :: 0 <= r < |g| && 0 <= q < Root(c).width ==>
        g'[r][q] == if r == top && left <= q < left + |values|
                    then Paint(g[r][q], values[q - left], foreground, background, style)
                    else g[r][q]
    decreases |s| - i
  {
    if i < |s| {
      var a, end := Locate(c, row, column).value, CellEnd(s, i);
      var painted := Put(g, a, Paint(g[a.row][a.column], s[i..end], foreground, background, style));
      WriteCells(c, painted, row, column + 1, s, end, foreground, background, style);
    }
  }

  /**
   * However `write` ends, it changes no cell outside `row` and none outside
   * the run of columns from `column` that is as long as the string.
   */
  lemma {:induction false} WriteUnchangedOutside(c: TextCanvas, g: Grid, row: int, column: int, s: Text, i: nat,
                                                 foreground: Option<Color>, background: Option<Color>, style: Option<TextStyle>)
    requires IsRectangle(g, Root(c).height, Root(c).width)
    requires i <= |s|
    ensures var g' := WriteFrom(c, g, row, column, s, i, foreground, background, style).0;
      var top, left := row + RootTop(c), column + RootLeft(c);
      IsRectangle(g', |g|, Root(c).width)
      && forall r, q :: 0 <= r < |g| && 0 <= q < Root(c).width && (r != top || q < left || left + |s| - i <= q) ==>
        g'[r][q] == g[r][q]
    decreases |s| - i
  {
    if i < |s| && Locate(c, row, column).Ok? && CellEnd(s, i) <= |s| {
      var a, end := Locate(c, row, column).value, CellEnd(s, i);
      var painted := Put(g, a, Paint(g[a.row][a.column], s[i..end], foreground, background, style));
      WriteUnchangedOutside(c, painted, row, column + 1, s, end, foreground, background, style);
    }
  }

  /** `write` changes only cells that the canvas shows. */
  lemma {:induction false} WriteInside(c: TextCanvas, g: Grid, row: int, column: int, s: Text, i: nat,
                                       foreground: Option<Color>, background: Option<Color>, style: Option<TextStyle>)
    requires IsRectangle(g, Root(c).height, Root(c).width)
    requires i <= |s|
    ensures var g' := WriteFrom(c, g, row, column, s, i, foreground, background, style).0;
      forall p, q :: 0 <= p < |g| && 0 <= q < Root(c).width && !InView(c, Address(p, q)) ==> g'[p][q] == g[p][q]
    decreases |s| - i
  {
    if i < |s| && Locate(c, row, column).Ok? && CellEnd(s, i) <= |s| {
      var a, end := Locate(c, row, column).value, CellEnd(s, i);
      var painted := Put(g, a, Paint(g[a.row][a.column], s[i..end], foreground, background, style));
      WriteInside(c, painted, row, column + 1, s, end, foreground, background, style);
      assert InView(c, a);
    }
  }

  /** Every cell a view made by `get(rows, columns)` shows is a cell of the canvas it was made from. */
  lemma ViewInside(c: TextCanvas, top: int, bottom: int, left: int, right: int, a: Address)
    requires View(c, top, bottom, left, right).Ok?
    requires InView(View(c, top, bottom, left, right).value, a)
    ensures InView(c, a)
  {
  }

  /**
   * The loops of `fill` from row `row`, column `column` of the canvas on, as
   * a value: row by row and, within a row, column by column, each cell is
   * asked of the canvas (which may fail) and replaced by `body` of itself.
   * Returns the new pixels, how the call ends and the cells visited in
   * order.
   */
  ghost function FillFrom(c: TextCanvas, g: Grid, body: TextPixel -> TextPixel, row: int, column: int): (Grid, Outcome, seq<Address>)
    requires IsRectangle(g, Root(c).height, Root(c).width)
    decreases if row < Height(c) then Height(c) - row else 0, if column < Width(c) then Width(c) - column else 0
  {
    if Height(c) <= row then (g, Pass, [])
    else if Width(c) <= column then FillFrom(c, g, body, row + 1, 0)
    else match Locate(c, row, column)
      case Err(e) => (g, Fail(e), [])
      case Ok(a) =>
        var rest := FillFrom(c, Put(g, a, body(g[a.row][a.column])), body, row, column + 1);
        (rest.0, rest.1, [a] + rest.2)
  }

  /**
   * `fill(body)`: `body` applied to every cell of the canvas, in row-major
   * order. `visits` records the cells in the order they are changed.
   */
  method Fill(c: TextCanvas, body: TextPixel -> TextPixel) returns (outcome: Outcome, ghost visits: seq<Address>)
    requires Root(c).Valid()
    modifies Root(c).rows
    ensures (Root(c).Cells(), outcome, visits) == FillFrom(c, old(Root(c).Cells()), body, 0, 0)
  {
    hide Locate, FillFrom, FillContinues;
    var surface := Root(c);
    ghost var final := FillFrom(c, surface.Cells(), body, 0, 0);
    visits := [];
    FillBegins(c, surface.Cells(), body);
    var row := 0;
    while row < Height(c)
      invariant 0 <= row
      invariant FillContinues(c, surface.Cells(), body, row, 0, visits, final)
      decreases Height(c) - row
    {
      var column := 0;
      while column < Width(c)
        invariant 0 <= column && row < Height(c)
        invariant FillContinues(c, surface.Cells(), body, row, column, visits, final)
        decreases Width(c) - column
      {
        var located := Locate(c, row, column);
        if located.Err? {
          FillStopsAt(c, surface.Cells(), body, row, column, visits, final);
          return Fail(located.error), visits;
        }
        var a := located.value;
        ghost var before := surface.Cells();
        var pixel := surface.rows[a.row, a.column];
        surface.Set(a.row, a.column, body(pixel));
        FillStep(c, before, body, row, column, visits, final);
        visits := visits + [a];
        column := column + 1;
      }
      FillNextRow(c, surface.Cells(), body, row, column, visits, final);
      row := row + 1;
    }
    FillStopsAt(c, surface.Cells(), body, row, 0, visits, final);
    outcome := Pass;
  }

  /** `fill` has reached row `row`, column `column` of `c` with pixels `g` and visits `visits` on its way to `final`. */
  ghost predicate FillContinues(c: TextCanvas, g: Grid, body: TextPixel -> TextPixel, row: int, column: int,
                                visits: seq<Address>, final: (Grid, Outcome, seq<Address>))
  {
    IsRectangle(g, Root(c).height, Root(c).width)
    && var r := FillFrom(c, g, body, row, column);
    r.0 == final.0 && r.1 == final.1 && visits + r.2 == final.2
  }

  /** `fill` starts at row 0, column 0, having visited nothing. */
  lemma FillBegins(c: TextCanvas, g: Grid, body: TextPixel -> TextPixel)
    requires IsRectangle(g, Root(c).height, Root(c).width)
    ensures FillContinues(c, g, body, 0, 0, [], FillFrom(c, g, body, 0, 0))
  {
    assert [] + FillFrom(c, g, body, 0, 0).2 == FillFrom(c, g, body, 0, 0).2;
  }

  /** Painting the cell `fill` has reached keeps it on its way. */
  lemma FillStep(c: TextCanvas, g: Grid, body: TextPixel -> TextPixel, row: int, column: int,
                 visits: seq<Address>, final: (Grid, Outcome, seq<Address>))
    requires FillContinues(c, g, body, row, column, visits, final)
    requires 0 <= row < Height(c) && 0 <= column < Width(c) && Locate(c, row, column).Ok?
    ensures var a := Locate(c, row, column).value;
      FillContinues(c, g[a.row := g[a.row][a.column := body(g[a.row][a.column])]], body, row, column + 1, visits + [a], final)
  {
    var a := Locate(c, row, column).value;
    var rest := FillFrom(c, Put(g, a, body(g[a.row][a.column])), body, row, column + 1).2;
    assert visits + ([a] + rest) == visits + [a] + rest;
  }

  /** Reaching the end of a row, `fill` goes on from the start of the next. */
  lemma FillNextRow(c: TextCanvas, g: Grid, body: TextPixel -> TextPixel, row: int, column: int,
                    visits: seq<Address>, final: (Grid, Outcome, seq<Address>))
    requires FillContinues(c, g, body, row, column, visits, final)
    requires row < Height(c) && Width(c) <= column
    ensures FillContinues(c, g, body, row + 1, 0, visits, final)
  {
  }

  /** Where `fill` stops, past the last row or at a cell the canvas refuses, it has arrived at `final`. */
  lemma FillStopsAt(c: TextCanvas, g: Grid, body: TextPixel -> TextPixel, row: int, column: int,
                    visits: seq<Address>, final: (Grid, Outcome, seq<Address>))
    requires FillContinues(c, g, body, row, column, visits, final)
    requires Height(c) <= row || (column < Width(c) && Locate(c, row, column).Err?)
    ensures final.0 == g && final.2 == visits
    ensures final.1 == if Height(c) <= row then Pass else Fail(Locate(c, row, column).error)
  {
    assert visits + [] == visits;
  }

  /** True if cell `a` of the root surface is one that canvas `c` shows. */
  predicate InView(c: TextCanvas, a: Address) {
    RootTop(c) <= a.row < RootTop(c) + Height(c) && RootLeft(c) <= a.column < RootLeft(c) + Width(c)
  }

  /** True if cell `a` comes at or after row `row`, column `column` of `c` in row-major order. */
  predicate Pending(c: TextCanvas, a: Address, row: int, column: int) {
    row < a.row - RootTop(c) || (a.row - RootTop(c) == row && column <= a.column - RootLeft(c))
  }

  /** Row-major order: `a` is in an earlier row than `b`, or in the same row and an earlier column. */
  predicate Before(a: Address, b: Address) {
    a.row < b.row || (a.row == b.row && a.column < b.column)
  }

  /** Past the last row `fill` ends normally and changes nothing more. */
  lemma FillFromEnd(c: TextCanvas, g: Grid, body: TextPixel -> TextPixel, row: int, column: int)
    requires IsRectangle(g, Root(c).height, Root(c).width)
    requires Height(c) <= row
    ensures FillFrom(c, g, body, row, column) == (g, Pass, [])
  {
  }

  /** Past the end of a row, `fill` goes on from the start of the next. */
  lemma FillFromNextRow(c: TextCanvas, g: Grid, body: TextPixel -> TextPixel, row: int, column: int)
    requires IsRectangle(g, Root(c).height, Root(c).width)
    requires row < Height(c) && Width(c) <= column
    ensures FillFrom(c, g, body, row, column) == FillFrom(c, g, body, row + 1, 0)
  {
  }

  /** At a cell the canvas gives, `fill` paints it and goes on from the next column. */
  lemma FillFromCell(c: TextCanvas, g: Grid, body: TextPixel -> TextPixel, row: int, column: int)
    requires IsRectangle(g, Root(c).height, Root(c).width)
    requires row < Height(c) && column < Width(c) && Locate(c, row, column).Ok?
    ensures var a := Locate(c, row, column).value;
      var rest := FillFrom(c, Put(g, a, body(g[a.row][a.column])), body, row, column + 1);
      FillFrom(c, g, body, row, column) == (rest.0, rest.1, [a] + rest.2)
  {
  }

  /**
   * On a well-formed canvas `fill` ends normally and visits exactly the cells
   * of the canvas from `row`, `column` on, each once and in row-major order.
   */
  lemma {:induction false} FillVisitsEachCellOnce(c: TextCanvas, g: Grid, body: TextPixel -> TextPixel, row: int, column: int)
    requires WellFormed(c)
    requires IsRectangle(g, Root(c).height, Root(c).width)
    requires 0 <= row && 0 <= column
    ensures var r := FillFrom(c, g, body, row, column);
      r.1 == Pass
      && (forall a :: a in r.2 <==> InView(c, a) && Pending(c, a, row, column))
      && (forall i, j :: 0 <= i < j < |r.2| ==> Before(r.2[i], r.2[j]))
    decreases if row < Height(c) then Height(c) - row else 0, if column < Width(c) then Width(c) - column else 0
  {
    hide Put, FillFrom;
    if Height(c) <= row {
      FillFromEnd(c, g, body, row, column);
    } else if Width(c) <= column {
      FillVisitsEachCellOnce(c, g, body, row + 1, 0);
      FillFromNextRow(c, g, body, row, column);
    } else {
      LocateWellFormed(c, row, column);
      var a := Locate(c, row, column).value;
      var g1 := Put(g, a, body(g[a.row][a.column]));
      FillVisitsEachCellOnce(c, g1, body, row, column + 1);
      FillFromCell(c, g, body, row, column);
      VisitsInOrder(c, row, column, a, FillFrom(c, g1, body, row, column + 1).2);
    }
  }
  /**
   * The step of `FillVisitsEachCellOnce`: visiting the cell at `row`,
   * `column` before the cells after it, in order, visits the cells from it
   * on, in order.
   */
  lemma VisitsInOrder(c: TextCanvas, row: int, column: int, a: Address, rest: seq<Address>)
    requires 0 <= row < Height(c) && 0 <= column < Width(c)
    requires a == Address(row + RootTop(c), column + RootLeft(c))
    requires forall b :: b in rest <==> InView(c, b) && Pending(c, b, row, column + 1)
    requires forall i, j :: 0 <= i < j < |rest| ==> Before(rest[i], rest[j])
    ensures forall b :: b in [a] + rest <==> InView(c, b) && Pending(c, b, row, column)
    ensures forall i, j :: 0 <= i < j < |[a] + rest| ==> Before(([a] + rest)[i], ([a] + rest)[j])
  {
    var visits := [a] + rest;
    forall i, j | 0 <= i < j < |visits|
      ensures Before(visits[i], visits[j])
    {
      assert visits[j] == rest[j - 1] && rest[j - 1] in rest;
      if 0 < i {
        assert visits[i] == rest[i - 1];
      }
    }
  }

  /**
   * On a well-formed canvas `fill` replaces each cell of the canvas from
   * `row`, `column` on by `body` of its old self, and changes no other cell.
   */
  lemma {:induction false} FillCells(c: TextCanvas, g: Grid, body: TextPixel -> TextPixel, row: int, column: int)
    requires WellFormed(c)
    requires IsRectangle(g, Root(c).height, Root(c).width)
    requires 0 <= row && 0 <= column
    ensures var g' := FillFrom(c, g, body, row, column).0;
      IsRectangle(g', |g|, Root(c).width)
      && forall p, q :: 0 <= p < |g| && 0 <= q < Root(c).width ==>
        g'[p][q] == if InView(c, Address(p, q)) && Pending(c, Address(p, q), row, column) then body(g[p][q]) else g[p][q]
    decreases if row < Height(c) then Height(c) - row else 0, if column < Width(c) then Width(c) - column else 0
  {
    hide Locate, FillFrom;
    if Height(c) <= row {
      FillFromEnd(c, g, body, row, column);
    } else if Width(c) <= column {
      FillCells(c, g, body, row + 1, 0);
      FillFromNextRow(c, g, body, row, column);
    } else {
      LocateWellFormed(c, row, column);
      var a := Locate(c, row, column).value;
      var g1 := Put(g, a, body(g[a.row][a.column]));
      FillCells(c, g1, body, row, column + 1);
      FillFromCell(c, g, body, row, column);
      FillCellStep(c, g, body, row, column, a, g1, FillFrom(c, g1, body, row, column + 1).0);
    }
  }

  /** One step of `FillCells`: painting the cell at `row`, `column` and then the cells after it paints the cells from it on. */
  lemma FillCellStep(c: TextCanvas, g: Grid, body: TextPixel -> TextPixel, row: int, column: int, a: Address, g1: Grid, g': Grid)
    requires IsRectangle(g, Root(c).height, Root(c).width)
    requires 0 <= row < Height(c) && 0 <= column < Width(c)
    requires a == Address(row + RootTop(c), column + RootLeft(c))
    requires 0 <= a.row < |g| && 0 <= a.column < Root(c).width
    requires g1 == Put(g, a, body(g[a.row][a.column]))
    requires IsRectangle(g', |g|, Root(c).width)
    requires forall p, q :: 0 <= p < |g| && 0 <= q < Root(c).width ==>
      g'[p][q] == if InView(c, Address(p, q)) && Pending(c, Address(p, q), row, column + 1) then body(g1[p][q]) else g1[p][q]
    ensures forall p, q :: 0 <= p < |g| && 0 <= q < Root(c).width ==>
      g'[p][q] == if InView(c, Address(p, q)) && Pending(c, Address(p, q), row, column) then body(g[p][q]) else g[p][q]
  {
    forall p, q | 0 <= p < |g| && 0 <= q < Root(c).width
      ensures g'[p][q] == if InView(c, Address(p, q)) && Pending(c, Address(p, q), row, column) then body(g[p][q]) else g[p][q]
    {
      if Address(p, q) != a {
        assert g1[p][q] == g[p][q];
      }
    }
  }
}
