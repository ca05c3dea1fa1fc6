/**
 * `TextSurface`, the canvas that owns a grid of pixels, and its serialiser
 * `render`, proved to produce exactly `Serialize` of the rectangle it reads.
 */
module Surface {
  import opened Wrappers
  import opened Strings
  import opened Ansi

  /** True if `g` has `height` rows of `width` pixels each. */
  ghost predicate IsRectangle(g: Grid, height: int, width: int) {
    |g| == height && forall i :: 0 <= i < |g| ==> |g[i]| == width
  }

  /** The pixels of `g` (rows of `width` pixels) in rows `top..bottom` and columns `left..right`. */
  ghost function Region(g: Grid, width: int, top: int, left: int, bottom: int, right: int): (r: Grid)
    requires IsRectangle(g, |g|, width)
    requires top <= bottom ==> 0 <= top && bottom < |g|
    requires top <= bottom && left <= right ==> 0 <= left && right < width
    ensures IsRectangle(r, if top <= bottom then bottom - top + 1 else 0, if left <= right then right - left + 1 else 0)
    ensures forall i, j :: 0 <= i < |r| && 0 <= j < |r[i]| ==> r[i][j] == g[top + i][left + j]
  {
    var h := if top <= bottom then bottom - top + 1 else 0;
    var w := if left <= right then right - left + 1 else 0;
    seq(h, i requires 0 <= i < h => seq(w, j requires 0 <= j < w => g[top + i][left + j]))
  }

  /** `height` rows of `width` blank pixels. */
  function Blank(height: nat, width: nat): (g: Grid)
    ensures IsRectangle(g, height, width)
    ensures forall i, j :: 0 <= i < height && 0 <= j < width ==> g[i][j] == BlankPixel
  {
    seq(height, i => seq(width, j => BlankPixel))
  }

  /** Serialising one more cell of a row appends that cell's chunk. */
  lemma RowTextStep(row: seq<TextPixel>, k: nat)
    requires k < |row|
    ensures RowText(row[..k + 1]) == RowText(row[..k]) + Chunk(LastEmitted(row[..k]), row[k])
  {
    assert row[..k + 1][..k] == row[..k];
  }

  /** Appending a cell's escape and text to the serialisation of the cells before it serialises one more cell. */
  lemma AppendCell(row: seq<TextPixel>, k: nat, s: Text, lastPixel: TextPixel, escape: Text)
    requires k < |row|
    requires s == RowText(row[..k]) && lastPixel == LastEmitted(row[..k])
    requires escape == Transition(lastPixel, row[k])
    ensures s + (escape + row[k].value) == RowText(row[..k + 1])
    ensures row[k] == LastEmitted(row[..k + 1])
  {
    RowTextStep(row, k);
  }

  /** Two grids with the same shape and the same pixels are equal. */
  lemma SameGrid(a: Grid, b: Grid)
    requires |a| == |b|
    requires forall i :: 0 <= i < |a| ==> |a[i]| == |b[i]|
    requires forall i, j :: 0 <= i < |a| && 0 <= j < |a[i]| ==> a[i][j] == b[i][j]
    ensures a == b
  {
    forall i | 0 <= i < |a|
      ensures a[i] == b[i]
    {
    }
  }

  /**
   * The per-cell part of `TextSurface.render`: the SGR parameters queued in
   * `attributes` for the changes from `lastPixel` to `pixel`, written out by
   * `joinTo` as one escape if there are any.
   */
  method EscapeBetween(lastPixel: TextPixel, pixel: TextPixel) returns (escape: Text)
    ensures escape == Transition(lastPixel, pixel)
  {
    hide Transition, JoinTo;
    var attributes: seq<int> := [];
    if pixel.foreground != lastPixel.foreground {
      attributes := attributes + [ForegroundParameter(pixel.foreground)];
    }
    if pixel.background != lastPixel.background {
      attributes := attributes + [BackgroundParameter(pixel.background)];
    }
    assert attributes == ColorParameters(lastPixel, pixel);
    if pixel.style != lastPixel.style {
      attributes := attributes + Toggle(Bold, pixel.style, lastPixel.style);
      attributes := attributes + Toggle(Dim, pixel.style, lastPixel.style);
      attributes := attributes + Toggle(Italic, pixel.style, lastPixel.style);
      attributes := attributes + Toggle(Underline, pixel.style, lastPixel.style);
      attributes := attributes + Toggle(Invert, pixel.style, lastPixel.style);
      attributes := attributes + Toggle(Strikethrough, pixel.style, lastPixel.style);
    }
    assert attributes == Parameters(lastPixel, pixel);
    TransitionIsSgr(lastPixel, pixel);
    escape := [];
    if attributes != [] {
      escape := JoinTo(attributes);
    }
  }

  /**
   * The capacity `TextSurface.render` gives its string builder before it
   * reads a pixel: twice the number of cells and line breaks of the
   * rectangle in rows `top..bottom` and columns `left..right`. A negative
   * capacity is a `NegativeArraySizeException`.
   */
  function SizeEstimate(top: int, left: int, bottom: int, right: int): int {
    var renderWidth, renderHeight := right - left + 1, bottom - top + 1;
    (renderWidth * renderHeight + renderHeight) * 2
  }

  /**
   * The capacity, twice the row count times `right - left + 2`, is negative
   * exactly when there is at least one row and `right < left - 2`, or the
   * row count is negative and `right > left - 2`.
   */
  lemma NegativeEstimate(top: int, left: int, bottom: int, right: int)
    ensures SizeEstimate(top, left, bottom, right) < 0
      <==> (top <= bottom && right < left - 2) || (bottom < top - 1 && left - 2 < right)
  {
    var h, w1 := bottom - top + 1, right - left + 2;
    assert SizeEstimate(top, left, bottom, right) == 2 * (h * w1);
    if h > 0 && w1 < 0 {
      assert h * w1 <= w1;
    } else if h < 0 && w1 > 0 {
      assert h * w1 <= h;
    } else if h >= 0 && w1 >= 0 {
      assert h * w1 >= 0;
    } else {
      assert h <= 0 && w1 <= 0;
      assert h * w1 >= 0;
    }
  }

  /**
   * `TextSurface`: the canvas that owns its pixels, `height` rows of `width`
   * pixels, every one a blank pixel when the surface is created.
   */
  class TextSurface {
    const width: int
    const height: int
    const rows: array2<TextPixel>

    ghost predicate Valid() {
      rows.Length0 == height && rows.Length1 == width
    }

    constructor (width: int, height: int)
      requires 0 <= width && 0 <= height
      ensures this.width == width && this.height == height && Valid() && fresh(rows)
      ensures Cells() == Blank(height, width)
    {
      this.width := width;
      this.height := height;
      rows := new TextPixel[height, width]((i, j) => BlankPixel);
      new;
      SameGrid(Cells(), Blank(height, width));
    }

    /** The pixels of the surface as a value. */
    ghost function Cells(): (g: Grid)
      requires Valid()
      reads rows
      ensures IsRectangle(g, height, width)
      ensures forall i, j :: 0 <= i < height && 0 <= j < width ==> g[i][j] == rows[i, j]
    {
      seq(height, i requires 0 <= i < height reads rows =>
        seq(width, j requires 0 <= j < width reads rows => rows[i, j]))
    }

    /** Changes the pixel at `row`, `column`, the way `write` and `fill` change a `TextPixel` they were given. */
    method Set(row: int, column: int, p: TextPixel)
      requires Valid() && 0 <= row < height && 0 <= column < width
      modifies rows
      ensures Cells() == old(Cells())[row := old(Cells())[row][column := p]]
    {
      ghost var before := Cells();
      rows[row, column] := p;
      SameGrid(Cells(), before[row := before[row][column := p]]);
    }

    /** True if every row and column `render` reads is inside the surface. */
    predicate CanRender(top: int, left: int, bottom: int, right: int) {
      (top <= bottom ==> 0 <= top && bottom < height)
      && (top <= bottom && left <= right ==> 0 <= left && right < width)
    }

    /** What `render` returns for the rectangle in rows `top..bottom` and columns `left..right`. */
    ghost function Rendered(top: int, left: int, bottom: int, right: int): Result<Text>
      requires Valid()
      reads rows
    {
      if SizeEstimate(top, left, bottom, right) < 0 then Err(NegativeArraySize)
      else if CanRender(top, left, bottom, right) then Ok(Serialize(Region(Cells(), width, top, left, bottom, right)))
      else Err(IndexOutOfBounds)
    }

    /**
     * The column loop of `TextSurface.render` for one row, which starts
     * after the blank pixel: each pixel's text after the escape for its
     * change from the pixel before it.
     */
    method RenderRow(rowIndex: int, left: int, right: int, ghost row: seq<TextPixel>) returns (s: Text, lastPixel: TextPixel)
      requires Valid() && 0 <= rowIndex < height
      requires left <= right ==> 0 <= left && right < width
      requires |row| == if left <= right then right - left + 1 else 0
      requires forall j :: left <= j <= right ==> rows[rowIndex, j] == row[j - left]
      ensures s == RowText(row)
      ensures lastPixel == LastEmitted(row)
    {
      hide Transition;
      s := [];
      lastPixel := BlankPixel;
      var columnIndex := left;
      while columnIndex <= right
        invariant left <= columnIndex && columnIndex - left <= |row|
        invariant s == RowText(row[..columnIndex - left])
        invariant lastPixel == LastEmitted(row[..columnIndex - left])
      {
        var pixel := rows[rowIndex, columnIndex];
        var escape := EscapeBetween(lastPixel, pixel);
        AppendCell(row, columnIndex - left, s, lastPixel, escape);
        Associative(s, escape, pixel.value);
        s := s + escape;
        s := s + pixel.value;
        lastPixel := pixel;
        columnIndex := columnIndex + 1;
      }
      assert row[..columnIndex - left] == row;
    }

    /**
     * `TextSurface.render`: the rectangle in rows `top..bottom` and columns
     * `left..right`, serialised. A negative size estimate fails before any
     * pixel is read; after that an index outside the surface is an
     * `IndexOutOfBoundsException`. An empty range whose size estimate is not
     * negative renders no pixel.
     */
    method Render(top: int, left: int, bottom: int, right: int) returns (r: Result<Text>)
      requires Valid()
      ensures r == Rendered(top, left, bottom, right)
      ensures SizeEstimate(top, left, bottom, right) < 0 ==> r == Err(NegativeArraySize)
      ensures 0 <= SizeEstimate(top, left, bottom, right) && CanRender(top, left, bottom, right)
        ==> r == Ok(Serialize(Region(Cells(), width, top, left, bottom, right)))
      ensures 0 <= SizeEstimate(top, left, bottom, right) && !CanRender(top, left, bottom, right) ==> r == Err(IndexOutOfBounds)
    {
      var renderWidth := right - left + 1;
      var renderHeight := bottom - top + 1;
      var sizeEstimate := (renderWidth * renderHeight + renderHeight) * 2;
      if sizeEstimate < 0 {
        return Err(NegativeArraySize);
      }
      if !CanRender(top, left, bottom, right) {
        return Err(IndexOutOfBounds);
      }
      ghost var grid := Region(Cells(), width, top, left, bottom, right);
      ghost var texts := seq(|grid|, i requires 0 <= i < |grid| => RowText(grid[i]));
      var s := RenderRows(top, left, bottom, right, grid, texts);
      BodyWithRowTexts(grid, texts);
      r := Ok(s);
    }

    /**
     * The row loop of `TextSurface.render`: each row after the previous
     * row's reset and a line feed, then the final reset. `grid` is the
     * rectangle being read and `texts` its rows' serialisations.
     */
    method RenderRows(top: int, left: int, bottom: int, right: int, ghost grid: Grid, ghost texts: seq<Text>) returns (s: Text)
      requires Valid() && CanRender(top, left, bottom, right)
      requires IsRectangle(grid, if top <= bottom then bottom - top + 1 else 0, if left <= right then right - left + 1 else 0)
      requires forall i, j :: top <= i <= bottom && left <= j <= right ==> rows[i, j] == grid[i - top][j - left]
      requires |texts| == |grid|
      requires forall i {:trigger RowText(grid[i])} :: 0 <= i < |grid| ==> texts[i] == RowText(grid[i])
      ensures s == BodyWith(grid, texts) + ResetAfter(LastOfGrid(grid))
    {
      hide RowText, Transition;
      s := [];
      var lastPixel := BlankPixel;
      var rowIndex := top;
      while rowIndex <= bottom
        invariant top <= rowIndex && rowIndex - top <= |grid|
        invariant s == BodyWith(grid[..rowIndex - top], texts[..rowIndex - top])
        invariant lastPixel == if rowIndex == top then BlankPixel else LastEmitted(grid[rowIndex - top - 1])
      {
        ghost var k := rowIndex - top;
        if rowIndex > top {
          s := s + ResetAfter(lastPixel) + [LineFeed];
        }
        var text;
        text, lastPixel := RenderRow(rowIndex, left, right, grid[k]);
        assert text == texts[k];
        assert grid[..k + 1][..k] == grid[..k];
        assert texts[..k + 1][..k] == texts[..k];
        s := s + text;
        rowIndex := rowIndex + 1;
      }
      assert grid[..rowIndex - top] == grid;
      assert texts[..rowIndex - top] == texts;
      s := s + ResetAfter(lastPixel);
    }
  }
}
