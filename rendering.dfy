/**
 * `AnsiRendering`, the renderer that redraws a terminal frame in place: it
 * moves the cursor up over the lines it wrote last time, writes the static
 * lines and the new canvas lines, clears what is left of longer old lines and
 * of old lines below the new output, and moves the cursor back to the end of
 * the new output. One frame is specified as a sequence of pieces; its text is
 * those pieces written out with the terminal's cursor-up and clear-line
 * sequences.
 */
module Rendering {
  import opened Wrappers
  import opened Strings
  import opened Surface
  import opened Canvas
  import opened Nodes
  import Ansi

  /** What one frame is made of. */
  datatype Piece = CursorUp | ClearLine | Content(line: Text) | LineBreak

  /** `k`, or 0 if `k` is negative: how often `repeat(k)` and `0 until k` run. */
  function Positive(k: int): nat {
    if k > 0 then k else 0
  }

  /** `repeat(k) { append(cursorUp) }`. */
  function Ups(k: int): (r: seq<Piece>)
    ensures |r| == Positive(k) && forall i :: 0 <= i < |r| ==> r[i] == CursorUp
  {
    seq(Positive(k), _ => CursorUp)
  }

  /** One written line: its text, a clear-line if it is written over a line of the last frame, and a line break. */
  function LinePieces(line: Text, stale: bool): seq<Piece> {
    [Content(line)] + (if stale then [ClearLine] else []) + [LineBreak]
  }

  /** The line loop: line `i` is written over a line of the last frame iff `i < staleLines`. */
  function Rewritten(lines: seq<Text>, staleLines: int): seq<Piece>
    decreases |lines|
  {
    if |lines| == 0 then []
    else Rewritten(lines[..|lines| - 1], staleLines) + LinePieces(lines[|lines| - 1], |lines| - 1 < staleLines)
  }

  /** `for (i in 0 until k)`: `k` clear-lines, a line break between each two. */
  function Cleared(k: int): seq<Piece>
    decreases Positive(k)
  {
    if k <= 0 then [] else Cleared(k - 1) + (if k - 1 > 0 then [LineBreak] else []) + [ClearLine]
  }

  /**
   * The frame `render` writes when the last frame had `lastHeight` lines and
   * this one has `lines`.
   */
  function Frame(lastHeight: nat, lines: seq<Text>): seq<Piece> {
    var staleLines := lastHeight - |lines|;
    Ups(lastHeight) + Rewritten(lines, lastHeight) + Cleared(staleLines) + Ups(staleLines - 1)
  }

  function PieceText(p: Piece, cursorUp: Text, clearLine: Text): Text {
    match p
    case CursorUp => cursorUp
    case ClearLine => clearLine
    case Content(line) => line
    case LineBreak => [LineFeed]
  }

  /** The pieces written out, one after another. */
  function TextOf(pieces: seq<Piece>, cursorUp: Text, clearLine: Text): Text
    decreases |pieces|
  {
    if |pieces| == 0 then []
    else TextOf(pieces[..|pieces| - 1], cursorUp, clearLine) + PieceText(pieces[|pieces| - 1], cursorUp, clearLine)
  }

  /** The texts of the `Content` pieces, in order. */
  function Contents(pieces: seq<Piece>): seq<Text>
    decreases |pieces|
  {
    if |pieces| == 0 then []
    else Contents(pieces[..|pieces| - 1]) + (if pieces[|pieces| - 1].Content? then [pieces[|pieces| - 1].line] else [])
  }

  /** Writing one more piece appends its text. */
  lemma TextOfStep(pieces: seq<Piece>, p: Piece, cursorUp: Text, clearLine: Text)
    ensures TextOf(pieces + [p], cursorUp, clearLine) == TextOf(pieces, cursorUp, clearLine) + PieceText(p, cursorUp, clearLine)
  {
    assert (pieces + [p])[..|pieces|] == pieces;
  }

  /** Writing pieces one after another writes their texts one after another. */
  lemma {:induction false} TextOfAppend(a: seq<Piece>, b: seq<Piece>, cursorUp: Text, clearLine: Text)
    ensures TextOf(a + b, cursorUp, clearLine) == TextOf(a, cursorUp, clearLine) + TextOf(b, cursorUp, clearLine)
    decreases |b|
  {
    if |b| == 0 {
      assert a + b == a;
    } else {
      var last := b[|b| - 1];
      var front := b[..|b| - 1];
      assert a + b == (a + front) + [last];
      assert b == front + [last];
      TextOfStep(a + front, last, cursorUp, clearLine);
      TextOfStep(front, last, cursorUp, clearLine);
      TextOfAppend(a, front, cursorUp, clearLine);
      Associative(TextOf(a, cursorUp, clearLine), TextOf(front, cursorUp, clearLine), PieceText(last, cursorUp, clearLine));
    }
  }

  lemma {:induction false} ContentsAppend(a: seq<Piece>, b: seq<Piece>)
    ensures Contents(a + b) == Contents(a) + Contents(b)
    decreases |b|
  {
    if |b| == 0 {
      assert a + b == a;
    } else {
      var front := b[..|b| - 1];
      assert (a + b)[..|a + b| - 1] == a + front;
      ContentsAppend(a, front);
    }
  }

  /** The line loop writes `2 * |lines|` pieces plus one clear-line for each of the first `staleLines` lines. */
  lemma {:induction false} RewrittenLength(lines: seq<Text>, staleLines: int)
    ensures |Rewritten(lines, staleLines)| == 2 * |lines| + Min(|lines|, Positive(staleLines))
    decreases |lines|
  {
    if |lines| > 0 {
      RewrittenLength(lines[..|lines| - 1], staleLines);
    }
  }

  function Min(a: int, b: int): int {
    if a < b then a else b
  }

  /** The pieces of the first `i` lines come first in the line loop's pieces. */
  lemma {:induction false} RewrittenPrefix(lines: seq<Text>, staleLines: int, i: nat)
    requires i <= |lines|
    ensures |Rewritten(lines[..i], staleLines)| <= |Rewritten(lines, staleLines)|
    ensures Rewritten(lines, staleLines)[..|Rewritten(lines[..i], staleLines)|] == Rewritten(lines[..i], staleLines)
    decreases |lines| - i
  {
    if i < |lines| {
      RewrittenPrefix(lines, staleLines, i + 1);
      assert lines[..i + 1][..i] == lines[..i];
      var short := Rewritten(lines[..i], staleLines);
      var long := Rewritten(lines[..i + 1], staleLines);
      assert long == short + LinePieces(lines[i], i < staleLines);
      assert long[..|short|] == short;
    } else {
      assert lines[..i] == lines;
    }
  }

  /**
   * Line `i` is written at piece `2 * i + Min(i, staleLines)` of the line
   * loop, followed by a clear-line iff `i < staleLines`, and then by a line
   * break.
   */
  lemma RewrittenLineAt(lines: seq<Text>, staleLines: int, i: nat)
    requires i < |lines|
    ensures var p, r := 2 * i + Min(i, Positive(staleLines)), Rewritten(lines, staleLines);
      p + 2 < |r| + (if i < staleLines then 0 else 1)
      && r[p] == Content(lines[i])
      && (r[p + 1] == ClearLine <==> i < staleLines)
      && r[p + (if i < staleLines then 2 else 1)] == LineBreak
  {
    RewrittenPrefix(lines, staleLines, i + 1);
    RewrittenLength(lines[..i], staleLines);
    RewrittenLength(lines, staleLines);
    assert lines[..i + 1][..i] == lines[..i];
    var short := Rewritten(lines[..i], staleLines);
    var long := Rewritten(lines[..i + 1], staleLines);
    assert long == short + LinePieces(lines[i], i < staleLines);
  }

  /** The pieces of the clear loop: `k` clear-lines and one line break fewer. */
  lemma {:induction false} ClearedCounts(k: int)
    ensures multiset(Cleared(k))[ClearLine] == Positive(k)
    ensures multiset(Cleared(k))[LineBreak] == Positive(k - 1)
    ensures multiset(Cleared(k))[CursorUp] == 0 && Contents(Cleared(k)) == []
    decreases Positive(k)
  {
    if k > 0 {
      ClearedCounts(k - 1);
      var tail := (if k - 1 > 0 then [LineBreak] else []) + [ClearLine];
      ContentsAppend(Cleared(k - 1), tail);
    }
  }

  /** The last line of the line loop comes after the others. */
  lemma RewrittenStep(lines: seq<Text>, staleLines: int)
    ensures |lines| == 0 ==> Rewritten(lines, staleLines) == []
    ensures |lines| > 0 ==>
              Rewritten(lines, staleLines)
                == Rewritten(lines[..|lines| - 1], staleLines) + LinePieces(lines[|lines| - 1], |lines| - 1 < staleLines)
  {
  }

  lemma LinePiecesCounts(line: Text, stale: bool)
    ensures multiset(LinePieces(line, stale))[ClearLine] == (if stale then 1 else 0)
    ensures multiset(LinePieces(line, stale))[LineBreak] == 1 && multiset(LinePieces(line, stale))[CursorUp] == 0
    ensures Contents(LinePieces(line, stale)) == [line]
  {
    var middle: seq<Piece> := if stale then [ClearLine] else [];
    assert LinePieces(line, stale) == [Content(line)] + middle + [LineBreak];
    ContentsAppend([Content(line)], middle);
    ContentsAppend([Content(line)] + middle, [LineBreak]);
    assert Contents([Content(line)]) == [line] by {
      assert [Content(line)][..0] == [];
    }
    assert Contents(middle) == [] by {
      if stale {
        assert middle[..0] == [];
      }
    }
    assert Contents([LineBreak]) == [] by {
      assert [LineBreak][..0] == [];
    }
  }

  /** The line loop writes each line once, in order, with a line break after each and a clear-line after the first `staleLines`. */
  lemma {:induction false} RewrittenCounts(lines: seq<Text>, staleLines: int)
    ensures multiset(Rewritten(lines, staleLines))[ClearLine] == Min(|lines|, Positive(staleLines))
    ensures multiset(Rewritten(lines, staleLines))[LineBreak] == |lines|
    ensures multiset(Rewritten(lines, staleLines))[CursorUp] == 0
    ensures Contents(Rewritten(lines, staleLines)) == lines
    decreases |lines|
  {
    hide Rewritten, Contents, LinePieces;
    RewrittenStep(lines, staleLines);
    if |lines| > 0 {
      var front := lines[..|lines| - 1];
      var last := lines[|lines| - 1];
      RewrittenCounts(front, staleLines);
      LinePiecesCounts(last, |lines| - 1 < staleLines);
      ContentsAppend(Rewritten(front, staleLines), LinePieces(last, |lines| - 1 < staleLines));
      assert front + [last] == lines;
    } else {
      NoContents();
    }
  }

  lemma NoContents()
    ensures Contents([]) == []
  {
  }

  lemma UpsCounts(k: int)
    ensures multiset(Ups(k))[CursorUp] == Positive(k)
    ensures multiset(Ups(k))[ClearLine] == 0 && multiset(Ups(k))[LineBreak] == 0 && Contents(Ups(k)) == []
  {
    assert multiset(Ups(k)) == multiset{}[CursorUp := Positive(k)] by {
      UpsMultiset(k);
    }
    UpsContents(k);
  }

  lemma {:induction false} UpsMultiset(k: int)
    ensures multiset(Ups(k)) == multiset{}[CursorUp := Positive(k)]
    decreases Positive(k)
  {
    if k > 0 {
      UpsMultiset(k - 1);
      assert Ups(k) == Ups(k - 1) + [CursorUp];
    }
  }

  lemma {:induction false} UpsContents(k: int)
    ensures Contents(Ups(k)) == []
    decreases Positive(k)
  {
    if k > 0 {
      UpsContents(k - 1);
      assert Ups(k)[..k - 1] == Ups(k - 1);
    }
  }

  /** The four parts of a frame, one after another. */
  lemma FrameParts(lastHeight: nat, lines: seq<Text>)
    ensures var staleLines := lastHeight - |lines|;
      multiset(Frame(lastHeight, lines)) == multiset(Ups(lastHeight)) + multiset(Rewritten(lines, lastHeight))
                                            + multiset(Cleared(staleLines)) + multiset(Ups(staleLines - 1))
      && Contents(Frame(lastHeight, lines)) == Contents(Ups(lastHeight)) + Contents(Rewritten(lines, lastHeight))
                                              + Contents(Cleared(staleLines)) + Contents(Ups(staleLines - 1))
  {
    hide Ups, Rewritten, Cleared, Contents;
    var staleLines := lastHeight - |lines|;
    var a, b, c, d := Ups(lastHeight), Rewritten(lines, lastHeight), Cleared(staleLines), Ups(staleLines - 1);
    ContentsAppend(a, b);
    ContentsAppend(a + b, c);
    ContentsAppend(a + b + c, d);
  }

  /**
   * A frame starts by moving the cursor up once for each line of the last
   * frame; the first line written comes right after.
   */
  lemma FrameStartsWithUps(lastHeight: nat, lines: seq<Text>)
    ensures forall i :: 0 <= i < lastHeight ==> Frame(lastHeight, lines)[i] == CursorUp
    ensures |lines| > 0 ==> Frame(lastHeight, lines)[lastHeight] == Content(lines[0])
  {
    if |lines| > 0 {
      RewrittenLineAt(lines, lastHeight, 0);
    }
  }

  /**
   * Line `i` of a frame is written at piece `lastHeight + 2 * i + Min(i,
   * lastHeight)`, and a clear-line follows it iff `i < lastHeight`: exactly
   * the lines written over lines of the last frame are cleared to their end.
   */
  lemma FrameLineAt(lastHeight: nat, lines: seq<Text>, i: nat)
    requires i < |lines|
    ensures var p, f := lastHeight + 2 * i + Min(i, lastHeight), Frame(lastHeight, lines);
      p + 2 < |f| + (if i < lastHeight then 0 else 1)
      && f[p] == Content(lines[i])
      && (f[p + 1] == ClearLine <==> i < lastHeight)
  {
    RewrittenLineAt(lines, lastHeight, i);
    var staleLines := lastHeight - |lines|;
    var f := Frame(lastHeight, lines);
    var r := Rewritten(lines, lastHeight);
    assert f == Ups(lastHeight) + (r + (Cleared(staleLines) + Ups(staleLines - 1)));
  }

  /**
   * Counting the pieces of a frame: it writes every line once and in order;
   * it clears exactly as many lines as the last frame had; and it has
   * `|lines| - lastHeight` more line breaks than cursor-ups, so the cursor,
   * which started at the end of the last frame, ends at the end of the new
   * one.
   */
  lemma FrameCounts(lastHeight: nat, lines: seq<Text>)
    ensures Contents(Frame(lastHeight, lines)) == lines
    ensures multiset(Frame(lastHeight, lines))[ClearLine] == lastHeight
    ensures multiset(Frame(lastHeight, lines))[CursorUp] == lastHeight + Positive(lastHeight - |lines| - 1)
    ensures multiset(Frame(lastHeight, lines))[LineBreak] == |lines| + Positive(lastHeight - |lines| - 1)
    ensures multiset(Frame(lastHeight, lines))[LineBreak] + lastHeight == |lines| + multiset(Frame(lastHeight, lines))[CursorUp]
  {
    hide Frame, Ups, Rewritten, Cleared, Contents;
    var staleLines := lastHeight - |lines|;
    FrameParts(lastHeight, lines);
    UpsCounts(lastHeight);
    UpsCounts(staleLines - 1);
    RewrittenCounts(lines, lastHeight);
    ClearedCounts(staleLines);
    assert Contents(Frame(lastHeight, lines)) == [] + lines + [] + [];
  }

  /**
   * When the last frame was taller, the frame ends with one clear-line for
   * each line below the new output, a line break between each two, and the
   * cursor moved back up over all but one of them.
   */
  lemma FrameEndsClearing(lastHeight: nat, lines: seq<Text>)
    ensures var staleLines := lastHeight - |lines|;
      Frame(lastHeight, lines)[|Frame(lastHeight, lines)| - |Cleared(staleLines)| - Positive(staleLines - 1)..]
        == Cleared(staleLines) + Ups(staleLines - 1)
      && multiset(Cleared(staleLines))[ClearLine] == Positive(staleLines)
      && multiset(Cleared(staleLines))[LineBreak] == Positive(staleLines - 1)
  {
    hide Ups, Rewritten, Cleared;
    var staleLines := lastHeight - |lines|;
    var front := Ups(lastHeight) + Rewritten(lines, lastHeight);
    var back := Cleared(staleLines) + Ups(staleLines - 1);
    assert Frame(lastHeight, lines) == front + back;
    assert (front + back)[|front|..] == back;
    ClearedCounts(staleLines);
  }

  /**
   * With cursor-up and clear-line sequences and lines that hold no line
   * feed, the text of a frame holds exactly one line feed per line break.
   */
  lemma {:induction false} LineFeedsAreBreaks(pieces: seq<Piece>, cursorUp: Text, clearLine: Text)
    requires Free(cursorUp, LineFeed) && Free(clearLine, LineFeed)
    requires forall i :: 0 <= i < |pieces| && pieces[i].Content? ==> Free(pieces[i].line, LineFeed)
    ensures multiset(TextOf(pieces, cursorUp, clearLine))[LineFeed] == multiset(pieces)[LineBreak]
    decreases |pieces|
  {
    if |pieces| > 0 {
      var front, last := pieces[..|pieces| - 1], pieces[|pieces| - 1];
      LineFeedsAreBreaks(front, cursorUp, clearLine);
      assert pieces == front + [last];
      FreeCount(PieceText(last, cursorUp, clearLine), last);
    }
  }

  lemma FreeCount(s: Text, p: Piece)
    requires p.LineBreak? ==> s == [LineFeed]
    requires !p.LineBreak? ==> Free(s, LineFeed)
    ensures multiset(s)[LineFeed] == if p.LineBreak? then 1 else 0
  {
    if !p.LineBreak? {
      assert LineFeed !in multiset(s);
    }
  }

  /** `render()` of a canvas that is a view inside its surface and has no negative size. */
  ghost function CanvasText(c: TextCanvas): Text
    requires WellFormed(c) && Root(c).Valid() && 0 <= Width(c) && 0 <= Height(c)
    reads Root(c).rows
  {
    WholeCanvasRenders(c);
    Rendered(c, 0, 0, Height(c) - 1, Width(c) - 1).value
  }

  /** `render()` succeeds on a canvas that is a view inside its surface and has no negative size. */
  lemma CanvasTextIs(c: TextCanvas)
    requires WellFormed(c) && Root(c).Valid() && 0 <= Width(c) && 0 <= Height(c)
    ensures Rendered(c, 0, 0, Height(c) - 1, Width(c) - 1) == Ok(CanvasText(c))
  {
    WholeCanvasRenders(c);
  }

  /**
   * `statics.flatMap { it.render().split("\n") }`: the lines of every static
   * canvas in order, or the failure of the first one that does not render.
   */
  ghost function StaticLines(statics: seq<TextCanvas>): Result<seq<Text>>
    requires forall c :: c in statics ==> WellFormed(c) && Root(c).Valid()
    reads set c | c in statics :: Root(c).rows
    decreases |statics|
  {
    if |statics| == 0 then Ok([])
    else
      var last := statics[|statics| - 1];
      match StaticLines(statics[..|statics| - 1])
      case Err(e) => Err(e)
      case Ok(lines) =>
        match Rendered(last, 0, 0, Height(last) - 1, Width(last) - 1)
        case Err(e) => Err(e)
        case Ok(text) => Ok(lines + Split(text, LineFeed))
  }

  /** The first step of `RenderStatics`' loop: no canvas, no lines. */
  lemma StaticLinesEmpty(statics: seq<TextCanvas>)
    requires forall c :: c in statics ==> WellFormed(c) && Root(c).Valid()
    ensures StaticLines(statics[..0]) == Ok([])
  {
  }

  /** One more static canvas: its lines after the others', unless it or an earlier one fails. */
  lemma StaticLinesStep(statics: seq<TextCanvas>, i: nat)
    requires i < |statics| && forall c :: c in statics ==> WellFormed(c) && Root(c).Valid()
    ensures var c := statics[i];
      StaticLines(statics[..i + 1]) ==
        match StaticLines(statics[..i])
        case Err(e) => Err(e)
        case Ok(lines) =>
          match Rendered(c, 0, 0, Height(c) - 1, Width(c) - 1)
          case Err(e) => Err(e)
          case Ok(text) => Ok(lines + Split(text, LineFeed))
  {
    assert statics[..i + 1][..i] == statics[..i];
  }

  /** A failure of the static lines of a prefix is the failure of the whole. */
  lemma {:induction false} StaticLinesPrefix(statics: seq<TextCanvas>, i: nat)
    requires i <= |statics| && forall c :: c in statics ==> WellFormed(c) && Root(c).Valid()
    requires StaticLines(statics[..i]).Err?
    ensures StaticLines(statics) == StaticLines(statics[..i])
    decreases |statics| - i
  {
    if i < |statics| {
      StaticLinesStep(statics, i);
      StaticLinesPrefix(statics, i + 1);
    } else {
      assert statics[..i] == statics;
    }
  }

  /**
   * The static lines fail exactly when some static canvas does not render;
   * when every one renders, they are made of the lines of each in turn.
   */
  lemma {:induction false} StaticLinesFail(statics: seq<TextCanvas>)
    requires forall c :: c in statics ==> WellFormed(c) && Root(c).Valid()
    ensures StaticLines(statics).Ok?
      <==> forall c :: c in statics ==> Rendered(c, 0, 0, Height(c) - 1, Width(c) - 1).Ok?
    decreases |statics|
  {
    hide Rendered, WellFormed, Root;
    if |statics| > 0 {
      var init, last := statics[..|statics| - 1], statics[|statics| - 1];
      assert statics == init + [last];
      StaticLinesFail(init);
      if StaticLines(init).Err? {
        var c :| c in init && !Rendered(c, 0, 0, Height(c) - 1, Width(c) - 1).Ok?;
        assert c in statics;
      } else if Rendered(last, 0, 0, Height(last) - 1, Width(last) - 1).Err? {
        assert last in statics;
      } else {
        forall c | c in statics
          ensures Rendered(c, 0, 0, Height(c) - 1, Width(c) - 1).Ok?
        {
          if c != last {
            assert c in init;
          }
        }
      }
    }
  }

  /** The only way the static lines fail is a static canvas's negative size estimate. */
  lemma {:induction false} StaticLinesError(statics: seq<TextCanvas>)
    requires forall c :: c in statics ==> WellFormed(c) && Root(c).Valid()
    ensures StaticLines(statics).Err? ==> StaticLines(statics).error == NegativeArraySize
    decreases |statics|
  {
    hide Rendered, WellFormed, Root;
    if |statics| > 0 {
      var init, last := statics[..|statics| - 1], statics[|statics| - 1];
      assert forall c :: c in init ==> c in statics;
      StaticLinesError(init);
      WholeCanvasRenders(last);
    }
  }

  /** Every static canvas `drawStatics()` gives is a view inside its surface. */
  ghost predicate StaticsRenderable(n: NodeValue) {
    Statics(n).Ok? ==> forall c :: c in Statics(n).value ==> WellFormed(c) && Root(c).Valid()
  }

  /** Measuring and placing the tree does not change its statics. */
  lemma StaticsSurviveDraw(n: NodeValue)
    ensures Statics(Placed(Measured(n).0, 0, 0)) == Statics(n)
  {
    MeasureKeepsShape(n);
    PlaceKeepsShape(Measured(n).0, 0, 0);
    ShapeDecidesStatics(Measured(n).0, n);
    ShapeDecidesStatics(Placed(Measured(n).0, 0, 0), Measured(n).0);
  }

  /**
   * A surface renders as the serialisation of all of its pixels, and, when no
   * cell holds a line feed, as one line per row, or one empty line if it has
   * no rows: the height the next frame starts from.
   */
  lemma SurfaceLines(s: TextSurface)
    requires s.Valid() && 0 <= s.width
    ensures CanvasText(Whole(s)) == Ansi.Serialize(s.Cells())
    ensures Ansi.HasSingleLineCells(s.Cells()) ==>
      |Split(CanvasText(Whole(s)), LineFeed)| == if s.height == 0 then 1 else s.height
  {
    var g := s.Cells();
    var region := Region(g, s.width, 0, 0, s.height - 1, s.width - 1);
    SameGrid(region, g);
    assert 0 <= SizeEstimate(0, 0, s.height - 1, s.width - 1) by {
      NegativeEstimate(0, 0, s.height - 1, s.width - 1);
    }
    assert CanvasText(Whole(s)) == Ansi.Serialize(g) by {
      hide Ansi.Serialize, Region;
      CanvasTextIs(Whole(s));
    }
    if Ansi.HasSingleLineCells(g) {
      Ansi.SplitSerialize(g);
    }
  }

  /** The buffer right after `clear()`: no pieces, no text. */
  lemma TextOfEmpty(cursorUp: Text, clearLine: Text)
    ensures TextOf([], cursorUp, clearLine) == []
  {
  }

  /** `Ups` one cursor-up at a time, for `AppendUps`' loop. */
  lemma UpsStep(k: nat)
    ensures k == 0 ==> Ups(k) == []
    ensures k > 0 ==> Ups(k) == Ups(k - 1) + [CursorUp]
  {
  }

  /** `Cleared` one clear-line at a time, for `AppendClears`' loop. */
  lemma ClearedStep(k: int)
    ensures k <= 0 ==> Cleared(k) == []
    ensures k > 0 ==> Cleared(k) == Cleared(k - 1) + ((if k - 1 > 0 then [LineBreak] else []) + [ClearLine])
  {
  }

  /**
   * `AnsiRendering`: the string builder it reuses for each frame and the
   * number of canvas lines of the last frame.
   */
  class AnsiRendering {
    const cursorUp: Text
    const clearLine: Text
    var buffer: Text
    var lastHeight: int

    ghost predicate Valid()
      reads this
    {
      0 <= lastHeight
    }

    constructor (cursorUp: Text, clearLine: Text)
      ensures Valid() && this.cursorUp == cursorUp && this.clearLine == clearLine
      ensures buffer == [] && lastHeight == 0
    {
      this.cursorUp := cursorUp;
      this.clearLine := clearLine;
      buffer := [];
      lastHeight := 0;
    }

    /**
     * `render(node)`: draws the tree and its statics, then writes
     * `Frame(lastHeight, staticLines + lines)` into the cleared buffer and
     * remembers the number of canvas lines. A failure while drawing leaves
     * the renderer as it was; a static canvas that does not render leaves
     * the cursor-ups for the last frame in the buffer.
     */
    method Render(node: MosaicNode) returns (r: Result<Text>, ghost surface: TextSurface?)
      requires Valid() && node.Valid() && StaticsRenderable(node.model)
      modifies this`buffer, this`lastHeight, node.Repr
      ensures Valid() && node.Valid() && node.Repr == old(node.Repr)
      ensures r.Err? ==> lastHeight == old(lastHeight)
      ensures var (measured, o) := Measured(old(node.model));
        var width, height := measured.measured.width, measured.measured.height;
        if o.Fail? then r == Err(o.error) && buffer == old(buffer) && node.model == measured
        else if width < 0 || height < 0 then
          r == Err(NegativeArraySize) && buffer == old(buffer) && node.model == Placed(measured, 0, 0)
        else
          surface != null && fresh(surface) && surface.Valid() && surface.width == width && surface.height == height
          && node.model == Placed(measured, 0, 0)
          && var (g, drawn) := Drawn(node.model, Whole(surface), Blank(height, width));
          g == surface.Cells()
          && if drawn.Fail? then r == Err(drawn.error) && buffer == old(buffer)
             else match Statics(old(node.model))
               case Err(e) => r == Err(e) && buffer == old(buffer)
               case Ok(statics) =>
                 match StaticLines(statics)
                 case Err(e) => r == Err(e) && buffer == TextOf(Ups(old(lastHeight)), cursorUp, clearLine)
                 case Ok(staticLines) =>
                   var lines := Split(CanvasText(Whole(surface)), LineFeed);
                   r == Ok(TextOf(Frame(old(lastHeight), staticLines + lines), cursorUp, clearLine))
                   && buffer == r.value && lastHeight == |lines|
    {
      hide Measured, Placed, Drawn, Statics, StaticLines, CanvasText, Frame, TextOf, Ups;
      ghost var tree := node.model;
      var drawn;
      drawn, surface := node.Draw();
      if drawn.Err? {
        ghost var (measured, o) := Measured(tree);
        if o.Pass? && 0 <= measured.measured.width && 0 <= measured.measured.height {
          assert surface != null && fresh(surface) && surface.Valid();
        }
        return Err(drawn.error), surface;
      }
      var canvas := drawn.value;
      StaticsSurviveDraw(tree);
      var statics := node.DrawStatics();
      if statics.Err? {
        return Err(statics.error), surface;
      }
      r := Write(canvas, statics.value);
    }

    /**
     * The part of `render` after drawing: the cursor-ups for the last frame
     * written into the cleared buffer, then, if every static canvas renders,
     * the rest of the frame for `canvas` and `statics` and the number of
     * canvas lines remembered.
     */
    method Write(canvas: TextSurface, statics: seq<TextCanvas>) returns (r: Result<Text>)
      requires Valid() && canvas.Valid() && 0 <= canvas.width
      requires forall c :: c in statics ==> WellFormed(c) && Root(c).Valid()
      modifies this`buffer, this`lastHeight
      ensures Valid()
      ensures match StaticLines(statics)
        case Err(e) =>
          r == Err(e) && buffer == TextOf(Ups(old(lastHeight)), cursorUp, clearLine) && lastHeight == old(lastHeight)
        case Ok(staticLines) =>
          var lines := Split(CanvasText(Whole(canvas)), LineFeed);
          r == Ok(TextOf(Frame(old(lastHeight), staticLines + lines), cursorUp, clearLine))
          && buffer == r.value && lastHeight == |lines|
    {
      hide TextOf, Ups, Rewritten, Cleared, StaticLines, CanvasText, Rendered, Split;
      buffer := [];
      ghost var pieces: seq<Piece> := [];
      assert buffer == TextOf(pieces, cursorUp, clearLine) by {
        TextOfEmpty(cursorUp, clearLine);
      }
      var staleLines := lastHeight;
      pieces := AppendUps(staleLines, pieces);
      var staticLines := RenderStatics(statics);
      if staticLines.Err? {
        assert pieces == Ups(staleLines);
        return Err(staticLines.error);
      }
      var text := ToString(Whole(canvas));
      CanvasTextIs(Whole(canvas));
      var lines := Split(text.value, LineFeed);
      staleLines, pieces := AppendLines(staticLines.value + lines, staleLines, pieces);
      pieces := AppendClears(staleLines, pieces);
      pieces := AppendUps(staleLines - 1, pieces);
      assert pieces == Frame(old(lastHeight), staticLines.value + lines);
      lastHeight := |lines|;
      r := Ok(buffer);
    }

    /** `repeat(count) { append(cursorUp) }`. */
    method AppendUps(count: int, ghost pieces: seq<Piece>) returns (ghost pieces': seq<Piece>)
      requires buffer == TextOf(pieces, cursorUp, clearLine)
      modifies this`buffer
      ensures pieces' == pieces + Ups(count) && buffer == TextOf(pieces', cursorUp, clearLine)
    {
      hide TextOf, Ups;
      pieces' := pieces;
      var k := 0;
      UpsStep(0);
      while k < count
        invariant k <= Positive(count) && pieces' == pieces + Ups(k) && buffer == TextOf(pieces', cursorUp, clearLine)
      {
        TextOfStep(pieces', CursorUp, cursorUp, clearLine);
        UpsStep(k + 1);
        buffer := buffer + cursorUp;
        pieces' := pieces' + [CursorUp];
        k := k + 1;
      }
    }

    /**
     * The line loop: each line, then a clear-line while `staleLines`, counted
     * down after each line, was still positive, then a line feed.
     */
    method AppendLines(lines: seq<Text>, staleLines: int, ghost pieces: seq<Piece>) returns (staleLines': int, ghost pieces': seq<Piece>)
      requires buffer == TextOf(pieces, cursorUp, clearLine)
      modifies this`buffer
      ensures staleLines' == staleLines - |lines|
      ensures pieces' == pieces + Rewritten(lines, staleLines) && buffer == TextOf(pieces', cursorUp, clearLine)
    {
      hide TextOf, Rewritten;
      pieces' := pieces;
      staleLines' := staleLines;
      RewrittenStep(lines[..0], staleLines);
      var i := 0;
      while i < |lines|
        invariant i <= |lines| && staleLines' == staleLines - i
        invariant pieces' == pieces + Rewritten(lines[..i], staleLines) && buffer == TextOf(pieces', cursorUp, clearLine)
      {
        ghost var before := pieces';
        buffer := buffer + lines[i];
        TextOfStep(pieces', Content(lines[i]), cursorUp, clearLine);
        pieces' := pieces' + [Content(lines[i])];
        var stale := staleLines';
        staleLines' := staleLines' - 1;
        if stale > 0 {
          TextOfStep(pieces', ClearLine, cursorUp, clearLine);
          buffer := buffer + clearLine;
          pieces' := pieces' + [ClearLine];
        }
        TextOfStep(pieces', LineBreak, cursorUp, clearLine);
        buffer := buffer + [LineFeed];
        pieces' := pieces' + [LineBreak];
        assert pieces' == before + LinePieces(lines[i], i < staleLines);
        RewrittenStep(lines[..i + 1], staleLines);
        assert lines[..i + 1][..i] == lines[..i];
        i := i + 1;
      }
      assert lines[..i] == lines;
    }

    /** `for (i in 0 until count)`: a clear-line for each, after a line feed from the second on. */
    method AppendClears(count: int, ghost pieces: seq<Piece>) returns (ghost pieces': seq<Piece>)
      requires buffer == TextOf(pieces, cursorUp, clearLine)
      modifies this`buffer
      ensures pieces' == pieces + Cleared(count) && buffer == TextOf(pieces', cursorUp, clearLine)
    {
      hide TextOf, Cleared;
      pieces' := pieces;
      ClearedStep(0);
      var j := 0;
      while j < count
        invariant j <= Positive(count)
        invariant pieces' == pieces + Cleared(j) && buffer == TextOf(pieces', cursorUp, clearLine)
      {
        ghost var before := pieces';
        if j > 0 {
          TextOfStep(pieces', LineBreak, cursorUp, clearLine);
          buffer := buffer + [LineFeed];
          pieces' := pieces' + [LineBreak];
        }
        TextOfStep(pieces', ClearLine, cursorUp, clearLine);
        buffer := buffer + clearLine;
        pieces' := pieces' + [ClearLine];
        ClearedStep(j + 1);
        assert pieces' == before + ((if j > 0 then [LineBreak] else []) + [ClearLine]);
        j := j + 1;
      }
      ClearedStep(count);
    }

    /** `statics.flatMap { it.render().split("\n") }`, stopping at the first canvas that does not render. */
    static method RenderStatics(statics: seq<TextCanvas>) returns (r: Result<seq<Text>>)
      requires forall c :: c in statics ==> WellFormed(c) && Root(c).Valid()
      ensures r == StaticLines(statics)
    {
      hide StaticLines, CanvasText, Rendered;
      var lines := [];
      StaticLinesEmpty(statics);
      for i := 0 to |statics|
        invariant StaticLines(statics[..i]) == Ok(lines)
      {
        var text := ToString(statics[i]);
        StaticLinesStep(statics, i);
        if text.Err? {
          assert StaticLines(statics[..i + 1]) == Err(text.error);
          StaticLinesPrefix(statics, i + 1);
          return Err(text.error);
        }
        lines := lines + Split(text.value, LineFeed);
      }
      assert statics[..|statics|] == statics;
      r := Ok(lines);
    }
  }
}
