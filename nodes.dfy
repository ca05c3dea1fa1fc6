/**
 * The layout tree: `MosaicNode`s, their measure, draw, static-draw and
 * debug policies, the layer state that `measure` and `placeAt` set, and the
 * applier that edits a node's children.
 *
 * The tree's behaviour is first given on values (`NodeValue`, a snapshot
 * of a node and its subtree); the `MosaicNode` class below keeps such a
 * snapshot as its ghost `model` and its methods are proved to act on it as
 * these functions say.
 */
module Nodes {
  import opened Wrappers
  import opened Strings
  import opened Ansi
  import opened Surface
  import opened Canvas
  import opened Lists

  /** A measured width and height. */
  datatype Size = Size(width: int, height: int)

  /** Where a parent places a child: column `x` and row `y` in the parent. */
  datatype Position = Position(x: int, y: int)

  /**
   * What a measure policy returns: the node's size and its placement
   * action, given by the position it places each child at, in child order.
   */
  datatype MeasureResult = MeasureResult(width: int, height: int, positions: seq<Position>)

  /**
   * A layer's result before its first `measure`. The library's own
   * `NotMeasured` is not part of this model; it is taken to be a 0 by 0
   * result that places nothing.
   */
  const NotMeasured := MeasureResult(0, 0, [])

  /**
   * Measure policies: the one of `root()`, any other policy as the size and
   * placements it computes from its measured children's sizes, and the
   * factory's policy that throws.
   */
  datatype MeasurePolicy =
    | RootMeasure
    | CustomMeasure(layout: seq<Size> -> MeasureResult)
    | ThrowingMeasure

  /** Explicit draw policies: one `write` into the node's canvas, or the factory's policy that throws. */
  datatype DrawPolicy =
    | DrawText(row: int, column: int, text: Text, foreground: Option<Color>, background: Option<Color>, style: Option<TextStyle>)
    | ThrowingDraw

  /**
   * Static draw policies: `StaticDrawPolicy.None`, `StaticDrawPolicy.Children`,
   * any other policy as the canvases it returns, and the factory's policy
   * that throws.
   */
  datatype StaticDrawPolicy =
    | StaticNone
    | StaticChildren
    | StaticCanvases(canvases: seq<TextCanvas>)
    | ThrowingStatics

  /** Debug policies: the one of `root()`, any other policy as the text it returns, and the factory's policy that throws. */
  datatype DebugPolicy =
    | RootDebug
    | CustomDebug(text: Text)
    | ThrowingDebug

  /** A node and its subtree: its policies, its layer's measure result and position, and its children. */
  datatype NodeValue = NodeValue(
    measurePolicy: MeasurePolicy,
    drawPolicy: Option<DrawPolicy>,
    staticDrawPolicy: StaticDrawPolicy,
    debugPolicy: DebugPolicy,
    measured: MeasureResult,
    x: int,
    y: int,
    children: seq<NodeValue>)

  /** A node as the constructor makes it: not measured, at (0, 0), without children. */
  function NewNode(measurePolicy: MeasurePolicy, drawPolicy: Option<DrawPolicy>,
                   staticDrawPolicy: StaticDrawPolicy, debugPolicy: DebugPolicy): NodeValue
  {
    NodeValue(measurePolicy, drawPolicy, staticDrawPolicy, debugPolicy, NotMeasured, 0, 0, [])
  }

  /** `MosaicNode.Factory()`: every policy is the one that throws. */
  function FactoryNode(): NodeValue {
    NewNode(ThrowingMeasure, Some(ThrowingDraw), ThrowingStatics, ThrowingDebug)
  }

  /** `MosaicNode.root()`: overlay measure, no draw policy, the children's statics, the children's debug text. */
  function RootNode(): NodeValue {
    NewNode(RootMeasure, None, StaticChildren, RootDebug)
  }

  function Max(a: int, b: int): int {
    if a < b then b else a
  }

  /** The measured sizes of `cs`, in order. */
  function Sizes(cs: seq<NodeValue>): seq<Size> {
    seq(|cs|, i requires 0 <= i < |cs| => Size(cs[i].measured.width, cs[i].measured.height))
  }

  /** The root's running `width`: 0, raised to each size's width in turn. */
  function MaxWidth(sizes: seq<Size>): int {
    if |sizes| == 0 then 0 else Max(MaxWidth(sizes[..|sizes| - 1]), sizes[|sizes| - 1].width)
  }

  /** The root's running `height`: 0, raised to each size's height in turn. */
  function MaxHeight(sizes: seq<Size>): int {
    if |sizes| == 0 then 0 else Max(MaxHeight(sizes[..|sizes| - 1]), sizes[|sizes| - 1].height)
  }

  /** `count` positions, each at the origin. */
  function Origins(count: nat): (r: seq<Position>)
    ensures |r| == count && forall j :: 0 <= j < count ==> r[j] == Position(0, 0)
  {
    seq(count, _ => Position(0, 0))
  }

  /** The measure result of the root's policy: the largest width and height, every child at (0, 0). */
  function Overlay(sizes: seq<Size>): MeasureResult {
    MeasureResult(MaxWidth(sizes), MaxHeight(sizes), Origins(|sizes|))
  }

  /** The measure result a policy that does not throw computes from its children's sizes. */
  function Layout(policy: MeasurePolicy, sizes: seq<Size>): MeasureResult
    requires !policy.ThrowingMeasure?
  {
    match policy
    case RootMeasure => Overlay(sizes)
    case CustomMeasure(layout) => layout(sizes)
  }

  /**
   * `measure()`: the policy measures the children in order, then the node's
   * layer records the result. The factory's policy throws before anything
   * changes; a child that throws leaves the children before it measured.
   */
  function Measured(n: NodeValue): (r: (NodeValue, Outcome))
    decreases n, |n.children| + 1
  {
    if n.measurePolicy.ThrowingMeasure? then (n, Fail(AssertionFailed))
    else
      var (cs, outcome) := MeasuredChildren(n, 0);
      if outcome.Fail? then (n.(children := cs), outcome)
      else (n.(children := cs, measured := Layout(n.measurePolicy, Sizes(cs))), Pass)
  }

  /** The children of `n` from index `i` on after measuring them in order, and how that ends. */
  function MeasuredChildren(n: NodeValue, i: nat): (r: (seq<NodeValue>, Outcome))
    requires i <= |n.children|
    ensures |r.0| == |n.children| - i
    decreases n, |n.children| - i
  {
    if i == |n.children| then ([], Pass)
    else
      var (c, outcome) := Measured(n.children[i]);
      if outcome.Fail? then ([c] + n.children[i + 1..], outcome)
      else
        var (rest, last) := MeasuredChildren(n, i + 1);
        ([c] + rest, last)
  }

  /**
   * `placeAt(x, y)`: the layer records `x` and `y`, then runs the placement
   * action of its measure result, which places child `i` at position `i`.
   * The children are those of the node when it is placed; the action of the
   * source places the children it measured, which are the same ones unless
   * the list was edited in between.
   */
  function Placed(n: NodeValue, x: int, y: int): (r: NodeValue)
    decreases n, |n.children| + 1
  {
    n.(x := x, y := y, children := PlacedChildren(n, 0))
  }

  /** The children of `n` from index `i` on after the placement action. */
  function PlacedChildren(n: NodeValue, i: nat): (r: seq<NodeValue>)
    requires i <= |n.children|
    ensures |r| == |n.children| - i
    decreases n, |n.children| - i
  {
    if i == |n.children| then []
    else
      var c := n.children[i];
      var placed := if i < |n.measured.positions| then Placed(c, n.measured.positions[i].x, n.measured.positions[i].y) else c;
      [placed] + PlacedChildren(n, i + 1)
  }

  /** The view of `canvas` a child is drawn into: the rows and columns it covers at its position. */
  function ChildView(canvas: TextCanvas, child: NodeValue): Result<TextCanvas> {
    View(canvas, child.y, child.y + child.measured.height - 1, child.x, child.x + child.measured.width - 1)
  }

  /**
   * The layer's `drawTo(canvas)` on pixels `g` of the canvas's surface: an
   * explicit draw policy draws and nothing else happens; without one, each
   * child of non-zero size is drawn into its view, in order.
   */
  ghost function Drawn(n: NodeValue, canvas: TextCanvas, g: Grid): (r: (Grid, Outcome))
    requires IsRectangle(g, Root(canvas).height, Root(canvas).width)
    ensures IsRectangle(r.0, Root(canvas).height, Root(canvas).width)
    decreases n, |n.children| + 1
  {
    match n.drawPolicy
    case Some(DrawText(row, column, text, foreground, background, style)) =>
      WriteFrom(canvas, g, row, column, text, 0, foreground, background, style)
    case Some(ThrowingDraw) => (g, Fail(AssertionFailed))
    case None => DrawnChildren(n, 0, canvas, g)
  }

  /** The children of `n` from index `i` on drawn into `canvas`, skipping those of zero width or height. */
  ghost function DrawnChildren(n: NodeValue, i: nat, canvas: TextCanvas, g: Grid): (r: (Grid, Outcome))
    requires i <= |n.children|
    requires IsRectangle(g, Root(canvas).height, Root(canvas).width)
    ensures IsRectangle(r.0, Root(canvas).height, Root(canvas).width)
    decreases n, |n.children| - i
  {
    if i == |n.children| then (g, Pass)
    else
      var child := n.children[i];
      if child.measured.width == 0 || child.measured.height == 0 then DrawnChildren(n, i + 1, canvas, g)
      else match ChildView(canvas, child)
        case Err(e) => (g, Fail(e))
        case Ok(view) =>
          var (g', outcome) := Drawn(child, view, g);
          if outcome.Fail? then (g', outcome) else DrawnChildren(n, i + 1, canvas, g')
  }

  /** `drawStatics()`: the canvases the static draw policy returns. */
  function Statics(n: NodeValue): Result<seq<TextCanvas>>
    decreases n, |n.children| + 1
  {
    match n.staticDrawPolicy
    case StaticNone => Ok([])
    case StaticChildren => ChildrenStatics(n, 0)
    case StaticCanvases(canvases) => Ok(canvases)
    case ThrowingStatics => Err(AssertionFailed)
  }

  /** `StaticDrawPolicy.Children` from child `i` on: each child's statics, in order, after one another. */
  function ChildrenStatics(n: NodeValue, i: nat): Result<seq<TextCanvas>>
    requires i <= |n.children|
    decreases n, |n.children| - i
  {
    if i == |n.children| then Ok([])
    else match Statics(n.children[i])
      case Err(e) => Err(e)
      case Ok(statics) =>
        match ChildrenStatics(n, i + 1)
        case Err(e) => Err(e)
        case Ok(rest) => Ok(statics + rest)
  }

  /** `toString()`: the text the debug policy returns. */
  function DebugText(n: NodeValue): Result<Text>
    decreases n, |n.children| + 1
  {
    match n.debugPolicy
    case RootDebug =>
      (match ChildrenDebug(n, 0)
       case Err(e) => Err(e)
       case Ok(texts) => Ok(Join(texts, LineFeed)))
    case CustomDebug(text) => Ok(text)
    case ThrowingDebug => Err(AssertionFailed)
  }

  /** The `toString()` of each child from index `i` on, in order. */
  function ChildrenDebug(n: NodeValue, i: nat): Result<seq<Text>>
    requires i <= |n.children|
    decreases n, |n.children| - i
  {
    if i == |n.children| then Ok([])
    else match DebugText(n.children[i])
      case Err(e) => Err(e)
      case Ok(text) =>
        match ChildrenDebug(n, i + 1)
        case Err(e) => Err(e)
        case Ok(rest) => Ok([text] + rest)
  }

  /**
   * The root's size is the largest child width and the largest child height,
   * and (0, 0) without children: each running maximum starts at 0, is at
   * least every size, and is 0 or one of the sizes.
   */
  lemma {:induction false} OverlaySize(sizes: seq<Size>)
    ensures 0 <= MaxWidth(sizes) && 0 <= MaxHeight(sizes)
    ensures forall i :: 0 <= i < |sizes| ==> sizes[i].width <= MaxWidth(sizes) && sizes[i].height <= MaxHeight(sizes)
    ensures MaxWidth(sizes) == 0 || exists i :: 0 <= i < |sizes| && sizes[i].width == MaxWidth(sizes)
    ensures MaxHeight(sizes) == 0 || exists i :: 0 <= i < |sizes| && sizes[i].height == MaxHeight(sizes)
    decreases |sizes|
  {
    if |sizes| != 0 {
      var init := sizes[..|sizes| - 1];
      OverlaySize(init);
      assert forall i :: 0 <= i < |init| ==> init[i] == sizes[i];
    }
  }

  /**
   * Measuring the children from `i` on ends normally exactly when every one
   * of them does, and then each child is replaced by its own measured self.
   */
  lemma {:induction false} MeasureChildrenPasses(n: NodeValue, i: nat)
    requires i <= |n.children|
    ensures MeasuredChildren(n, i).1 == Pass <==> forall j :: i <= j < |n.children| ==> Measured(n.children[j]).1 == Pass
    ensures MeasuredChildren(n, i).1 == Pass ==>
      forall j :: i <= j < |n.children| ==> MeasuredChildren(n, i).0[j - i] == Measured(n.children[j]).0
    decreases |n.children| - i
  {
    hide Measured;
    if i < |n.children| {
      MeasureChildrenPasses(n, i + 1);
    }
  }

  /**
   * `measure()` with the policy of `root()` ends normally exactly when every
   * child's does. Then the root is as wide as the widest of 0 and its
   * children's widths, and likewise for height, so (0, 0) without children
   * or when every child's size is negative; it places every child at
   * (0, 0), and the children are each measured.
   */
  lemma MeasureRoot(n: NodeValue)
    requires n.measurePolicy == RootMeasure
    ensures Measured(n).1 == Pass <==> forall j :: 0 <= j < |n.children| ==> Measured(n.children[j]).1 == Pass
    ensures var m := Measured(n).0;
      Measured(n).1 == Pass ==>
        |m.children| == |n.children|
        && (forall j :: 0 <= j < |n.children| ==> m.children[j] == Measured(n.children[j]).0)
        && 0 <= m.measured.width && 0 <= m.measured.height
        && (forall j :: 0 <= j < |m.children| ==>
              m.children[j].measured.width <= m.measured.width && m.children[j].measured.height <= m.measured.height)
        && (m.measured.width == 0 || exists j :: 0 <= j < |m.children| && m.children[j].measured.width == m.measured.width)
        && (m.measured.height == 0 || exists j :: 0 <= j < |m.children| && m.children[j].measured.height == m.measured.height)
        && (|n.children| == 0 ==> m.measured.width == 0 && m.measured.height == 0)
        && |m.measured.positions| == |m.children|
        && forall j :: 0 <= j < |m.children| ==> m.measured.positions[j] == Position(0, 0)
  {
    hide Measured, MeasuredChildren, Overlay;
    MeasureChildrenPasses(n, 0);
    MeasureUnfolds(n);
    var (cs, outcome) := MeasuredChildren(n, 0);
    if outcome == Pass {
      OverlayBounds(cs);
    }
  }

  /** The root's measure result for measured children `cs`, in terms of the children's sizes. */
  lemma OverlayBounds(cs: seq<NodeValue>)
    ensures var r := Overlay(Sizes(cs));
      0 <= r.width && 0 <= r.height
      && (forall j :: 0 <= j < |cs| ==> cs[j].measured.width <= r.width && cs[j].measured.height <= r.height)
      && (r.width == 0 || exists j :: 0 <= j < |cs| && cs[j].measured.width == r.width)
      && (r.height == 0 || exists j :: 0 <= j < |cs| && cs[j].measured.height == r.height)
      && (|cs| == 0 ==> r.width == 0 && r.height == 0)
      && |r.positions| == |cs| && forall j :: 0 <= j < |cs| ==> r.positions[j] == Position(0, 0)
  {
    var sizes := Sizes(cs);
    OverlaySize(sizes);
    assert forall j :: 0 <= j < |cs| ==> sizes[j] == Size(cs[j].measured.width, cs[j].measured.height);
  }

  /** `measure()` unfolded once, for a policy that does not throw. */
  lemma MeasureUnfolds(n: NodeValue)
    requires !n.measurePolicy.ThrowingMeasure?
    ensures var (cs, outcome) := MeasuredChildren(n, 0);
      Measured(n) == if outcome.Fail? then (n.(children := cs), outcome)
                    else (n.(children := cs, measured := Layout(n.measurePolicy, Sizes(cs))), Pass)
  {
  }

  /** The placement action places child `j` at position `j` when there is one, and leaves the children past the positions alone. */
  lemma {:induction false} PlaceChildrenEach(n: NodeValue, i: nat)
    requires i <= |n.children|
    ensures forall j :: i <= j < |n.children| ==>
      PlacedChildren(n, i)[j - i] == if j < |n.measured.positions|
                                    then Placed(n.children[j], n.measured.positions[j].x, n.measured.positions[j].y)
                                    else n.children[j]
    decreases |n.children| - i
  {
    if i < |n.children| {
      PlaceChildrenEach(n, i + 1);
    }
  }

  /**
   * `placeAt(x, y)` records `x` and `y` and keeps the measure result; a
   * node measured by the policy of `root()` then has every child placed at
   * (0, 0).
   */
  lemma PlaceRoot(n: NodeValue, x: int, y: int)
    requires n.measurePolicy == RootMeasure && Measured(n).1 == Pass
    ensures var m := Measured(n).0; var p := Placed(m, x, y);
      p.x == x && p.y == y && p.measured == m.measured && |p.children| == |m.children|
      && forall j :: 0 <= j < |m.children| ==> p.children[j] == Placed(m.children[j], 0, 0)
  {
    hide Measured, Placed, PlacedChildren;
    var m := Measured(n).0;
    MeasureRoot(n);
    PlaceChildrenEach(m, 0);
    PlacedUnfolds(m, x, y);
    var p := Placed(m, x, y);
    forall j | 0 <= j < |m.children|
      ensures p.children[j] == Placed(m.children[j], 0, 0)
    {
      assert p.children[j] == PlacedChildren(m, 0)[j - 0];
      assert m.measured.positions[j] == Position(0, 0);
    }
  }

  /** With an explicit draw policy `drawTo` does only what the policy does: the children are never drawn. */
  lemma DrawExplicit(n: NodeValue, children: seq<NodeValue>, canvas: TextCanvas, g: Grid)
    requires n.drawPolicy.Some?
    requires IsRectangle(g, Root(canvas).height, Root(canvas).width)
    ensures Drawn(n.(children := children), canvas, g) == Drawn(n, canvas, g)
    ensures n.drawPolicy == Some(ThrowingDraw) ==> Drawn(n, canvas, g) == (g, Fail(AssertionFailed))
  {
  }

  /** `drawTo` changes only cells that its canvas shows. */
  lemma {:induction false} DrawInside(n: NodeValue, canvas: TextCanvas, g: Grid)
    requires IsRectangle(g, Root(canvas).height, Root(canvas).width)
    ensures var g' := Drawn(n, canvas, g).0;
      forall p, q :: 0 <= p < |g| && 0 <= q < Root(canvas).width && !InView(canvas, Address(p, q)) ==> g'[p][q] == g[p][q]
    decreases n, |n.children| + 1
  {
    match n.drawPolicy
    case Some(DrawText(row, column, text, foreground, background, style)) =>
      WriteInside(canvas, g, row, column, text, 0, foreground, background, style);
    case Some(ThrowingDraw) =>
    case None =>
      DrawChildrenInside(n, 0, canvas, g);
  }

  /** Drawing the children from `i` on changes only cells that the canvas shows. */
  lemma {:induction false} DrawChildrenInside(n: NodeValue, i: nat, canvas: TextCanvas, g: Grid)
    requires i <= |n.children|
    requires IsRectangle(g, Root(canvas).height, Root(canvas).width)
    ensures var g' := DrawnChildren(n, i, canvas, g).0;
      forall p, q :: 0 <= p < |g| && 0 <= q < Root(canvas).width && !InView(canvas, Address(p, q)) ==> g'[p][q] == g[p][q]
    decreases n, |n.children| - i
  {
    if i < |n.children| {
      var child := n.children[i];
      if child.measured.width == 0 || child.measured.height == 0 {
        DrawChildrenInside(n, i + 1, canvas, g);
      } else if ChildView(canvas, child).Ok? {
        var view := ChildView(canvas, child).value;
        DrawInside(child, view, g);
        var (g', outcome) := Drawn(child, view, g);
        forall a | !InView(canvas, a)
          ensures !InView(view, a)
        {
          if InView(view, a) {
            ViewInside(canvas, child.y, child.y + child.measured.height - 1, child.x, child.x + child.measured.width - 1, a);
          }
        }
        if outcome.Pass? {
          DrawChildrenInside(n, i + 1, canvas, g');
        }
      }
    }
  }

  /** `n` without its child `k`. */
  function WithoutChild(n: NodeValue, k: nat): NodeValue
    requires k < |n.children|
  {
    n.(children := n.children[..k] + n.children[k + 1..])
  }

  /**
   * Without an explicit draw policy, a child of zero width or height is
   * never drawn: drawing the node is the same as drawing it without that
   * child.
   */
  lemma DrawSkipsEmpty(n: NodeValue, k: nat, canvas: TextCanvas, g: Grid)
    requires n.drawPolicy.None? && k < |n.children|
    requires n.children[k].measured.width == 0 || n.children[k].measured.height == 0
    requires IsRectangle(g, Root(canvas).height, Root(canvas).width)
    ensures Drawn(n, canvas, g) == Drawn(WithoutChild(n, k), canvas, g)
  {
    DrawChildrenBeforeSkipped(n, k, 0, canvas, g);
  }

  /** The step of `DrawSkipsEmpty` for the children before the skipped one. */
  lemma {:induction false} DrawChildrenBeforeSkipped(n: NodeValue, k: nat, i: nat, canvas: TextCanvas, g: Grid)
    requires k < |n.children| && i <= k
    requires n.children[k].measured.width == 0 || n.children[k].measured.height == 0
    requires IsRectangle(g, Root(canvas).height, Root(canvas).width)
    ensures DrawnChildren(n, i, canvas, g) == DrawnChildren(WithoutChild(n, k), i, canvas, g)
    decreases k - i
  {
    var m := WithoutChild(n, k);
    if i == k {
      DrawChildrenAfterSkipped(n, k, k + 1, canvas, g);
    } else {
      assert m.children[i] == n.children[i];
      var child := n.children[i];
      if child.measured.width == 0 || child.measured.height == 0 {
        DrawChildrenBeforeSkipped(n, k, i + 1, canvas, g);
      } else if ChildView(canvas, child).Ok? {
        var (g', outcome) := Drawn(child, ChildView(canvas, child).value, g);
        if outcome.Pass? {
          DrawChildrenBeforeSkipped(n, k, i + 1, canvas, g');
        }
      }
    }
  }

  /** The step of `DrawSkipsEmpty` for the children after the skipped one, which move one place left. */
  lemma {:induction false} DrawChildrenAfterSkipped(n: NodeValue, k: nat, i: nat, canvas: TextCanvas, g: Grid)
    requires k < i <= |n.children|
    requires IsRectangle(g, Root(canvas).height, Root(canvas).width)
    ensures DrawnChildren(n, i, canvas, g) == DrawnChildren(WithoutChild(n, k), i - 1, canvas, g)
    decreases |n.children| - i
  {
    var m := WithoutChild(n, k);
    if i < |n.children| {
      assert m.children[i - 1] == n.children[i];
      var child := n.children[i];
      if child.measured.width == 0 || child.measured.height == 0 {
        DrawChildrenAfterSkipped(n, k, i + 1, canvas, g);
      } else if ChildView(canvas, child).Ok? {
        var (g', outcome) := Drawn(child, ChildView(canvas, child).value, g);
        if outcome.Pass? {
          DrawChildrenAfterSkipped(n, k, i + 1, canvas, g');
        }
      }
    }
  }

  /** The parts put after one another. */
  function Concat<T>(parts: seq<seq<T>>): seq<T> {
    if |parts| == 0 then [] else parts[0] + Concat(parts[1..])
  }

  /** The statics of each node of `cs`, none of which throws. */
  function StaticsOf(cs: seq<NodeValue>): seq<seq<TextCanvas>>
    requires forall j :: 0 <= j < |cs| ==> Statics(cs[j]).Ok?
  {
    seq(|cs|, j requires 0 <= j < |cs| && Statics(cs[j]).Ok? => Statics(cs[j]).value)
  }

  /**
   * `StaticDrawPolicy.Children` from child `i` on throws exactly when some
   * child's `drawStatics()` does, and otherwise returns the children's
   * statics after one another, in child order.
   */
  lemma {:induction false} ChildrenStaticsConcatenate(n: NodeValue, i: nat)
    requires i <= |n.children|
    ensures ChildrenStatics(n, i).Ok? <==> forall j :: i <= j < |n.children| ==> Statics(n.children[j]).Ok?
    ensures ChildrenStatics(n, i).Ok? ==> ChildrenStatics(n, i).value == Concat(StaticsOf(n.children[i..]))
    decreases |n.children| - i
  {
    hide Statics;
    if i < |n.children| {
      ChildrenStaticsConcatenate(n, i + 1);
      if ChildrenStatics(n, i).Ok? {
        var parts := StaticsOf(n.children[i..]);
        assert parts[1..] == StaticsOf(n.children[i + 1..]);
      }
    }
  }

  /**
   * `drawStatics()` of `StaticDrawPolicy.None` is the empty list; that of
   * `StaticDrawPolicy.Children` throws exactly when a child's does, and is
   * otherwise the children's statics in child order.
   */
  lemma StaticsOfPolicies(n: NodeValue)
    ensures n.staticDrawPolicy == StaticNone ==> Statics(n) == Ok([])
    ensures n.staticDrawPolicy == StaticChildren ==>
      (Statics(n).Ok? <==> forall j :: 0 <= j < |n.children| ==> Statics(n.children[j]).Ok?)
    ensures n.staticDrawPolicy == StaticChildren && Statics(n).Ok? ==>
      Statics(n).value == Concat(StaticsOf(n.children))
  {
    ChildrenStaticsConcatenate(n, 0);
    assert n.children[0..] == n.children;
  }

  /** The `toString()` of each node of `cs`, none of which throws. */
  function DebugsOf(cs: seq<NodeValue>): seq<Text>
    requires forall j :: 0 <= j < |cs| ==> DebugText(cs[j]).Ok?
  {
    seq(|cs|, j requires 0 <= j < |cs| && DebugText(cs[j]).Ok? => DebugText(cs[j]).value)
  }

  /** The children's `toString()`s from `i` on are collected in order, unless one throws. */
  lemma {:induction false} ChildrenDebugCollects(n: NodeValue, i: nat)
    requires i <= |n.children|
    ensures ChildrenDebug(n, i).Ok? <==> forall j :: i <= j < |n.children| ==> DebugText(n.children[j]).Ok?
    ensures ChildrenDebug(n, i).Ok? ==> ChildrenDebug(n, i).value == DebugsOf(n.children[i..])
    decreases |n.children| - i
  {
    hide DebugText;
    if i < |n.children| {
      ChildrenDebugCollects(n, i + 1);
      if ChildrenDebug(n, i).Ok? {
        assert ChildrenDebug(n, i).value == [DebugText(n.children[i]).value] + DebugsOf(n.children[i + 1..]);
      }
    }
  }

  /**
   * The root's `toString()` is its children's joined by line feeds. When no
   * child's text holds a line feed, splitting it at line feeds gives back
   * the children's texts.
   */
  lemma RootDebugJoins(n: NodeValue)
    requires n.debugPolicy == RootDebug
    ensures DebugText(n).Ok? <==> forall j :: 0 <= j < |n.children| ==> DebugText(n.children[j]).Ok?
    ensures DebugText(n).Ok? ==> DebugText(n).value == Join(DebugsOf(n.children), LineFeed)
    ensures DebugText(n).Ok? && 1 <= |n.children| && (forall j :: 0 <= j < |n.children| ==> Free(DebugText(n.children[j]).value, LineFeed)) ==>
      Split(DebugText(n).value, LineFeed) == DebugsOf(n.children)
  {
    ChildrenDebugCollects(n, 0);
    assert n.children[0..] == n.children;
    if DebugText(n).Ok? && 1 <= |n.children| && (forall j :: 0 <= j < |n.children| ==> Free(DebugText(n.children[j]).value, LineFeed)) {
      SplitJoin(DebugsOf(n.children), LineFeed);
    }
  }

  /**
   * A policy that throws makes its operation throw, whatever the node's
   * other policies are, so a node made by `Factory` throws on `measure`,
   * `drawTo`, `drawStatics` and `toString` until each policy is replaced.
   */
  lemma ThrowingPoliciesThrow(n: NodeValue, canvas: TextCanvas, g: Grid)
    requires IsRectangle(g, Root(canvas).height, Root(canvas).width)
    ensures n.measurePolicy == ThrowingMeasure ==> Measured(n) == (n, Fail(AssertionFailed))
    ensures n.drawPolicy == Some(ThrowingDraw) ==> Drawn(n, canvas, g) == (g, Fail(AssertionFailed))
    ensures n.staticDrawPolicy == ThrowingStatics ==> Statics(n) == Err(AssertionFailed)
    ensures n.debugPolicy == ThrowingDebug ==> DebugText(n) == Err(AssertionFailed)
    ensures n == FactoryNode() ==>
      Measured(n).1.Fail? && Drawn(n, canvas, g).1.Fail? && Statics(n).Err? && DebugText(n).Err?
  {
  }

  /**
   * `a` and `b` are the same tree with the same policies everywhere; they
   * may differ only in their layers' measure results and positions.
   */
  ghost predicate SameShape(a: NodeValue, b: NodeValue)
    decreases a
  {
    a.measurePolicy == b.measurePolicy && a.drawPolicy == b.drawPolicy
    && a.staticDrawPolicy == b.staticDrawPolicy && a.debugPolicy == b.debugPolicy
    && |a.children| == |b.children|
    && forall j :: 0 <= j < |a.children| ==> SameShape(a.children[j], b.children[j])
  }

  lemma {:induction false} SameShapeReflexive(n: NodeValue)
    ensures SameShape(n, n)
    decreases n
  {
    forall j | 0 <= j < |n.children|
      ensures SameShape(n.children[j], n.children[j])
    {
      SameShapeReflexive(n.children[j]);
    }
  }

  /** `measure()` changes only the layers of the tree: the tree and its policies stay. */
  lemma {:induction false} MeasureKeepsShape(n: NodeValue)
    ensures SameShape(Measured(n).0, n)
    decreases n, |n.children| + 1
  {
    if n.measurePolicy.ThrowingMeasure? {
      SameShapeReflexive(n);
    } else {
      hide Measured, MeasuredChildren, Layout, SameShape;
      MeasureUnfolds(n);
      MeasureChildrenKeepShape(n, 0);
      var cs := MeasuredChildren(n, 0).0;
      forall j | 0 <= j < |cs|
        ensures SameShape(cs[j], n.children[j])
      {
        assert cs[j] == MeasuredChildren(n, 0).0[j - 0];
      }
      SameShapeFromChildren(n.(children := cs), n);
      SameShapeFromChildren(n.(children := cs, measured := Layout(n.measurePolicy, Sizes(cs))), n);
    }
  }

  /** Two nodes with the same policies whose children have pairwise the same shape have the same shape. */
  lemma SameShapeFromChildren(a: NodeValue, b: NodeValue)
    requires a.measurePolicy == b.measurePolicy && a.drawPolicy == b.drawPolicy
    requires a.staticDrawPolicy == b.staticDrawPolicy && a.debugPolicy == b.debugPolicy
    requires |a.children| == |b.children|
    requires forall j :: 0 <= j < |a.children| ==> SameShape(a.children[j], b.children[j])
    ensures SameShape(a, b)
  {
  }

  lemma {:induction false} MeasureChildrenKeepShape(n: NodeValue, i: nat)
    requires i <= |n.children|
    ensures forall j :: i <= j < |n.children| ==> SameShape(MeasuredChildren(n, i).0[j - i], n.children[j])
    decreases n, |n.children| - i
  {
    if i < |n.children| {
      MeasureKeepsShape(n.children[i]);
      var (c, outcome) := Measured(n.children[i]);
      if outcome.Fail? {
        forall j | i < j < |n.children|
          ensures SameShape(n.children[j], n.children[j])
        {
          SameShapeReflexive(n.children[j]);
        }
      } else {
        MeasureChildrenKeepShape(n, i + 1);
      }
    }
  }

  /** `placeAt(x, y)` changes only the layers of the tree: the tree and its policies stay. */
  lemma {:induction false} PlaceKeepsShape(n: NodeValue, x: int, y: int)
    ensures SameShape(Placed(n, x, y), n)
    decreases n, |n.children| + 1
  {
    PlaceChildrenKeepShape(n, 0);
  }

  lemma {:induction false} PlaceChildrenKeepShape(n: NodeValue, i: nat)
    requires i <= |n.children|
    ensures forall j :: i <= j < |n.children| ==> SameShape(PlacedChildren(n, i)[j - i], n.children[j])
    decreases n, |n.children| - i
  {
    if i < |n.children| {
      var c := n.children[i];
      if i < |n.measured.positions| {
        PlaceKeepsShape(c, n.measured.positions[i].x, n.measured.positions[i].y);
      } else {
        SameShapeReflexive(c);
      }
      PlaceChildrenKeepShape(n, i + 1);
    }
  }

  /** `drawStatics()` and `toString()` depend only on the tree and its policies, not on the layers. */
  lemma {:induction false} ShapeDecidesStatics(a: NodeValue, b: NodeValue)
    requires SameShape(a, b)
    ensures Statics(a) == Statics(b) && DebugText(a) == DebugText(b)
    decreases a, |a.children| + 1
  {
    ChildrenShapeDecideStatics(a, b, 0);
  }

  lemma {:induction false} ChildrenShapeDecideStatics(a: NodeValue, b: NodeValue, i: nat)
    requires SameShape(a, b) && i <= |a.children|
    ensures ChildrenStatics(a, i) == ChildrenStatics(b, i) && ChildrenDebug(a, i) == ChildrenDebug(b, i)
    decreases a, |a.children| - i
  {
    if i < |a.children| {
      ShapeDecidesStatics(a.children[i], b.children[i]);
      ChildrenShapeDecideStatics(a, b, i + 1);
    }
  }

  /** One step of measuring the children: child `i` measured, then the rest unless it failed; nothing after the last. */
  lemma MeasuredChildrenStep(n: NodeValue, i: nat)
    requires i <= |n.children|
    ensures i == |n.children| ==> MeasuredChildren(n, i) == ([], Pass)
    ensures i < |n.children| ==> var (c, outcome) := Measured(n.children[i]);
      MeasuredChildren(n, i) == if outcome.Fail? then ([c] + n.children[i + 1..], outcome)
                               else ([c] + MeasuredChildren(n, i + 1).0, MeasuredChildren(n, i + 1).1)
  {
  }

  /** Replacing the first element of `cs[i..]` after `done`, seen from either side of it. */
  lemma Replaced<T>(done: seq<T>, cs: seq<T>, i: nat, c: T)
    requires |done| == i < |cs|
    ensures (done + cs[i..])[i := c] == done + ([c] + cs[i + 1..])
    ensures (done + cs[i..])[i := c] == (done + [c]) + cs[i + 1..]
  {
  }

  /**
   * The state of the measure loop after `i` children of `m0`: they were
   * measured into `done` without failing, `sizes` are their sizes and
   * `width` and `height` the running maxima of the root's policy.
   */
  ghost predicate MeasureContinues(m0: NodeValue, i: nat, done: seq<NodeValue>, sizes: seq<Size>, width: int, height: int) {
    i <= |m0.children| && |done| == i && sizes == Sizes(done) && width == MaxWidth(sizes) && height == MaxHeight(sizes)
    && MeasuredChildren(m0, 0).0 == done + MeasuredChildren(m0, i).0
    && MeasuredChildren(m0, 0).1 == MeasuredChildren(m0, i).1
  }

  lemma MeasureBegins(m0: NodeValue)
    ensures MeasureContinues(m0, 0, [], [], 0, 0)
  {
    assert [] + MeasuredChildren(m0, 0).0 == MeasuredChildren(m0, 0).0;
  }

  lemma MeasureStep(m0: NodeValue, i: nat, done: seq<NodeValue>, sizes: seq<Size>, width: int, height: int, c: NodeValue)
    requires MeasureContinues(m0, i, done, sizes, width, height) && i < |m0.children|
    requires Measured(m0.children[i]) == (c, Pass)
    ensures MeasureContinues(m0, i + 1, done + [c], sizes + [Size(c.measured.width, c.measured.height)],
                             Max(width, c.measured.width), Max(height, c.measured.height))
  {
    hide Measured;
    MeasuredChildrenStep(m0, i);
    MaxStep(sizes, Size(c.measured.width, c.measured.height));
    assert Sizes(done + [c]) == sizes + [Size(c.measured.width, c.measured.height)];
    assert done + ([c] + MeasuredChildren(m0, i + 1).0) == (done + [c]) + MeasuredChildren(m0, i + 1).0;
  }

  lemma MeasureStops(m0: NodeValue, i: nat, done: seq<NodeValue>, sizes: seq<Size>, width: int, height: int, c: NodeValue, outcome: Outcome)
    requires MeasureContinues(m0, i, done, sizes, width, height) && i < |m0.children|
    requires !m0.measurePolicy.ThrowingMeasure?
    requires Measured(m0.children[i]) == (c, outcome) && outcome.Fail?
    ensures Measured(m0) == (m0.(children := done + ([c] + m0.children[i + 1..])), outcome)
  {
    hide Measured;
    MeasureUnfolds(m0);
    MeasuredChildrenStep(m0, i);
  }

  lemma MeasureEnds(m0: NodeValue, done: seq<NodeValue>, sizes: seq<Size>, width: int, height: int)
    requires MeasureContinues(m0, |m0.children|, done, sizes, width, height)
    requires !m0.measurePolicy.ThrowingMeasure?
    ensures Measured(m0) == (m0.(children := done, measured := if m0.measurePolicy.RootMeasure? then MeasureResult(width, height, Origins(|sizes|))
                                                          else m0.measurePolicy.layout(sizes)), Pass)
  {
    hide Measured;
    MeasureUnfolds(m0);
    MeasuredChildrenStep(m0, |m0.children|);
    assert done + [] == done;
  }

  /** `measure()` of a node whose measure policy throws changes nothing. */
  lemma ThrowingPoliciesThrowMeasure(n: NodeValue)
    requires n.measurePolicy.ThrowingMeasure?
    ensures Measured(n) == (n, Fail(AssertionFailed))
  {
  }

  /** The running maxima after one more size. */
  lemma MaxStep(sizes: seq<Size>, s: Size)
    ensures MaxWidth(sizes + [s]) == Max(MaxWidth(sizes), s.width)
    ensures MaxHeight(sizes + [s]) == Max(MaxHeight(sizes), s.height)
  {
    assert (sizes + [s])[..|sizes|] == sizes;
  }

  /** `done` followed by `[x] + rest` regrouped. */
  lemma Regrouped<T>(done: seq<T>, x: T, rest: seq<T>)
    ensures done + ([x] + rest) == (done + [x]) + rest
  {
  }

  /** One step of the placement action, and `placeAt` unfolded. */
  lemma PlacedChildrenStep(n: NodeValue, i: nat)
    requires i < |n.children|
    ensures PlacedChildren(n, i) == [if i < |n.measured.positions|
                                     then Placed(n.children[i], n.measured.positions[i].x, n.measured.positions[i].y)
                                     else n.children[i]] + PlacedChildren(n, i + 1)
  {
  }

  /** The placement action leaves the children past its positions as they are. */
  lemma {:induction false} PlacedChildrenRest(n: NodeValue, i: nat)
    requires i <= |n.children| && (i == |n.children| || |n.measured.positions| <= i)
    ensures PlacedChildren(n, i) == n.children[i..]
    decreases |n.children| - i
  {
    if i < |n.children| {
      PlacedChildrenRest(n, i + 1);
      assert n.children[i..] == [n.children[i]] + n.children[i + 1..];
    }
  }

  lemma PlacedUnfolds(n: NodeValue, x: int, y: int)
    ensures Placed(n, x, y) == n.(x := x, y := y, children := PlacedChildren(n, 0))
  {
  }

  /** `drawTo` without a draw policy draws the children. */
  lemma DrawnNone(n: NodeValue, canvas: TextCanvas, g: Grid)
    requires n.drawPolicy.None? && IsRectangle(g, Root(canvas).height, Root(canvas).width)
    ensures Drawn(n, canvas, g) == DrawnChildren(n, 0, canvas, g)
  {
  }

  /** One step of drawing the children, and nothing after the last. */
  lemma DrawnChildrenStep(n: NodeValue, i: nat, canvas: TextCanvas, g: Grid)
    requires i <= |n.children| && IsRectangle(g, Root(canvas).height, Root(canvas).width)
    ensures i == |n.children| ==> DrawnChildren(n, i, canvas, g) == (g, Pass)
    ensures i < |n.children| ==> var child := n.children[i];
      DrawnChildren(n, i, canvas, g) ==
        if child.measured.width == 0 || child.measured.height == 0 then DrawnChildren(n, i + 1, canvas, g)
        else match ChildView(canvas, child)
          case Err(e) => (g, Fail(e))
          case Ok(view) =>
            var (g', outcome) := Drawn(child, view, g);
            if outcome.Fail? then (g', outcome) else DrawnChildren(n, i + 1, canvas, g')
  {
  }

  /** `acc` put in front of the list a `Result` holds, if it holds one. */
  function WithPrefix<T>(acc: seq<T>, r: Result<seq<T>>): Result<seq<T>> {
    match r
    case Ok(rest) => Ok(acc + rest)
    case Err(e) => Err(e)
  }

  lemma PrefixedRegroups<T>(acc: seq<T>, more: seq<T>, r: Result<seq<T>>)
    ensures WithPrefix(acc, match r case Ok(rest) => Ok(more + rest) case Err(e) => Err(e)) == WithPrefix(acc + more, r)
  {
    if r.Ok? {
      assert acc + (more + r.value) == (acc + more) + r.value;
    }
  }

  lemma StaticsUnfold(n: NodeValue)
    requires n.staticDrawPolicy == StaticChildren
    ensures Statics(n) == ChildrenStatics(n, 0) && WithPrefix([], ChildrenStatics(n, 0)) == ChildrenStatics(n, 0)
  {
    if ChildrenStatics(n, 0).Ok? {
      assert [] + ChildrenStatics(n, 0).value == ChildrenStatics(n, 0).value;
    }
  }

  /** One step of `StaticDrawPolicy.Children`, and nothing after the last child. */
  lemma ChildrenStaticsStep(n: NodeValue, i: nat)
    requires i <= |n.children|
    ensures i == |n.children| ==> ChildrenStatics(n, i) == Ok([])
    ensures i < |n.children| ==>
              ChildrenStatics(n, i) ==
                match Statics(n.children[i])
                case Err(e) => Err(e)
                case Ok(statics) => match ChildrenStatics(n, i + 1) case Ok(rest) => Ok(statics + rest) case Err(e) => Err(e)
  {
  }

  lemma DebugUnfold(n: NodeValue)
    requires n.debugPolicy == RootDebug
    ensures DebugText(n) == (match ChildrenDebug(n, 0) case Err(e) => Err(e) case Ok(texts) => Ok(Join(texts, LineFeed)))
    ensures WithPrefix([], ChildrenDebug(n, 0)) == ChildrenDebug(n, 0)
  {
    if ChildrenDebug(n, 0).Ok? {
      assert [] + ChildrenDebug(n, 0).value == ChildrenDebug(n, 0).value;
    }
  }

  /** One step of collecting the children's `toString()`s, and nothing after the last child. */
  lemma ChildrenDebugStep(n: NodeValue, i: nat)
    requires i <= |n.children|
    ensures i == |n.children| ==> ChildrenDebug(n, i) == Ok([])
    ensures i < |n.children| ==>
              ChildrenDebug(n, i) ==
                match DebugText(n.children[i])
                case Err(e) => Err(e)
                case Ok(text) => match ChildrenDebug(n, i + 1) case Ok(rest) => Ok([text] + rest) case Err(e) => Err(e)
  {
  }

  /**
   * `MosaicNode`: its four policies, its children, and its layer's measure
   * result and position. `model` is the node and its subtree as a value and
   * `Repr` the set of nodes of the subtree.
   */
  class MosaicNode {
    var measurePolicy: MeasurePolicy
    var drawPolicy: Option<DrawPolicy>
    var staticDrawPolicy: StaticDrawPolicy
    var debugPolicy: DebugPolicy
    var children: seq<MosaicNode>
    var measureResult: MeasureResult
    var x: int
    var y: int
    ghost var model: NodeValue
    ghost var Repr: set<MosaicNode>

    /** `model` holds this node's policies and layer; each child is a valid subtree that `model.children` holds. */
    ghost predicate Valid()
      reads this, Repr
      ensures Valid() ==> this in Repr
      decreases Repr, 1
    {
      this in Repr && Mirrors() && ChildrenAre(model.children)
    }

    /** True if the fields of this node are those `model` records. */
    ghost predicate Mirrors()
      reads this
    {
      model.measurePolicy == measurePolicy && model.drawPolicy == drawPolicy
      && model.staticDrawPolicy == staticDrawPolicy && model.debugPolicy == debugPolicy
      && model.measured == measureResult && model.x == x && model.y == y
      && |model.children| == |children|
    }

    /**
     * True if the children are valid subtrees with models `models`, their
     * nodes belong to `Repr` but are not this node, and no two children
     * share a node.
     */
    ghost predicate ChildrenAre(models: seq<NodeValue>)
      reads this`children, this`Repr, Repr - {this}
      decreases Repr, 0
    {
      this in Repr && |models| == |children|
      && (forall i :: 0 <= i < |children| ==>
            children[i] in Repr && children[i] != this && children[i].Repr <= Repr && this !in children[i].Repr
            && children[i].Valid() && children[i].model == models[i])
      && (forall i, j :: 0 <= i < j < |children| ==> children[i].Repr !! children[j].Repr)
    }

    /** What `ChildrenAre` says of child `i`; so it says that this node belongs to `Repr`. */
    lemma ChildAt(models: seq<NodeValue>, i: nat)
      requires ChildrenAre(models) && i < |children|
      ensures children[i] in Repr && children[i] != this && children[i].Repr <= Repr && this !in children[i].Repr
      ensures children[i].Valid() && children[i].model == models[i] && |models| == |children| && this in Repr
    {
    }

    /** A node with the given policies, not measured, at (0, 0), without children. */
    constructor (measurePolicy: MeasurePolicy, drawPolicy: Option<DrawPolicy>,
                 staticDrawPolicy: StaticDrawPolicy, debugPolicy: DebugPolicy)
      ensures Valid() && fresh(Repr)
      ensures model == NewNode(measurePolicy, drawPolicy, staticDrawPolicy, debugPolicy)
    {
      this.measurePolicy := measurePolicy;
      this.drawPolicy := drawPolicy;
      this.staticDrawPolicy := staticDrawPolicy;
      this.debugPolicy := debugPolicy;
      children := [];
      measureResult := NotMeasured;
      x, y := 0, 0;
      model := NewNode(measurePolicy, drawPolicy, staticDrawPolicy, debugPolicy);
      Repr := {this};
    }

    /** `MosaicNode.Factory`: a new node whose every policy throws. */
    static method Factory() returns (n: MosaicNode)
      ensures n.Valid() && fresh(n.Repr) && n.model == FactoryNode()
    {
      n := new MosaicNode(ThrowingMeasure, Some(ThrowingDraw), ThrowingStatics, ThrowingDebug);
    }

    /** `MosaicNode.root()`: a new node with the root's policies. */
    static method CreateRoot() returns (n: MosaicNode)
      ensures n.Valid() && fresh(n.Repr) && n.model == RootNode()
    {
      n := new MosaicNode(RootMeasure, None, StaticChildren, RootDebug);
    }

    /**
     * `measure()`: the policy measures the children in order (the root's
     * keeping the largest width and height so far), then the layer records
     * what the policy returns. The tree changes as `Measured` says.
     */
    method Measure() returns (outcome: Outcome)
      requires Valid()
      modifies Repr
      ensures Valid() && Repr == old(Repr)
      ensures (model, outcome) == Measured(old(model))
      decreases Repr, 2
    {
      hide Measured, ChildrenAre, MeasureContinues;
      if measurePolicy.ThrowingMeasure? {
        ThrowingPoliciesThrowMeasure(model);
        return Fail(AssertionFailed);
      }
      ghost var m0 := model;
      var sizes: seq<Size> := [];
      var width, height := 0, 0;
      ghost var done: seq<NodeValue> := [];
      MeasureBegins(m0);
      assert done + m0.children[0..] == m0.children;
      var i := 0;
      while i < |children|
        invariant i <= |children| && |done| == i
        invariant unchanged(this)
        invariant ChildrenAre(done + m0.children[i..])
        invariant MeasureContinues(m0, i, done, sizes, width, height)
      {
        ghost var models := done + m0.children[i..];
        ChildAt(models, i);
        var child := children[i];
        var childOutcome := MeasureChild(i, models);
        Replaced(done, m0.children, i, child.model);
        if childOutcome.Fail? {
          MeasureStops(m0, i, done, sizes, width, height, child.model, childOutcome);
          model := m0.(children := done + ([child.model] + m0.children[i + 1..]));
          return childOutcome;
        }
        var size := Size(child.measureResult.width, child.measureResult.height);
        MeasureStep(m0, i, done, sizes, width, height, child.model);
        sizes := sizes + [size];
        width := Max(width, size.width);
        height := Max(height, size.height);
        done := done + [child.model];
        i := i + 1;
      }
      MeasureEnds(m0, done, sizes, width, height);
      assert done + m0.children[i..] == done;
      measureResult := if measurePolicy.RootMeasure? then MeasureResult(width, height, Origins(|sizes|))
                       else measurePolicy.layout(sizes);
      model := m0.(children := done, measured := measureResult);
      assert Mirrors();
      assert ChildrenAre(model.children);
      return Pass;
    }

    /** `measurable.measure()` on child `i` inside a measure policy: only that child's subtree changes. */
    method MeasureChild(i: nat, ghost models: seq<NodeValue>) returns (outcome: Outcome)
      requires i < |children| && ChildrenAre(models)
      modifies children[i].Repr
      ensures ChildrenAre(models[i := children[i].model])
      ensures (children[i].model, outcome) == Measured(models[i])
      ensures children[i].measureResult == children[i].model.measured
      decreases Repr, 1
    {
      ChildAt(models, i);
      var child := children[i];
      outcome := child.Measure();
    }

    /**
     * `placeAt(x, y)`: the layer records `x` and `y`, then runs the
     * placement action of its measure result, which places child `k` at
     * position `k` of the result. The tree changes as `Placed` says.
     */
    method PlaceAt(x: int, y: int)
      requires Valid()
      modifies Repr
      ensures Valid() && Repr == old(Repr)
      ensures model == Placed(old(model), x, y)
      decreases Repr, 2
    {
      hide Placed, PlacedChildren, ChildrenAre;
      ghost var m0 := model;
      assert Mirrors();
      this.x := x;
      this.y := y;
      ghost var done: seq<NodeValue> := [];
      assert done + m0.children[0..] == m0.children;
      assert PlacedChildren(m0, 0) == done + PlacedChildren(m0, 0);
      var i := 0;
      while i < |children| && i < |measureResult.positions|
        invariant i <= |children| && |done| == i
        invariant children == old(children) && Repr == old(Repr) && measureResult == m0.measured && model == m0
        invariant this in Repr && |m0.children| == |children|
        invariant unchanged(this`measurePolicy, this`drawPolicy, this`staticDrawPolicy, this`debugPolicy)
        invariant this.x == x && this.y == y
        invariant ChildrenAre(done + m0.children[i..])
        invariant PlacedChildren(m0, 0) == done + PlacedChildren(m0, i)
      {
        ghost var models := done + m0.children[i..];
        ChildAt(models, i);
        var child := children[i];
        var position := measureResult.positions[i];
        PlaceChild(i, models, position.x, position.y);
        Replaced(done, m0.children, i, child.model);
        PlacedChildrenStep(m0, i);
        Regrouped(done, child.model, PlacedChildren(m0, i + 1));
        done := done + [child.model];
        i := i + 1;
      }
      PlacedChildrenRest(m0, i);
      model := m0.(x := x, y := y, children := done + m0.children[i..]);
      PlacedUnfolds(m0, x, y);
      assert Mirrors();
      assert ChildrenAre(model.children);
    }

    /** `placeable.place(x, y)` on child `i` in a placement action: only that child's subtree changes. */
    method PlaceChild(i: nat, ghost models: seq<NodeValue>, x: int, y: int)
      requires i < |children| && ChildrenAre(models)
      modifies children[i].Repr
      ensures ChildrenAre(models[i := children[i].model])
      ensures children[i].model == Placed(models[i], x, y)
      decreases Repr, 1
    {
      ChildAt(models, i);
      children[i].PlaceAt(x, y);
    }

    /**
     * The layer's `drawTo(canvas)`: the draw policy if there is one, and
     * otherwise each child of non-zero size drawn into the view of `canvas`
     * it covers. The pixels change as `Drawn` says.
     */
    method DrawTo(canvas: TextCanvas) returns (outcome: Outcome)
      requires Valid() && Root(canvas).Valid()
      modifies Root(canvas).rows
      ensures (Root(canvas).Cells(), outcome) == Drawn(model, canvas, old(Root(canvas).Cells()))
      decreases Repr
    {
      match drawPolicy
      case Some(DrawText(row, column, text, foreground, background, style)) =>
        outcome := Write(canvas, row, column, text, foreground, background, style);
      case Some(ThrowingDraw) =>
        outcome := Fail(AssertionFailed);
      case None =>
        hide Drawn, ChildrenAre;
        DrawnNone(model, canvas, old(Root(canvas).Cells()));
        var i := 0;
        while i < |children|
          invariant i <= |children|
          invariant DrawnChildren(model, i, canvas, Root(canvas).Cells()) == DrawnChildren(model, 0, canvas, old(Root(canvas).Cells()))
        {
          ChildAt(model.children, i);
          var child := children[i];
          ghost var before := Root(canvas).Cells();
          DrawnChildrenStep(model, i, canvas, before);
          if child.measureResult.width != 0 && child.measureResult.height != 0 {
            var left := child.x;
            var top := child.y;
            var right := left + child.measureResult.width - 1;
            var bottom := top + child.measureResult.height - 1;
            var view := View(canvas, top, bottom, left, right);
            if view.Err? {
              return Fail(view.error);
            }
            var childOutcome := child.DrawTo(view.value);
            if childOutcome.Fail? {
              return childOutcome;
            }
          }
          i := i + 1;
        }
        DrawnChildrenStep(model, i, canvas, Root(canvas).Cells());
        outcome := Pass;
    }

    /**
     * `draw()`: measures the tree, places it at (0, 0) and draws it into a
     * new surface of its measured size. A negative size cannot be allocated.
     */
    method Draw() returns (r: Result<TextSurface>, ghost surface: TextSurface?)
      requires Valid()
      modifies Repr
      ensures Valid() && Repr == old(Repr)
      ensures var (measured, o) := Measured(old(model));
        if o.Fail? then model == measured && r == Err(o.error) else model == Placed(measured, 0, 0)
      ensures var (measured, o) := Measured(old(model)); var w, h := measured.measured.width, measured.measured.height;
        o.Pass? && (w < 0 || h < 0) ==> r == Err(NegativeArraySize)
      ensures var (measured, o) := Measured(old(model)); var w, h := measured.measured.width, measured.measured.height;
        o.Pass? && 0 <= w && 0 <= h ==>
          surface != null && fresh(surface) && fresh(surface.rows) && surface.Valid()
          && surface.width == w && surface.height == h
          && (r.Ok? ==> r.value == surface)
          && (surface.Cells(), if r.Ok? then Pass else Fail(r.error)) == Drawn(model, Whole(surface), Blank(h, w))
    {
      var measured := Measure();
      if measured.Fail? {
        return Err(measured.error), null;
      }
      PlaceAt(0, 0);
      var width, height := measureResult.width, measureResult.height;
      if width < 0 || height < 0 {
        return Err(NegativeArraySize), null;
      }
      var s := new TextSurface(width, height);
      surface := s;
      var drawn := DrawTo(Whole(s));
      if drawn.Fail? {
        return Err(drawn.error), s;
      }
      return Ok(s), s;
    }

    /**
     * `drawStatics()`: the static draw policy's canvases; that of
     * `StaticDrawPolicy.Children` collects the children's in order, starting
     * its list at the first child that has any.
     */
    method DrawStatics() returns (r: Result<seq<TextCanvas>>)
      requires Valid()
      ensures r == Statics(model)
      decreases Repr
    {
      match staticDrawPolicy
      case StaticNone =>
        r := Ok([]);
      case StaticChildren =>
        hide Statics, ChildrenStatics, ChildrenAre;
        StaticsUnfold(model);
        var statics: Option<seq<TextCanvas>> := None;
        var i := 0;
        while i < |children|
          invariant i <= |children|
          invariant ChildrenStatics(model, 0) == WithPrefix(if statics.Some? then statics.value else [], ChildrenStatics(model, i))
        {
          ChildAt(model.children, i);
          var childStatics := children[i].DrawStatics();
          ChildrenStaticsStep(model, i);
          if childStatics.Err? {
            return Err(childStatics.error);
          }
          ghost var acc := if statics.Some? then statics.value else [];
          if |childStatics.value| != 0 {
            if statics.None? {
              statics := Some([]);
            }
            statics := Some(statics.value + childStatics.value);
          } else {
            assert acc + childStatics.value == acc;
          }
          PrefixedRegroups(acc, childStatics.value, ChildrenStatics(model, i + 1));
          i := i + 1;
        }
        ChildrenStaticsStep(model, i);
        var result := if statics.Some? then statics.value else [];
        assert result + [] == result;
        r := Ok(result);
      case StaticCanvases(canvases) =>
        r := Ok(canvases);
      case ThrowingStatics =>
        r := Err(AssertionFailed);
    }

    /** `toString()`: the debug policy's text; that of `root()` joins the children's texts with line feeds. */
    method ToString() returns (r: Result<Text>)
      requires Valid()
      ensures r == DebugText(model)
      decreases Repr
    {
      match debugPolicy
      case RootDebug =>
        hide DebugText, ChildrenDebug, ChildrenAre, Join;
        DebugUnfold(model);
        var s: Text := [];
        ghost var texts: seq<Text> := [];
        var i := 0;
        while i < |children|
          invariant i <= |children| && |texts| == i
          invariant s == Join(texts, LineFeed)
          invariant ChildrenDebug(model, 0) == WithPrefix(texts, ChildrenDebug(model, i))
        {
          ChildAt(model.children, i);
          if i > 0 {
            s := s + [LineFeed];
          }
          var text := children[i].ToString();
          ChildrenDebugStep(model, i);
          if text.Err? {
            return Err(text.error);
          }
          JoinAppend(texts, text.value, LineFeed);
          PrefixedRegroups(texts, [text.value], ChildrenDebug(model, i + 1));
          s := s + text.value;
          texts := texts + [text.value];
          i := i + 1;
        }
        ChildrenDebugStep(model, i);
        assert texts + [] == texts;
        r := Ok(s);
      case CustomDebug(text) =>
        r := Ok(text);
      case ThrowingDebug =>
        r := Err(AssertionFailed);
    }

    /**
     * `children.add(index, instance)`: a subtree of its own joins the
     * children at `index`. The list does not check that `instance` shares no
     * node with this one; the model requires it, as every node reaches the
     * applier fresh from `Factory` with only its own subtree below it, so
     * each node has one parent.
     */
    method AddChild(index: int, instance: MosaicNode) returns (outcome: Outcome)
      requires Valid() && instance.Valid() && Repr !! instance.Repr
      modifies this
      ensures Valid()
      ensures var r := Inserted(old(model.children), index, instance.model);
        if r.Ok? then outcome == Pass && model == old(model).(children := r.value)
                      && children == Inserted(old(children), index, instance).value && Repr == old(Repr) + instance.Repr
        else outcome == Fail(r.error) && unchanged(this)
    {
      hide Inserted;
      var added := Inserted(children, index, instance);
      if added.Err? {
        return Fail(added.error);
      }
      ghost var kids, models := children, model.children;
      children := added.value;
      Repr := Repr + instance.Repr;
      model := model.(children := Inserted(models, index, instance.model).value);
      forall k | 0 <= k < |children|
        ensures children[k] in Repr && children[k] != this && children[k].Repr <= Repr && this !in children[k].Repr
        ensures children[k].Valid() && children[k].model == model.children[k]
      {
        if k != index {
          var j := InsertedSource(index, k);
          assert children[k] == kids[j] && model.children[k] == models[j];
        }
      }
      forall i, j | 0 <= i < j < |children|
        ensures children[i].Repr !! children[j].Repr
      {
        if i != index && j != index {
          assert InsertedSource(index, i) != InsertedSource(index, j);
        }
      }
      outcome := Pass;
    }

    /** `children.remove(index, count)`: the children in that range leave the list. */
    method RemoveChildren(index: int, count: int) returns (outcome: Outcome)
      requires Valid()
      modifies this
      ensures Valid() && Repr == old(Repr)
      ensures var r := Removed(old(model.children), index, count);
        if r.Ok? then outcome == Pass && model == old(model).(children := r.value)
                      && children == Removed(old(children), index, count).value
        else outcome == Fail(r.error) && unchanged(this)
    {
      hide Removed;
      var removed := Removed(children, index, count);
      if removed.Err? {
        return Fail(removed.error);
      }
      ghost var kids, models := children, model.children;
      children := removed.value;
      model := model.(children := Removed(models, index, count).value);
      forall k | 0 <= k < |children|
        ensures children[k] in Repr && children[k] != this && children[k].Repr <= Repr && this !in children[k].Repr
        ensures children[k].Valid() && children[k].model == model.children[k]
      {
        var j := RemovedSource(index, count, k);
        assert children[k] == kids[j] && model.children[k] == models[j];
      }
      forall i, j | 0 <= i < j < |children|
        ensures children[i].Repr !! children[j].Repr
      {
        assert RemovedSource(index, count, i) < RemovedSource(index, count, j);
      }
      outcome := Pass;
    }

    /**
     * `children.move(from, to, count)`: the children change as `Moved` says,
     * including the case where the block has been taken out when the call
     * fails.
     */
    method MoveChildren(from: int, to: int, count: int) returns (outcome: Outcome)
      requires Valid()
      modifies this
      ensures Valid() && Repr == old(Repr)
      ensures var r := Moved(old(model.children), from, to, count);
        outcome == r.1 && model == old(model).(children := r.0)
        && children == Moved(old(children), from, to, count).0
    {
      hide Moved, Removed;
      ghost var kids, models := children, model.children;
      var moved := Moved(children, from, to, count);
      children := moved.0;
      model := model.(children := Moved(models, from, to, count).0);
      if moved.1.Pass? {
        forall k | 0 <= k < |children|
          ensures children[k] in Repr && children[k] != this && children[k].Repr <= Repr && this !in children[k].Repr
          ensures children[k].Valid() && children[k].model == model.children[k]
        {
          var j := MovedSource(from, to, count, k);
          assert children[k] == kids[j] && model.children[k] == models[j];
        }
        forall i, j | 0 <= i < j < |children|
          ensures children[i].Repr !! children[j].Repr
        {
          MovedSourceInjective(from, to, count, |kids|, i, j);
        }
      } else if !Swaps(from, to, count) && Removed(kids, from, count).Ok? {
        forall k | 0 <= k < |children|
          ensures children[k] in Repr && children[k] != this && children[k].Repr <= Repr && this !in children[k].Repr
          ensures children[k].Valid() && children[k].model == model.children[k]
        {
          var j := RemovedSource(from, count, k);
          assert children[k] == kids[j] && model.children[k] == models[j];
        }
        forall i, j | 0 <= i < j < |children|
          ensures children[i].Repr !! children[j].Repr
        {
          assert RemovedSource(from, count, i) < RemovedSource(from, count, j);
        }
      }
      outcome := moved.1;
    }
  }

  /**
   * `MosaicNodeApplier`: the runtime tells it where in the tree it is
   * (`current`) and how to edit that node's children, which are built bottom
   * up.
   */
  class MosaicNodeApplier {
    var current: MosaicNode

    ghost predicate Valid()
      reads this, current, current.Repr
    {
      current.Valid()
    }

    constructor (root: MosaicNode)
      requires root.Valid()
      ensures Valid() && current == root
    {
      current := root;
    }

    /** `insertTopDown`: ignored, since the tree is built bottom up. */
    method InsertTopDown(index: int, instance: MosaicNode)
      requires Valid()
      ensures Valid() && current.model == old(current.model)
    {
    }

    /**
     * `insertBottomUp(index, instance)`: `instance` becomes child `index` of
     * the current node. `instance` is a node made by `Factory` with its own
     * subtree already built below it, so it shares no node with the current
     * one.
     */
    method InsertBottomUp(index: int, instance: MosaicNode) returns (outcome: Outcome)
      requires Valid() && instance.Valid() && current.Repr !! instance.Repr
      modifies current
      ensures Valid()
      ensures var r := Inserted(old(current.model.children), index, instance.model);
        if r.Ok? then outcome == Pass && current.model == old(current.model).(children := r.value)
        else outcome == Fail(r.error) && current.model == old(current.model)
    {
      outcome := current.AddChild(index, instance);
    }

    /** `remove(index, count)`: the current node's children in that range are taken out. */
    method Remove(index: int, count: int) returns (outcome: Outcome)
      requires Valid()
      modifies current
      ensures Valid()
      ensures var r := Removed(old(current.model.children), index, count);
        if r.Ok? then outcome == Pass && current.model == old(current.model).(children := r.value)
        else outcome == Fail(r.error) && current.model == old(current.model)
    {
      outcome := current.RemoveChildren(index, count);
    }

    /**
     * `move(from, to, count)`: the current node's children change as `Moved`
     * says, which may take the block out even when the call fails.
     */
    method Move(from: int, to: int, count: int) returns (outcome: Outcome)
      requires Valid()
      modifies current
      ensures Valid()
      ensures var r := Moved(old(current.model.children), from, to, count);
        outcome == r.1 && current.model == old(current.model).(children := r.0)
    {
      outcome := current.MoveChildren(from, to, count);
    }
  }
}
