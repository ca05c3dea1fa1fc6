# Mosaic rendering core in Dafny

This project models the core of Mosaic's terminal renderer and proves its contracts:

- **Canvases** (`canvas.kt`):
  - `TextSurface` owns a grid of `TextPixel`s.
  - `ClippedTextCanvas` is a rectangular view onto another canvas.
  - `get`, `empty`, `write` and `fill` are modelled.
  - `render` serialises a rectangle of pixels to text with ANSI SGR escapes.
- **Nodes** (`nodes.kt`):
  - `MosaicNode` has four policies, a layer and its children. It measures, places and draws itself, and draws its statics and debug text.
  - `MosaicNode.root()` and `MosaicNode.Factory` are modelled.
  - The `MosaicNodeApplier` edits the child lists.
- **Rendering** (`rendering.kt`):
  - `AnsiRendering.render` redraws a frame in place over the last one.

The model has these modules:

- `Strings`: Kotlin strings as UTF-16 code units, and the library operations used (`Int.toString`, `joinToString`, `split`).
- `Ansi`: pixels, styles and colours, and the serialisation of a grid as pure functions.
- `Surface`: the `TextSurface` class over an `array2` and its imperative `render`.
- `Canvas`: views as a datatype over a surface, with `get`, `write`, `fill` and `render`.
- `Lists`: the three list edits the applier makes.
- `Nodes`: each node as a value (`NodeValue`) with pure specification functions (`Measured`, `Placed`, `Drawn`, `Statics`, `DebugText`). Next to it is the `MosaicNode` class, whose methods are proved to change the tree exactly as those functions say. It also holds the `MosaicNodeApplier` class.
- `Rendering`: one frame as a sequence of pieces (cursor-up, clear-line, a line's content, a line break). `AnsiRendering.Render` is proved to write exactly `Frame(lastHeight, lines)`, and the frame's properties are proved as lemmas.

Exceptions are values:

- `IllegalArgument`: a failed `require`.
- `IndexOutOfBounds`: an array or list index out of bounds.
- `AssertionFailed`: the `AssertionError` of the factory's throwing policy.
- `NegativeArraySize`: allocating a surface of negative size, or a string builder with a negative capacity.

The exceptions are those of the JVM. Kotlin/JS, for one, ignores a string builder's capacity, so a negative `sizeEstimate` does not throw there; the model does not follow other platforms.

An operation that returns `Unit` returns `Pass` or `Fail(e)`. An operation that returns a value returns `Ok(v)` or `Err(e)`.

## Model

All paths are under `mosaic-runtime/src/commonMain/kotlin/com/jakewharton/mosaic/`. The source cells below repeat the path in full.

| member | source | states |
|---|---|---|
| Strings.DecimalChars | mosaic-runtime/src/commonMain/kotlin/com/jakewharton/mosaic/canvas.kt:180-181 | an SGR parameter written by `joinTo` is decimal digits, with a leading minus sign only for a negative number |
| Strings.SplitJoin | mosaic-runtime/src/commonMain/kotlin/com/jakewharton/mosaic/rendering.kt:67-68 | `split` at a separator undoes `joinToString` with it, when no part holds the separator |
| Strings.SplitFree | mosaic-runtime/src/commonMain/kotlin/com/jakewharton/mosaic/rendering.kt:67-68 | a text without the separator splits into itself alone, so `"".split("\n")` is one empty line |
| Ansi.ParametersEmptyIff | mosaic-runtime/src/commonMain/kotlin/com/jakewharton/mosaic/canvas.kt:156-183 | no SGR parameter is queued between two pixels iff they have the same colours and style |
| Ansi.TransitionIsSgr | mosaic-runtime/src/commonMain/kotlin/com/jakewharton/mosaic/canvas.kt:156-183 | the escape between two pixels is `ESC [` with the queued parameters in order (foreground, background, then on/off of bold, dim, italic, underline, invert, strikethrough), separated by `;`, and `m`; it is nothing if none is queued |
| Ansi.NoEscapeBetweenAlike | mosaic-runtime/src/commonMain/kotlin/com/jakewharton/mosaic/canvas.kt:154-187 | a pixel with the same attributes as the one before it in its row adds only its text |
| Ansi.SerializeIsJoinedLines | mosaic-runtime/src/commonMain/kotlin/com/jakewharton/mosaic/canvas.kt:141-194 | a rendered grid is its rows joined by line feeds; each row is its cells and a reset if its last emitted pixel is styled |
| Ansi.PlainSerialize | mosaic-runtime/src/commonMain/kotlin/com/jakewharton/mosaic/canvas.kt:141-194 | a grid without colours or styles renders as its pixels' values, rows joined by line feeds, with no escape at all |
| Ansi.SgrSingleLine | mosaic-runtime/src/commonMain/kotlin/com/jakewharton/mosaic/canvas.kt:180-181 | an SGR escape holds no line feed |
| Ansi.SplitSerialize | mosaic-runtime/src/commonMain/kotlin/com/jakewharton/mosaic/canvas.kt:141-194 | when no cell holds a line feed, splitting a rendered grid at line feeds gives one line per row, or one empty line for no rows |
| Surface.Blank | mosaic-runtime/src/commonMain/kotlin/com/jakewharton/mosaic/canvas.kt:116-122 | `height` rows of `width` pixels, each a space with no colour or style |
| Surface.TextSurface.constructor | mosaic-runtime/src/commonMain/kotlin/com/jakewharton/mosaic/canvas.kt:118-122 | a new surface has the given size and every pixel blank |
| Surface.TextSurface.Set | mosaic-runtime/src/commonMain/kotlin/com/jakewharton/mosaic/canvas.kt:199-203 | changing a pixel in place changes that cell and no other |
| Surface.EscapeBetween | mosaic-runtime/src/commonMain/kotlin/com/jakewharton/mosaic/canvas.kt:156-183 | the attribute list built for one cell, written with `joinTo`, is the escape `Transition` defines |
| Surface.TextSurface.RenderRow | mosaic-runtime/src/commonMain/kotlin/com/jakewharton/mosaic/canvas.kt:154-187 | the column loop produces the row's serialisation and ends with the row's last pixel |
| Surface.TextSurface.RenderRows | mosaic-runtime/src/commonMain/kotlin/com/jakewharton/mosaic/canvas.kt:141-194 | the row loop emits the reset and line feed between rows, restarts each row from the blank pixel, and emits the final reset |
| Surface.TextSurface.Render | mosaic-runtime/src/commonMain/kotlin/com/jakewharton/mosaic/canvas.kt:128-196 | `render(top, left, bottom, right)` first sizes its string builder, and a negative `sizeEstimate` is a `NegativeArraySizeException` before any pixel is read; otherwise it is `Serialize` of that rectangle, an empty range renders no pixel, and a row or column outside the arrays is an index error |
| Surface.NegativeEstimate | mosaic-runtime/src/commonMain/kotlin/com/jakewharton/mosaic/canvas.kt:134-137 | the size estimate, twice the row count times `right - left + 2`, is negative exactly when there is at least one row and `right < left - 2`, or the row count is negative and `right > left - 2` |
| Canvas.Locate | mosaic-runtime/src/commonMain/kotlin/com/jakewharton/mosaic/canvas.kt:98-102 | `get(row, column)` of a view succeeds only inside the view, and then gives the root surface's cell offset by the view's origin |
| Canvas.LocateWellFormed | mosaic-runtime/src/commonMain/kotlin/com/jakewharton/mosaic/canvas.kt:98-102 | on a view made by `get` ranges, `get(row, column)` succeeds iff the cell is inside the view |
| Canvas.View | mosaic-runtime/src/commonMain/kotlin/com/jakewharton/mosaic/canvas.kt:20-31 | `canvas[top..bottom, left..right]` succeeds iff `top` and `left` are inside and `bottom` and `right` are below the size; otherwise it throws `IllegalArgumentException` |
| Canvas.ViewShape | mosaic-runtime/src/commonMain/kotlin/com/jakewharton/mosaic/canvas.kt:88-96 | a view's width is `right - left + 1` and its height `bottom - top + 1`; it shows the same surface, shifted by `top` and `left` |
| Canvas.ViewWellFormed | mosaic-runtime/src/commonMain/kotlin/com/jakewharton/mosaic/canvas.kt:20-31 | a view of a well-formed canvas is well formed again, so a chain of views never leaves its surface |
| Canvas.ViewInside | mosaic-runtime/src/commonMain/kotlin/com/jakewharton/mosaic/canvas.kt:20-31 | every cell a view shows is shown by the canvas it was taken from |
| Canvas.InsideRoot | mosaic-runtime/src/commonMain/kotlin/com/jakewharton/mosaic/canvas.kt:88-102 | a non-empty well-formed view lies inside its root surface |
| Canvas.Empty | mosaic-runtime/src/commonMain/kotlin/com/jakewharton/mosaic/canvas.kt:33-35 | `empty()` has size 0 by 0 and every `get` on it throws `IllegalArgumentException` |
| Canvas.EmptyWellFormed | mosaic-runtime/src/commonMain/kotlin/com/jakewharton/mosaic/canvas.kt:33-35 | `empty()` of a well-formed canvas is well formed |
| Canvas.RenderedFromRoot | mosaic-runtime/src/commonMain/kotlin/com/jakewharton/mosaic/canvas.kt:104-111 | a view renders the rectangle of its root surface shifted by its origin |
| Canvas.Render | mosaic-runtime/src/commonMain/kotlin/com/jakewharton/mosaic/canvas.kt:104-111 | `render` through a chain of views gives what `Rendered` defines: the root surface's `render` of the rectangle shifted by each view's origin, with the same size estimate and so the same `NegativeArraySizeException` |
| Canvas.ToString | mosaic-runtime/src/commonMain/kotlin/com/jakewharton/mosaic/canvas.kt:113 | `toString()` is `render()` of the whole canvas, so it throws exactly when `WholeCanvasRenders` says |
| Canvas.WholeCanvasRenders | mosaic-runtime/src/commonMain/kotlin/com/jakewharton/mosaic/canvas.kt:78-83 | rendering a well-formed canvas with the default bounds reads only inside its root and is its root's rectangle; it succeeds iff the view does not have rows with a width below -1 or a negative height with a width above -1, and otherwise throws `NegativeArraySizeException` |
| Canvas.ReversedViewThrows | mosaic-runtime/src/commonMain/kotlin/com/jakewharton/mosaic/canvas.kt:134-137 | `canvas[0..0, 3..0]` of a 1 by 4 surface is a view of width -2 whose `toString()` throws `NegativeArraySizeException` |
| Canvas.CellValuesRoundTrip | mosaic-runtime/src/commonMain/kotlin/com/jakewharton/mosaic/canvas.kt:45-57 | the cell values `write` cuts a string into are one code unit each, or two when the first is a high surrogate, and they concatenate back to the string |
| Canvas.Write | mosaic-runtime/src/commonMain/kotlin/com/jakewharton/mosaic/canvas.kt:37-68 | `write` changes the surface's pixels and ends exactly as `WriteFrom` says, pixel by pixel and failure by failure |
| Canvas.WritePasses | mosaic-runtime/src/commonMain/kotlin/com/jakewharton/mosaic/canvas.kt:45-57 | `write` ends normally iff the string does not end in a lone high surrogate and every column it writes is inside the canvas |
| Canvas.WriteCells | mosaic-runtime/src/commonMain/kotlin/com/jakewharton/mosaic/canvas.kt:37-68 | after a successful `write`, the k-th cell from `column` on holds the k-th value with the given colours and style applied over the old pixel, and every other cell is as it was |
| Canvas.WriteUnchangedOutside | mosaic-runtime/src/commonMain/kotlin/com/jakewharton/mosaic/canvas.kt:37-68 | even a failing `write` changes only cells of the row it writes, from `column` on, at most one per code unit |
| Canvas.WriteInside | mosaic-runtime/src/commonMain/kotlin/com/jakewharton/mosaic/canvas.kt:48 | `write` never changes a cell that its canvas does not show |
| Canvas.Fill | mosaic-runtime/src/commonMain/kotlin/com/jakewharton/mosaic/canvas.kt:70-76 | `fill` changes the pixels, ends, and visits the cells exactly as `FillFrom` says, for a `body` that is a function of the pixel |
| Canvas.FillVisitsEachCellOnce | mosaic-runtime/src/commonMain/kotlin/com/jakewharton/mosaic/canvas.kt:70-76 | on a well-formed canvas and with a `body` that is a function of the pixel, `fill` never throws, and visits every cell the canvas shows exactly once, row by row and left to right |
| Canvas.FillCells | mosaic-runtime/src/commonMain/kotlin/com/jakewharton/mosaic/canvas.kt:70-76 | after `fill` every cell the canvas shows holds `body` applied to its old pixel, and every other cell is as it was |
| Lists.Inserted | mosaic-runtime/src/commonMain/kotlin/com/jakewharton/mosaic/nodes.kt:180-182 | `add(index, x)` succeeds iff `0 <= index <= size`, else it is an index error; the list gets one more element, `x` at `index`, the rest shifted |
| Lists.Removed | mosaic-runtime/src/commonMain/kotlin/com/jakewharton/mosaic/nodes.kt:184-186 | `remove(index, count)` succeeds iff the range is inside the list and `count` is not negative (index error first, then argument error); the range is taken out and the rest kept in order |
| Lists.Moved | mosaic-runtime/src/commonMain/kotlin/com/jakewharton/mosaic/nodes.kt:188-190 | `move(from, to, count)` completes iff, for a single element next to `to`, both indices are inside the list, and otherwise the block is inside the list and its destination inside what is left; a completed move keeps the length and takes each element from a position of the list before; a failed swap or a failed removal leaves the list as it was, and a failed reinsertion leaves it without the block |
| Lists.InsertThenRemove | mosaic-runtime/src/commonMain/kotlin/com/jakewharton/mosaic/nodes.kt:180-186 | removing the one element just inserted gives the list back |
| Lists.InsertAddsOne | mosaic-runtime/src/commonMain/kotlin/com/jakewharton/mosaic/nodes.kt:180-182 | inserting adds exactly the new element to the multiset of elements |
| Lists.RemoveTakesRange | mosaic-runtime/src/commonMain/kotlin/com/jakewharton/mosaic/nodes.kt:184-186 | removing takes out exactly the elements of the range |
| Lists.MovedPieces | mosaic-runtime/src/commonMain/kotlin/com/jakewharton/mosaic/nodes.kt:188-190 | a completed move, swaps included, is the list without the block with the block put back at its landing index |
| Lists.MovePermutes | mosaic-runtime/src/commonMain/kotlin/com/jakewharton/mosaic/nodes.kt:188-190 | a completed move is a permutation of the list |
| Lists.MoveKeepsOrder | mosaic-runtime/src/commonMain/kotlin/com/jakewharton/mosaic/nodes.kt:188-190 | a completed move puts the block at its landing index (`to` for a single element swapped with its right-hand neighbour, the destination otherwise) and keeps every other element in its order |
| Lists.MoveUndone | mosaic-runtime/src/commonMain/kotlin/com/jakewharton/mosaic/nodes.kt:188-190 | moving the block back from where it landed to where it came from gives the list back, swaps included |
| Lists.FailedMoveDropsBlock | mosaic-runtime/src/commonMain/kotlin/com/jakewharton/mosaic/nodes.kt:188-190 | a move that fails after the block was taken out leaves exactly the other elements |
| Lists.MoveExamples | mosaic-runtime/src/commonMain/kotlin/com/jakewharton/mosaic/nodes.kt:188-190 | on five elements `move(1, 2, 1)` swaps the second and third, and `move(0, 10, 2)` fails with the first two already taken out |
| Lists.MovedSourceInjective | mosaic-runtime/src/commonMain/kotlin/com/jakewharton/mosaic/nodes.kt:188-190 | no two positions after a move come from the same position before it |
| Nodes.OverlaySize | mosaic-runtime/src/commonMain/kotlin/com/jakewharton/mosaic/nodes.kt:124-131 | the root's running `maxOf` width and height are not negative, at least every size, and either 0 or one of the sizes |
| Nodes.MeasureChildrenPasses | mosaic-runtime/src/commonMain/kotlin/com/jakewharton/mosaic/nodes.kt:126-131 | measuring the children ends normally iff every child's `measure()` does, and then each child is its own measured self |
| Nodes.MeasureRoot | mosaic-runtime/src/commonMain/kotlin/com/jakewharton/mosaic/nodes.kt:123-137 | the root measures normally iff every child does; it is then as wide as the widest of 0 and its children's widths and as high as the highest of 0 and their heights (0 by 0 without children), and places every child at (0, 0) |
| Nodes.PlaceChildrenEach | mosaic-runtime/src/commonMain/kotlin/com/jakewharton/mosaic/nodes.kt:68-72 | the placement action places child `j` at the `j`-th position of the measure result, and leaves children past the positions alone |
| Nodes.PlaceRoot | mosaic-runtime/src/commonMain/kotlin/com/jakewharton/mosaic/nodes.kt:132-136 | `placeAt(x, y)` of a measured root records `x`, `y` and the measure result, and places every child at (0, 0) |
| Nodes.DrawExplicit | mosaic-runtime/src/commonMain/kotlin/com/jakewharton/mosaic/nodes.kt:74-77 | with a draw policy, `drawTo` does only what the policy does and the children are never drawn; the factory's policy throws |
| Nodes.DrawInside | mosaic-runtime/src/commonMain/kotlin/com/jakewharton/mosaic/nodes.kt:74-89 | `drawTo` never changes a cell its canvas does not show, so a child stays within its view |
| Nodes.DrawSkipsEmpty | mosaic-runtime/src/commonMain/kotlin/com/jakewharton/mosaic/nodes.kt:79-87 | a child of zero width or height is never drawn: drawing the node is drawing it without that child |
| Nodes.ChildrenStaticsConcatenate | mosaic-runtime/src/commonMain/kotlin/com/jakewharton/mosaic/nodes.kt:19-31 | `StaticDrawPolicy.Children` throws iff some child's `drawStatics()` does; otherwise it returns the children's statics one after another, in child order |
| Nodes.StaticsOfPolicies | mosaic-runtime/src/commonMain/kotlin/com/jakewharton/mosaic/nodes.kt:18-31 | `StaticDrawPolicy.None` gives the empty list; `StaticDrawPolicy.Children` is the children's statics in order, or the first child's exception |
| Nodes.ChildrenDebugCollects | mosaic-runtime/src/commonMain/kotlin/com/jakewharton/mosaic/nodes.kt:140-142 | the children's `toString()`s are collected in order, unless one throws |
| Nodes.RootDebugJoins | mosaic-runtime/src/commonMain/kotlin/com/jakewharton/mosaic/nodes.kt:140-142 | the root's `toString()` is its children's joined by line feeds, and splits back into them when none holds a line feed |
| Nodes.ThrowingPoliciesThrow | mosaic-runtime/src/commonMain/kotlin/com/jakewharton/mosaic/nodes.kt:146-151 | each throwing policy throws `AssertionError` whatever the other policies are, so a factory node throws on all four operations |
| Nodes.MeasureKeepsShape | mosaic-runtime/src/commonMain/kotlin/com/jakewharton/mosaic/nodes.kt:59-61 | `measure()` changes only the layers: the tree and every policy stay |
| Nodes.PlaceKeepsShape | mosaic-runtime/src/commonMain/kotlin/com/jakewharton/mosaic/nodes.kt:68-72 | `placeAt` changes only the layers: the tree and every policy stay |
| Nodes.ShapeDecidesStatics | mosaic-runtime/src/commonMain/kotlin/com/jakewharton/mosaic/nodes.kt:107-109 | `drawStatics()` and `toString()` depend only on the tree and its policies, not on measure results or positions |
| Nodes.MosaicNode.constructor | mosaic-runtime/src/commonMain/kotlin/com/jakewharton/mosaic/nodes.kt:45-66 | a new node has the given policies, is not measured, is at (0, 0), and has no children |
| Nodes.MosaicNode.Factory | mosaic-runtime/src/commonMain/kotlin/com/jakewharton/mosaic/nodes.kt:112-119 | `Factory` makes a new node whose four policies all throw |
| Nodes.MosaicNode.CreateRoot | mosaic-runtime/src/commonMain/kotlin/com/jakewharton/mosaic/nodes.kt:121-144 | `root()` makes a new node with the overlay measure policy, no draw policy, `StaticDrawPolicy.Children` and the joining debug policy |
| Nodes.MosaicNode.Measure | mosaic-runtime/src/commonMain/kotlin/com/jakewharton/mosaic/nodes.kt:59-61 | `measure()` changes the subtree and ends exactly as `Measured` says, keeping the subtree valid |
| Nodes.MosaicNode.PlaceAt | mosaic-runtime/src/commonMain/kotlin/com/jakewharton/mosaic/nodes.kt:68-72 | `placeAt(x, y)` changes the subtree exactly as `Placed` says: it records `x` and `y` and places the current children at the positions of the last measure |
| Nodes.MosaicNode.DrawTo | mosaic-runtime/src/commonMain/kotlin/com/jakewharton/mosaic/nodes.kt:74-89 | `drawTo(canvas)` changes the surface's pixels and ends exactly as `Drawn` says |
| Nodes.MosaicNode.Draw | mosaic-runtime/src/commonMain/kotlin/com/jakewharton/mosaic/nodes.kt:99-105 | `draw()` measures, places at (0, 0), allocates a blank surface of the measured size and draws into it; each step's exception stops it |
| Nodes.MosaicNode.DrawStatics | mosaic-runtime/src/commonMain/kotlin/com/jakewharton/mosaic/nodes.kt:19-31 | `drawStatics()` returns exactly `Statics` of the subtree, with the loop of `StaticDrawPolicy.Children` |
| Nodes.MosaicNode.ToString | mosaic-runtime/src/commonMain/kotlin/com/jakewharton/mosaic/nodes.kt:140-142 | `toString()` returns exactly `DebugText` of the subtree, with the root's `joinToString` loop |
| Nodes.MosaicNode.AddChild | mosaic-runtime/src/commonMain/kotlin/com/jakewharton/mosaic/nodes.kt:181 | `children.add(index, instance)` changes the children as `Inserted` says, or throws and changes nothing |
| Nodes.MosaicNode.RemoveChildren | mosaic-runtime/src/commonMain/kotlin/com/jakewharton/mosaic/nodes.kt:185 | `children.remove(index, count)` changes the children as `Removed` says, or throws and changes nothing |
| Nodes.MosaicNode.MoveChildren | mosaic-runtime/src/commonMain/kotlin/com/jakewharton/mosaic/nodes.kt:189 | `children.move(from, to, count)` changes the children as `Moved` says, also when it fails after taking the block out |
| Nodes.MosaicNodeApplier.constructor | mosaic-runtime/src/commonMain/kotlin/com/jakewharton/mosaic/nodes.kt:175 | the applier starts at the root node |
| Nodes.MosaicNodeApplier.InsertTopDown | mosaic-runtime/src/commonMain/kotlin/com/jakewharton/mosaic/nodes.kt:176-178 | inserting top-down changes nothing |
| Nodes.MosaicNodeApplier.InsertBottomUp | mosaic-runtime/src/commonMain/kotlin/com/jakewharton/mosaic/nodes.kt:180-182 | inserting bottom-up adds the instance to the current node's children as `Inserted` says |
| Nodes.MosaicNodeApplier.Remove | mosaic-runtime/src/commonMain/kotlin/com/jakewharton/mosaic/nodes.kt:184-186 | `remove` takes the range out of the current node's children as `Removed` says |
| Nodes.MosaicNodeApplier.Move | mosaic-runtime/src/commonMain/kotlin/com/jakewharton/mosaic/nodes.kt:188-190 | `move` changes the current node's children as `Moved` says, whether it completes or fails |
| Rendering.RewrittenLineAt | mosaic-runtime/src/commonMain/kotlin/com/jakewharton/mosaic/rendering.kt:69-76 | line `i` is written at its place in the line loop, followed by a clear-line iff `i < staleLines`, then a line break |
| Rendering.RewrittenCounts | mosaic-runtime/src/commonMain/kotlin/com/jakewharton/mosaic/rendering.kt:69-76 | the line loop writes every line once and in order, one line break each, and clears `min(lines, staleLines)` of them |
| Rendering.ClearedCounts | mosaic-runtime/src/commonMain/kotlin/com/jakewharton/mosaic/rendering.kt:79-84 | clearing `k` old lines writes `k` clear-lines and `k - 1` line breaks |
| Rendering.FrameStartsWithUps | mosaic-runtime/src/commonMain/kotlin/com/jakewharton/mosaic/rendering.kt:62-69 | a frame starts with one cursor-up per line of the last frame, and the first line comes right after them |
| Rendering.FrameLineAt | mosaic-runtime/src/commonMain/kotlin/com/jakewharton/mosaic/rendering.kt:62-76 | line `i` of a frame is at position `lastHeight + 2i + min(i, lastHeight)`, followed by a clear-line iff it is written over an old line |
| Rendering.FrameCounts | mosaic-runtime/src/commonMain/kotlin/com/jakewharton/mosaic/rendering.kt:62-91 | a frame writes every line once and in order and clears exactly `lastHeight` lines; line breaks plus `lastHeight` equal lines plus cursor-ups, so the cursor ends at the end of the new output |
| Rendering.FrameEndsClearing | mosaic-runtime/src/commonMain/kotlin/com/jakewharton/mosaic/rendering.kt:78-89 | when the last frame was taller, the frame ends with one clear-line per old line below the new output and the cursor moved back up over all but one |
| Rendering.LineFeedsAreBreaks | mosaic-runtime/src/commonMain/kotlin/com/jakewharton/mosaic/rendering.kt:69-84 | with single-line cursor-up and clear-line sequences, the text holds one line feed per line break |
| Rendering.StaticsSurviveDraw | mosaic-runtime/src/commonMain/kotlin/com/jakewharton/mosaic/rendering.kt:56-57 | drawing before `drawStatics()` does not change the statics |
| Rendering.StaticLinesFail | mosaic-runtime/src/commonMain/kotlin/com/jakewharton/mosaic/rendering.kt:67 | the static lines fail iff some static canvas does not render |
| Rendering.StaticLinesError | mosaic-runtime/src/commonMain/kotlin/com/jakewharton/mosaic/rendering.kt:67 | the static lines can fail only with `NegativeArraySizeException`, from a static canvas's size estimate |
| Rendering.SurfaceLines | mosaic-runtime/src/commonMain/kotlin/com/jakewharton/mosaic/rendering.kt:68 | a drawn surface renders as the serialisation of its pixels; with single-line cells it splits into one line per row, or one empty line for none |
| Rendering.AnsiRendering.constructor | mosaic-runtime/src/commonMain/kotlin/com/jakewharton/mosaic/rendering.kt:51-53 | a new renderer has an empty buffer and `lastHeight` 0 |
| Rendering.AnsiRendering.Render | mosaic-runtime/src/commonMain/kotlin/com/jakewharton/mosaic/rendering.kt:55-92 | `render(node)` draws, then writes exactly `Frame(lastHeight, staticLines + lines)` into the cleared buffer and sets `lastHeight` to the canvas's line count; an exception while drawing leaves the renderer as it was and the tree as `draw()` left it (measured as `Measured` says, and placed too when only the size is negative), and a static canvas that does not render throws with only the cursor-ups in the buffer and `lastHeight` kept |
| Rendering.AnsiRendering.Write | mosaic-runtime/src/commonMain/kotlin/com/jakewharton/mosaic/rendering.kt:59-91 | the buffer ends up holding the cursor-ups and, unless a static canvas does not render, the rest of the frame for the canvas and statics, with `lastHeight` the canvas's line count |
| Rendering.AnsiRendering.AppendUps | mosaic-runtime/src/commonMain/kotlin/com/jakewharton/mosaic/rendering.kt:63-65 | `repeat(count)` appends `count` cursor-ups, none if `count` is not positive |
| Rendering.AnsiRendering.AppendLines | mosaic-runtime/src/commonMain/kotlin/com/jakewharton/mosaic/rendering.kt:69-76 | the line loop appends the lines' pieces and decrements `staleLines` once per line |
| Rendering.AnsiRendering.AppendClears | mosaic-runtime/src/commonMain/kotlin/com/jakewharton/mosaic/rendering.kt:79-84 | the clearing loop appends `Cleared(staleLines)` |
| Rendering.AnsiRendering.RenderStatics | mosaic-runtime/src/commonMain/kotlin/com/jakewharton/mosaic/rendering.kt:67 | the static lines are each static canvas's rendering split at line feeds, in order, or the exception of the first canvas that does not render |

## Left out

- `Color` and `TextStyle` are opaque. A colour is an identity with one foreground and one background SGR parameter. A style is a set of the six flags. Their own files are not part of this model.
- Draw, measure, static draw and debug policies other than those of `root()`, `Factory`, `StaticDrawPolicy.None` and `StaticDrawPolicy.Children` are not modelled as arbitrary code:
  - a custom measure policy is a function from the children's sizes to a size and child positions;
  - a draw policy is one `write` call, or the throwing policy;
  - a custom static policy is a fixed list of canvases;
  - a custom debug policy is a fixed text.
- The `Node` composable (`nodes.kt:155-173`) and the Compose runtime that drives the applier are not modelled. That covers recomposition, `ReusableComposeNode`, `AbstractApplier`'s up/down navigation and `onClear`. The applier's `current` is a field set by its constructor.
- The list helpers `remove(index, count)` and `move(from, to, count)` come from the Compose runtime's `AbstractApplier`, whose source is not part of this model. Their behaviour over a Java `ArrayList` is assumed, as the next two lines say.
- Lists.Removed: assumed to be `removeAt(index)` for one element and `subList(index, index + count).clear()` otherwise: an index error for a range outside the list, checked first, and an argument error for a negative count, with the list unchanged.
- Lists.Moved: assumed to swap a single element with the element at `to` when the two are next to each other, reading `from` and writing `to` before anything changes, so a failed swap changes nothing. Any other move takes the block out as `remove` does and adds it back at `to`, or at `to - count` when moving forward; when that index is outside what is left, the call fails with the block already gone.
- Nodes.MosaicNode.AddChild: requires the inserted subtree to share no node with the tree, so a node has one parent. The list itself does not check this; the nodes the applier inserts are made by `Factory` and built bottom up, so they always meet it.
- Nodes.MosaicNode.RemoveChildren: `Repr` keeps the removed children's nodes, so a removed subtree is still counted as part of this node's footprint.
- Nodes.MosaicNode.PlaceAt: the children are placed by index, as they are when `placeAt` runs, at the positions of the last `measure`. The source's placement action places the child objects captured during that `measure`, so the two differ when the children are edited between `measure` and `placeAt`. `draw` calls one right after the other, so the difference never shows there.
- `NotMeasured` (`nodes.kt:54`) is defined outside the modelled files. It is assumed to be a 0 by 0 result whose placement action places nothing, so `placeAt` before any `measure` only records `x` and `y`.
- Canvas.Fill: `body` is a function from the pixel to its new value. The source runs arbitrary code on the pixel object, which could throw or write into the canvas being filled; neither is modelled, so `Canvas.FillVisitsEachCellOnce`'s "never throws" holds only for such a body.
- Nodes.MosaicNode.Draw: a surface with a negative width is an error even when its height is 0. Kotlin allocates no inner array in that case and so does not throw.
- Rendering.AnsiRendering.Render: requires every static canvas to be a view inside a valid surface (`StaticsRenderable`). The canvases come from static draw policies this model does not execute. A static canvas whose size estimate is negative is modelled, as the exception it throws.
- The terminal's `cursorUp` and `clearLine` sequences are constants of the renderer given to its constructor. Their definition is not part of this model.
- `DebugRendering` (`rendering.kt:17-49`) is not modelled. It uses the clock, and its output is only for debugging.
- The `Rendering` interface is not modelled.
- `mosaic.kt` is not modelled: the composition loop, the terminal I/O, the frame clock and the coroutines.
- Surface.TextSurface.Render: `sizeEstimate` is computed with unbounded integers. Kotlin's 32-bit `Int` arithmetic wraps for rectangles of more than about 2^30 cells, where the source's estimate can turn negative and throw; that case is not modelled. The capacity is otherwise only a hint and does not change the text.
- The reuse of the `attributes` list between cells is modelled as a fresh list per cell.
- Line counts from `split("\n")` match the canvas's height only when no cell value holds a line feed. `Rendering.SurfaceLines` states this under that assumption. The renderer itself counts whatever `split` returns, as the source does.
