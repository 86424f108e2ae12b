# go-glint render pipeline, modelled in Dafny

go-glint draws a tree of components to a terminal or into a string. It
compiles the components into flexbox nodes, lets a flexbox solver size and
place them, and then walks the laid-out nodes to emit text, spaces,
newlines and terminal escape sequences. The repository holds two generations
of this pipeline, and each is modelled in its own modules:

- the older `dynamiccli` package: the `Layout` setter chain and
  `measureNode` (layout.go), the tree compiler and `renderTree` (render.go),
  the `Layout` component (components/layout.go), and `Document.RenderFrame`
  with `TextElement` (document.go, text.go);
- the newer `glint` package: `MeasureTextNode` and its line arithmetic
  (measure.go), the tree compiler with finalization (tree.go), and the
  `StringRenderer` and `TerminalRenderer` (renderer_string.go,
  renderer_term.go).

Shared by both generations:

- the layout builder (internal/layout/builder.go);
- the input-manager registry and raw-mode tracker (internal/input).

Modules and files:

| file | module | models |
|---|---|---|
| bytes.dfy | `Bytes` | Go strings as byte sequences; `strings.Count`, `IndexByte`, `Repeat(" ", n)` |
| lines.dfy | `Lines` | `countLines`, `longestLine`, `truncateTextHeight`, and their test vectors |
| flex.dfy | `Flex` | the boundary to the flex library: node styles, an arena of nodes, laid-out snapshots |
| builder.dfy | `LayoutBuilder` | internal/layout/builder.go |
| terminal.dfy | `Terminal` | output sinks and the escape sequences as abstract tokens |
| glint_component.dfy | `GlintComponent` | the newer component shapes and node contexts |
| glint_measure.dfy | `GlintMeasure` | `MeasureTextNode` |
| glint_tree.dfy | `GlintTree` | `tree` of tree.go |
| glint_render_string.dfy | `GlintStringRenderer` | `StringRenderer` |
| glint_render_term.dfy | `GlintTerminalRenderer` | `TerminalRenderer` |
| dyn_component.dfy | `DynComponent` | the older component shapes and node contexts |
| dyn_layout.dfy | `DynLayout` | `Layout` and `measureNode` of layout.go |
| dyn_render.dfy | `DynRender` | `tree` and `renderTree` of render.go |
| components.dfy | `Components` | the `Layout` component |
| dyn_text.dfy | `DynText` | `TextElement` |
| dyn_document.dfy | `DynDocument` | `Document` |
| input_manager.dfy | `InputManager` | internal/input/manager.go and raw.go |

How the model is built:

- Flex nodes live in an arena, the `Forest` class. Its `nodes` field is a
  sequence in which every child comes after its parent. The ghost function
  `View` reads a node back as a tree.
- The tree compilers are methods that append nodes to the arena. Each is
  proved to append exactly `Compile(c)`, a pure function of the component,
  under the parent. In the newer generation, a `CallLog` records the
  `Finalize`, `Layout` and `Body` calls the compiler makes, in order.
- The renderers are methods that walk a laid-out snapshot (`Laid`). Each is
  proved to write exactly `Draw(children, -1)`, a pure function. The
  properties are proved about `Draw` as lemmas.
- Widths and heights are whole numbers of cells.

## Model

| member | source | states |
|---|---|---|
| Bytes.IndexByte | measure.go:69 | the index of the first occurrence of the byte, or -1 exactly when it is absent |
| Bytes.Spaces | renderer_string.go:57 | `strings.Repeat(" ", n)` is n space bytes |
| Lines.Decompose | measure.go:55-64 | a text is its newline-terminated segments, each with its newline, then the unterminated rest; there is one segment per newline |
| Lines.CountLines | measure.go:55-64 | the line count is the newline count plus one when the text does not end in a newline; it is 0 exactly for the empty text |
| Lines.LongestLine | measure.go:66-87 | the loop returns `LongestLineOf(s)`: at most \|s\|, at least every newline-terminated segment, and \|s\| when s has no newline |
| Lines.LongestLineBounds | measure.go:66-87 | the same bounds, stated of the specification function |
| Lines.LongestLineIgnoresUnterminatedTail | measure.go:82-86 | once some terminated segment is non-empty, the result is the longest terminated segment, whatever the last line holds |
| Lines.MaxLenBounds | measure.go:74-77 | the maximum is at least every segment, is reached by one of them when positive, and is at most the text's length |
| Lines.TruncateTextHeight | measure.go:89-111 | the loop returns `Truncated(s, height)` |
| Lines.TruncatedIsPrefix | measure.go:89-111 | the result is always a prefix of the text |
| Lines.TruncatedNonPositive | measure.go:95-107 | a height of 0 or less yields the empty text |
| Lines.TruncatedShortText | measure.go:96-99 | a text with fewer newlines than the height comes back unchanged |
| Lines.TruncatedCut | measure.go:100-110 | otherwise the result stops just before the height-th newline and keeps height-1 newlines |
| Lines.TruncatedAsPrefix | measure.go:100-110 | the cut lies at the end of the first height terminated segments, and the byte dropped there is a newline |
| Lines.TruncatedFitsHeight | measure.go:89-111 | the result never has more lines than a non-negative height |
| Lines.TruncatedAtOwnHeight | measure.go:110 | cutting a text at its own line count returns it unchanged exactly when it does not end in a newline |
| Lines.LongestLineEmpty | measure_test.go:15-20 | "" measures 0 |
| Lines.LongestLineNoNewline | measure_test.go:21-26 | "foo" measures 3 |
| Lines.LongestLineTrailingNewline | measure_test.go:27-32 | "foo\n" measures 3 |
| Lines.LongestLineMiddleLine | measure_test.go:33-38 | any three lines of lengths 3, 4 and 3, each terminated, measure 4 |
| Lines.LongestLineCountsBytes | measure_test.go:39-49 | "▄" and "▄\n" measure 3, because widths count bytes |
| Lines.LongestLineShortFirstLine | measure.go:82-86 | "a\nfoo" measures 1, shorter than its last line |
| Lines.TruncateEmpty | measure_test.go:68-74 | ("", 10) gives "" |
| Lines.TruncateShorterThanLimit | measure_test.go:82-88 | any "foo\nbar" shape at height 5 comes back whole |
| Lines.TruncateGreaterThanLimit | measure_test.go:89-95 | any four unterminated-last lines at height 3 give the first three joined |
| Lines.TruncateEqualToLimit | measure_test.go:96-102 | three lines at height 3 come back whole |
| Lines.TruncateTrailingNewline | measure_test.go:103-109 | "foo\nbar\n" at height 3 comes back whole; at its own count 2 it loses its final newline |
| LayoutBuilder.Add | internal/layout/builder.go:25-36 | the new builder runs every earlier setter and then g; the receiver is a value and is left as it was |
| LayoutBuilder.Raw | internal/layout/builder.go:13-15 | Raw is add: the earlier setters, then g |
| LayoutBuilder.Apply | internal/layout/builder.go:17-23 | the node's style becomes the builder's run over it; a nil builder or one with no setter changes nothing; no other node changes |
| LayoutBuilder.ChainRunsInCallOrder | internal/layout/builder.go:13-15 | a chain of Raw calls runs its setters in call order, after the base builder's |
| LayoutBuilder.ChainFromEmpty | internal/layout/builder.go:13-15 | from an empty builder, a chain runs exactly its setters in order |
| LayoutBuilder.LaterMarginLeftWins | internal/layout/builder.go:27-33 | of two left-margin setters, the later one decides the margin |
| LayoutBuilder.LaterDirectionWins | internal/layout/builder.go:27-33 | of two direction setters, the later one decides the direction |
| LayoutBuilder.DifferentFieldsCommute | internal/layout/builder.go:27-33 | setters of different fields may be chained in either order |
| Components.LayoutComponent.constructor | components/layout.go:9-11 | the children in order and a builder that sets nothing |
| Components.LayoutComponent.Row | components/layout.go:18-23 | the builder gains the Row direction setter, run last; the same component is returned |
| Components.LayoutComponent.MarginLeft | components/layout.go:25-30 | the builder gains the left-margin setter, run last; the same component is returned |
| Components.LayoutComponent.Body | components/layout.go:32-34 | a fragment whose items are exactly the children, in order |
| Components.LayoutComponent.AsComponent | components/layout.go:32-38 | the component the compilers see: the body, with the builder as its layout |
| Components.RowThenMarginLeft | components/layout.go:18-30 | Row then MarginLeft(x) sets both fields and nothing else |
| DynLayout.NewLayout | layout.go:13-15 | a new Layout runs no setter |
| DynLayout.ApplyLayout | layout.go:17-23 | a nil Layout or one with no setter leaves the node untouched; otherwise the node's style is its run |
| DynLayout.MinHeight | layout.go:38-42 | one more setter, run after the existing ones, setting the minimum height |
| DynLayout.Overflow | layout.go:44-48 | one more setter, run after the existing ones, setting the overflow |
| DynLayout.MinHeightThenOverflow | layout.go:38-48 | from a new Layout, MinHeight then Overflow sets exactly those two fields |
| DynLayout.LaterMinHeightWins | layout.go:25-42 | of two minimum heights, the later one decides |
| DynLayout.MeasureNode | layout.go:67-90 | without a measure context the proposed size comes back and the node is untouched; with one, the context caches the rendered text and the size (longestLine, countLines), which is returned |
| DynLayout.NodeContextNeverMeasured | layout.go:74-78 | the context the older tree stores in leaves is not one measureNode recognises: the proposed size comes back and the context is unchanged |
| DynLayout.MeasuredSizeBounds | layout.go:80-89 | a measured width is at most the text's byte length, and the height is 0 exactly for empty text |
| DynRender.TextStyle | render.go:60-62 | a text leaf's style has shrink 1, grow 0 and direction Row, and every other field of the style is kept |
| DynRender.Tree | render.go:17-70 | the parent gains exactly the nodes `Compile(c)`, in order, as its last children; earlier nodes are untouched |
| DynRender.Shell | render.go:36-63 | a new node has no children and a measure function exactly for text; text gets an empty node context and direction Row; a finalized component gets parentContext{c, true} |
| DynRender.Setup | render.go:36-63 | one fresh node, the shell, is appended as the parent's last child and nothing else changes |
| DynRender.Node | render.go:36-68 | a component that is neither nil nor a fragment gets one node, whose children compile its body |
| DynRender.FinalizedMarksOnlyItsOwnNode | render.go:40-46 | a finalized component gives one node marked finalized, whose children compile the inner component as they would unmarked |
| DynRender.FragmentSplices | render.go:27-34 | a fragment's nodes are its items' nodes, spliced in order with no node of its own |
| DynRender.CompileLeaves | render.go:53-67 | the nodeContext leaves of the compiled nodes are the text components in depth-first order |
| DynRender.CompileListLeaves | render.go:27-34 | the same for a list of components |
| DynRender.RenderTree | render.go:72-137 | the writer gains exactly `Draw(children, lastRow)` |
| DynRender.DrawChild | render.go:94-135 | the writer gains exactly one child's piece: the newline rule, a positive left margin as spaces, then the leaf text or the children's drawing |
| DynRender.ShrunkLeafFitsHeight | render.go:114-135 | a leaf's drawn text never has more lines than its assigned height, and is a prefix of its cached text |
| DynRender.UnmeasuredLeafDrawsNothing | render.go:114-135 | a leaf whose text was never measured draws nothing |
| DynText.TextElement.constructor | text.go:17-21 | the element holds v |
| DynText.TextElement.Update | text.go:25-29 | the text is replaced and nothing else |
| DynText.TextElement.Render | text.go:31-36 | exactly the stored text is written, with no newline, and 1 is returned |
| DynDocument.Dimensions | document.go:91-102 | configured rows and cols are kept when both are set; detection is used only when one is 0 |
| DynDocument.Budget | document.go:104-107 | the line budget is rows-1, and wraps to the largest unsigned value when rows is 0 |
| DynDocument.Document.constructor | document.go:18-26 | the zero Document |
| DynDocument.Document.SetOutput | document.go:28-33 | the output is replaced and nothing else |
| DynDocument.Document.SetSize | document.go:35-40 | rows and cols are replaced and nothing else |
| DynDocument.Document.SetRefreshRate | document.go:42-46 | the refresh rate is replaced and nothing else |
| DynDocument.Document.Add | document.go:48-52 | the elements are appended in order after the existing ones; nothing else changes |
| DynDocument.Document.RenderFrame | document.go:82-146 | without an output nothing is written and lastCount stays; otherwise it writes min(lastCount, budget) up-and-erase tokens, then the last k = min(\|els\|, budget) texts in order, each followed by a newline, sets lastCount to k, and leaves els as it was |
| DynDocument.Frame | document.go:90-145 | the same frame over the document's fields as values; the count returned never exceeds the budget |
| DynDocument.Select | document.go:109-126 | the backward scan keeps k = min(\|els\|, budget) elements, a suffix of els; buffer j holds the text of the j-th element from the end |
| DynDocument.EraseLines | document.go:128-136 | exactly n up-and-erase tokens are written |
| DynDocument.Flush | document.go:138-142 | the buffers, copied from the last selected back to the first, write the texts in document order, each followed by a newline |
| DynDocument.LinesDrawn | document.go:118-145 | a frame writes at least one newline per drawn element, and exactly one each if and only if no drawn text holds a newline; otherwise lastCount undercounts the lines on screen |
| GlintMeasure.TextSize | measure.go:47-50 | a measured width is at most the text's byte length and covers every newline-terminated line; the height is 0 exactly for empty text |
| GlintMeasure.MeasureTextNode | measure.go:32-53 | without a TextNodeContext the proposed size comes back and the node is untouched; with one, the context caches the rendered text and the size (longestLine, countLines), which is returned |
| GlintTree.TextStyle | tree.go:55-57 | a text leaf's style has shrink 1, grow 0 and direction Row, and every other field of the style is kept |
| GlintTree.Tree | tree.go:7-65 | the parent gains exactly `Compile(c)` as its last children, earlier nodes untouched, and the call log gains exactly `Calls(c, finalize)` |
| GlintTree.Shell | tree.go:26-58 | a new node has no children and a measure function exactly for text; text gets an empty TextNodeContext and direction Row; a finalized component gets parentContext{c, true} |
| GlintTree.Setup | tree.go:26-58 | one fresh node, the shell, is appended as the parent's last child; finalize becomes true for a finalized component; Finalize is called when finalizing a finalizer, and then its layout is applied |
| GlintTree.Node | tree.go:26-62 | a component that is neither nil nor a fragment gets one node whose children compile its body, with the finalize flag as Setup leaves it |
| GlintTree.FragmentSplices | tree.go:17-24 | a fragment's nodes are its items' nodes, spliced in order with no node of its own |
| GlintTree.CompileLeaves | tree.go:52-62 | the text leaves of the compiled nodes are the text components in depth-first order |
| GlintTree.CompileListLeaves | tree.go:17-24 | the same for a list of components |
| GlintTree.FinalizesAll | tree.go:40-45 | compiled with finalize on, every finalizer in the tree has Finalize called |
| GlintTree.FinalizesAllList | tree.go:19-21 | the same for a list of components |
| GlintTree.FinalizedPropagates | tree.go:30-38 | below a finalized component every finalizer has Finalize called, whatever the flag passed in |
| GlintTree.NoFinalizeUnlessAsked | tree.go:30-45 | with finalize off and no finalized component, no Finalize is called |
| GlintTree.NoFinalizeUnlessAskedList | tree.go:19-21 | the same for a list of components |
| GlintTree.Unfinalized | tree.go:40-45 | the calls with every Finalize call removed |
| GlintTree.FinalizeOnlyAddsFinalizeCalls | tree.go:40-62 | turning finalize on changes only the Finalize calls: the layout and body calls are the same, in the same order |
| GlintTree.FinalizeOnlyAddsFinalizeCallsList | tree.go:19-21 | the same for a list of components |
| GlintStringRenderer.RootWidth | renderer_string.go:23-27 | the root width is Width, or 80 when Width is 0 |
| GlintStringRenderer.StringRenderer.constructor | renderer_string.go:13-21 | no builder yet, and the given width |
| GlintStringRenderer.StringRenderer.LayoutRoot | renderer_string.go:23-32 | a fresh root node of width RootWidth(Width) |
| GlintStringRenderer.StringRenderer.RenderRoot | renderer_string.go:34-44 | the builder, created if missing, holds exactly this frame: `Draw(root.children, -1)`; prev is ignored |
| GlintStringRenderer.StringRenderer.RenderTree | renderer_string.go:46-71 | the builder gains exactly `Draw(children, lastRow)` |
| GlintStringRenderer.OneRowShowsLeavesInOrder | renderer_string.go:46-71 | children on one row, without margins, draw their leaf texts in order with no newline |
| GlintStringRenderer.StackedRowsAreJoined | renderer_string.go:48-69 | leaves on strictly increasing rows draw as their texts joined by newlines, with a leading newline only after an earlier row |
| GlintStringRenderer.SingleLeafShowsItsText | renderer_string.go:43-69 | a root whose only child is an unmargined leaf draws exactly its text |
| GlintTerminalRenderer.Dimensions | renderer_term.go:35-45 | configured rows and cols are kept when both are set; detection is used only when one is 0 |
| GlintTerminalRenderer.Pad | renderer_term.go:101-106 | a positive amount becomes that many spaces, anything else nothing |
| GlintTerminalRenderer.TerminalRenderer.constructor | renderer_term.go:18-26 | the given output and size |
| GlintTerminalRenderer.TerminalRenderer.LayoutRoot | renderer_term.go:28-61 | no root without output or when a dimension is still 0; otherwise a fresh root of width cols whose context records rows and cols |
| GlintTerminalRenderer.TerminalRenderer.RenderRoot | renderer_term.go:63-89 | the output gains the erase sequence for the current root's height, then `Draw(root.children, -1)` |
| GlintTerminalRenderer.TerminalRenderer.RenderTree | renderer_term.go:91-126 | the output gains exactly `Draw(children, lastRow)` |
| GlintTerminalRenderer.TerminalRenderer.DrawChild | renderer_term.go:93-124 | one child: the newline rule, left margin and padding, the text or the children's drawing, right margin and padding |
| GlintTerminalRenderer.ClearedUps | renderer_term.go:78-80 | h up-and-erase tokens clear the h lines above the cursor |
| GlintTerminalRenderer.EraseClearsFrameLines | renderer_term.go:70-80 | with a previous frame and 0 < h <= rows, exactly lines 0..h-1 counted up from the cursor are erased, and the screen is not cleared |
| GlintTerminalRenderer.EraseClearsScreenWhenTaller | renderer_term.go:81-83 | with a previous frame taller than rows, one erase-display-and-home token is written and nothing else |
| GlintTerminalRenderer.EraseNothingWithoutPrevious | renderer_term.go:70-72 | without a previous frame, or at height 0, nothing is erased |
| GlintTerminalRenderer.DrawsAsStringRenderer | renderer_term.go:91-126 | on a tree without right margins or padding, the terminal drawing is the string renderer's drawing |
| Terminal.PlainEmit | document.go:140 | copying a buffer's bytes out reproduces exactly the text written into it |
| Terminal.Output.Write | renderer_string.go:57-69 | the sink gains exactly the bytes written |
| InputManager.AddInt32 | internal/input/manager.go:32 | int32 addition wraps round at both ends and is exact in range |
| InputManager.Manager.constructor | internal/input/manager.go:38-45 | one reference, no callbacks, closed, the given reader |
| InputManager.Manager.AddCallback | internal/input/manager.go:91-111 | a nil callback or a present key changes nothing and calls nothing; a new key is stored, and a closed manager calls it once with no bytes and EOF |
| InputManager.Manager.DeleteCallback | internal/input/manager.go:113-119 | the key is removed, a no-op when absent; nothing else changes |
| InputManager.Manager.Dispatch | internal/input/manager.go:121-155 | every registered callback is called exactly once with the same bytes and error; EOF closes the manager; the loop ends exactly when the manager is closed |
| InputManager.Deliver | internal/input/manager.go:137-139 | each callback of the map is called exactly once, every call carrying that key's callback and the same bytes and error |
| InputManager.Registry.constructor | internal/input/manager.go:157-158 | no managers, nothing tracked, no restore done |
| InputManager.Registry.MakeRaw | internal/input/raw.go:13-33 | only a file that is a terminal and that MakeRaw switched is recorded, replacing an earlier entry for its descriptor; the raw-mode invariant is kept |
| InputManager.Registry.UnRaw | internal/input/raw.go:35-52 | a tracked file is restored once to its saved state and forgotten; anything else is left alone; the raw-mode invariant is kept |
| InputManager.Registry.For | internal/input/manager.go:23-64 | a registered key gains a reference and yields the same manager; a new key gets a fresh manager with one reference and no callbacks, closed exactly when the reader is nil, and only a non-nil reader is offered to makeRaw; no other manager changes |
| InputManager.Registry.Close | internal/input/manager.go:66-89 | an unknown key changes nothing; otherwise one reference is dropped, and only when none is left and the reader is a tracked file is it restored; the manager stays registered; at most one restore happens; no other manager changes |
| InputManager.Registry.CloseTwice | internal/input/manager.go:66-89 | closing a key twice restores its terminal at most once |

`Registry.Valid` is the invariant that every registry method keeps. It says
a descriptor is restored at most once per time makeRaw recorded it. An
entry still in the tracker counts as one restore to come.

## Left out

- The flexbox solver is outside the model. The renderers take its result
  as a laid-out snapshot whose top, margins, padding, width and height are
  whole numbers. float32 layout values and the truncating conversions
  between them and integers are not modelled.
- Terminal size detection (`IsTerminal`, `pty.GetsizeFull`) is a parameter
  `detected`. The aec escape builders are tokens: `EraseLine`,
  `UpEraseLine` and `EraseDisplayHome`.
- Locks are left out; each operation is one sequential step. This covers
  `sync.Mutex`, `sync.Cond` and the atomics of internal/input.
- `Document.Render`, the ticker loop that calls `RenderFrame`, is left out
  because it is timer-driven.
- The reader goroutine of a manager is left out: its `go` statement, the
  blocking `Read`, and the wait for a first callback. `Dispatch` models one
  pass of its loop once a callback is registered.
- `terminal.MakeRaw`, `terminal.Restore` and `IsTerminal` are foreign
  calls. They become parameters, and a log of restores.
- Callbacks and component render functions are opaque. A callback is known
  by an identity and its calls are logged. A component's `Finalize`,
  `Layout` and `Body` calls are logged in the newer generation; render
  functions are values `(rows, cols) -> bytes`.
- Go interface type switches become datatype variants. A `*os.File` reader
  is `FileReader(fd)`.
- Debug printing in render.go is left out.
- The newer `Document` (mount tracking, finalized-prefix pruning) is not
  part of this model.
  `clampTextWidth`, exercised by measure_test.go:120-198, is not part of
  this model either.
- `Element` has one implementation in the older package, `TextElement`, so
  a Document's elements are `TextElement`s.
- `DynRender.LeafText`: the re-measure call of render.go:124-127 is
  modelled, but it always finds the leaf's `nodeContext` unrecognised. See
  the notes below.
- `GlintStringRenderer.StringRenderer.RenderRoot`: the `strings.Builder`
  is an `Output` sink of tokens, all of them bytes.
- `DynDocument.Frame`: element counts are added modulo 2^64 as Go's `uint`
  does. Each count is 1, so the wrap cannot happen within a slice's
  length.
- `GlintTerminalRenderer.TerminalRenderer.RenderRoot`: the paths that
  panic in Go are excluded by its precondition: a root whose context is
  not a `termRootContext` (the type assertion at renderer_term.go:65) and
  a nil `Output`. Callers only pass the root made by `LayoutRoot`, which
  is never made without an output.
- `InputManager.Dispatch`: Go visits a map in an unspecified order. The
  order is a ghost out-parameter, and every key occurs in it exactly once.

## Notes on the code

Where the code and the documentation of the repository disagree, the model
follows the code:

- Widths count bytes (`len`), not terminal cells. measure_test.go:39-49
  expects 1 for "▄"; the code gives 3 (`Lines.LongestLineCountsBytes`).
- The doc comment at measure.go:19-21 says the text always fits its
  measured size. `longestLine` ignores a long unterminated last line once
  an earlier line is non-empty, so "a\nfoo" measures 1 column
  (`Lines.LongestLineShortFirstLine`).
- `truncateTextHeight` drops the newline at the cut. A text cut at its own
  line count comes back unchanged only if it does not end in a newline
  (`Lines.TruncatedAtOwnHeight`).
- In the older generation, `tree` stores a `nodeContext` in text leaves
  (render.go:56), but `measureNode` only recognises a `measureContext`
  (layout.go:75). So a leaf's text is never measured, and `renderTree`
  draws it as empty (`DynRender.UnmeasuredLeafDrawsNothing`).
- The older `tree` marks a finalized component's node, but does not pass
  finalization on to its children (`DynRender.FinalizedMarksOnlyItsOwnNode`).
- `TextElement.Render` reports one line whatever its text holds. A text
  with newlines therefore puts more lines on screen than `lastCount`
  records, and the next frame erases too few (`DynDocument.LinesDrawn`).
- `Close` never removes a manager from the registry. After the last
  reference is dropped, `For` on that key returns the same manager again. Its
  count goes up from where `Close` left it, and its reader is not offered to
  makeRaw again.
- The doc comment of `makeRaw` (internal/input/raw.go:11-12) says it acts
  only when the reader is not already in raw mode. The code never consults
  `rawTracker` before calling `terminal.MakeRaw` (raw.go:27-32). A second
  `For` on a new key with the same descriptor therefore saves the already
  raw state over the original one (`InputManager.Registry.MakeRaw`).
