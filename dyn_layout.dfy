/**
 * layout.go of the older generation: the Layout setter chain and the
 * measure function measureNode.
 *
 * Layout has the same shape and the same add as internal/layout's Builder,
 * so a Layout is a Builder here.
 */
module DynLayout {
  import opened Wrappers
  import opened Bytes
  import opened Lines
  import opened Flex
  import opened LayoutBuilder
  import opened DynComponent

  type Layout = Builder

  /** NewLayout (layout.go:13-15): a Layout with no setter. */
  function NewLayout(): (r: Layout)
    ensures forall s :: Run(Some(r), s) == s
  {
    Builder(None)
  }

  /** apply (layout.go:17-23): a nil Layout or one with no setter leaves the node as it is. */
  method ApplyLayout<C>(l: Option<Layout>, forest: Forest<C>, n: nat)
    requires forest.Valid() && n < |forest.nodes|
    modifies forest
    ensures forest.Valid()
    ensures forest.nodes == old(forest.nodes)[n := old(forest.nodes)[n].(style := Run(l, old(forest.nodes)[n].style))]
    ensures l.None? || l.value.f.None? ==> forest.nodes == old(forest.nodes)
  {
    if l.None? || l.value.f.None? {
      return;
    }
    forest.SetStyle(n, l.value.f.value(forest.nodes[n].style));
  }

  /** MinHeight (layout.go:38-42): one more setter, run last, setting the minimum height. */
  function MinHeight(l: Layout, v: int): (r: Layout)
    ensures forall s :: Run(Some(r), s) == Run(Some(l), s).(minHeight := Some(v))
  {
    Add(l, SetMinHeight(v))
  }

  /** Overflow (layout.go:44-48): one more setter, run last, setting the overflow. */
  function Overflow(l: Layout, v: Flex.Overflow): (r: Layout)
    ensures forall s :: Run(Some(r), s) == Run(Some(l), s).(overflow := v)
  {
    Add(l, SetOverflow(v))
  }

  /** The dynamiccli Overflow constants (layout.go:50-59), as flex overflows. */
  const OverflowVisible := Flex.Visible
  const OverflowHidden := Flex.Hidden
  const OverflowScroll := Flex.Scroll

  /** Layouts are values: adding a setter leaves the Layout it was added to as it was. */
  lemma MinHeightThenOverflow(v: int, o: Flex.Overflow, s: Style)
    ensures Run(Some(Overflow(MinHeight(NewLayout(), v), o)), s) == s.(minHeight := Some(v), overflow := o)
    ensures Run(Some(MinHeight(NewLayout(), v)), s) == s.(minHeight := Some(v))
  {
  }

  /** A later MinHeight wins over an earlier one. */
  lemma LaterMinHeightWins(l: Layout, v: int, w: int, s: Style)
    ensures Run(Some(MinHeight(MinHeight(l, v), w)), s) == Run(Some(MinHeight(l, w)), s)
  {
  }

  /**
   * What measureNode (layout.go:67-90) does to one context: a
   * measureContext gets the rendered text and its size, and anything else
   * is left as it is, the proposed size being returned.
   */
  function Measured(ctx: Context, width: nat, height: nat): (Context, Size) {
    if !ctx.MeasureContext? then (ctx, Size(width, height))
    else
      var text := ctx.element(height, width);
      var size := Size(LongestLineOf(text), CountLines(text));
      (MeasureContext(ctx.element, text, size), size)
  }

  /** measureNode (layout.go:67-90), on node n of a forest. */
  method MeasureNode(f: Forest<Context>, n: nat, width: nat, height: nat) returns (size: Size)
    requires f.Valid() && n < |f.nodes|
    modifies f
    ensures f.Valid()
    ensures size == Measured(old(f.nodes[n].context), width, height).1
    ensures f.nodes == old(f.nodes)[n := old(f.nodes)[n].(context := Measured(old(f.nodes[n].context), width, height).0)]
  {
    var ctx := f.nodes[n].context;
    if !ctx.MeasureContext? {
      return Size(width, height);
    }
    var text := ctx.element(height, width);
    var w := LongestLine(text);
    size := Size(w, CountLines(text));
    f.SetContext(n, MeasureContext(ctx.element, text, size));
  }

  /**
   * The text leaves tree builds carry a nodeContext, which measureNode does
   * not recognise: measuring them fills in no text and no size.
   */
  lemma NodeContextNeverMeasured(c: RenderFunc, text: Bytes, size: Size, width: nat, height: nat)
    ensures Measured(NodeContext(c, text, size), width, height) == (NodeContext(c, text, size), Size(width, height))
  {
  }

  /**
   * The size measureNode caches for a measureContext is at most the text's
   * length wide, holds every newline-terminated line, and has no lines only
   * for an empty text.
   */
  lemma MeasuredSizeBounds(ctx: Context, width: nat, height: nat)
    requires ctx.MeasureContext?
    ensures var text := ctx.element(height, width);
      var size := Measured(ctx, width, height).1;
      && 0 <= size.width <= |text|
      && (size.height == 0 <==> text == [])
      && (forall j :: 0 <= j < |Terminated(text)| ==> |Terminated(text)[j]| <= size.width)
  {
    LongestLineBounds(ctx.element(height, width));
  }
}
