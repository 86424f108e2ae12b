/**
 * MeasureTextNode (measure.go:32-53): the measure function of text leaves.
 * It renders the leaf's component into the space offered, caches the text
 * and its size in the node's TextNodeContext, and returns that size.
 */
module GlintMeasure {
  import opened Bytes
  import opened Lines
  import opened Flex
  import opened GlintComponent

  /** The size measure.go:47-50 gives a text: its longest line and its line count. */
  function TextSize(text: Bytes): (r: Size)
    ensures 0 <= r.width <= |text|
    ensures r.height == 0 <==> text == []
    ensures forall j :: 0 <= j < |Terminated(text)| ==> |Terminated(text)[j]| <= r.width
  {
    LongestLineBounds(text);
    Size(LongestLineOf(text), CountLines(text))
  }

  /**
   * The offered width and height arrive as float32 and are taken here as
   * the integers uint(width) and uint(height).
   */
  method MeasureTextNode(f: Forest<Context>, n: nat, width: nat, height: nat) returns (size: Size)
    requires f.Valid() && n < |f.nodes|
    modifies f
    ensures f.Valid()
    ensures !old(f.nodes[n].context).TextNodeContext? ==> size == Size(width, height) && f.nodes == old(f.nodes)
    ensures old(f.nodes[n].context).TextNodeContext? ==>
      var render := old(f.nodes[n].context).c;
      var text := render(height, width);
      && size == Size(LongestLineOf(text), CountLines(text))
      && f.nodes == old(f.nodes)[n := old(f.nodes)[n].(context := TextNodeContext(render, text, size))]
  {
    var ctx := f.nodes[n].context;
    if !ctx.TextNodeContext? {
      return Size(width, height);
    }

    var text := ctx.c(height, width);
    var w := LongestLine(text);
    size := Size(w, CountLines(text));
    f.SetContext(n, TextNodeContext(ctx.c, text, size));
  }
}
