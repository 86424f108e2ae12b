/**
 * StringRenderer (renderer_string.go): draws a laid-out tree into a
 * strings.Builder, which it clears on every frame.
 */
module GlintStringRenderer {
  import opened Wrappers
  import opened Bytes
  import opened Lines
  import opened Flex
  import opened Terminal
  import opened GlintComponent

  /**
   * The bytes renderTree (renderer_string.go:46-71) writes for the children
   * kids, with lastRow as passed in: each child's Piece, each drawn with the
   * row of the sibling before it.
   */
  function Draw(kids: seq<Laid<Context>>, lastRow: int): Bytes
    decreases kids
  {
    if kids == [] then [] else Piece(kids[0], lastRow) + Draw(kids[1..], kids[0].top)
  }

  /**
   * One child: a newline when it starts a lower row than lastRow (never
   * when lastRow is negative), its positive left margin as spaces, then its
   * text or, for a container, its own children drawn from its own row.
   */
  function Piece(c: Laid<Context>, lastRow: int): Bytes
    decreases c
  {
    (if lastRow >= 0 && c.top > lastRow then [NL] else [])
    + Margin(c)
    + (if c.context.TextNodeContext? then c.context.text else Draw(c.children, c.top))
  }

  /** The loop of renderTree after child i: its piece joins what is drawn. */
  lemma DrawStep(kids: seq<Laid<Context>>, i: nat, row: int, lastRow: int, drawn: Bytes)
    requires i < |kids|
    requires drawn + Draw(kids[i..], row) == Draw(kids, lastRow)
    ensures (drawn + Piece(kids[i], row)) + Draw(kids[i + 1..], kids[i].top) == Draw(kids, lastRow)
  {
    assert kids[i..][1..] == kids[i + 1..];
    assert Draw(kids[i..], row) == Piece(kids[i], row) + Draw(kids[i + 1..], kids[i].top);
  }

  /** A positive left margin as that many spaces, otherwise nothing. */
  function Margin(c: Laid<Context>): (r: Bytes)
    ensures |r| == if c.marginLeft > 0 then c.marginLeft else 0
  {
    if c.marginLeft > 0 then Spaces(c.marginLeft) else []
  }

  /** The width the root node gets: Width, or 80 when Width is 0. */
  function RootWidth(width: nat): (r: nat)
    ensures r > 0
    ensures width > 0 ==> r == width
  {
    if width == 0 then 80 else width
  }

  class StringRenderer {
    /** Builder: nil until the first frame. */
    var builder: Option<Output>
    /** Width: a fixed root width; 0 means 80. */
    var width: nat

    ghost function Sinks(): set<object>
      reads this
    {
      if builder.Some? then {builder.value} else {}
    }

    /** &StringRenderer{Width: width}. */
    constructor (width: nat)
      ensures this.width == width && builder.None?
    {
      this.width := width;
      builder := None;
    }

    /** LayoutRoot (renderer_string.go:23-32): a fresh root node of width RootWidth(width). */
    method LayoutRoot() returns (root: Forest<Context>)
      ensures fresh(root) && root.Valid()
      ensures root.nodes == [NodeData(DefaultStyle.(width := Some(RootWidth(width))), NoContext, false, [])]
    {
      var w := width;
      if w == 0 {
        w := 80;
      }
      root := new Forest(NodeData(DefaultStyle, NoContext, false, []));
      root.SetStyle(0, root.nodes[0].style.(width := Some(w)));
    }

    /**
     * RenderRoot (renderer_string.go:34-44): the builder holds this frame's
     * drawing and nothing else; prev is not looked at.
     */
    method RenderRoot(root: Laid<Context>, prev: Option<Laid<Context>>)
      modifies this, Sinks()
      ensures builder.Some? && width == old(width)
      ensures old(builder).Some? ==> builder == old(builder)
      ensures old(builder).None? ==> fresh(builder.value)
      ensures builder.value.written == Emit(Draw(root.children, -1))
    {
      if builder.None? {
        var o := new Output();
        builder := Some(o);
      }
      builder.value.Reset();
      RenderTree(builder.value, root, -1);
    }

    /** renderTree (renderer_string.go:46-71): appends Draw(parent.children, lastRow) to out. */
    method RenderTree(out: Output, parent: Laid<Context>, lastRow: int)
      modifies out
      ensures out.written == old(out.written) + Emit(Draw(parent.children, lastRow))
      decreases parent, 0
    {
      var kids := parent.children;
      var row := lastRow;
      ghost var drawn: Bytes := [];
      var i := 0;
      while i < |kids|
        invariant 0 <= i <= |kids|
        invariant out.written == old(out.written) + Emit(drawn)
        invariant drawn + Draw(kids[i..], row) == Draw(kids, lastRow)
      {
        var child := kids[i];
        ghost var piece := Piece(child, row);
        DrawStep(kids, i, row, lastRow, drawn);
        DrawChild(out, child, row);
        EmitTwo(old(out.written), drawn, piece);
        row := child.top;
        drawn := drawn + piece;
        i := i + 1;
      }
    }

    /** The body of renderTree's loop (renderer_string.go:48-69) for one child. */
    method DrawChild(out: Output, child: Laid<Context>, lastRow: int)
      modifies out
      ensures out.written == old(out.written) + Emit(Piece(child, lastRow))
      decreases child, 1
    {
      var nl: Bytes := if lastRow >= 0 && child.top > lastRow then [NL] else [];
      out.Write(nl);
      var row := child.top;

      var margin := Margin(child);
      out.Write(margin);
      EmitTwo(old(out.written), nl, margin);

      ghost var body: Bytes;
      if !child.context.TextNodeContext? {
        body := Draw(child.children, row);
        RenderTree(out, child, row);
      } else {
        body := child.context.text;
        out.Write(child.context.text);
      }
      EmitTwo(old(out.written), nl + margin, body);
      PieceParts(child, lastRow, nl + margin, body);
    }
  }

  /** Piece is the newline, then the margin, then the contents. */
  lemma PieceParts(c: Laid<Context>, lastRow: int, head: Bytes, body: Bytes)
    requires head == (if lastRow >= 0 && c.top > lastRow then [NL] else []) + Margin(c)
    requires body == if c.context.TextNodeContext? then c.context.text else Draw(c.children, c.top)
    ensures Piece(c, lastRow) == head + body
  {
  }

  // ---------------------------------------------------------------------
  // What a frame shows

  /** The texts of the text leaves below kids, depth first, run together. */
  function LeafText(kids: seq<Laid<Context>>): Bytes
    decreases kids
  {
    if kids == [] then []
    else (if kids[0].context.TextNodeContext? then kids[0].context.text else LeafText(kids[0].children)) + LeafText(kids[1..])
  }

  /** Every node below kids is laid out on row t, with no left margin. */
  predicate OnRow(kids: seq<Laid<Context>>, t: int)
    decreases kids
  {
    forall i :: 0 <= i < |kids| ==>
      && kids[i].top == t
      && kids[i].marginLeft <= 0
      && (kids[i].context.TextNodeContext? || OnRow(kids[i].children, t))
  }

  /**
   * On a single row nothing but the leaf texts is drawn, in depth-first
   * order: no newline comes before the first child (lastRow -1) or between
   * siblings on the same row.
   */
  lemma {:induction false} OneRowShowsLeavesInOrder(kids: seq<Laid<Context>>, t: int, lastRow: int)
    requires OnRow(kids, t)
    requires lastRow == -1 || lastRow == t
    ensures Draw(kids, lastRow) == LeafText(kids)
    decreases kids
  {
    if kids != [] {
      var c := kids[0];
      OnRowSplit(kids, t);
      assert Draw(kids, lastRow) == Piece(c, lastRow) + Draw(kids[1..], c.top);
      if c.context.TextNodeContext? {
        PieceOnRow(c, t, lastRow);
      } else {
        OneRowShowsLeavesInOrder(c.children, t, t);
        PieceOnRow(c, t, lastRow);
      }
      OneRowShowsLeavesInOrder(kids[1..], t, t);
      assert LeafText(kids) == (if c.context.TextNodeContext? then c.context.text else LeafText(c.children)) + LeafText(kids[1..]);
    }
  }

  /** The first child of a row and the rest of it. */
  lemma OnRowSplit(kids: seq<Laid<Context>>, t: int)
    requires OnRow(kids, t) && kids != []
    ensures kids[0].top == t && kids[0].marginLeft <= 0
    ensures !kids[0].context.TextNodeContext? ==> OnRow(kids[0].children, t)
    ensures OnRow(kids[1..], t)
  {
    forall i | 0 <= i < |kids[1..]|
      ensures kids[1..][i] == kids[i + 1]
    {
    }
  }

  /** A child on the row already being drawn, without a left margin, draws only its contents. */
  lemma PieceOnRow(c: Laid<Context>, t: int, lastRow: int)
    requires c.top == t && c.marginLeft <= 0
    requires lastRow == -1 || lastRow == t
    ensures Piece(c, lastRow) == if c.context.TextNodeContext? then c.context.text else Draw(c.children, t)
  {
    var body := if c.context.TextNodeContext? then c.context.text else Draw(c.children, c.top);
    assert Piece(c, lastRow) == [] + [] + body;
  }

  /** Text leaves with no left margin, on rows 0 or below, each lower than the one before. */
  predicate Stacked(kids: seq<Laid<Context>>) {
    && (forall i :: 0 <= i < |kids| ==> kids[i].context.TextNodeContext? && kids[i].marginLeft <= 0 && kids[i].top >= 0)
    && (forall i, j :: 0 <= i < j < |kids| ==> kids[i].top < kids[j].top)
  }

  function Texts(kids: seq<Laid<Context>>): (r: seq<Bytes>)
    requires forall i :: 0 <= i < |kids| ==> kids[i].context.TextNodeContext?
    ensures |r| == |kids|
    ensures forall i :: 0 <= i < |kids| ==> r[i] == kids[i].context.text
  {
    seq(|kids|, i requires 0 <= i < |kids| => kids[i].context.text)
  }

  /**
   * Text leaves on successive rows come out as their texts with one
   * newline between each two; a drawing that starts below an earlier row
   * starts with a newline.
   */
  lemma {:induction false} StackedRowsAreJoined(kids: seq<Laid<Context>>, lastRow: int)
    requires Stacked(kids)
    requires kids != [] ==> lastRow < kids[0].top
    ensures Draw(kids, lastRow) == (if lastRow >= 0 && kids != [] then [NL] else []) + JoinLines(Texts(kids))
    decreases |kids|
  {
    if kids != [] {
      var c := kids[0];
      var rest := kids[1..];
      StackedSplit(kids);
      StackedRowsAreJoined(rest, c.top);
      var nl: Bytes := if lastRow >= 0 then [NL] else [];
      var text := c.context.text;
      var segs := Texts(kids);
      LeafPiece(c, lastRow);
      assert Draw(kids, lastRow) == (nl + text) + Draw(rest, c.top);
      if rest == [] {
        assert |segs| == 1;
        assert Draw(kids, lastRow) == (nl + text) + [];
      } else {
        var j := JoinLines(Texts(rest));
        assert |segs| > 1;
        assert JoinLines(segs) == (text + [NL]) + j;
        Regroup(nl, text, [NL], j);
      }
    }
  }

  /** A text leaf below lastRow, without a left margin: the newline rule, then its text. */
  lemma LeafPiece(c: Laid<Context>, lastRow: int)
    requires c.context.TextNodeContext? && c.marginLeft <= 0 && lastRow < c.top
    ensures Piece(c, lastRow) == (if lastRow >= 0 then [NL] else []) + c.context.text
  {
    assert Margin(c) == [];
  }

  lemma Regroup(a: Bytes, b: Bytes, c: Bytes, d: Bytes)
    ensures (a + b) + (c + d) == a + ((b + c) + d)
  {
  }

  /** The first leaf of a stack and the rest of it. */
  lemma StackedSplit(kids: seq<Laid<Context>>)
    requires Stacked(kids) && kids != []
    ensures Stacked(kids[1..])
    ensures |kids| > 1 ==> kids[0].top < kids[1].top
    ensures Texts(kids)[0] == kids[0].context.text && Texts(kids)[1..] == Texts(kids[1..])
  {
    var rest := kids[1..];
    forall i | 0 <= i < |rest|
      ensures rest[i] == kids[i + 1]
    {
    }
  }

  /**
   * A one-leaf frame shows the leaf's text as it is: rendering
   * Text("hello\nworld") gives "hello\nworld".
   */
  lemma SingleLeafShowsItsText(leaf: Laid<Context>)
    requires leaf.context.TextNodeContext? && leaf.marginLeft <= 0
    ensures Draw([leaf], -1) == leaf.context.text
  {
    assert Draw([leaf], -1) == Piece(leaf, -1) + Draw([], leaf.top);
  }
}
