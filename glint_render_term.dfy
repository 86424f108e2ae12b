/**
 * TerminalRenderer (renderer_term.go): draws a laid-out tree to a terminal,
 * first erasing what the previous frame left on screen.
 */
module GlintTerminalRenderer {
  import opened Wrappers
  import opened Bytes
  import opened Flex
  import opened Terminal
  import opened GlintComponent
  import GlintStringRenderer

  /**
   * The rows and cols LayoutRoot works with (renderer_term.go:35-45): the
   * configured ones, unless one of them is 0 and the output is a terminal
   * whose size could be read (detected), in which case both are replaced.
   */
  function Dimensions(rows: nat, cols: nat, detected: Option<(nat, nat)>): (r: (nat, nat))
    ensures rows > 0 && cols > 0 ==> r == (rows, cols)
    ensures detected.None? ==> r == (rows, cols)
  {
    if (cols == 0 || rows == 0) && detected.Some? then detected.value else (rows, cols)
  }

  /**
   * What RenderRoot writes before drawing (renderer_term.go:70-85): nothing
   * without a previous frame or for a zero height; otherwise one erase-line
   * and height-1 up-and-erase-lines when the height fits the screen, and a
   * full clear when it does not. height is the current root's height.
   */
  function Erase(hasPrev: bool, height: int, rows: nat): seq<Token> {
    if !hasPrev || height <= 0 then []
    else if height <= rows then [EraseLine] + Ups(height - 1)
    else [EraseDisplayHome]
  }

  /**
   * The bytes renderTree (renderer_term.go:91-126) writes for kids, with
   * lastRow as passed in.
   */
  function Draw(kids: seq<Laid<Context>>, lastRow: int): Bytes
    decreases kids
  {
    if kids == [] then [] else Piece(kids[0], lastRow) + Draw(kids[1..], kids[0].top)
  }

  /** Positive v as v spaces, otherwise nothing. */
  function Pad(v: int): (r: Bytes)
    ensures |r| == if v > 0 then v else 0
  {
    if v > 0 then Spaces(v) else []
  }

  /** Left margin, then left padding. */
  function Left(c: Laid<Context>): Bytes {
    Pad(c.marginLeft) + Pad(c.paddingLeft)
  }

  /** Right margin, then right padding. */
  function Right(c: Laid<Context>): Bytes {
    Pad(c.marginRight) + Pad(c.paddingRight)
  }

  /**
   * One child: the newline rule of the string renderer, then left margin,
   * left padding, the text or the container's children, right margin and
   * right padding, each margin or padding only when positive.
   */
  function Piece(c: Laid<Context>, lastRow: int): Bytes
    decreases c
  {
    (if lastRow >= 0 && c.top > lastRow then [NL] else [])
    + Left(c)
    + (if c.context.TextNodeContext? then c.context.text else Draw(c.children, c.top))
    + Right(c)
  }

  /** The loop of renderTree after child i: its piece joins what is drawn. */
  lemma DrawStep(kids: seq<Laid<Context>>, i: nat, row: int, lastRow: int, drawn: Bytes)
    requires i < |kids|
    requires drawn + Draw(kids[i..], row) == Draw(kids, lastRow)
    ensures (drawn + Piece(kids[i], row)) + Draw(kids[i + 1..], kids[i].top) == Draw(kids, lastRow)
  {
    assert kids[i..][1..] == kids[i + 1..];
    assert Draw(kids[i..], row) == Piece(kids[i], row) + Draw(kids[i + 1..], kids[i].top);
  }

  class TerminalRenderer {
    /** Output: nil (None) when unset. */
    var output: Option<Output>
    /** Rows, Cols: the terminal size; 0 means detect it. */
    var rows: nat
    var cols: nat

    /** &TerminalRenderer{Output: output, Rows: rows, Cols: cols}. */
    constructor (output: Option<Output>, rows: nat, cols: nat)
      ensures this.output == output && this.rows == rows && this.cols == cols
    {
      this.output := output;
      this.rows := rows;
      this.cols := cols;
    }

    /**
     * LayoutRoot (renderer_term.go:28-61). detected is the size a terminal
     * output reports, None when the output is not a terminal or its size
     * cannot be read.
     */
    method LayoutRoot(detected: Option<(nat, nat)>) returns (root: Option<Forest<Context>>)
      ensures output.None? ==> root.None?
      ensures output.Some? ==>
        var (r, c) := Dimensions(rows, cols, detected);
        && (r == 0 || c == 0 <==> root.None?)
        && (root.Some? ==>
              && fresh(root.value) && root.value.Valid()
              && root.value.nodes == [NodeData(DefaultStyle.(width := Some(c)), TermRootContext(r, c), false, [])])
    {
      if output.None? {
        return None;
      }

      var c := cols;
      var r := rows;
      if (c == 0 || r == 0) && detected.Some? {
        r := detected.value.0;
        c := detected.value.1;
      }

      if c == 0 || r == 0 {
        return None;
      }

      var node := new Forest(NodeData(DefaultStyle, NoContext, false, []));
      node.SetStyle(0, node.nodes[0].style.(width := Some(c)));
      node.SetContext(0, TermRootContext(r, c));
      return Some(node);
    }

    /**
     * RenderRoot (renderer_term.go:63-89). The root must carry the
     * termRootContext LayoutRoot gave it and the output must be set: the
     * type assertion and the writes panic otherwise.
     */
    method RenderRoot(root: Laid<Context>, prev: Option<Laid<Context>>)
      requires output.Some? && root.context.TermRootContext?
      modifies output.value
      ensures output.value.written ==
        old(output.value.written) + Erase(prev.Some?, root.height, root.context.rows) + Emit(Draw(root.children, -1))
    {
      var w := output.value;
      var rows := root.context.rows;
      ghost var erase := Erase(prev.Some?, root.height, rows);

      if prev.Some? {
        var height := root.height;
        if height > 0 {
          if height <= rows {
            w.WriteToken(EraseLine);
            var i := 0;
            while i < height - 1
              invariant 0 <= i <= height - 1
              invariant w.written == old(w.written) + [EraseLine] + Ups(i)
            {
              w.WriteToken(UpEraseLine);
              assert Ups(i + 1) == Ups(i) + [UpEraseLine];
              i := i + 1;
            }
          } else {
            w.WriteToken(EraseDisplayHome);
          }
        }
      }
      assert w.written == old(w.written) + erase;

      RenderTree(w, root, -1);
    }

    /** renderTree (renderer_term.go:91-126): appends Draw(parent.children, lastRow) to out. */
    method RenderTree(out: Output, parent: Laid<Context>, lastRow: int)
      modifies out
      ensures out.written == old(out.written) + Emit(Draw(parent.children, lastRow))
      decreases parent, 0
    {
      var kids := parent.children;
      var row := lastRow;
      ghost var drawn: Bytes := [];
      var i := 0;
      while i < |kids|
        invariant 0 <= i <= |kids|
        invariant out.written == old(out.written) + Emit(drawn)
        invariant drawn + Draw(kids[i..], row) == Draw(kids, lastRow)
      {
        var child := kids[i];
        ghost var piece := Piece(child, row);
        DrawStep(kids, i, row, lastRow, drawn);
        DrawChild(out, child, row);
        assert out.written == old(out.written) + Emit(drawn) + Emit(piece);
        EmitTwo(old(out.written), drawn, piece);
        row := child.top;
        drawn := drawn + piece;
        i := i + 1;
      }
    }

    /** The body of renderTree's loop (renderer_term.go:93-124) for one child. */
    method DrawChild(out: Output, child: Laid<Context>, lastRow: int)
      modifies out
      ensures out.written == old(out.written) + Emit(Piece(child, lastRow))
      decreases child, 1
    {
      var nl: Bytes := if lastRow >= 0 && child.top > lastRow then [NL] else [];
      out.Write(nl);
      var row := child.top;

      ghost var w1 := out.written;
      out.Write(Pad(child.marginLeft));
      out.Write(Pad(child.paddingLeft));
      EmitTwo(w1, Pad(child.marginLeft), Pad(child.paddingLeft));
      EmitTwo(old(out.written), nl, Left(child));

      ghost var body: Bytes;
      if !child.context.TextNodeContext? {
        body := Draw(child.children, row);
        RenderTree(out, child, row);
      } else {
        body := child.context.text;
        out.Write(child.context.text);
      }
      EmitTwo(old(out.written), nl + Left(child), body);

      ghost var w3 := out.written;
      out.Write(Pad(child.marginRight));
      out.Write(Pad(child.paddingRight));
      EmitTwo(w3, Pad(child.marginRight), Pad(child.paddingRight));
      EmitTwo(old(out.written), nl + Left(child) + body, Right(child));
    }
  }

  // ---------------------------------------------------------------------
  // The erase policy and the drawing, against independent readings

  /**
   * The lines erase tokens clear, numbered upwards from the line the cursor
   * starts on (0), the cursor being up lines above it.
   */
  function Cleared(ts: seq<Token>, up: nat): set<nat>
    decreases |ts|
  {
    if ts == [] then {}
    else if ts[0] == EraseLine then {up} + Cleared(ts[1..], up)
    else if ts[0] == UpEraseLine then {up + 1} + Cleared(ts[1..], up + 1)
    else Cleared(ts[1..], up)
  }

  lemma {:induction false} ClearedUps(n: nat, up: nat)
    ensures forall j: nat :: j in Cleared(Ups(n), up) <==> up < j <= up + n
    decreases n
  {
    if n > 0 {
      assert Ups(n)[1..] == Ups(n - 1);
      ClearedUps(n - 1, up + 1);
    }
  }

  /**
   * When the frame fits the screen, the erase clears exactly the height
   * lines ending at the cursor's line, without clearing the whole screen.
   */
  lemma EraseClearsFrameLines(height: int, rows: nat)
    requires 0 < height <= rows
    ensures forall j: nat :: j in Cleared(Erase(true, height, rows), 0) <==> j < height
    ensures EraseDisplayHome !in Erase(true, height, rows)
  {
    var e := Erase(true, height, rows);
    assert e[1..] == Ups(height - 1);
    ClearedUps(height - 1, 0);
  }

  /** A frame taller than the screen clears the whole screen instead, once. */
  lemma EraseClearsScreenWhenTaller(height: int, rows: nat)
    requires height > rows
    ensures Erase(true, height, rows) == [EraseDisplayHome]
    ensures Cleared(Erase(true, height, rows), 0) == {}
  {
  }

  /** No previous frame or a zero height: nothing is erased. */
  lemma EraseNothingWithoutPrevious(height: int, rows: nat)
    ensures Erase(false, height, rows) == []
    ensures height <= 0 ==> Erase(true, height, rows) == []
  {
  }

  /** No node below kids has right margin or any padding. */
  predicate Unpadded(kids: seq<Laid<Context>>)
    decreases kids
  {
    forall i :: 0 <= i < |kids| ==>
      && kids[i].paddingLeft <= 0 && kids[i].marginRight <= 0 && kids[i].paddingRight <= 0
      && (kids[i].context.TextNodeContext? || Unpadded(kids[i].children))
  }

  /**
   * Without right margins and paddings the terminal renderer draws exactly
   * what the string renderer draws: the same newline rule, left margins,
   * leaf texts and depth-first order.
   */
  lemma {:induction false} DrawsAsStringRenderer(kids: seq<Laid<Context>>, lastRow: int)
    requires Unpadded(kids)
    ensures Draw(kids, lastRow) == GlintStringRenderer.Draw(kids, lastRow)
    decreases kids
  {
    if kids != [] {
      var c := kids[0];
      if !c.context.TextNodeContext? {
        assert Unpadded(c.children);
        DrawsAsStringRenderer(c.children, c.top);
      }
      assert Left(c) == Pad(c.marginLeft) + [];
      assert Right(c) == [] + [];
      assert Piece(c, lastRow) == GlintStringRenderer.Piece(c, lastRow);
      assert Unpadded(kids[1..]) by {
        forall i | 0 <= i < |kids[1..]| ensures kids[1..][i] == kids[i + 1] { }
      }
      DrawsAsStringRenderer(kids[1..], c.top);
    }
  }
}
