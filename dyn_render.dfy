/**
 * render.go of the older generation: the tree compiler, which does not
 * finalize, and renderTree, which truncates text leaves that were laid out
 * smaller than they measured.
 */
module DynRender {
  import opened Wrappers
  import opened Bytes
  import opened Lines
  import opened Flex
  import opened LayoutBuilder
  import opened Terminal
  import opened DynComponent
  import opened DynLayout

  // ---------------------------------------------------------------------
  // tree (render.go:17-70)

  function TextStyle(s: Style): (r: Style)
    ensures r.shrink == 1 && r.grow == 0 && r.direction == Row
    ensures r.(shrink := s.shrink, grow := s.grow, direction := s.direction) == s
  {
    s.(shrink := 1).(grow := 0).(direction := Row)
  }

  /** The trees a component adds under its parent, in order. */
  function Compile(c: Component): seq<Tree<Context>>
    decreases c
  {
    match c
    case Nil => []
    case Fragment(items) => CompileList(items)
    case Text(render) =>
      [Flex.Tree(TextStyle(DefaultStyle), NodeContext(render, [], Size(0, 0)), true, [])]
    case Finalized(inner) =>
      [Flex.Tree(DefaultStyle, ParentContext(c, true), false, Compile(inner))]
    case Custom(body, layout) =>
      [Flex.Tree(if layout.Some? then Run(layout.value, DefaultStyle) else DefaultStyle, NoContext, false, Compile(body))]
  }

  function CompileList(cs: seq<Component>): seq<Tree<Context>>
    decreases cs
  {
    if cs == [] then [] else CompileList(cs[..|cs| - 1]) + Compile(cs[|cs| - 1])
  }

  function Appended(t: Tree<Context>, ts: seq<Tree<Context>>): Tree<Context> {
    t.(kids := t.kids + ts)
  }

  /** ns' adds nodes to ns and only appends children to p. */
  ghost predicate Grows(ns: seq<NodeData<Context>>, ns': seq<NodeData<Context>>, p: nat) {
    && p < |ns| <= |ns'|
    && (forall j :: 0 <= j < |ns| && j != p ==> ns'[j] == ns[j])
    && ns'[p] == ns[p].(children := ns'[p].children)
    && |ns[p].children| <= |ns'[p].children|
    && ns'[p].children[..|ns[p].children|] == ns[p].children
  }

  lemma GrowsTrans(a: seq<NodeData<Context>>, b: seq<NodeData<Context>>, c: seq<NodeData<Context>>, p: nat)
    requires Grows(a, b, p) && Grows(b, c, p)
    ensures Grows(a, c, p)
  {
    var k := |a[p].children|;
    assert c[p].children[..k] == c[p].children[..|b[p].children|][..k];
  }

  lemma AppendedTwice(t: Tree<Context>, a: seq<Tree<Context>>, b: seq<Tree<Context>>)
    ensures Appended(Appended(t, a), b) == Appended(t, a + b)
  {
    assert t.kids + a + b == t.kids + (a + b);
  }

  /**
   * tree(parent, c, termRows, termCols): the trees of Compile(c) are
   * appended to p's children and nothing else already in the arena changes.
   * termRows and termCols are handed down and never read.
   */
  method Tree(f: Forest<Context>, p: nat, c: Component, termRows: nat, termCols: nat)
    requires f.Valid() && p < |f.nodes|
    modifies f
    ensures f.Valid()
    ensures Grows(old(f.nodes), f.nodes, p)
    ensures View(f.nodes, p) == Appended(View(old(f.nodes), p), Compile(c))
    decreases c, 1
  {
    if c.Nil? {
      assert View(f.nodes, p).kids + [] == View(f.nodes, p).kids;
      return;
    }

    if c.Fragment? {
      var items := c.items;
      var k := 0;
      ghost var ns0 := f.nodes;
      assert View(ns0, p).kids + [] == View(ns0, p).kids;
      while k < |items|
        invariant 0 <= k <= |items|
        invariant f.Valid()
        invariant Grows(ns0, f.nodes, p)
        invariant View(f.nodes, p) == Appended(View(ns0, p), CompileList(items[..k]))
      {
        ghost var ns1 := f.nodes;
        Tree(f, p, items[k], termRows, termCols);
        GrowsTrans(ns0, ns1, f.nodes, p);
        assert items[..k + 1][..k] == items[..k];
        AppendedTwice(View(ns0, p), CompileList(items[..k]), Compile(items[k]));
        k := k + 1;
      }
      assert items[..k] == items;
      return;
    }

    Node(f, p, c, termRows, termCols);
  }

  /** The node render.go:36-63 sets up for c, before any child is added. */
  function Shell(c: Component): (r: NodeData<Context>)
    requires !c.Nil? && !c.Fragment?
    ensures r.children == []
    ensures r.measured <==> c.Text?
    ensures c.Text? ==> r.context.NodeContext? && r.context.text == [] && r.style.direction == Row
    ensures c.Finalized? ==> r.context == ParentContext(c, true)
  {
    var t := Compile(c)[0];
    NodeData(t.style, t.context, t.measured, [])
  }

  /** render.go:36-63: a fresh node for c as p's last child, with its context and style. */
  method Setup(f: Forest<Context>, p: nat, c: Component) returns (n: nat)
    requires f.Valid() && p < |f.nodes|
    requires !c.Nil? && !c.Fragment?
    modifies f
    ensures f.Valid()
    ensures n == old(|f.nodes|) && |f.nodes| == n + 1
    ensures f.nodes == old(f.nodes)[p := old(f.nodes)[p].(children := old(f.nodes)[p].children + [n])] + [Shell(c)]
  {
    n := f.NewNode(NoContext);
    f.InsertChild(p, n);

    if c.Finalized? {
      f.SetContext(n, ParentContext(c, true));
    }

    if c.Custom? && c.layout.Some? {
      Apply(c.layout.value, f, n);
    }

    if c.Text? {
      f.SetContext(n, NodeContext(c.render, [], Size(0, 0)));
      f.SetStyle(n, f.nodes[n].style.(shrink := 1));
      f.SetStyle(n, f.nodes[n].style.(grow := 0));
      f.SetStyle(n, f.nodes[n].style.(direction := Row));
      f.SetMeasured(n);
    }
  }

  /** render.go:36-67: c is neither nil nor a fragment, so it gets a node of its own under p. */
  method Node(f: Forest<Context>, p: nat, c: Component, termRows: nat, termCols: nat)
    requires f.Valid() && p < |f.nodes|
    requires !c.Nil? && !c.Fragment?
    modifies f
    ensures f.Valid()
    ensures Grows(old(f.nodes), f.nodes, p)
    ensures View(f.nodes, p) == Appended(View(old(f.nodes), p), Compile(c))
    decreases c, 0
  {
    ghost var ns0 := f.nodes;
    var n := Setup(f, p, c);
    if !c.Text? {
      var body := if c.Finalized? then c.inner else c.body;
      ghost var ns3 := f.nodes;
      assert View(ns3, n) == Flex.Tree(ns3[n].style, ns3[n].context, false, []);
      Tree(f, n, body, termRows, termCols);
    }
    assert View(f.nodes, n) == Compile(c)[0];
    assert Compile(c) == [Compile(c)[0]];
    ViewExtendOne(ns0, f.nodes, p, n);
  }

  /**
   * Finalization is not handed down: Finalize(inner) marks its own node and
   * compiles inner exactly as inner compiles on its own.
   */
  lemma FinalizedMarksOnlyItsOwnNode(inner: Component)
    ensures |Compile(Finalized(inner))| == 1
    ensures Compile(Finalized(inner))[0].context == ParentContext(Finalized(inner), true)
    ensures Compile(Finalized(inner))[0].kids == Compile(inner)
  {
  }

  /** The text components reached from c, depth first, as the components define them. */
  function Texts(c: Component): seq<RenderFunc>
    decreases c
  {
    match c
    case Nil => []
    case Text(render) => [render]
    case Fragment(items) => TextsList(items)
    case Finalized(inner) => Texts(inner)
    case Custom(body, _) => Texts(body)
  }

  function TextsList(cs: seq<Component>): seq<RenderFunc>
    decreases cs
  {
    if cs == [] then [] else TextsList(cs[..|cs| - 1]) + Texts(cs[|cs| - 1])
  }

  /** The render functions held by the nodeContexts of some trees, depth first. */
  function Leaves(ts: seq<Tree<Context>>): seq<RenderFunc>
    decreases ts
  {
    if ts == [] then [] else Leaves(ts[..|ts| - 1]) + LeavesOf(ts[|ts| - 1])
  }

  function LeavesOf(t: Tree<Context>): seq<RenderFunc>
    decreases t
  {
    (if t.context.NodeContext? then [t.context.c] else []) + Leaves(t.kids)
  }

  lemma {:induction false} LeavesAppend(a: seq<Tree<Context>>, b: seq<Tree<Context>>)
    ensures Leaves(a + b) == Leaves(a) + Leaves(b)
    decreases |b|
  {
    if b == [] {
      assert a + b == a;
    } else {
      var b', x := b[..|b| - 1], b[|b| - 1];
      var ab := a + b;
      assert ab[..|ab| - 1] == a + b' && ab[|ab| - 1] == x;
      assert Leaves(ab) == Leaves(a + b') + LeavesOf(x);
      LeavesAppend(a, b');
      assert Leaves(b) == Leaves(b') + LeavesOf(x);
    }
  }

  lemma {:induction false} CompileListAppend(a: seq<Component>, b: seq<Component>)
    ensures CompileList(a + b) == CompileList(a) + CompileList(b)
    decreases |b|
  {
    if b == [] {
      assert a + b == a;
    } else {
      var b', x := b[..|b| - 1], b[|b| - 1];
      var ab := a + b;
      assert ab[..|ab| - 1] == a + b' && ab[|ab| - 1] == x;
      assert CompileList(ab) == CompileList(a + b') + Compile(x);
      CompileListAppend(a, b');
      assert CompileList(b) == CompileList(b') + Compile(x);
    }
  }

  /** Splicing: a fragment adds the trees of its items one after the other, and none of its own. */
  lemma FragmentSplices(items: seq<Component>, i: nat)
    requires i < |items|
    ensures Compile(Fragment(items)) == CompileList(items[..i]) + Compile(items[i]) + CompileList(items[i + 1..])
  {
    assert items == items[..i] + [items[i]] + items[i + 1..];
    CompileListAppend(items[..i] + [items[i]], items[i + 1..]);
    CompileListAppend(items[..i], [items[i]]);
    assert [items[i]][..0] == [];
  }

  /** The nodeContext leaves of the compiled trees are the text components of c, depth first. */
  lemma {:induction false} CompileLeaves(c: Component)
    ensures Leaves(Compile(c)) == Texts(c)
    decreases c, 1
  {
    match c
    case Nil =>
    case Text(render) =>
      var t := Compile(c)[0];
      assert Leaves(t.kids) == [];
      assert Compile(c)[..0] == [];
    case Fragment(items) =>
      CompileListLeaves(items);
    case Finalized(inner) =>
      CompileLeaves(inner);
      assert Compile(c)[..0] == [];
    case Custom(body, _) =>
      CompileLeaves(body);
      assert Compile(c)[..0] == [];
  }

  lemma {:induction false} CompileListLeaves(cs: seq<Component>)
    ensures Leaves(CompileList(cs)) == TextsList(cs)
    decreases cs, 0
  {
    if cs != [] {
      CompileListLeaves(cs[..|cs| - 1]);
      CompileLeaves(cs[|cs| - 1]);
      LeavesAppend(CompileList(cs[..|cs| - 1]), Compile(cs[|cs| - 1]));
    }
  }

  // ---------------------------------------------------------------------
  // renderTree (render.go:72-137)

  /**
   * The text drawn for a leaf: when the layout gave it less height or width
   * than it measured, the text after re-measuring, cut to the height it got;
   * otherwise the text as it is.
   */
  function LeafText(c: Laid<Context>): Bytes
    requires c.context.NodeContext?
  {
    var ctx := c.context;
    if c.height < ctx.size.height || c.width < ctx.size.width then
      var again := Measured(ctx, Width(c), Height(c)).0;
      Truncated(again.text, c.height)
    else ctx.text
  }

  /** The width and height passed to measureNode, as the unsigned integers it renders with. */
  function Width(c: Laid<Context>): nat {
    if c.width < 0 then 0 else c.width
  }

  function Height(c: Laid<Context>): nat {
    if c.height < 0 then 0 else c.height
  }

  function Draw(kids: seq<Laid<Context>>, lastRow: int): Bytes
    decreases kids
  {
    if kids == [] then [] else Piece(kids[0], lastRow) + Draw(kids[1..], kids[0].top)
  }

  /**
   * One child: the newline rule (render.go:94-99), the positive left margin
   * as spaces, then the leaf's text or the container's children drawn from
   * its own row.
   */
  function Piece(c: Laid<Context>, lastRow: int): Bytes
    decreases c
  {
    (if lastRow >= 0 && c.top > lastRow then [NL] else [])
    + (if c.marginLeft > 0 then Spaces(c.marginLeft) else [])
    + (if c.context.NodeContext? then LeafText(c) else Draw(c.children, c.top))
  }

  /** The loop of renderTree after child i: its piece joins what is drawn. */
  lemma DrawStep(kids: seq<Laid<Context>>, i: nat, row: int, lastRow: int, drawn: Bytes)
    requires i < |kids|
    requires drawn + Draw(kids[i..], row) == Draw(kids, lastRow)
    ensures (drawn + Piece(kids[i], row)) + Draw(kids[i + 1..], kids[i].top) == Draw(kids, lastRow)
  {
    assert kids[i..][1..] == kids[i + 1..];
    assert Draw(kids[i..], row) == Piece(kids[i], row) + Draw(kids[i + 1..], kids[i].top);
  }

  /** renderTree (render.go:72-137), debug output left out: appends Draw(parent.children, lastRow) to w. */
  method RenderTree(w: Output, parent: Laid<Context>, lastRow: int)
    modifies w
    ensures w.written == old(w.written) + Emit(Draw(parent.children, lastRow))
    decreases parent, 0
  {
    var kids := parent.children;
    var row := lastRow;
    ghost var drawn: Bytes := [];
    var i := 0;
    while i < |kids|
      invariant 0 <= i <= |kids|
      invariant w.written == old(w.written) + Emit(drawn)
      invariant drawn + Draw(kids[i..], row) == Draw(kids, lastRow)
    {
      var child := kids[i];
      ghost var piece := Piece(child, row);
      DrawStep(kids, i, row, lastRow, drawn);
      DrawChild(w, child, row);
      EmitTwo(old(w.written), drawn, piece);
      row := child.top;
      drawn := drawn + piece;
      i := i + 1;
    }
  }

  /** The body of renderTree's loop (render.go:94-135) for one child. */
  method DrawChild(w: Output, child: Laid<Context>, lastRow: int)
    modifies w
    ensures w.written == old(w.written) + Emit(Piece(child, lastRow))
    decreases child, 1
  {
    var nl: Bytes := if lastRow >= 0 && child.top > lastRow then [NL] else [];
    w.Write(nl);
    var row := child.top;

    var margin: Bytes := if child.marginLeft > 0 then Spaces(child.marginLeft) else [];
    w.Write(margin);
    EmitTwo(old(w.written), nl, margin);

    if !child.context.NodeContext? {
      RenderTree(w, child, row);
      EmitTwo(old(w.written), nl + margin, Draw(child.children, row));
      return;
    }

    var ctx := child.context;
    var text := ctx.text;
    if child.height < ctx.size.height || child.width < ctx.size.width {
      var again := Measured(ctx, Width(child), Height(child)).0;
      text := again.text;
      text := TruncateTextHeight(text, child.height);
    }
    w.Write(text);
    EmitTwo(old(w.written), nl + margin, text);
  }

  /**
   * A leaf laid out smaller than it measured draws a prefix of its stored
   * text with at most as many lines as the height it got: re-measuring a
   * nodeContext changes nothing, so only the cut does.
   */
  lemma ShrunkLeafFitsHeight(c: Laid<Context>)
    requires c.context.NodeContext? && c.height >= 0
    requires c.height < c.context.size.height || c.width < c.context.size.width
    ensures CountLines(LeafText(c)) <= c.height
    ensures |LeafText(c)| <= |c.context.text| && LeafText(c) == c.context.text[..|LeafText(c)|]
  {
    NodeContextNeverMeasured(c.context.c, c.context.text, c.context.size, Width(c), Height(c));
    TruncatedFitsHeight(c.context.text, c.height);
    TruncatedIsPrefix(c.context.text, c.height);
  }

  /**
   * tree leaves a text leaf's nodeContext with no text, and measureNode
   * never fills one in, so such a leaf draws nothing, whatever its size.
   */
  lemma UnmeasuredLeafDrawsNothing(c: Laid<Context>)
    requires c.context.NodeContext? && c.context.text == []
    ensures LeafText(c) == []
  {
    NodeContextNeverMeasured(c.context.c, c.context.text, c.context.size, Width(c), Height(c));
    TruncatedIsPrefix([], c.height);
  }
}
