/**
 * tree (tree.go:7-65): compiles a component into flex nodes appended under a
 * parent node, calling Finalize, Layout and Body on the components it meets.
 */
module GlintTree {
  import opened Wrappers
  import opened Bytes
  import opened Flex
  import opened LayoutBuilder
  import opened GlintComponent

  /** The style a text leaf ends with: shrink 1, grow 0, direction Row. */
  function TextStyle(s: Style): (r: Style)
    ensures r.shrink == 1 && r.grow == 0 && r.direction == Row
    ensures r.(shrink := s.shrink, grow := s.grow, direction := s.direction) == s
  {
    s.(shrink := 1).(grow := 0).(direction := Row)
  }

  /** The trees a component adds under its parent, in order. */
  function Compile(c: Component): seq<Tree<Context>>
    decreases c
  {
    match c
    case Nil => []
    case Fragment(items) => CompileList(items)
    case Text(render) =>
      [Flex.Tree(TextStyle(DefaultStyle), TextNodeContext(render, [], Size(0, 0)), true, [])]
    case Finalized(inner) =>
      [Flex.Tree(DefaultStyle, ParentContext(c, true), false, Compile(inner))]
    case Custom(_, body, layout, _) =>
      [Flex.Tree(if layout.Some? then Run(layout.value, DefaultStyle) else DefaultStyle, NoContext, false, Compile(body))]
  }

  function CompileList(cs: seq<Component>): seq<Tree<Context>>
    decreases cs
  {
    if cs == [] then [] else CompileList(cs[..|cs| - 1]) + Compile(cs[|cs| - 1])
  }

  /** The calls compiling c makes, with finalize as given by its parent. */
  function Calls(c: Component, finalize: bool): seq<Call>
    decreases c
  {
    match c
    case Nil => []
    case Text(_) => []
    case Fragment(items) => CallsList(items, finalize)
    case Finalized(inner) => Calls(inner, true)
    case Custom(id, body, layout, finalizer) =>
      (if finalize && finalizer then [FinalizeCall(id)] else [])
      + (if layout.Some? then [LayoutCall(id)] else [])
      + [BodyCall(id)]
      + Calls(body, finalize)
  }

  function CallsList(cs: seq<Component>, finalize: bool): seq<Call>
    decreases cs
  {
    if cs == [] then [] else CallsList(cs[..|cs| - 1], finalize) + Calls(cs[|cs| - 1], finalize)
  }

  /** t with ts added after its children. */
  function Appended(t: Tree<Context>, ts: seq<Tree<Context>>): Tree<Context> {
    t.(kids := t.kids + ts)
  }

  /** ns' adds nodes to ns and only appends children to p. */
  ghost predicate Grows(ns: seq<NodeData<Context>>, ns': seq<NodeData<Context>>, p: nat) {
    && p < |ns| <= |ns'|
    && (forall j :: 0 <= j < |ns| && j != p ==> ns'[j] == ns[j])
    && ns'[p] == ns[p].(children := ns'[p].children)
    && |ns[p].children| <= |ns'[p].children|
    && ns'[p].children[..|ns[p].children|] == ns[p].children
  }

  lemma GrowsTrans(a: seq<NodeData<Context>>, b: seq<NodeData<Context>>, c: seq<NodeData<Context>>, p: nat)
    requires Grows(a, b, p) && Grows(b, c, p)
    ensures Grows(a, c, p)
  {
    var k := |a[p].children|;
    assert c[p].children[..k] == c[p].children[..|b[p].children|][..k];
  }

  lemma AppendedTwice(t: Tree<Context>, a: seq<Tree<Context>>, b: seq<Tree<Context>>)
    ensures Appended(Appended(t, a), b) == Appended(t, a + b)
  {
    assert t.kids + a + b == t.kids + (a + b);
  }

  /**
   * tree(parent, c, finalize): the trees of Compile(c) are appended to p's
   * children, nothing else already in the arena changes, and the calls into
   * components are those of Calls(c, finalize), in order.
   */
  method Tree(f: Forest<Context>, log: CallLog, p: nat, c: Component, finalize: bool)
    requires f.Valid() && p < |f.nodes|
    modifies f, log
    ensures f.Valid()
    ensures Grows(old(f.nodes), f.nodes, p)
    ensures View(f.nodes, p) == Appended(View(old(f.nodes), p), Compile(c))
    ensures log.calls == old(log.calls) + Calls(c, finalize)
    decreases c, 2
  {
    if c.Nil? {
      assert View(f.nodes, p).kids + [] == View(f.nodes, p).kids;
      return;
    }

    if c.Fragment? {
      var items := c.items;
      var k := 0;
      ghost var ns0 := f.nodes;
      ghost var l0 := log.calls;
      assert View(ns0, p).kids + [] == View(ns0, p).kids;
      while k < |items|
        invariant 0 <= k <= |items|
        invariant f.Valid()
        invariant Grows(ns0, f.nodes, p)
        invariant View(f.nodes, p) == Appended(View(ns0, p), CompileList(items[..k]))
        invariant log.calls == l0 + CallsList(items[..k], finalize)
      {
        ghost var ns1 := f.nodes;
        ghost var l1 := log.calls;
        Tree(f, log, p, items[k], finalize);
        FragmentStep(ns0, ns1, f.nodes, l0, l1, log.calls, p, items, k, finalize);
        k := k + 1;
      }
      assert items[..k] == items;
      return;
    }

    Node(f, log, p, c, finalize);
  }

  /** One item of a fragment: what the loop in Tree knows after compiling items[k]. */
  lemma FragmentStep(ns0: seq<NodeData<Context>>, ns1: seq<NodeData<Context>>, ns2: seq<NodeData<Context>>,
                     l0: seq<Call>, l1: seq<Call>, l2: seq<Call>,
                     p: nat, items: seq<Component>, k: nat, finalize: bool)
    requires WellFormed(ns0) && WellFormed(ns1) && WellFormed(ns2) && k < |items|
    requires Grows(ns0, ns1, p) && Grows(ns1, ns2, p)
    requires View(ns1, p) == Appended(View(ns0, p), CompileList(items[..k]))
    requires View(ns2, p) == Appended(View(ns1, p), Compile(items[k]))
    requires l1 == l0 + CallsList(items[..k], finalize)
    requires l2 == l1 + Calls(items[k], finalize)
    ensures Grows(ns0, ns2, p)
    ensures View(ns2, p) == Appended(View(ns0, p), CompileList(items[..k + 1]))
    ensures l2 == l0 + CallsList(items[..k + 1], finalize)
  {
    GrowsTrans(ns0, ns1, ns2, p);
    assert items[..k + 1][..k] == items[..k];
    AppendedTwice(View(ns0, p), CompileList(items[..k]), Compile(items[k]));
  }

  /** The calls tree.go:40-50 makes on c before its body, with finalize as it stands at line 41. */
  function Prelude(c: Component, finalize: bool): seq<Call> {
    if c.Custom? then
      (if finalize && c.finalizer then [FinalizeCall(c.id)] else [])
      + (if c.layout.Some? then [LayoutCall(c.id)] else [])
    else []
  }

  /** The node tree.go:26-58 sets up for c, before any child is added. */
  function Shell(c: Component): (r: NodeData<Context>)
    requires !c.Nil? && !c.Fragment?
    ensures r.children == []
    ensures r.measured <==> c.Text?
    ensures c.Text? ==> r.context.TextNodeContext? && r.context.text == [] && r.style.direction == Row
    ensures c.Finalized? ==> r.context == ParentContext(c, true)
  {
    var t := Compile(c)[0];
    NodeData(t.style, t.context, t.measured, [])
  }

  /**
   * tree.go:26-58: a fresh node for c as p's last child, with its context,
   * its layout and, for a text leaf, its text style and measure function.
   */
  method Setup(f: Forest<Context>, log: CallLog, p: nat, c: Component, finalize: bool) returns (n: nat, fin: bool)
    requires f.Valid() && p < |f.nodes|
    requires !c.Nil? && !c.Fragment?
    modifies f, log
    ensures f.Valid()
    ensures n == old(|f.nodes|) && |f.nodes| == n + 1
    ensures f.nodes == old(f.nodes)[p := old(f.nodes)[p].(children := old(f.nodes)[p].children + [n])] + [Shell(c)]
    ensures fin == (finalize || c.Finalized?)
    ensures log.calls == old(log.calls) + Prelude(c, fin)
  {
    n := f.NewNode(NoContext);
    f.InsertChild(p, n);

    fin := finalize;
    if c.Finalized? {
      f.SetContext(n, ParentContext(c, true));
      fin := true;
    }

    if fin && c.Custom? && c.finalizer {
      log.Record(FinalizeCall(c.id));
    }

    if c.Custom? && c.layout.Some? {
      log.Record(LayoutCall(c.id));
      Apply(c.layout.value, f, n);
    }

    if c.Text? {
      f.SetContext(n, TextNodeContext(c.render, [], Size(0, 0)));
      f.SetStyle(n, f.nodes[n].style.(shrink := 1));
      f.SetStyle(n, f.nodes[n].style.(grow := 0));
      f.SetStyle(n, f.nodes[n].style.(direction := Row));
      f.SetMeasured(n);
    }
  }

  /** tree.go:26-62: c is neither nil nor a fragment, so it gets a node of its own under p. */
  method Node(f: Forest<Context>, log: CallLog, p: nat, c: Component, finalize: bool)
    requires f.Valid() && p < |f.nodes|
    requires !c.Nil? && !c.Fragment?
    modifies f, log
    ensures f.Valid()
    ensures Grows(old(f.nodes), f.nodes, p)
    ensures View(f.nodes, p) == Appended(View(old(f.nodes), p), Compile(c))
    ensures log.calls == old(log.calls) + Calls(c, finalize)
    decreases c, 1
  {
    ghost var ns0 := f.nodes;
    ghost var log0 := log.calls;
    var n, fin := Setup(f, log, p, c, finalize);
    ghost var ns1 := f.nodes;
    ghost var log1 := log.calls;
    if !c.Text? {
      Body(f, log, n, c, fin);
    }
    NodeCombine(ns0, ns1, f.nodes, p, n, c);
    LogCombine(log0, log1, log.calls, c, finalize, fin);
  }

  /** The call-log facts behind Node: the prelude, then for a component with a body its Body call and its body's calls. */
  lemma LogCombine(log0: seq<Call>, log1: seq<Call>, log2: seq<Call>, c: Component, finalize: bool, fin: bool)
    requires !c.Nil? && !c.Fragment?
    requires fin == (finalize || c.Finalized?)
    requires log1 == log0 + Prelude(c, fin)
    requires c.Text? ==> log2 == log1
    requires !c.Text? ==> log2 == log1 + (if c.Custom? then [BodyCall(c.id)] else []) + Calls(BodyOf(c), fin)
    ensures log2 == log0 + Calls(c, finalize)
  {
    NodeCalls(c, finalize);
  }

  /** The arena facts behind Node: a shell appended under p, then its body's trees under the shell. */
  lemma NodeCombine(ns0: seq<NodeData<Context>>, ns1: seq<NodeData<Context>>, ns2: seq<NodeData<Context>>,
                    p: nat, n: nat, c: Component)
    requires WellFormed(ns0) && WellFormed(ns1) && WellFormed(ns2)
    requires !c.Nil? && !c.Fragment?
    requires p < |ns0| && n == |ns0|
    requires ns1 == ns0[p := ns0[p].(children := ns0[p].children + [n])] + [Shell(c)]
    requires c.Text? ==> ns2 == ns1
    requires !c.Text? ==> Grows(ns1, ns2, n)
    requires !c.Text? ==> View(ns2, n) == Appended(View(ns1, n), Compile(BodyOf(c)))
    ensures Grows(ns0, ns2, p)
    ensures View(ns2, p) == Appended(View(ns0, p), Compile(c))
  {
    NodeFrame(ns0, ns1, ns2, p, n, c.Text?);
    ShellView(ns1, ns2, n, c);
    ViewExtendOne(ns0, ns2, p, n);
  }

  /** Only p's children and the new nodes differ. */
  lemma NodeFrame(ns0: seq<NodeData<Context>>, ns1: seq<NodeData<Context>>, ns2: seq<NodeData<Context>>,
                  p: nat, n: nat, leaf: bool)
    requires p < |ns0| && n == |ns0| && |ns1| == n + 1
    requires ns1[..n] == ns0[p := ns0[p].(children := ns0[p].children + [n])]
    requires leaf ==> ns2 == ns1
    requires !leaf ==> Grows(ns1, ns2, n)
    ensures Grows(ns0, ns2, p)
    ensures ns2[p] == ns0[p].(children := ns0[p].children + [n])
    ensures n < |ns2|
    ensures forall j :: p < j < |ns0| ==> ns2[j] == ns0[j]
  {
    assert ns1[p] == ns1[..n][p];
    forall j | 0 <= j < |ns0|
      ensures ns2[j] == ns1[j] && ns1[j] == ns1[..n][j]
    {
    }
    assert ns2[p].children[..|ns0[p].children|] == ns0[p].children;
  }

  /** The shell's node, once its body is compiled under it, reads back as the component's one tree. */
  lemma ShellView(ns1: seq<NodeData<Context>>, ns2: seq<NodeData<Context>>, n: nat, c: Component)
    requires WellFormed(ns1) && WellFormed(ns2)
    requires !c.Nil? && !c.Fragment?
    requires n == |ns1| - 1 && ns1[n] == Shell(c)
    requires c.Text? ==> ns2 == ns1
    requires !c.Text? ==> Grows(ns1, ns2, n) && View(ns2, n) == Appended(View(ns1, n), Compile(BodyOf(c)))
    ensures Compile(c) == [View(ns2, n)]
  {
    var sh := Shell(c);
    var t := View(ns1, n);
    assert t.kids == [];
    assert t == Flex.Tree(sh.style, sh.context, sh.measured, []);
    ShellTree(c);
    if !c.Text? {
      assert t.kids + Compile(BodyOf(c)) == Compile(BodyOf(c));
    }
  }

  /** The body a component with children compiles: the inner component, or the Body() result. */
  function BodyOf(c: Component): Component
    requires c.Finalized? || c.Custom?
  {
    if c.Finalized? then c.inner else c.body
  }

  /** tree.go:52-62 for a component that is not text: its body is compiled under its own node n. */
  method Body(f: Forest<Context>, log: CallLog, n: nat, c: Component, fin: bool)
    requires f.Valid() && n < |f.nodes|
    requires c.Finalized? || c.Custom?
    modifies f, log
    ensures f.Valid()
    ensures Grows(old(f.nodes), f.nodes, n)
    ensures View(f.nodes, n) == Appended(View(old(f.nodes), n), Compile(BodyOf(c)))
    ensures log.calls == old(log.calls) + (if c.Custom? then [BodyCall(c.id)] else []) + Calls(BodyOf(c), fin)
    decreases c, 0
  {
    var body;
    if c.Finalized? {
      body := c.inner;
    } else {
      log.Record(BodyCall(c.id));
      body := c.body;
    }
    Tree(f, log, n, body, fin);
  }

  /** The node a component with a node of its own compiles to is its shell with its body's trees as children. */
  lemma ShellTree(c: Component)
    requires !c.Nil? && !c.Fragment?
    ensures c.Text? ==> Compile(c) == [Flex.Tree(Shell(c).style, Shell(c).context, Shell(c).measured, [])]
    ensures c.Finalized? || c.Custom? ==>
      Compile(c) == [Flex.Tree(Shell(c).style, Shell(c).context, Shell(c).measured, Compile(BodyOf(c)))]
  {
  }

  /** The calls of a component with a node of its own: its prelude, its Body call, then its body's calls. */
  lemma NodeCalls(c: Component, finalize: bool)
    requires !c.Nil? && !c.Fragment?
    ensures c.Text? ==> Calls(c, finalize) == Prelude(c, finalize || c.Finalized?)
    ensures c.Finalized? || c.Custom? ==>
      Calls(c, finalize) == Prelude(c, finalize || c.Finalized?) + (if c.Custom? then [BodyCall(c.id)] else []) + Calls(BodyOf(c), finalize || c.Finalized?)
  {
  }

  // ---------------------------------------------------------------------
  // What the compiled trees contain

  /** The text leaves reached from c, depth first, as the components define them. */
  function Texts(c: Component): seq<RenderFunc>
    decreases c
  {
    match c
    case Nil => []
    case Text(render) => [render]
    case Fragment(items) => TextsList(items)
    case Finalized(inner) => Texts(inner)
    case Custom(_, body, _, _) => Texts(body)
  }

  function TextsList(cs: seq<Component>): seq<RenderFunc>
    decreases cs
  {
    if cs == [] then [] else TextsList(cs[..|cs| - 1]) + Texts(cs[|cs| - 1])
  }

  /** The render functions of the text nodes of some trees, depth first. */
  function Leaves(ts: seq<Tree<Context>>): seq<RenderFunc>
    decreases ts
  {
    if ts == [] then [] else Leaves(ts[..|ts| - 1]) + LeavesOf(ts[|ts| - 1])
  }

  function LeavesOf(t: Tree<Context>): seq<RenderFunc>
    decreases t
  {
    (if t.context.TextNodeContext? then [t.context.c] else []) + Leaves(t.kids)
  }

  lemma {:induction false} LeavesAppend(a: seq<Tree<Context>>, b: seq<Tree<Context>>)
    ensures Leaves(a + b) == Leaves(a) + Leaves(b)
    decreases |b|
  {
    if b == [] {
      assert a + b == a;
    } else {
      var b', x := b[..|b| - 1], b[|b| - 1];
      var ab := a + b;
      assert ab[..|ab| - 1] == a + b' && ab[|ab| - 1] == x;
      assert Leaves(ab) == Leaves(a + b') + LeavesOf(x);
      LeavesAppend(a, b');
      assert Leaves(b) == Leaves(b') + LeavesOf(x);
    }
  }

  lemma {:induction false} CompileListAppend(a: seq<Component>, b: seq<Component>)
    ensures CompileList(a + b) == CompileList(a) + CompileList(b)
    decreases |b|
  {
    if b == [] {
      assert a + b == a;
    } else {
      var b', x := b[..|b| - 1], b[|b| - 1];
      var ab := a + b;
      assert ab[..|ab| - 1] == a + b' && ab[|ab| - 1] == x;
      assert CompileList(ab) == CompileList(a + b') + Compile(x);
      CompileListAppend(a, b');
      assert CompileList(b) == CompileList(b') + Compile(x);
    }
  }

  /** Splicing: a fragment adds the trees of its items one after the other. */
  lemma FragmentSplices(items: seq<Component>, i: nat)
    requires i < |items|
    ensures Compile(Fragment(items)) == CompileList(items[..i]) + Compile(items[i]) + CompileList(items[i + 1..])
  {
    assert items == items[..i] + [items[i]] + items[i + 1..];
    CompileListAppend(items[..i] + [items[i]], items[i + 1..]);
    CompileListAppend(items[..i], [items[i]]);
    assert [items[i]][..0] == [];
  }

  /** The text nodes of the compiled trees are the text components of c, depth first. */
  lemma {:induction false} CompileLeaves(c: Component)
    ensures Leaves(Compile(c)) == Texts(c)
    decreases c, 1
  {
    match c
    case Nil =>
    case Text(render) =>
      var t := Compile(c)[0];
      assert Leaves(t.kids) == [];
      assert Compile(c)[..0] == [];
    case Fragment(items) =>
      CompileListLeaves(items);
    case Finalized(inner) =>
      CompileLeaves(inner);
      assert Compile(c)[..0] == [];
    case Custom(_, body, _, _) =>
      CompileLeaves(body);
      assert Compile(c)[..0] == [];
  }

  lemma {:induction false} CompileListLeaves(cs: seq<Component>)
    ensures Leaves(CompileList(cs)) == TextsList(cs)
    decreases cs, 0
  {
    if cs != [] {
      CompileListLeaves(cs[..|cs| - 1]);
      CompileLeaves(cs[|cs| - 1]);
      LeavesAppend(CompileList(cs[..|cs| - 1]), Compile(cs[|cs| - 1]));
    }
  }

  // ---------------------------------------------------------------------
  // Finalization

  /** The ids of the ComponentFinalizer components reached from c. */
  function Finalizers(c: Component): set<nat>
    decreases c
  {
    match c
    case Nil => {}
    case Text(_) => {}
    case Fragment(items) => FinalizersList(items)
    case Finalized(inner) => Finalizers(inner)
    case Custom(id, body, _, finalizer) => (if finalizer then {id} else {}) + Finalizers(body)
  }

  function FinalizersList(cs: seq<Component>): set<nat>
    decreases cs
  {
    if cs == [] then {} else FinalizersList(cs[..|cs| - 1]) + Finalizers(cs[|cs| - 1])
  }

  /** Whether c holds a Finalize(...) anywhere. */
  predicate HasFinalized(c: Component)
    decreases c
  {
    match c
    case Nil => false
    case Text(_) => false
    case Fragment(items) => exists i :: 0 <= i < |items| && HasFinalized(items[i])
    case Finalized(_) => true
    case Custom(_, body, _, _) => HasFinalized(body)
  }

  /** Compiled with finalize set, every finalizer reached has Finalize called. */
  lemma {:induction false} FinalizesAll(c: Component)
    ensures forall id :: id in Finalizers(c) ==> FinalizeCall(id) in Calls(c, true)
    decreases c, 1
  {
    match c
    case Nil =>
    case Text(_) =>
    case Fragment(items) => FinalizesAllList(items);
    case Finalized(inner) => FinalizesAll(inner);
    case Custom(_, body, _, _) => FinalizesAll(body);
  }

  lemma {:induction false} FinalizesAllList(cs: seq<Component>)
    ensures forall id :: id in FinalizersList(cs) ==> FinalizeCall(id) in CallsList(cs, true)
    decreases cs, 0
  {
    if cs != [] {
      FinalizesAllList(cs[..|cs| - 1]);
      FinalizesAll(cs[|cs| - 1]);
    }
  }

  /** A Finalize(inner) finalizes everything below it, whatever its parent's flag. */
  lemma FinalizedPropagates(inner: Component, finalize: bool)
    ensures forall id :: id in Finalizers(inner) ==> FinalizeCall(id) in Calls(Finalized(inner), finalize)
  {
    FinalizesAll(inner);
  }

  /** Without finalize set and without a Finalize(...) below, nothing is finalized. */
  lemma {:induction false} NoFinalizeUnlessAsked(c: Component)
    requires !HasFinalized(c)
    ensures forall k :: 0 <= k < |Calls(c, false)| ==> !Calls(c, false)[k].FinalizeCall?
    decreases c, 1
  {
    match c
    case Nil =>
    case Text(_) =>
    case Fragment(items) => NoFinalizeUnlessAskedList(items);
    case Finalized(inner) =>
    case Custom(_, body, _, _) => NoFinalizeUnlessAsked(body);
  }

  lemma {:induction false} NoFinalizeUnlessAskedList(cs: seq<Component>)
    requires forall i :: 0 <= i < |cs| ==> !HasFinalized(cs[i])
    ensures forall k :: 0 <= k < |CallsList(cs, false)| ==> !CallsList(cs, false)[k].FinalizeCall?
    decreases cs, 0
  {
    if cs != [] {
      NoFinalizeUnlessAskedList(cs[..|cs| - 1]);
      NoFinalizeUnlessAsked(cs[|cs| - 1]);
    }
  }

  /** The calls other than Finalize, in order. */
  function Unfinalized(calls: seq<Call>): (r: seq<Call>)
    ensures forall k :: 0 <= k < |r| ==> !r[k].FinalizeCall?
    ensures |r| <= |calls|
  {
    if calls == [] then []
    else Unfinalized(calls[..|calls| - 1]) + (if calls[|calls| - 1].FinalizeCall? then [] else [calls[|calls| - 1]])
  }

  lemma {:induction false} UnfinalizedAppend(a: seq<Call>, b: seq<Call>)
    ensures Unfinalized(a + b) == Unfinalized(a) + Unfinalized(b)
    decreases |b|
  {
    if b == [] {
      assert a + b == a;
    } else {
      var b' := b[..|b| - 1];
      assert (a + b)[..|a + b| - 1] == a + b';
      assert (a + b)[|a + b| - 1] == b[|b| - 1];
      UnfinalizedAppend(a, b');
    }
  }

  /** The finalize flag changes only which Finalize calls are made: Layout and Body calls are the same. */
  lemma {:induction false} FinalizeOnlyAddsFinalizeCalls(c: Component)
    ensures Unfinalized(Calls(c, true)) == Unfinalized(Calls(c, false))
    decreases c, 1
  {
    match c
    case Nil =>
    case Text(_) =>
    case Fragment(items) => FinalizeOnlyAddsFinalizeCallsList(items);
    case Finalized(inner) =>
    case Custom(id, body, layout, finalizer) =>
      FinalizeOnlyAddsFinalizeCalls(body);
      CustomUnfinalized(c, true);
      CustomUnfinalized(c, false);
  }

  /** Without its Finalize calls, a custom component makes its Layout and Body calls, then its body's. */
  lemma CustomUnfinalized(c: Component, fin: bool)
    requires c.Custom?
    ensures Unfinalized(Calls(c, fin))
         == Unfinalized((if c.layout.Some? then [LayoutCall(c.id)] else []) + [BodyCall(c.id)]) + Unfinalized(Calls(c.body, fin))
  {
    var rest := (if c.layout.Some? then [LayoutCall(c.id)] else []) + [BodyCall(c.id)];
    var pre := if fin && c.finalizer then [FinalizeCall(c.id)] else [];
    var tail := Calls(c.body, fin);
    assert Calls(c, fin) == pre + (rest + tail);
    DropFinalizeCalls(pre, rest + tail);
    UnfinalizedAppend(rest, tail);
  }

  /** Leading Finalize calls leave nothing behind. */
  lemma DropFinalizeCalls(pre: seq<Call>, calls: seq<Call>)
    requires forall k :: 0 <= k < |pre| ==> pre[k].FinalizeCall?
    ensures Unfinalized(pre + calls) == Unfinalized(calls)
  {
    OnlyFinalizeCalls(pre);
    UnfinalizedAppend(pre, calls);
  }

  lemma {:induction false} OnlyFinalizeCalls(pre: seq<Call>)
    requires forall k :: 0 <= k < |pre| ==> pre[k].FinalizeCall?
    ensures Unfinalized(pre) == []
    decreases |pre|
  {
    if pre != [] {
      OnlyFinalizeCalls(pre[..|pre| - 1]);
    }
  }

  lemma {:induction false} FinalizeOnlyAddsFinalizeCallsList(cs: seq<Component>)
    ensures Unfinalized(CallsList(cs, true)) == Unfinalized(CallsList(cs, false))
    decreases cs, 0
  {
    if cs != [] {
      var init := cs[..|cs| - 1];
      var last := cs[|cs| - 1];
      FinalizeOnlyAddsFinalizeCallsList(init);
      FinalizeOnlyAddsFinalizeCalls(last);
      UnfinalizedAppend(CallsList(init, true), Calls(last, true));
      UnfinalizedAppend(CallsList(init, false), Calls(last, false));
    }
  }
}
