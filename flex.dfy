/**
 * The flexbox node tree the renderers build and lay out. The solver itself
 * (internal/flex) is not part of this model: a node here holds its style, its
 * context value and its measure function flag, and the renderers read the
 * solver's integer results from a laid-out snapshot (Laid).
 *
 * Nodes live in an arena: a node is its index in Forest.nodes, and every child
 * index is larger than its parent's, so the tree below any node is finite and
 * no node is its own descendant.
 */
module Flex {
  import opened Wrappers

  datatype Direction = Column | Row

  datatype Overflow = Visible | Hidden | Scroll

  /** The style fields the code sets, after their float32 values are taken as integers. */
  datatype Style = Style(
    direction: Direction,
    shrink: int,
    grow: int,
    marginLeft: int,
    minHeight: Option<int>,
    overflow: Overflow,
    width: Option<int>)

  /** The style of a fresh node. */
  const DefaultStyle := Style(Column, 0, 0, 0, None, Visible, None)

  datatype Size = Size(width: int, height: int)

  /** One node: its style, its Context value, whether a measure function is set, its children. */
  datatype NodeData<C> = NodeData(style: Style, context: C, measured: bool, children: seq<nat>)

  /** Every child index points further into the arena than its parent. */
  ghost predicate WellFormed<C>(ns: seq<NodeData<C>>) {
    forall i, k :: 0 <= i < |ns| && 0 <= k < |ns[i].children| ==> i < ns[i].children[k] < |ns|
  }

  /** The value of a node together with everything below it. */
  datatype Tree<C> = Tree(style: Style, context: C, measured: bool, kids: seq<Tree<C>>)

  /** The tree rooted at node i. */
  ghost function View<C>(ns: seq<NodeData<C>>, i: nat): Tree<C>
    requires WellFormed(ns) && i < |ns|
    decreases |ns| - i
  {
    var cs := ns[i].children;
    Tree(ns[i].style, ns[i].context, ns[i].measured,
         seq(|cs|, k requires 0 <= k < |cs| => View(ns, cs[k])))
  }

  /** The tree below i reads only nodes i and after. */
  lemma {:induction false} ViewFrame<C>(ns: seq<NodeData<C>>, ns': seq<NodeData<C>>, i: nat)
    requires WellFormed(ns) && WellFormed(ns')
    requires i < |ns| <= |ns'|
    requires forall j :: i <= j < |ns| ==> ns'[j] == ns[j]
    ensures View(ns', i) == View(ns, i)
    decreases |ns| - i
  {
    var cs := ns[i].children;
    forall k | 0 <= k < |cs|
      ensures View(ns', cs[k]) == View(ns, cs[k])
    {
      ViewFrame(ns, ns', cs[k]);
    }
    assert View(ns', i).kids == View(ns, i).kids;
  }

  /**
   * Appending fresh nodes to the children of p, and changing nothing else
   * below p, appends their trees to p's tree.
   */
  lemma ViewExtend<C>(ns: seq<NodeData<C>>, ns': seq<NodeData<C>>, p: nat, extra: seq<nat>)
    requires WellFormed(ns) && WellFormed(ns')
    requires p < |ns| <= |ns'|
    requires ns'[p] == ns[p].(children := ns[p].children + extra)
    requires forall k :: 0 <= k < |extra| ==> extra[k] < |ns'|
    requires forall j :: p < j < |ns| ==> ns'[j] == ns[j]
    ensures View(ns', p) ==
      View(ns, p).(kids := View(ns, p).kids + seq(|extra|, k requires 0 <= k < |extra| => View(ns', extra[k])))
  {
    var cs := ns[p].children;
    var added := seq(|extra|, k requires 0 <= k < |extra| => View(ns', extra[k]));
    var a := View(ns', p).kids;
    var b := View(ns, p).kids + added;
    assert |a| == |cs| + |extra| == |b|;
    forall k | 0 <= k < |a|
      ensures a[k] == b[k]
    {
      if k < |cs| {
        ViewFrame(ns, ns', cs[k]);
        assert a[k] == View(ns', cs[k]);
      } else {
        assert a[k] == View(ns', extra[k - |cs|]);
      }
    }
    assert a == b;
  }

  /** ViewExtend for one new child n. */
  lemma ViewExtendOne<C>(ns: seq<NodeData<C>>, ns': seq<NodeData<C>>, p: nat, n: nat)
    requires WellFormed(ns) && WellFormed(ns')
    requires p < |ns| <= |ns'| && n < |ns'|
    requires ns'[p] == ns[p].(children := ns[p].children + [n])
    requires forall j :: p < j < |ns| ==> ns'[j] == ns[j]
    ensures View(ns', p) == View(ns, p).(kids := View(ns, p).kids + [View(ns', n)])
  {
    ViewExtend(ns, ns', p, [n]);
    var added := seq(1, k requires 0 <= k < 1 => View(ns', [n][k]));
    assert added == [View(ns', n)];
  }

  /** A node of the solver's output: its geometry, taken as integers, and its context. */
  datatype Laid<C> = Laid(
    top: int,
    width: int,
    height: int,
    marginLeft: int,
    marginRight: int,
    paddingLeft: int,
    paddingRight: int,
    context: C,
    children: seq<Laid<C>>)

  /** The flex nodes of one layout pass. */
  class Forest<C> {
    var nodes: seq<NodeData<C>>

    ghost predicate Valid()
      reads this
    {
      WellFormed(nodes)
    }

    /** flex.NewNode: a forest holding one root. */
    constructor (root: NodeData<C>)
      requires root.children == []
      ensures Valid() && nodes == [root]
    {
      nodes := [root];
    }

    /** flex.NewNodeWithConfig: a fresh node with the default style and no children. */
    method NewNode(context: C) returns (n: nat)
      requires Valid()
      modifies this
      ensures Valid()
      ensures n == old(|nodes|)
      ensures nodes == old(nodes) + [NodeData(DefaultStyle, context, false, [])]
    {
      n := |nodes|;
      nodes := nodes + [NodeData(DefaultStyle, context, false, [])];
    }

    /** parent.InsertChild(node, len(parent.Children)): n becomes p's last child. */
    method InsertChild(p: nat, n: nat)
      requires Valid() && p < n < |nodes|
      modifies this
      ensures Valid()
      ensures nodes == old(nodes)[p := old(nodes)[p].(children := old(nodes)[p].children + [n])]
    {
      nodes := nodes[p := nodes[p].(children := nodes[p].children + [n])];
    }

    /** node.Context = context. */
    method SetContext(n: nat, context: C)
      requires Valid() && n < |nodes|
      modifies this
      ensures Valid()
      ensures nodes == old(nodes)[n := old(nodes)[n].(context := context)]
    {
      nodes := nodes[n := nodes[n].(context := context)];
    }

    /** The StyleSet* calls: the style of n becomes s. */
    method SetStyle(n: nat, s: Style)
      requires Valid() && n < |nodes|
      modifies this
      ensures Valid()
      ensures nodes == old(nodes)[n := old(nodes)[n].(style := s)]
    {
      nodes := nodes[n := nodes[n].(style := s)];
    }

    /** node.SetMeasureFunc(...). */
    method SetMeasured(n: nat)
      requires Valid() && n < |nodes|
      modifies this
      ensures Valid()
      ensures nodes == old(nodes)[n := old(nodes)[n].(measured := true)]
    {
      nodes := nodes[n := nodes[n].(measured := true)];
    }
  }
}
