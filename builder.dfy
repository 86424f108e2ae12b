/**
 * internal/layout/builder.go: a Builder holds one style-setting function,
 * the composition of every setter added so far. Builders are values: Raw and
 * add return a new Builder and never change the one they are called on.
 */
module LayoutBuilder {
  import opened Wrappers
  import opened Flex

  /** A SetFunc, as it acts on the style of the node it is given. */
  type SetFunc = Style -> Style

  /** Builder{f}; f is nil in a fresh &Builder{}. */
  datatype Builder = Builder(f: Option<SetFunc>)

  /** &layout.Builder{}. */
  const Empty := Builder(None)

  /** What Apply does to a node's style; a nil Builder or a nil f leaves it as it was. */
  function Run(b: Option<Builder>, s: Style): Style {
    if b.Some? && b.value.f.Some? then b.value.f.value(s) else s
  }

  /** add (builder.go:25-36): a new Builder that runs the earlier setters, then g. */
  function Add(l: Builder, g: SetFunc): (r: Builder)
    ensures r.f.Some?
    ensures forall s :: Run(Some(r), s) == g(Run(Some(l), s))
  {
    var prev := l.f;
    Builder(Some(n => g(if prev.Some? then prev.value(n) else n)))
  }

  /** Raw (builder.go:13-15) is add under its exported name. */
  function Raw(l: Builder, g: SetFunc): (r: Builder)
    ensures forall s :: Run(Some(r), s) == g(Run(Some(l), s))
  {
    Add(l, g)
  }

  /** Apply (builder.go:17-23): the node's style becomes Run(b, style); nothing else changes. */
  method Apply<C>(b: Option<Builder>, forest: Forest<C>, n: nat)
    requires forest.Valid() && n < |forest.nodes|
    modifies forest
    ensures forest.Valid()
    ensures forest.nodes == old(forest.nodes)[n := old(forest.nodes)[n].(style := Run(b, old(forest.nodes)[n].style))]
    ensures b.None? || b.value.f.None? ==> forest.nodes == old(forest.nodes)
  {
    if b.None? || b.value.f.None? {
      return;
    }
    forest.SetStyle(n, b.value.f.value(forest.nodes[n].style));
  }

  // ---------------------------------------------------------------------
  // The setters the code passes to Raw and add

  function SetDirection(d: Direction): SetFunc {
    (s: Style) => s.(direction := d)
  }

  function SetMarginLeft(x: int): SetFunc {
    (s: Style) => s.(marginLeft := x)
  }

  function SetMinHeight(v: int): SetFunc {
    (s: Style) => s.(minHeight := Some(v))
  }

  function SetOverflow(o: Overflow): SetFunc {
    (s: Style) => s.(overflow := o)
  }

  // ---------------------------------------------------------------------
  // Composition order

  /** b.Raw(fs[0]).Raw(fs[1])...: a chain of Raw calls. */
  function Chain(b: Builder, fs: seq<SetFunc>): Builder
    decreases |fs|
  {
    if fs == [] then b else Chain(Raw(b, fs[0]), fs[1..])
  }

  /** The setters run one after the other, first to last. */
  function RunAll(fs: seq<SetFunc>, s: Style): Style
    decreases |fs|
  {
    if fs == [] then s else RunAll(fs[1..], fs[0](s))
  }

  /** A chain of Raw calls applies the builder's own setters and then its setters in call order. */
  lemma {:induction false} ChainRunsInCallOrder(b: Builder, fs: seq<SetFunc>, s: Style)
    ensures Run(Some(Chain(b, fs)), s) == RunAll(fs, Run(Some(b), s))
    decreases |fs|
  {
    if fs != [] {
      ChainRunsInCallOrder(Raw(b, fs[0]), fs[1..], s);
    }
  }

  /** Starting from &Builder{}, a chain applies exactly its setters in call order. */
  lemma ChainFromEmpty(fs: seq<SetFunc>, s: Style)
    ensures Run(Some(Chain(Empty, fs)), s) == RunAll(fs, s)
  {
    ChainRunsInCallOrder(Empty, fs, s);
  }

  /** A later setter of the same field wins: the earlier one has no effect. */
  lemma LaterMarginLeftWins(b: Builder, x: int, y: int, s: Style)
    ensures Run(Some(Raw(Raw(b, SetMarginLeft(x)), SetMarginLeft(y))), s) == Run(Some(Raw(b, SetMarginLeft(y))), s)
    ensures Run(Some(Raw(Raw(b, SetMarginLeft(x)), SetMarginLeft(y))), s).marginLeft == y
  {
  }

  lemma LaterDirectionWins(b: Builder, d: Direction, e: Direction, s: Style)
    ensures Run(Some(Raw(Raw(b, SetDirection(d)), SetDirection(e))), s) == Run(Some(Raw(b, SetDirection(e))), s)
    ensures Run(Some(Raw(Raw(b, SetDirection(d)), SetDirection(e))), s).direction == e
  {
  }

  /** Setters of different fields do not interfere: their order does not matter. */
  lemma DifferentFieldsCommute(b: Builder, d: Direction, x: int, s: Style)
    ensures Run(Some(Raw(Raw(b, SetDirection(d)), SetMarginLeft(x))), s)
         == Run(Some(Raw(Raw(b, SetMarginLeft(x)), SetDirection(d))), s)
  {
  }
}
