/**
 * components/layout.go: the Layout component, which wraps its children in a
 * fragment and carries a layout builder that Row and MarginLeft extend.
 */
module Components {
  import opened Wrappers
  import opened Flex
  import opened LayoutBuilder
  import opened DynComponent

  class LayoutComponent {
    var inner: seq<Component>
    var builder: Builder

    /** Layout(inner...) (components/layout.go:9-11): the children in order and an empty builder. */
    constructor (inner: seq<Component>)
      ensures this.inner == inner && builder == Empty
      ensures forall s :: Run(Some(builder), s) == s
    {
      this.inner := inner;
      builder := Empty;
    }

    /** Row (components/layout.go:18-23): direction Row is set after the earlier setters. */
    method Row() returns (r: LayoutComponent)
      modifies this
      ensures r == this && inner == old(inner)
      ensures builder == Raw(old(builder), SetDirection(Flex.Row))
      ensures forall s :: Run(Some(builder), s) == Run(Some(old(builder)), s).(direction := Flex.Row)
    {
      builder := Raw(builder, SetDirection(Flex.Row));
      return this;
    }

    /** MarginLeft (components/layout.go:25-30): the left margin x is set after the earlier setters. */
    method MarginLeft(x: int) returns (r: LayoutComponent)
      modifies this
      ensures r == this && inner == old(inner)
      ensures builder == Raw(old(builder), SetMarginLeft(x))
      ensures forall s :: Run(Some(builder), s) == Run(Some(old(builder)), s).(marginLeft := x)
    {
      builder := Raw(builder, SetMarginLeft(x));
      return this;
    }

    /** Body (components/layout.go:32-34): a fragment of the children, in order. */
    function Body(): (r: Component)
      reads this
      ensures r.Fragment? && r.items == inner
    {
      Fragment(inner)
    }

    /** Layout (components/layout.go:36-38): the builder as it now stands. */
    function Layout(): Builder
      reads this
    {
      builder
    }

    /** How the tree compiler sees this component: its body and its layout. */
    function AsComponent(): (r: Component)
      reads this
      ensures r.Custom? && r.body == Body() && r.layout == Some(Some(Layout()))
    {
      Custom(Body(), Some(Some(builder)))
    }
  }

  /** Layout(inner...).Row().MarginLeft(x) lays its node out as a row with left margin x. */
  lemma RowThenMarginLeft(x: int, s: Style)
    ensures Run(Some(Raw(Raw(Empty, SetDirection(Flex.Row)), SetMarginLeft(x))), s) == s.(direction := Flex.Row, marginLeft := x)
  {
  }
}
