/**
 * The component shapes the newer glint tree compiler distinguishes
 * (component.go, fragment.go, finalize.go) and the node contexts it and the
 * renderers store in flex nodes (measure.go, tree.go, renderer_term.go).
 */
module GlintComponent {
  import opened Wrappers
  import opened Bytes
  import opened Flex
  import opened LayoutBuilder

  /** TextComponent.Render(rows, cols): the text drawn for the space offered. */
  type RenderFunc = (nat, nat) -> Bytes

  datatype Component =
    /** A nil Component. */
    | Nil
    /** A *TextComponent: a leaf of every component tree. */
    | Text(render: RenderFunc)
    /** Fragment(List...): several components with no node of their own. */
    | Fragment(items: seq<Component>)
    /** Finalize(inner): finalizes inner and everything below it. */
    | Finalized(inner: Component)
    /**
     * Any other component, told apart by id. Its Body() is body. layout is
     * None when it does not implement componentLayout, and otherwise the
     * builder its Layout() returns (None for a nil builder). finalizer says
     * whether it implements ComponentFinalizer.
     */
    | Custom(id: nat, body: Component, layout: Option<Option<Builder>>, finalizer: bool)

  /** The values node.Context holds. */
  datatype Context =
    | NoContext
    /** parentContext{Component, Finalized}. */
    | ParentContext(component: Component, finalized: bool)
    /** TextNodeContext{C, Text, Size}. */
    | TextNodeContext(c: RenderFunc, text: Bytes, size: Size)
    /** termRootContext{Rows, Cols}. */
    | TermRootContext(rows: nat, cols: nat)

  /** The observable side effects of compiling a tree: calls into user components. */
  datatype Call = FinalizeCall(id: nat) | LayoutCall(id: nat) | BodyCall(id: nat)

  /** Records, in order, the calls made into components. */
  class CallLog {
    var calls: seq<Call>

    constructor ()
      ensures calls == []
    {
      calls := [];
    }

    method Record(c: Call)
      modifies this
      ensures calls == old(calls) + [c]
    {
      calls := calls + [c];
    }
  }
}
