/**
 * The older dynamiccli generation: the component shapes its tree compiler
 * distinguishes (component.go, finalize.go) and the node contexts it and
 * measureNode use (render.go, layout.go).
 */
module DynComponent {
  import opened Wrappers
  import opened Bytes
  import opened Flex
  import opened LayoutBuilder

  /** Render(rows, cols) of a TextComponent or an Element: the text drawn for the space offered. */
  type RenderFunc = (nat, nat) -> Bytes

  datatype Component =
    | Nil
    | Text(render: RenderFunc)
    | Fragment(items: seq<Component>)
    | Finalized(inner: Component)
    /**
     * Any other component: its Body() and, when it implements
     * componentLayout, the builder its Layout() returns (None for nil).
     */
    | Custom(body: Component, layout: Option<Option<Builder>>)

  datatype Context =
    | NoContext
    /** parentContext{Component, Finalized} (render.go:139-142). */
    | ParentContext(component: Component, finalized: bool)
    /** nodeContext{Component, Text, Size} (render.go:144-148): what tree stores in text leaves. */
    | NodeContext(c: RenderFunc, text: Bytes, size: Size)
    /** measureContext{Element, Text, Size} (layout.go:61-65): what measureNode looks for. */
    | MeasureContext(element: RenderFunc, text: Bytes, size: Size)
}
