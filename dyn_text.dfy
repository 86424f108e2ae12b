/** text.go: TextElement, an element of the older Document that draws a fixed text. */
module DynText {
  import opened Bytes
  import opened Terminal

  class TextElement {
    var text: Bytes

    /** Text(v) (text.go:17-21). */
    constructor (v: Bytes)
      ensures text == v
    {
      text := v;
    }

    /** Update (text.go:25-29): replaces the text and nothing else. */
    method Update(text: Bytes)
      modifies this
      ensures this.text == text
    {
      this.text := text;
    }

    /**
     * Render (text.go:31-36): writes the text as it is, with no newline
     * added, and reports one line whatever the width and however many
     * newlines the text holds.
     */
    method Render(w: Output, width: nat) returns (lines: nat)
      modifies w
      ensures w.written == old(w.written) + Emit(text)
      ensures lines == 1
    {
      w.Write(text);
      return 1;
    }
  }
}
