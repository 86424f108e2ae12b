/**
 * What the renderers write: bytes, and the few escape sequences they build
 * with the aec library, kept as abstract tokens.
 */
module Terminal {
  import opened Bytes

  datatype Token =
    | Byte(b: byte)
    /** Column(0).EraseLine(All): erase the current line. */
    | EraseLine
    /** Up(1).Column(0).EraseLine(All): move up one line and erase it. */
    | UpEraseLine
    /** EraseDisplay(All).EraseDisplay(3).Position(0, 0): clear the screen and scrollback, go home. */
    | EraseDisplayHome

  /** The tokens writing the bytes s puts out, one per byte. */
  function Emit(s: Bytes): (r: seq<Token>)
    ensures |r| == |s|
    ensures forall i :: 0 <= i < |s| ==> r[i] == Byte(s[i])
  {
    seq(|s|, i requires 0 <= i < |s| => Byte(s[i]))
  }

  /** n up-and-erase-line tokens. */
  function Ups(n: nat): (r: seq<Token>)
    ensures |r| == n
    ensures forall i :: 0 <= i < n ==> r[i] == UpEraseLine
  {
    seq(n, _ => UpEraseLine)
  }

  /** The bytes among some tokens, in order. */
  function Plain(ts: seq<Token>): Bytes {
    if ts == [] then []
    else (if ts[0].Byte? then [ts[0].b] else []) + Plain(ts[1..])
  }

  /** Writing a text and reading its bytes back gives the text. */
  lemma {:induction false} PlainEmit(s: Bytes)
    ensures Plain(Emit(s)) == s
  {
    if s != [] {
      assert Emit(s)[1..] == Emit(s[1..]);
      PlainEmit(s[1..]);
    }
  }

  lemma {:induction false} EmitAppend(a: Bytes, b: Bytes)
    ensures Emit(a + b) == Emit(a) + Emit(b)
  {
  }

  /** Two writes after w put out what one write of their concatenation would. */
  lemma EmitTwo(w: seq<Token>, a: Bytes, b: Bytes)
    ensures w + Emit(a) + Emit(b) == w + Emit(a + b)
  {
    EmitAppend(a, b);
  }

  /** An io.Writer (a terminal, a strings.Builder, a bytes.Buffer): everything written to it, in order. */
  class Output {
    var written: seq<Token>

    constructor ()
      ensures written == []
    {
      written := [];
    }

    method Write(s: Bytes)
      modifies this
      ensures written == old(written) + Emit(s)
    {
      written := written + Emit(s);
    }

    method WriteToken(t: Token)
      modifies this
      ensures written == old(written) + [t]
    {
      written := written + [t];
    }

    /** strings.Builder.Reset. */
    method Reset()
      modifies this
      ensures written == []
    {
      written := [];
    }
  }
}
