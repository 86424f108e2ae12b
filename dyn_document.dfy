/**
 * document.go of the older generation: a Document holds text elements and
 * draws, frame by frame, the trailing elements that fit the terminal,
 * first erasing the lines the previous frame drew.
 */
module DynDocument {
  import opened Wrappers
  import opened Bytes
  import opened Lines
  import opened Terminal
  import opened DynText

  const U64: int := 0x1_0000_0000_0000_0000

  /** Go's uint on a 64-bit platform. */
  type uint64 = x: int | 0 <= x < U64

  /** The longest slice Go can hold on a 64-bit platform is shorter than 2^63. */
  const MaxSlice: int := 0x8000_0000_0000_0000

  /**
   * The rows and cols RenderFrame works with (document.go:91-102): the
   * configured ones, unless one of them is 0 and the output is a terminal
   * whose size could be read (detected), in which case both are replaced.
   */
  function Dimensions(rows: uint64, cols: uint64, detected: Option<(uint64, uint64)>): (r: (uint64, uint64))
    ensures rows > 0 && cols > 0 ==> r == (rows, cols)
    ensures detected.None? ==> r == (rows, cols)
  {
    if (cols == 0 || rows == 0) && detected.Some? then detected.value else (rows, cols)
  }

  /** rows -= 1 on a uint (document.go:107): one line fewer, wrapping round at 0. */
  function Budget(rows: uint64): (r: uint64)
    ensures rows > 0 ==> r == rows - 1
    ensures rows == 0 ==> r == U64 - 1
  {
    if rows == 0 then U64 - 1 else rows - 1
  }

  function Min(a: int, b: int): int {
    if a < b then a else b
  }

  /** The texts of the elements, in order. */
  ghost function Texts(els: seq<TextElement>): (r: seq<Bytes>)
    reads els
    ensures |r| == |els|
    ensures forall i :: 0 <= i < |els| ==> r[i] == els[i].text
  {
    if els == [] then [] else Texts(els[..|els| - 1]) + [els[|els| - 1].text]
  }

  class Document {
    /** w: the output, nil (None) until SetOutput. */
    var w: Option<Output>
    var cols: uint64
    var rows: uint64
    var els: seq<TextElement>
    /** refreshRate, a time.Duration in nanoseconds. */
    var refreshRate: int
    /** How many lines the last frame counted as drawn. */
    var lastCount: uint64

    ghost predicate Valid()
      reads this
    {
      |els| < MaxSlice
    }

    ghost function Sinks(): set<object>
      reads this
    {
      if w.Some? then {w.value} else {}
    }

    /** The zero Document{}. */
    constructor ()
      ensures Valid()
      ensures w.None? && cols == 0 && rows == 0 && els == [] && refreshRate == 0 && lastCount == 0
    {
      w := None;
      cols := 0;
      rows := 0;
      els := [];
      refreshRate := 0;
      lastCount := 0;
    }

    /** SetOutput (document.go:28-33). */
    method SetOutput(w: Option<Output>)
      modifies this
      ensures this.w == w
      ensures cols == old(cols) && rows == old(rows) && els == old(els)
      ensures refreshRate == old(refreshRate) && lastCount == old(lastCount)
    {
      this.w := w;
    }

    /** SetSize (document.go:35-40). */
    method SetSize(rows: uint64, cols: uint64)
      modifies this
      ensures this.rows == rows && this.cols == cols
      ensures w == old(w) && els == old(els) && refreshRate == old(refreshRate) && lastCount == old(lastCount)
    {
      this.rows := rows;
      this.cols := cols;
    }

    /** SetRefreshRate (document.go:42-46). */
    method SetRefreshRate(dur: int)
      modifies this
      ensures refreshRate == dur
      ensures w == old(w) && cols == old(cols) && rows == old(rows) && els == old(els) && lastCount == old(lastCount)
    {
      refreshRate := dur;
    }

    /** Add (document.go:48-52): the elements go after the existing ones, in order. */
    method Add(more: seq<TextElement>)
      requires |els| + |more| < MaxSlice
      modifies this
      ensures Valid()
      ensures els == old(els) + more
      ensures w == old(w) && cols == old(cols) && rows == old(rows)
      ensures refreshRate == old(refreshRate) && lastCount == old(lastCount)
    {
      els := els + more;
    }

    /**
     * RenderFrame (document.go:82-146). detected is the size a terminal
     * output reports, None when the output is not a terminal or its size
     * cannot be read. With a line budget of Budget(rows), the frame erases
     * min(lastCount, budget) lines, then draws the last k = min(|els|,
     * budget) elements in order, each followed by a newline, and remembers k.
     */
    method RenderFrame(detected: Option<(uint64, uint64)>)
      requires Valid()
      modifies this, Sinks()
      ensures Valid()
      ensures w == old(w) && cols == old(cols) && rows == old(rows) && els == old(els)
      ensures refreshRate == old(refreshRate)
      ensures w.None? ==> lastCount == old(lastCount)
      ensures w.Some? ==>
        var budget := Budget(Dimensions(rows, cols, detected).0);
        var k := Min(|els|, budget);
        && lastCount == k
        && w.value.written == old(w.value.written) + Ups(Min(old(lastCount), budget)) + Emit(Unlines(old(Texts(els))[|els| - k..]))
    {
      if w.None? {
        return;
      }
      var count := Frame(w.value, els, rows, cols, lastCount, detected);
      lastCount := count;
    }
  }

  /**
   * The body of RenderFrame once an output is set (document.go:90-145),
   * over the document's fields as values: it returns the new lastCount.
   */
  method Frame(out: Output, els: seq<TextElement>, rows: uint64, cols: uint64, lastCount: uint64,
               detected: Option<(uint64, uint64)>) returns (count: uint64)
    requires |els| < MaxSlice
    modifies out
    ensures var budget := Budget(Dimensions(rows, cols, detected).0);
      && count == Min(|els|, budget)
      && out.written == old(out.written) + Ups(Min(lastCount, budget)) + Emit(Unlines(old(Texts(els))[|els| - count..]))
  {
    ghost var ts := Texts(els);

    var c := cols;
    var r := rows;
    if (c == 0 || r == 0) && detected.Some? {
      r := detected.value.0;
      c := detected.value.1;
    }
    assert (r, c) == Dimensions(rows, cols, detected);
    // rows -= 1 on an unsigned integer: 0 wraps round to the largest value
    r := if r == 0 then U64 - 1 else r - 1;
    ghost var budget := Budget(Dimensions(rows, cols, detected).0);
    assert r == budget;

    var renders := Select(els, c, r);
    count := |renders|;

    var clear := lastCount;
    if clear > r {
      clear := r;
    }
    assert clear == Min(lastCount, budget);
    EraseLines(out, clear);
    ghost var w1 := out.written;
    Flush(out, renders, ts);
    assert out.written == w1 + Emit(Unlines(ts[|els| - count..]));
  }

  /**
   * The backward walk of RenderFrame (document.go:110-127): each element,
   * from the last one, is rendered into its own fresh buffer while the
   * lines counted so far stay within budget. renders[j] holds the text of
   * the j-th element from the end.
   */
  method Select(els: seq<TextElement>, width: uint64, budget: uint64) returns (renders: seq<Output>)
    requires |els| < MaxSlice
    ensures |renders| == Min(|els|, budget)
    ensures forall j :: 0 <= j < |renders| ==> fresh(renders[j])
    ensures forall j :: 0 <= j < |renders| ==> renders[j].written == Emit(els[|els| - 1 - j].text)
  {
    var count: uint64 := 0;
    renders := [];
    var i := |els| - 1;
    while i >= 0
      invariant -1 <= i < |els|
      invariant count == |els| - 1 - i && count <= budget
      invariant |renders| == count
      invariant forall j :: 0 <= j < |renders| ==> fresh(renders[j])
      invariant forall j :: 0 <= j < |renders| ==> renders[j].written == Emit(els[|els| - 1 - j].text)
      decreases i
    {
      var render := new Output();
      var thisCount := els[i].Render(render, width);
      var nextCount := (count + thisCount) % U64;
      if nextCount > budget {
        break;
      }
      count := nextCount;
      renders := renders + [render];
      i := i - 1;
    }
  }

  /** The clearing loop of RenderFrame (document.go:129-133). */
  method EraseLines(out: Output, n: uint64)
    modifies out
    ensures out.written == old(out.written) + Ups(n)
  {
    var k := 0;
    while k < n
      invariant 0 <= k <= n
      invariant out.written == old(out.written) + Ups(k)
    {
      out.WriteToken(UpEraseLine);
      assert Ups(k + 1) == Ups(k) + [UpEraseLine];
      k := k + 1;
    }
  }

  /**
   * The forward write of RenderFrame (document.go:135-143): the buffers
   * are copied out last-selected first, so the texts appear in document
   * order, each followed by a newline.
   */
  method Flush(out: Output, renders: seq<Output>, ghost texts: seq<Bytes>)
    requires |renders| <= |texts|
    requires forall j :: 0 <= j < |renders| ==> renders[j] != out
    requires forall j :: 0 <= j < |renders| ==> renders[j].written == Emit(texts[|texts| - 1 - j])
    modifies out
    ensures out.written == old(out.written) + Emit(Unlines(texts[|texts| - |renders|..]))
  {
    ghost var from := |texts| - |renders|;
    var j := |renders| - 1;
    assert texts[from..|texts| - 1 - j] == [];
    while j >= 0
      invariant -1 <= j < |renders|
      invariant out.written == old(out.written) + Emit(Unlines(texts[from..|texts| - 1 - j]))
      decreases j
    {
      ghost var to := |texts| - 1 - j;
      ghost var shown := texts[from..to];
      ghost var next := texts[to];
      PlainEmit(next);
      out.Write(Plain(renders[j].written));
      EmitTwo(old(out.written), Unlines(shown), next);
      out.Write([NL]);
      EmitTwo(old(out.written), Unlines(shown) + next, [NL]);
      Shown(texts, from, to);
      j := j - 1;
    }
    assert texts[from..|texts| - 1 - j] == texts[from..];
  }

  lemma Shown(texts: seq<Bytes>, from: nat, to: nat)
    requires from <= to < |texts|
    ensures Unlines(texts[from..to + 1]) == Unlines(texts[from..to]) + texts[to] + [NL]
  {
    assert texts[from..to + 1] == texts[from..to] + [texts[to]];
    UnlinesSnoc(texts[from..to], texts[to]);
  }

  /**
   * The frame counts one line per element (TextElement.Render returns 1),
   * but writes every newline of every text. The count, and so the number of
   * lines the next frame erases, is exact if and only if no drawn text
   * holds a newline of its own; otherwise more lines reach the screen than
   * lastCount records.
   */
  lemma {:induction false} LinesDrawn(segs: seq<Bytes>)
    ensures Count(Unlines(segs), NL) >= |segs|
    ensures Count(Unlines(segs), NL) == |segs| <==> forall j :: 0 <= j < |segs| ==> NL !in segs[j]
  {
    if segs != [] {
      LinesDrawn(segs[1..]);
      CountAppend(segs[0] + [NL], Unlines(segs[1..]), NL);
      CountAppend(segs[0], [NL], NL);
      assert Count(segs[0], NL) == 0 <==> NL !in segs[0];
      forall j | 1 <= j < |segs|
        ensures segs[j] == segs[1..][j - 1]
      {
      }
    }
  }
}
