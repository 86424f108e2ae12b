/**
 * Line accounting on rendered leaf text: countLines, longestLine and
 * truncateTextHeight (measure.go; layout.go holds the same code).
 *
 * A text is cut at every '\n' into the segments that end in a newline
 * (Terminated) and what follows the last newline (Rest). Lengths are byte
 * counts, as Go's len(s) is.
 */
module Lines {
  import opened Bytes

  /** The newline-terminated segments of s, newline removed, in order. */
  function Terminated(s: Bytes): (segs: seq<Bytes>)
    ensures forall j :: 0 <= j < |segs| ==> NL !in segs[j]
    decreases |s|
  {
    var i := IndexByte(s, NL);
    if i < 0 then [] else [s[..i]] + Terminated(s[i + 1..])
  }

  /** What follows the last newline of s; all of s when it has none. */
  function Rest(s: Bytes): (t: Bytes)
    ensures NL !in t
    decreases |s|
  {
    var i := IndexByte(s, NL);
    if i < 0 then s else Rest(s[i + 1..])
  }

  /** Each segment followed by a newline. */
  function Unlines(segs: seq<Bytes>): Bytes {
    if segs == [] then [] else segs[0] + [NL] + Unlines(segs[1..])
  }

  /** The segments with a newline between each two of them. */
  function JoinLines(segs: seq<Bytes>): Bytes {
    if segs == [] then []
    else if |segs| == 1 then segs[0]
    else segs[0] + [NL] + JoinLines(segs[1..])
  }

  function Max(a: int, b: int): int {
    if a < b then b else a
  }

  /** The length of the longest segment, 0 for none. */
  function MaxLen(segs: seq<Bytes>): nat {
    if segs == [] then 0 else Max(MaxLen(segs[..|segs| - 1]), |segs[|segs| - 1]|)
  }

  // ---------------------------------------------------------------------
  // Facts about the segmentation

  lemma CutAt(s: Bytes, i: nat)
    requires i < |s|
    ensures s == s[..i] + [s[i]] + s[i + 1..]
  {
  }

  lemma Assoc(a: Bytes, b: Bytes, c: Bytes, d: Bytes)
    ensures (a + b + c) + d == a + b + (c + d)
  {
  }

  /** s is its terminated segments, each with its newline back, then the rest. */
  lemma {:induction false} Split(s: Bytes)
    ensures s == Unlines(Terminated(s)) + Rest(s)
    decreases |s|
  {
    var i := IndexByte(s, NL);
    if i >= 0 {
      var s' := s[i + 1..];
      Split(s');
      var u := Unlines(Terminated(s'));
      UnfoldTerminated(s, i);
      UnlinesCons(s[..i], Terminated(s'));
      UnfoldRest(s, i);
      Assoc(s[..i], [NL], u, Rest(s'));
      CutAt(s, i);
    }
  }

  /** ... and there is one terminated segment per newline. */
  lemma Decompose(s: Bytes)
    ensures s == Unlines(Terminated(s)) + Rest(s)
    ensures |Terminated(s)| == Count(s, NL)
  {
    Split(s);
    CountAppend(Unlines(Terminated(s)), Rest(s), NL);
    CountUnlines(Terminated(s));
    CountAbsent(Rest(s), NL);
  }

  lemma CountAppend(a: Bytes, b: Bytes, x: byte)
    ensures Count(a + b, x) == Count(a, x) + Count(b, x)
  {
    assert multiset(a + b) == multiset(a) + multiset(b);
  }

  lemma CountAbsent(a: Bytes, x: byte)
    requires x !in a
    ensures Count(a, x) == 0
  {
    assert x !in multiset(a);
  }

  lemma {:induction false} UnlinesAppend(a: seq<Bytes>, b: seq<Bytes>)
    ensures Unlines(a + b) == Unlines(a) + Unlines(b)
  {
    if a != [] {
      assert (a + b)[1..] == a[1..] + b;
      UnlinesAppend(a[1..], b);
    } else {
      assert a + b == b;
    }
  }

  lemma UnlinesSnoc(a: seq<Bytes>, x: Bytes)
    ensures Unlines(a + [x]) == Unlines(a) + x + [NL]
  {
    UnlinesAppend(a, [x]);
    assert Unlines([x]) == x + [NL] + Unlines([]);
  }

  lemma {:induction false} UnlinesIsJoinedPlusNewline(segs: seq<Bytes>)
    requires segs != []
    ensures Unlines(segs) == JoinLines(segs) + [NL]
  {
    if |segs| > 1 {
      UnlinesIsJoinedPlusNewline(segs[1..]);
    }
  }

  lemma UnlinesEndsInNewline(segs: seq<Bytes>)
    ensures segs != [] ==> Unlines(segs) == JoinLines(segs) + [NL]
  {
    if segs != [] {
      UnlinesIsJoinedPlusNewline(segs);
    }
  }

  lemma {:induction false} CountUnlines(segs: seq<Bytes>)
    requires forall j :: 0 <= j < |segs| ==> NL !in segs[j]
    ensures Count(Unlines(segs), NL) == |segs|
  {
    if segs != [] {
      CountUnlines(segs[1..]);
      assert NL !in multiset(segs[0]);
      assert multiset(Unlines(segs)) == multiset(segs[0]) + multiset([NL]) + multiset(Unlines(segs[1..]));
    }
  }

  lemma CountJoinLines(segs: seq<Bytes>)
    requires segs != []
    requires forall j :: 0 <= j < |segs| ==> NL !in segs[j]
    ensures Count(JoinLines(segs), NL) == |segs| - 1
  {
    UnlinesIsJoinedPlusNewline(segs);
    CountUnlines(segs);
    assert multiset(Unlines(segs)) == multiset(JoinLines(segs)) + multiset([NL]);
  }

  /** The text consumed by the first k segments, and the segments after them. */
  lemma TerminatedSuffix(s: Bytes, k: nat)
    requires k <= |Terminated(s)|
    ensures |Unlines(Terminated(s)[..k])| <= |s|
    ensures s[..|Unlines(Terminated(s)[..k])|] == Unlines(Terminated(s)[..k])
    ensures Terminated(s[|Unlines(Terminated(s)[..k])|..]) == Terminated(s)[k..]
  {
    Split(s);
    SplitSuffix(s, Terminated(s), Rest(s), k);
  }

  /** The same, for any text written as segments followed by a newline-free rest. */
  lemma SplitSuffix(s: Bytes, t: seq<Bytes>, rest: Bytes, k: nat)
    requires s == Unlines(t) + rest
    requires NL !in rest && forall j :: 0 <= j < |t| ==> NL !in t[j]
    requires k <= |t|
    ensures |Unlines(t[..k])| <= |s|
    ensures s[..|Unlines(t[..k])|] == Unlines(t[..k])
    ensures Terminated(s[|Unlines(t[..k])|..]) == t[k..]
  {
    var front, back := t[..k], t[k..];
    var a, b := Unlines(front), Unlines(back);
    assert t == front + back;
    UnlinesAppend(front, back);
    assert s == (a + b) + rest;
    Assoc3(a, b, rest);
    Concat(s, a, b + rest);
    forall j | 0 <= j < |back|
      ensures NL !in back[j]
    {
      assert back[j] == t[k + j];
    }
    Segments(back, rest);
  }

  lemma Assoc3(a: Bytes, b: Bytes, c: Bytes)
    ensures (a + b) + c == a + (b + c)
  {
  }

  lemma Concat(s: Bytes, a: Bytes, b: Bytes)
    requires s == a + b
    ensures s[..|a|] == a && s[|a|..] == b
  {
  }

  /** One step of the segmentation: the first segment ends at the first newline. */
  lemma UnfoldTerminated(s: Bytes, i: int)
    requires i == IndexByte(s, NL) && i >= 0
    ensures Terminated(s) == [s[..i]] + Terminated(s[i + 1..])
  {
  }

  /** ... and the rest is that of the text after it. */
  lemma UnfoldRest(s: Bytes, i: int)
    requires i == IndexByte(s, NL) && i >= 0
    ensures Rest(s) == Rest(s[i + 1..])
  {
  }

  /** Without a newline there are no terminated segments. */
  lemma UnfoldNone(s: Bytes)
    requires IndexByte(s, NL) < 0
    ensures Terminated(s) == []
  {
  }

  lemma SnocCons<T>(a: seq<T>, x: T, b: seq<T>)
    ensures a + ([x] + b) == (a + [x]) + b
  {
  }

  lemma TakeCons(x: Bytes, t: seq<Bytes>, k: nat)
    requires 1 <= k <= |t| + 1
    ensures ([x] + t)[..k] == [x] + t[..k - 1]
    ensures ([x] + t)[k..] == t[k - 1..]
  {
  }

  lemma UnlinesCons(x: Bytes, t: seq<Bytes>)
    ensures Unlines([x] + t) == x + [NL] + Unlines(t)
  {
    assert ([x] + t)[1..] == t;
  }

  /** Cutting s after its newline at i and a further piece u. */
  lemma Splice(s: Bytes, i: nat, u: Bytes)
    requires i < |s| && s[i] == NL
    requires i + 1 + |u| <= |s| && s[i + 1..][..|u|] == u
    ensures s[..i + 1 + |u|] == s[..i] + [NL] + u
    ensures s[i + 1 + |u|..] == s[i + 1..][|u|..]
  {
    assert s[..i + 1 + |u|] == s[..i] + [NL] + s[i + 1..][..|u|];
  }

  lemma IndexOfFirstNewline(a: Bytes, b: Bytes)
    requires NL !in a
    ensures IndexByte(a + [NL] + b, NL) == |a|
  {
    assert (a + [NL] + b)[|a|] == NL;
  }

  /** The converse of Split: segments and a rest without newlines are recovered from their text. */
  lemma {:induction false} Segments(segs: seq<Bytes>, rest: Bytes)
    requires forall j :: 0 <= j < |segs| ==> NL !in segs[j]
    requires NL !in rest
    ensures Terminated(Unlines(segs) + rest) == segs
    ensures Rest(Unlines(segs) + rest) == rest
  {
    var s := Unlines(segs) + rest;
    if segs == [] {
      assert s == rest;
    } else {
      var tail := Unlines(segs[1..]) + rest;
      Assoc(segs[0], [NL], Unlines(segs[1..]), rest);
      assert s == segs[0] + [NL] + tail;
      IndexOfFirstNewline(segs[0], tail);
      assert s[..|segs[0]|] == segs[0];
      assert s[|segs[0]| + 1..] == tail;
      Segments(segs[1..], rest);
    }
  }

  // ---------------------------------------------------------------------
  // countLines (measure.go:55-64)

  /** The number of lines: newline count, plus one for a last line with no newline. */
  function CountLines(s: Bytes): (n: nat)
    ensures n == |Terminated(s)| + (if Rest(s) == [] then 0 else 1)
    ensures n == 0 <==> s == []
  {
    Decompose(s);
    UnlinesEndsInNewline(Terminated(s));
    Count(s, NL) + (if |s| > 0 && s[|s| - 1] != NL then 1 else 0)
  }

  // ---------------------------------------------------------------------
  // longestLine (measure.go:66-87)

  /**
   * What longestLine computes: the longest newline-terminated segment, or,
   * when every such segment is empty, the length of the rest.
   */
  function LongestLineOf(s: Bytes): nat {
    var m := MaxLen(Terminated(s));
    if m == 0 then |Rest(s)| else m
  }

  lemma MaxLenSnoc(segs: seq<Bytes>, x: Bytes)
    ensures MaxLen(segs + [x]) == Max(MaxLen(segs), |x|)
  {
    assert (segs + [x])[..|segs|] == segs;
  }

  lemma {:induction false} MaxLenBounds(segs: seq<Bytes>)
    ensures forall j :: 0 <= j < |segs| ==> |segs[j]| <= MaxLen(segs)
    ensures MaxLen(segs) <= |Unlines(segs)|
    ensures MaxLen(segs) > 0 ==> exists j :: 0 <= j < |segs| && |segs[j]| == MaxLen(segs)
  {
    if segs != [] {
      var init := segs[..|segs| - 1];
      var x := segs[|segs| - 1];
      MaxLenBounds(init);
      assert segs == init + [x];
      UnlinesSnoc(init, x);
      forall j | 0 <= j < |segs| ensures |segs[j]| <= MaxLen(segs) {
        if j < |segs| - 1 {
          assert segs[j] == init[j];
        }
      }
      if MaxLen(init) > 0 && MaxLen(init) >= |x| {
        var j :| 0 <= j < |init| && |init[j]| == MaxLen(init);
        assert segs[j] == init[j];
      }
    }
  }

  /** longestLine: the loop of measure.go:66-87, over the shrinking remainder s. */
  method LongestLine(s0: Bytes) returns (n: nat)
    ensures n == LongestLineOf(s0)
    ensures n <= |s0|
    ensures forall j :: 0 <= j < |Terminated(s0)| ==> |Terminated(s0)[j]| <= n
    ensures NL !in s0 ==> n == |s0|
  {
    var s := s0;
    var lastIdx, longest := 0, 0;
    ghost var done: seq<Bytes> := [];
    while true
      invariant Terminated(s0) == done + Terminated(s)
      invariant Rest(s) == Rest(s0)
      invariant longest == MaxLen(done)
      decreases |s|
    {
      var idx := IndexByte(s, NL);
      if idx == -1 {
        break;
      }
      var current := idx - lastIdx;
      if current > longest {
        longest := current;
      }
      MaxLenSnoc(done, s[..idx]);
      UnfoldTerminated(s, idx);
      UnfoldRest(s, idx);
      SnocCons(done, s[..idx], Terminated(s[idx + 1..]));
      done := done + [s[..idx]];
      s := s[idx + 1..];
    }
    assert done == Terminated(s0);
    if longest == 0 {
      n := |s|;
    } else {
      n := longest;
    }
    LongestLineBounds(s0);
  }

  lemma LongestLineBounds(s: Bytes)
    ensures LongestLineOf(s) <= |s|
    ensures forall j :: 0 <= j < |Terminated(s)| ==> |Terminated(s)[j]| <= LongestLineOf(s)
    ensures NL !in s ==> LongestLineOf(s) == |s|
  {
    Decompose(s);
    MaxLenBounds(Terminated(s));
    if NL !in s {
      assert IndexByte(s, NL) == -1;
    }
  }

  /**
   * Once some newline-terminated segment is non-empty, the unterminated
   * last line is not looked at, however long it is.
   */
  lemma LongestLineIgnoresUnterminatedTail(s: Bytes)
    requires exists j :: 0 <= j < |Terminated(s)| && Terminated(s)[j] != []
    ensures LongestLineOf(s) == MaxLen(Terminated(s))
  {
    MaxLenBounds(Terminated(s));
  }

  // ---------------------------------------------------------------------
  // truncateTextHeight (measure.go:89-111)

  /**
   * What truncateTextHeight computes: nothing for a height of 0 or less;
   * the whole text when it has fewer newlines than the height; otherwise
   * its first `height` lines joined by newlines, that is the text cut just
   * before its height-th newline.
   */
  function Truncated(s: Bytes, height: int): Bytes {
    if height <= 0 then []
    else if |Terminated(s)| < height then s
    else JoinLines(Terminated(s)[..height])
  }

  /** truncateTextHeight: the loop of measure.go:89-111. */
  method TruncateTextHeight(s: Bytes, height: int) returns (r: Bytes)
    ensures r == Truncated(s, height)
  {
    ghost var t := Terminated(s);
    var idx := 0;
    var i := 0;
    while i < height
      invariant 0 <= i <= |t|
      invariant i == 0 || i <= height
      invariant idx == |Unlines(t[..i])|
    {
      TruncateStep(s, i);
      var next := IndexByte(s[idx..], NL);
      if next == -1 || idx >= |s| {
        return s;
      }
      idx := idx + next + 1;
      i := i + 1;
    }
    assert t[..0] == [];
    if idx == 0 {
      return [];
    }
    TruncatedAsPrefix(s, height);
    return s[..idx - 1];
  }

  /**
   * The search for the next newline from the end of the first i segments
   * finds none exactly when every segment is consumed, and otherwise ends
   * segment i.
   */
  lemma TruncateStep(s: Bytes, i: nat)
    requires i <= |Terminated(s)|
    ensures |Unlines(Terminated(s)[..i])| <= |s|
    ensures IndexByte(s[|Unlines(Terminated(s)[..i])|..], NL) == -1 <==> i == |Terminated(s)|
    ensures IndexByte(s[|Unlines(Terminated(s)[..i])|..], NL) >= 0 ==>
      |Unlines(Terminated(s)[..i])| + IndexByte(s[|Unlines(Terminated(s)[..i])|..], NL) + 1 == |Unlines(Terminated(s)[..i + 1])|
  {
    var t := Terminated(s);
    var idx := |Unlines(t[..i])|;
    TerminatedSuffix(s, i);
    var next := IndexByte(s[idx..], NL);
    if next < 0 {
      UnfoldNone(s[idx..]);
    } else {
      UnfoldTerminated(s[idx..], next);
      assert t[i..][0] == s[idx..][..next];
      assert t[..i + 1] == t[..i] + [t[i]];
      UnlinesSnoc(t[..i], t[i]);
    }
  }

  lemma PrefixDrop(s: Bytes, j: Bytes, x: byte)
    requires |j| < |s| && s[..|j| + 1] == j + [x]
    ensures s[..|j|] == j && s[|j|] == x
  {
    assert s[..|j|] == s[..|j| + 1][..|j|];
  }

  /** A cut text is the text up to, and without, its height-th newline. */
  lemma TruncatedAsPrefix(s: Bytes, height: int)
    requires 0 < height <= |Terminated(s)|
    ensures 0 < |Unlines(Terminated(s)[..height])| <= |s|
    ensures Truncated(s, height) == s[..|Unlines(Terminated(s)[..height])| - 1]
    ensures s[|Unlines(Terminated(s)[..height])| - 1] == NL
  {
    var t := Terminated(s);
    TerminatedSuffix(s, height);
    UnlinesIsJoinedPlusNewline(t[..height]);
    PrefixDrop(s, JoinLines(t[..height]), NL);
  }

  /** The result is always a prefix of the text. */
  lemma TruncatedIsPrefix(s: Bytes, height: int)
    ensures |Truncated(s, height)| <= |s|
    ensures Truncated(s, height) == s[..|Truncated(s, height)|]
  {
    if height > 0 && |Terminated(s)| >= height {
      TruncatedAsPrefix(s, height);
    }
  }

  /** A height of 0 or less yields the empty text. */
  lemma TruncatedNonPositive(s: Bytes, height: int)
    requires height <= 0
    ensures Truncated(s, height) == []
  {
  }

  /** A text with fewer newlines than the height comes back unchanged. */
  lemma TruncatedShortText(s: Bytes, height: int)
    requires height > 0 && Count(s, NL) < height
    ensures Truncated(s, height) == s
  {
    Decompose(s);
  }

  /**
   * Otherwise the text is cut just before its height-th newline: the result
   * keeps height - 1 newlines and the byte at the cut is the dropped newline.
   */
  lemma TruncatedCut(s: Bytes, height: int)
    requires 0 < height <= Count(s, NL)
    ensures |Truncated(s, height)| < |s|
    ensures s[|Truncated(s, height)|] == NL
    ensures Count(Truncated(s, height), NL) == height - 1
  {
    var t := Terminated(s);
    Decompose(s);
    TruncatedAsPrefix(s, height);
    assert forall j :: 0 <= j < height ==> t[..height][j] == t[j];
    CountJoinLines(t[..height]);
  }

  /** The result never has more lines than the height asks for. */
  lemma TruncatedFitsHeight(s: Bytes, height: int)
    requires height >= 0
    ensures CountLines(Truncated(s, height)) <= height
  {
    var t := Terminated(s);
    Decompose(s);
    if height > 0 && |t| < height {
      assert CountLines(s) <= |t| + 1;
    } else if height > 0 {
      var r := Truncated(s, height);
      TruncatedCut(s, height);
      Decompose(r);
      assert CountLines(r) <= |Terminated(r)| + 1;
    }
  }

  /**
   * Cutting a text at its own line count returns it unchanged exactly when
   * it does not end in a newline: a final newline is the one dropped at the cut.
   */
  lemma TruncatedAtOwnHeight(s: Bytes)
    ensures Truncated(s, CountLines(s)) == s <==> (s == [] || s[|s| - 1] != NL)
  {
    var t := Terminated(s);
    Decompose(s);
    if s != [] && s[|s| - 1] != NL {
      assert Rest(s) != [] by {
        if Rest(s) == [] {
          assert s == Unlines(t) + [];
          UnlinesEndsInNewline(t);
        }
      }
    } else if s != [] {
      TruncatedCut(s, CountLines(s));
    }
  }

  // ---------------------------------------------------------------------
  // The cases of measure_test.go and layout_test.go

  lemma LongestLineEmpty()
    ensures LongestLineOf(Ascii("")) == 0
  {
    Segments([], []);
  }

  lemma LongestLineNoNewline()
    ensures LongestLineOf(Ascii("foo")) == 3
  {
    Segments([], Ascii("foo"));
  }

  lemma LongestLineTrailingNewline()
    ensures LongestLineOf(Ascii("foo\n")) == 3
  {
    var foo := Ascii("foo");
    assert Ascii("foo\n") == Unlines([foo]) + [];
    Segments([foo], []);
  }

  /** "foo\nbarr\nbaz\n" gives 4: the middle line is the longest. */
  lemma LongestLineMiddleLine(foo: Bytes, barr: Bytes, baz: Bytes)
    requires NL !in foo && NL !in barr && NL !in baz
    requires |foo| == 3 && |barr| == 4 && |baz| == 3
    ensures LongestLineOf(foo + [NL] + barr + [NL] + baz + [NL]) == 4
  {
    Unlines3(foo, barr, baz);
    assert foo + [NL] + barr + [NL] + baz + [NL] == Unlines([foo, barr, baz]) + [];
    Segments([foo, barr, baz], []);
    MaxLen3(foo, barr, baz);
  }

  lemma MaxLen3(a: Bytes, b: Bytes, c: Bytes)
    ensures MaxLen([a, b, c]) == Max(Max(|a|, |b|), |c|)
  {
    assert [a][..0] == [];
    assert MaxLen([a]) == |a|;
    assert [a, b][..1] == [a];
    assert MaxLen([a, b]) == Max(|a|, |b|);
    assert [a, b, c][..2] == [a, b];
  }

  /**
   * Widths are byte counts: U+2584 is three bytes in UTF-8, so both
   * "\u2584" and "\u2584\n" measure 3 columns, not the one column a
   * terminal shows.
   */
  lemma LongestLineCountsBytes()
    ensures LongestLineOf([0xE2, 0x96, 0x84]) == 3
    ensures LongestLineOf([0xE2, 0x96, 0x84, NL]) == 3
  {
    var c: Bytes := [0xE2, 0x96, 0x84];
    assert NL !in c;
    Segments([], c);
    assert Unlines([]) + c == c;
    OneTerminatedLine(c);
    assert c + [NL] == [0xE2, 0x96, 0x84, NL];
  }

  lemma OneTerminatedLine(c: Bytes)
    requires NL !in c
    ensures LongestLineOf(c + [NL]) == |c|
  {
    assert Unlines([c]) == c + [NL] + [];
    assert c + [NL] == Unlines([c]) + [];
    Segments([c], []);
    assert [c][..0] == [];
    assert MaxLen([c]) == |c|;
  }

  /**
   * "a\nfoo" measures 1 column although its last line is 3 bytes long:
   * a measured width does not always fit the text it was measured from.
   */
  lemma LongestLineShortFirstLine(a: Bytes, foo: Bytes)
    requires NL !in a && NL !in foo
    requires |a| == 1 && |foo| == 3
    ensures LongestLineOf(a + [NL] + foo) == 1
    ensures Rest(a + [NL] + foo) == foo && |foo| > LongestLineOf(a + [NL] + foo)
  {
    assert a + [NL] + foo == Unlines([a]) + foo;
    Segments([a], foo);
    assert [a][..0] == [];
    assert MaxLen([a]) == |a|;
  }

  lemma Unlines2(a: Bytes, b: Bytes)
    ensures Unlines([a, b]) == a + [NL] + b + [NL]
  {
    assert [a, b][1..] == [b];
    assert Unlines([b]) == b + [NL];
    assert Unlines([a, b]) == a + [NL] + (b + [NL]);
  }

  lemma Unlines3(a: Bytes, b: Bytes, c: Bytes)
    ensures Unlines([a, b, c]) == a + [NL] + b + [NL] + c + [NL]
  {
    assert [a, b, c][1..] == [b, c];
    Unlines2(b, c);
  }

  lemma JoinLines2(a: Bytes, b: Bytes)
    ensures JoinLines([a, b]) == a + [NL] + b
  {
    assert [a, b][1..] == [b];
  }

  lemma JoinLines3(a: Bytes, b: Bytes, c: Bytes)
    ensures JoinLines([a, b, c]) == a + [NL] + b + [NL] + c
  {
    assert [a, b, c][1..] == [b, c];
    JoinLines2(b, c);
  }

  /** "empty", 10 gives "". */
  lemma TruncateEmpty()
    ensures Truncated(Ascii(""), 10) == []
  {
    Segments([], []);
  }

  /** "foo\nbar", 5 gives "foo\nbar": any two lines, the last unterminated, fit 5. */
  lemma TruncateShorterThanLimit(foo: Bytes, bar: Bytes)
    requires NL !in foo && NL !in bar
    ensures Truncated(foo + [NL] + bar, 5) == foo + [NL] + bar
  {
    assert foo + [NL] + bar == Unlines([foo]) + bar;
    Segments([foo], bar);
  }

  /** "foo\nbar\nbaz\nqux", 3 gives "foo\nbar\nbaz", for any four lines. */
  lemma TruncateGreaterThanLimit(foo: Bytes, bar: Bytes, baz: Bytes, qux: Bytes)
    requires NL !in foo && NL !in bar && NL !in baz && NL !in qux
    ensures Truncated(foo + [NL] + bar + [NL] + baz + [NL] + qux, 3) == foo + [NL] + bar + [NL] + baz
  {
    Unlines3(foo, bar, baz);
    Segments([foo, bar, baz], qux);
    assert [foo, bar, baz][..3] == [foo, bar, baz];
    JoinLines3(foo, bar, baz);
  }

  /** "foo\nbar\nbaz", 3 comes back whole. */
  lemma TruncateEqualToLimit(foo: Bytes, bar: Bytes, baz: Bytes)
    requires NL !in foo && NL !in bar && NL !in baz
    ensures Truncated(foo + [NL] + bar + [NL] + baz, 3) == foo + [NL] + bar + [NL] + baz
  {
    Unlines2(foo, bar);
    Segments([foo, bar], baz);
  }

  /**
   * "foo\nbar\n", 3 comes back whole; at its own line count, 2, the final
   * newline is dropped.
   */
  lemma TruncateTrailingNewline(foo: Bytes, bar: Bytes)
    requires NL !in foo && NL !in bar
    ensures Truncated(foo + [NL] + bar + [NL], 3) == foo + [NL] + bar + [NL]
    ensures CountLines(foo + [NL] + bar + [NL]) == 2
    ensures Truncated(foo + [NL] + bar + [NL], 2) == foo + [NL] + bar
  {
    Unlines2(foo, bar);
    assert foo + [NL] + bar + [NL] == Unlines([foo, bar]) + [];
    Segments([foo, bar], []);
    assert [foo, bar][..2] == [foo, bar];
    JoinLines2(foo, bar);
  }
}
