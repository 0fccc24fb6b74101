/**
 * A worked example: with the single secret "xyzx", splitting the stream
 * changes the output. The leftover "xyz" of the first chunk is stepped again
 * in the second call while the cursor that already consumed it is carried,
 * so "xyz" then "q" comes out as "****", while "xyzq" in one chunk is not
 * masked at all.
 */
module Scenarios {
  import opened PatternTrie
  import opened Matcher
  import opened Emitter
  import opened Session

  /** The arena for the secret "xyzx": a chain of four edges ending at a leaf that ends the secret. */
  function XyzxTrie(): (r: seq<Node>)
    ensures Closed(r) && |r| == 5
  {
    [Node(map['x' := 1], 0, false), Node(map['y' := 2], 1, false), Node(map['z' := 3], 2, false),
     Node(map['x' := 4], 3, false), Node(map[], 4, true)]
  }

  /** Building from the one secret "xyzx" yields that arena. */
  lemma BuildXyzx()
    ensures Build(["xyzx"]) == XyzxTrie()
  {
    var t0 := [NewNode(0)];
    assert ["xyzx"][..0] == [];
    assert Build(["xyzx"]) == InsertAt(t0, 0, "xyzx");
    var t1 := AddChild(t0, 0, 'x');
    assert InsertAt(t0, 0, "xyzx") == InsertAt(t1, 1, "yzx");
    var t2 := AddChild(t1, 1, 'y');
    assert InsertAt(t1, 1, "yzx") == InsertAt(t2, 2, "zx");
    var t3 := AddChild(t2, 2, 'z');
    assert InsertAt(t2, 2, "zx") == InsertAt(t3, 3, "x");
    var t4 := AddChild(t3, 3, 'x');
    assert InsertAt(t3, 3, "x") == InsertAt(t4, 4, "");
    assert MarkEnd(t4, 4) == XyzxTrie();
  }

  /** A step from no ranges advances only the seed. */
  lemma StepFromNothing(nodes: seq<Node>, c: char, i: int)
    requires Closed(nodes) && |nodes| > 0
    ensures Step(nodes, c, i, []) == Advance(nodes, c, Seed(i))
  {
    var rs := [] + [Seed(i)];
    assert rs[..0] == [] && rs[0] == Seed(i);
    assert AdvanceAll(nodes, c, rs) == AdvanceAll(nodes, c, rs[..0]) + Advance(nodes, c, rs[0]);
  }

  /** A step from one range advances that range, then the seed. */
  lemma StepFromOne(nodes: seq<Node>, c: char, i: int, x: MatchRange)
    requires Closed(nodes) && |nodes| > 0 && InArena(nodes, [x])
    ensures Step(nodes, c, i, [x]) == Advance(nodes, c, x) + Advance(nodes, c, Seed(i))
  {
    var rs := [x] + [Seed(i)];
    assert rs[..1] == [x] && rs[1] == Seed(i) && rs[..1][..0] == [] && rs[..1][0] == x;
    assert AdvanceAll(nodes, c, rs) == AdvanceAll(nodes, c, rs[..1]) + Advance(nodes, c, rs[1]);
    assert AdvanceAll(nodes, c, rs[..1]) == AdvanceAll(nodes, c, rs[..1][..0]) + Advance(nodes, c, x);
  }

  /** A step from two ranges advances them in order, then the seed. */
  lemma StepFromTwo(nodes: seq<Node>, c: char, i: int, x: MatchRange, y: MatchRange)
    requires Closed(nodes) && |nodes| > 0 && InArena(nodes, [x, y])
    ensures Step(nodes, c, i, [x, y]) == Advance(nodes, c, x) + Advance(nodes, c, y) + Advance(nodes, c, Seed(i))
  {
    var rs := [x, y] + [Seed(i)];
    assert rs[..2] == [x, y] && rs[2] == Seed(i);
    assert AdvanceAll(nodes, c, rs) == AdvanceAll(nodes, c, rs[..2]) + Advance(nodes, c, rs[2]);
    StepFromOneRanges(nodes, c, x, y);
  }

  /** Advancing two ranges advances the first, then the second. */
  lemma StepFromOneRanges(nodes: seq<Node>, c: char, x: MatchRange, y: MatchRange)
    requires Closed(nodes) && |nodes| > 0 && InArena(nodes, [x, y])
    ensures AdvanceAll(nodes, c, [x, y]) == Advance(nodes, c, x) + Advance(nodes, c, y)
  {
    var rs := [x, y];
    assert rs[..1] == [x] && rs[1] == y && rs[..1][..0] == [] && rs[..1][0] == x;
    assert AdvanceAll(nodes, c, rs) == AdvanceAll(nodes, c, rs[..1]) + Advance(nodes, c, y);
    assert AdvanceAll(nodes, c, rs[..1]) == AdvanceAll(nodes, c, rs[..1][..0]) + Advance(nodes, c, x);
  }

  /** The cursor that has followed the first `m` characters of "xyzx" from index 0. */
  function Cursor(m: nat): MatchRange
  {
    MatchRange(0, m, Some(m))
  }

  /** The completed span of "xyzx" at index 0. */
  const Span: MatchRange := MatchRange(0, 4, None)

  /** The first "x" from no ranges: the seed follows it. */
  lemma FreshX(text: string)
    requires |text| > 0 && text[0] == 'x'
    ensures MaskStep(XyzxTrie(), text, 0, Progress([], 0, "")) == Progress([Cursor(1)], 0, "")
  {
    var n := XyzxTrie();
    StepFromNothing(n, 'x', 0);
    assert Step(n, 'x', 0, []) == [Cursor(1)];
    assert ExistingCursor(n, Cursor(1));
  }

  /** "y" at index 1: the cursor follows, the fresh seed dies. */
  lemma FreshY(text: string)
    requires |text| > 1 && text[1] == 'y'
    ensures MaskStep(XyzxTrie(), text, 1, Progress([Cursor(1)], 0, "")) == Progress([Cursor(2)], 0, "")
  {
    var n := XyzxTrie();
    StepFromOne(n, 'y', 1, Cursor(1));
    assert Step(n, 'y', 1, [Cursor(1)]) == [Cursor(2)];
    assert ExistingCursor(n, Cursor(2));
  }

  /** "z" at index 2: the cursor follows, the fresh seed dies. */
  lemma FreshZ(text: string)
    requires |text| > 2 && text[2] == 'z'
    ensures MaskStep(XyzxTrie(), text, 2, Progress([Cursor(2)], 0, "")) == Progress([Cursor(3)], 0, "")
  {
    var n := XyzxTrie();
    StepFromOne(n, 'z', 2, Cursor(2));
    assert Step(n, 'z', 2, [Cursor(2)]) == [Cursor(3)];
    assert ExistingCursor(n, Cursor(3));
  }

  /** After "x" from no ranges. */
  lemma PrefixX(text: string)
    requires |text| > 0 && text[0] == 'x'
    ensures MaskLoop(XyzxTrie(), text, [], 1) == Progress([Cursor(1)], 0, "")
  {
    FreshX(text);
    MaskLoopNext(XyzxTrie(), text, [], 0, 1);
  }

  /** After "xy" from no ranges. */
  lemma PrefixXY(text: string)
    requires |text| > 1 && text[0] == 'x' && text[1] == 'y'
    ensures MaskLoop(XyzxTrie(), text, [], 2) == Progress([Cursor(2)], 0, "")
  {
    PrefixX(text);
    FreshY(text);
    MaskLoopNext(XyzxTrie(), text, [], 1, 2);
  }

  /** Reading "x", "y", "z" from no ranges: the cursor follows, nothing is written. */
  lemma PrefixSteps(text: string)
    requires |text| > 2 && text[0] == 'x' && text[1] == 'y' && text[2] == 'z'
    ensures MaskLoop(XyzxTrie(), text, [], 3) == Progress([Cursor(3)], 0, "")
  {
    PrefixXY(text);
    FreshZ(text);
    MaskLoopNext(XyzxTrie(), text, [], 2, 3);
  }

  /** On "q" after "xyz" the cursor dies and the whole text is written unchanged. */
  lemma FreshQ()
    ensures MaskStep(XyzxTrie(), "xyzq", 3, Progress([Cursor(3)], 0, "")) == Progress([], 4, "xyzq")
  {
    var n := XyzxTrie();
    var text := "xyzq";
    var p3 := Progress([Cursor(3)], 0, "");
    StepFromOne(n, 'q', 3, Cursor(3));
    assert Step(n, 'q', 3, [Cursor(3)]) == [];
    MaskStepWrites(n, text, 3, p3);
    assert SafeEnd(n, [], 3) == 3;
    assert Emit(text, [], 0, 3) == text;
  }

  /** "xyzq" in one chunk: nothing is masked. */
  lemma LastStepUnmasked()
    ensures MaskLoop(XyzxTrie(), "xyzq", [], 4) == Progress([], 4, "xyzq")
  {
    PrefixSteps("xyzq");
    FreshQ();
    MaskLoopNext(XyzxTrie(), "xyzq", [], 3, 4);
  }

  /** The carried cursor at "xyz" completes the secret on the re-read "x"; the seed follows it too. */
  lemma ResumedX()
    ensures MaskStep(XyzxTrie(), "xyzq", 0, Progress([Cursor(3)], 0, "")) == Progress([Span, Cursor(1)], 0, "")
  {
    var n := XyzxTrie();
    StepFromOne(n, 'x', 0, Cursor(3));
    assert Step(n, 'x', 0, [Cursor(3)]) == [Span, Cursor(1)];
    assert ExistingCursor(n, Cursor(1));
  }

  /** Re-reading "y": the span is kept and the new cursor follows. */
  lemma ResumedY()
    ensures MaskStep(XyzxTrie(), "xyzq", 1, Progress([Span, Cursor(1)], 0, "")) == Progress([Span, Cursor(2)], 0, "")
  {
    var n := XyzxTrie();
    StepFromTwo(n, 'y', 1, Span, Cursor(1));
    assert Step(n, 'y', 1, [Span, Cursor(1)]) == [Span, Cursor(2)];
    assert ExistingCursor(n, Cursor(2));
  }

  /** Re-reading "z": the span is kept and the new cursor follows. */
  lemma ResumedZ()
    ensures MaskStep(XyzxTrie(), "xyzq", 2, Progress([Span, Cursor(2)], 0, "")) == Progress([Span, Cursor(3)], 0, "")
  {
    var n := XyzxTrie();
    StepFromTwo(n, 'z', 2, Span, Cursor(2));
    assert Step(n, 'z', 2, [Span, Cursor(2)]) == [Span, Cursor(3)];
    assert ExistingCursor(n, Cursor(3));
  }

  /** On "q" the live cursor dies and the span masks all four characters. */
  lemma ResumedQ()
    ensures MaskStep(XyzxTrie(), "xyzq", 3, Progress([Span, Cursor(3)], 0, "")) == Progress([], 4, "****")
  {
    var n := XyzxTrie();
    var text := "xyzq";
    var p3 := Progress([Span, Cursor(3)], 0, "");
    StepFromTwo(n, 'q', 3, Span, Cursor(3));
    assert Step(n, 'q', 3, [Span, Cursor(3)]) == [Span];
    MaskStepWrites(n, text, 3, p3);
    assert SafeEnd(n, [Span], 3) == 3;
    SpanEmitted();
    assert KeepActive([Span], 4) == [];
  }

  /** The span over "xyzq" masks every character written. */
  lemma SpanEmitted()
    ensures Emit("xyzq", [Span], 0, 3) == "****"
  {
    forall t | 0 <= t < 4 ensures RangesContainAt([Span], t) {
      assert SpanCovers([Span][0], t);
    }
  }

  /** The re-read "x" with the cursor at "xyz" carried. */
  lemma ResumedAfterX()
    ensures MaskLoop(XyzxTrie(), "xyzq", [Cursor(3)], 1) == Progress([Span, Cursor(1)], 0, "")
  {
    ResumedX();
    MaskLoopNext(XyzxTrie(), "xyzq", [Cursor(3)], 0, 1);
  }

  /** The re-read "xy" with the cursor at "xyz" carried. */
  lemma ResumedAfterXY()
    ensures MaskLoop(XyzxTrie(), "xyzq", [Cursor(3)], 2) == Progress([Span, Cursor(2)], 0, "")
  {
    ResumedAfterX();
    ResumedY();
    MaskLoopNext(XyzxTrie(), "xyzq", [Cursor(3)], 1, 2);
  }

  /** The re-read "xyz" with the cursor at "xyz" carried. */
  lemma ResumedAfterXYZ()
    ensures MaskLoop(XyzxTrie(), "xyzq", [Cursor(3)], 3) == Progress([Span, Cursor(3)], 0, "")
  {
    ResumedAfterXY();
    ResumedZ();
    MaskLoopNext(XyzxTrie(), "xyzq", [Cursor(3)], 2, 3);
  }

  /** "xyzq" re-read after the chunk "xyz": fully masked. */
  lemma ResumedSteps()
    ensures MaskLoop(XyzxTrie(), "xyzq", [Cursor(3)], 4) == Progress([], 4, "****")
  {
    ResumedAfterXYZ();
    ResumedQ();
    MaskLoopNext(XyzxTrie(), "xyzq", [Cursor(3)], 3, 4);
  }

  /** `Mask` returns everything written, nothing pending and no ranges when the loop ends with all written. */
  lemma MaskFAllWritten(nodes: seq<Node>, text: string, state: seq<MatchRange>, out: string)
    requires Closed(nodes) && |nodes| > 0 && InArena(nodes, state)
    requires MaskLoop(nodes, text, state, |text|) == Progress([], |text|, out)
    ensures MaskF(nodes, text, state) == MaskResult(out, [], [])
  {
  }

  /** `Mask` returns the whole text pending and the ranges unshifted when the loop ends with nothing written. */
  lemma MaskFNoneWritten(nodes: seq<Node>, text: string, state: seq<MatchRange>, rs: seq<MatchRange>)
    requires Closed(nodes) && |nodes| > 0 && InArena(nodes, state)
    requires MaskLoop(nodes, text, state, |text|) == Progress(rs, 0, [])
    ensures MaskF(nodes, text, state) == MaskResult([], text, rs)
  {
    assert Shift(rs, 0) == rs;
  }

  /** `Mask` on "xyzq" from no ranges writes it all, unchanged. */
  lemma MaskUnmasked()
    ensures MaskF(XyzxTrie(), "xyzq", []) == MaskResult("xyzq", [], [])
  {
    LastStepUnmasked();
    MaskFAllWritten(XyzxTrie(), "xyzq", [], "xyzq");
  }

  /** "xyzq" in one chunk comes out unchanged. */
  lemma OneChunkUnmasked()
    ensures Redacted(XyzxTrie(), ["xyzq"]) == "xyzq"
  {
    MaskUnmasked();
    OneChunk(XyzxTrie(), "xyzq");
  }

  /** `Mask` on "xyz" from no ranges writes nothing and carries the cursor at "xyz". */
  lemma MaskPending()
    ensures MaskF(XyzxTrie(), "xyz", []) == MaskResult("", "xyz", [Cursor(3)])
  {
    PrefixSteps("xyz");
    MaskFNoneWritten(XyzxTrie(), "xyz", [], [Cursor(3)]);
  }

  /** After the chunk "xyz" nothing is written, "xyz" is pending and the cursor at "xyz" is carried. */
  lemma FirstChunkPending()
    ensures Feed(XyzxTrie(), ["xyz"]) == MaskResult("", "xyz", [Cursor(3)])
  {
    MaskPending();
    OneChunk(XyzxTrie(), "xyz");
  }

  /** `Mask` on the re-read "xyzq" with the cursor at "xyz" carried writes four `*`s. */
  lemma MaskResumed()
    ensures MaskF(XyzxTrie(), "xyzq", [Cursor(3)]) == MaskResult("****", [], [])
  {
    ResumedSteps();
    MaskFAllWritten(XyzxTrie(), "xyzq", [Cursor(3)], "****");
  }

  /** One more chunk: the next call masks the pending rest with the chunk appended, from the carried ranges. */
  lemma FeedOneMore(nodes: seq<Node>, chunks: seq<string>, chunk: string, text: string, r1: MaskResult, r2: MaskResult)
    requires Closed(nodes) && |nodes| > 0
    requires Feed(nodes, chunks) == r1 && text == r1.remaining + chunk
    requires InArena(nodes, r1.state) && MaskF(nodes, text, r1.state) == r2
    ensures Feed(nodes, chunks + [chunk]) == MaskResult(r1.masked + r2.masked, r2.remaining, r2.state)
  {
    FeedNext(nodes, chunks, chunk);
  }

  /** The pending "xyz" with the chunk "q" appended is the re-read text, and the two chunks are the stream. */
  lemma XyzThenQ()
    ensures "xyz" + "q" == "xyzq" && ["xyz"] + ["q"] == ["xyz", "q"]
  {
  }

  /** Feeding "xyz" then "q" writes four `*`s and leaves nothing pending. */
  lemma TwoChunksFed()
    ensures Feed(XyzxTrie(), ["xyz", "q"]) == MaskResult("****", [], [])
  {
    XyzThenQ();
    FirstChunkPending();
    MaskResumed();
    FeedOneMore(XyzxTrie(), ["xyz"], "q", "xyzq", MaskResult("", "xyz", [Cursor(3)]), MaskResult("****", [], []));
  }

  /** "xyz" then "q" comes out fully masked. */
  lemma TwoChunksMasked()
    ensures Redacted(XyzxTrie(), ["xyz", "q"]) == "****"
  {
    TwoChunksFed();
  }

  /**
   * Chunking changes the result: with the secret "xyzx", the stream "xyzq"
   * is left as it is in one chunk, but fully masked as "xyz" then "q".
   */
  lemma ChunkingChangesOutput()
    ensures Redacted(Build(["xyzx"]), ["xyzq"]) == "xyzq"
    ensures Redacted(Build(["xyzx"]), ["xyz", "q"]) == "****"
  {
    BuildXyzx();
    OneChunkUnmasked();
    TwoChunksMasked();
  }
}
