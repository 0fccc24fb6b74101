/**
 * The emitter: runs the matcher over a buffer, writes out the prefix that is
 * safe to finalise (a `*` for every position inside a completed span) and
 * hands back the unresolved rest with its ranges rebased to the rest's origin.
 * Characters are single bytes: a character's index is its byte offset.
 */
module Emitter {
  import opened PatternTrie
  import opened Matcher

  /** The placeholder written for every masked character. */
  const MaskChar: char := '*'

  /** What `Mask` returns: the finalised output, the unresolved rest and the rebased ranges. */
  datatype MaskResult = MaskResult(masked: string, remaining: string, state: seq<MatchRange>)

  /** The variables of `Mask`'s loop: the ranges, the number of characters written, the output. */
  datatype Progress = Progress(ranges: seq<MatchRange>, printedPos: nat, out: string)

  /** `x` is a cursor whose node lies `position == 0` (a "new" cursor in the source's terms). */
  predicate NewCursor(nodes: seq<Node>, x: MatchRange)
  {
    x.node.Some? && x.node.value < |nodes| && nodes[x.node.value].position == 0
  }

  /** `x` is a cursor whose node has a non-zero position (an "existing" cursor). */
  predicate ExistingCursor(nodes: seq<Node>, x: MatchRange)
  {
    x.node.Some? && x.node.value < |nodes| && nodes[x.node.value].position != 0
  }

  /** How many cursors of `rs` sit at position 0, counted from the front. */
  function CountNew(nodes: seq<Node>, rs: seq<MatchRange>): (n: nat)
    ensures n == 0 <==> forall x :: x in rs ==> !NewCursor(nodes, x)
  {
    if rs == [] then 0
    else
      assert rs == rs[..|rs| - 1] + [rs[|rs| - 1]];
      CountNew(nodes, rs[..|rs| - 1]) + (if NewCursor(nodes, rs[|rs| - 1]) then 1 else 0)
  }

  /** How many cursors of `rs` sit at a non-zero position, counted from the front. */
  function CountExisting(nodes: seq<Node>, rs: seq<MatchRange>): (n: nat)
    ensures n == 0 <==> forall x :: x in rs ==> !ExistingCursor(nodes, x)
  {
    if rs == [] then 0
    else
      assert rs == rs[..|rs| - 1] + [rs[|rs| - 1]];
      CountExisting(nodes, rs[..|rs| - 1]) + (if ExistingCursor(nodes, rs[|rs| - 1]) then 1 else 0)
  }

  /** The characters at positions `from` to `end` (inclusive), masked where a span covers them. */
  function Emit(text: string, rs: seq<MatchRange>, from: nat, end: int): (r: string)
    requires end < |text|
    ensures |r| == if from <= end then end - from + 1 else 0
    ensures forall t :: 0 <= t < |r| ==>
              r[t] == if RangesContainAt(rs, from + t) then MaskChar else text[from + t]
    decreases if from <= end then end - from + 1 else 0
  {
    if end < from then []
    else Emit(text, rs, from, end - 1) + [if RangesContainAt(rs, end) then MaskChar else text[end]]
  }

  /** The ranges that still reach past `printedPos`, in their order. */
  function KeepActive(rs: seq<MatchRange>, printedPos: int): (r: seq<MatchRange>)
    ensures forall x :: x in r <==> x in rs && x.start + x.length > printedPos
  {
    if rs == [] then []
    else
      assert rs == rs[..|rs| - 1] + [rs[|rs| - 1]];
      var last := rs[|rs| - 1];
      KeepActive(rs[..|rs| - 1], printedPos) + (if last.start + last.length > printedPos then [last] else [])
  }

  /** The ranges with every start moved back by `d`. */
  function Shift(rs: seq<MatchRange>, d: int): (r: seq<MatchRange>)
    ensures |r| == |rs|
    ensures forall k :: 0 <= k < |r| ==>
              r[k].start + d == rs[k].start && r[k].length == rs[k].length && r[k].node == rs[k].node
  {
    seq(|rs|, k requires 0 <= k < |rs| => rs[k].(start := rs[k].start - d))
  }

  /** The last index that may be written after the step at `i`: `i`, or `i - 1` while a cursor sits at position 0. */
  function SafeEnd(nodes: seq<Node>, rs: seq<MatchRange>, i: int): (e: int)
    ensures e == i <==> forall x :: x in rs ==> !NewCursor(nodes, x)
    ensures e == i - 1 <==> exists x :: x in rs && NewCursor(nodes, x)
  {
    if CountNew(nodes, rs) > 0 then i - 1 else i
  }

  /**
   * One iteration of `Mask`'s loop at index `i`: step the matcher; if no cursor
   * sits at a non-zero position, write out everything up to `i` (up to `i - 1`
   * when a cursor sits at position 0) and drop the ranges that end there.
   */
  function MaskStep(nodes: seq<Node>, text: string, i: nat, p: Progress): (q: Progress)
    requires Closed(nodes) && |nodes| > 0 && InArena(nodes, p.ranges)
    requires i < |text| && p.printedPos <= i && |p.out| == p.printedPos
    ensures p.printedPos <= q.printedPos <= i + 1 && |q.out| == q.printedPos
    ensures q.out[..|p.out|] == p.out && InArena(nodes, q.ranges)
    ensures forall j {:trigger q.out[j]} :: p.printedPos <= j < q.printedPos ==> q.out[j] == MaskChar || q.out[j] == text[j]
    ensures (exists x :: x in Step(nodes, text[i], i, p.ranges) && ExistingCursor(nodes, x)) ==>
              q == Progress(Step(nodes, text[i], i, p.ranges), p.printedPos, p.out)
    ensures (forall x :: x in Step(nodes, text[i], i, p.ranges) ==> !ExistingCursor(nodes, x)) ==>
              i <= q.printedPos
    ensures (forall x :: x in Step(nodes, text[i], i, p.ranges) ==> x.node.None?) ==>
              q.printedPos == i + 1
  {
    var rs := Step(nodes, text[i], i, p.ranges);
    if CountExisting(nodes, rs) == 0 then
      var end := SafeEnd(nodes, rs, i);
      var printedPos := if p.printedPos <= end then end + 1 else p.printedPos;
      Progress(KeepActive(rs, printedPos), printedPos, p.out + Emit(text, rs, p.printedPos, end))
    else
      Progress(rs, p.printedPos, p.out)
  }

  /** A step after which no cursor sits at a non-zero position writes up to `SafeEnd` and drops the finished ranges. */
  lemma MaskStepWrites(nodes: seq<Node>, text: string, i: nat, p: Progress)
    requires Closed(nodes) && |nodes| > 0 && InArena(nodes, p.ranges)
    requires i < |text| && p.printedPos <= i && |p.out| == p.printedPos
    requires CountExisting(nodes, Step(nodes, text[i], i, p.ranges)) == 0
    ensures var rs := Step(nodes, text[i], i, p.ranges);
            var end := SafeEnd(nodes, rs, i);
            var q := MaskStep(nodes, text, i, p);
            q.printedPos == (if p.printedPos <= end then end + 1 else p.printedPos) &&
            q.out == p.out + Emit(text, rs, p.printedPos, end) &&
            q.ranges == KeepActive(rs, q.printedPos)
  {
  }

  /** `Mask`'s loop variables after the first `k` characters. */
  function MaskLoop(nodes: seq<Node>, text: string, state: seq<MatchRange>, k: nat): (p: Progress)
    requires Closed(nodes) && |nodes| > 0 && InArena(nodes, state) && k <= |text|
    ensures p.printedPos <= k && |p.out| == p.printedPos && InArena(nodes, p.ranges)
    ensures forall j {:trigger p.out[j]} :: 0 <= j < p.printedPos ==> p.out[j] == MaskChar || p.out[j] == text[j]
  {
    if k == 0 then Progress(state, 0, [])
    else
      var p := MaskLoop(nodes, text, state, k - 1);
      var q := MaskStep(nodes, text, k - 1, p);
      assert forall j :: 0 <= j < p.printedPos ==> q.out[j] == p.out[j];
      q
  }

  /** The loop variables after `k == j + 1` characters are one iteration on from those after `j`. */
  lemma MaskLoopNext(nodes: seq<Node>, text: string, state: seq<MatchRange>, j: nat, k: nat)
    requires Closed(nodes) && |nodes| > 0 && InArena(nodes, state) && k == j + 1 <= |text|
    ensures MaskLoop(nodes, text, state, k) == MaskStep(nodes, text, j, MaskLoop(nodes, text, state, j))
  {
  }

  /** What `Mask` returns for `text` and the carried `state`. */
  function MaskF(nodes: seq<Node>, text: string, state: seq<MatchRange>): (m: MaskResult)
    requires Closed(nodes) && |nodes| > 0 && InArena(nodes, state)
    ensures |m.masked| + |m.remaining| == |text| && m.remaining == text[|m.masked|..]
    ensures forall j {:trigger m.masked[j]} :: 0 <= j < |m.masked| ==> m.masked[j] == MaskChar || m.masked[j] == text[j]
    ensures InArena(nodes, m.state)
  {
    var p := MaskLoop(nodes, text, state, |text|);
    MaskResult(p.out, text[p.printedPos..], Shift(p.ranges, p.printedPos))
  }

  /** The source's counting loop: cursors at position 0 and at a non-zero position. */
  method CountCursors(nodes: seq<Node>, rs: seq<MatchRange>) returns (numNew: nat, numExisting: nat)
    requires InArena(nodes, rs)
    ensures numNew == CountNew(nodes, rs) && numExisting == CountExisting(nodes, rs)
  {
    numNew, numExisting := 0, 0;
    for j := 0 to |rs|
      invariant numNew == CountNew(nodes, rs[..j])
      invariant numExisting == CountExisting(nodes, rs[..j])
    {
      assert rs[..j + 1][..j] == rs[..j];
      match rs[j].node
      case Some(n) =>
        if nodes[n].position == 0 {
          numNew := numNew + 1;
        } else {
          numExisting := numExisting + 1;
        }
      case None =>
    }
    assert rs[..|rs|] == rs;
  }

  /** The source's writing loop: append positions `printedPos` to `end`, masked where a span covers them. */
  method WriteSafe(text: string, rs: seq<MatchRange>, printedPos: nat, end: int, result: string)
    returns (printedPos': nat, result': string)
    requires printedPos <= end + 1 && end < |text|
    ensures printedPos' == if printedPos <= end then end + 1 else printedPos
    ensures result' == result + Emit(text, rs, printedPos, end)
  {
    printedPos', result' := printedPos, result;
    while printedPos' <= end
      invariant printedPos <= printedPos' <= end + 1
      invariant result' == result + Emit(text, rs, printedPos, printedPos' - 1)
    {
      if RangesContainAt(rs, printedPos') {
        result' := result' + [MaskChar];
      } else {
        result' := result' + [text[printedPos']];
      }
      printedPos' := printedPos' + 1;
    }
  }

  /** The source's clean-up loop: keep the ranges that reach past `printedPos`. */
  method DropFinished(rs: seq<MatchRange>, printedPos: nat) returns (kept: seq<MatchRange>)
    ensures kept == KeepActive(rs, printedPos)
  {
    kept := [];
    for j := 0 to |rs|
      invariant kept == KeepActive(rs[..j], printedPos)
    {
      assert rs[..j + 1][..j] == rs[..j];
      if rs[j].start + rs[j].length > printedPos {
        kept := kept + [rs[j]];
      }
    }
    assert rs[..|rs|] == rs;
  }

  /** The source's rebasing loop: move every start back by `d`, element by element. */
  method ShiftStarts(rs: seq<MatchRange>, d: nat) returns (shifted: seq<MatchRange>)
    ensures shifted == Shift(rs, d)
  {
    shifted := rs;
    for j := 0 to |shifted|
      invariant |shifted| == |rs|
      invariant forall k :: 0 <= k < j ==> shifted[k] == rs[k].(start := rs[k].start - d)
      invariant forall k :: j <= k < |shifted| ==> shifted[k] == rs[k]
    {
      shifted := shifted[j := shifted[j].(start := shifted[j].start - d)];
    }
  }

  /**
   * The body of `Mask`'s loop at index `i`: step the matcher, count the
   * cursors, and when none sits at a non-zero position write out the safe
   * prefix and drop the ranges that end before it.
   */
  method MaskIteration(nodes: seq<Node>, text: string, i: nat,
                       ranges: seq<MatchRange>, printedPos: nat, result: string)
    returns (ranges': seq<MatchRange>, printedPos': nat, result': string)
    requires Closed(nodes) && |nodes| > 0 && InArena(nodes, ranges)
    requires i < |text| && printedPos <= i && |result| == printedPos
    ensures Progress(ranges', printedPos', result') == MaskStep(nodes, text, i, Progress(ranges, printedPos, result))
  {
    ranges', printedPos', result' := Step(nodes, text[i], i, ranges), printedPos, result;
    var numNew, numExisting := CountCursors(nodes, ranges');
    if numExisting == 0 {
      var end: int := i;
      if numNew > 0 {
        end := end - 1;
      }
      printedPos', result' := WriteSafe(text, ranges', printedPos', end, result');
      assert end == SafeEnd(nodes, ranges', i);
      ranges' := DropFinished(ranges', printedPos');
      MaskStepWrites(nodes, text, i, Progress(ranges, printedPos, result));
    }
  }

  /**
   * Runs the matcher over `text` from the carried `state` (copied, never
   * changed), writes out the safe prefix and returns the rest and the ranges
   * rebased to the rest's origin.
   */
  method Mask(nodes: seq<Node>, text: string, state: seq<MatchRange>)
    returns (masked: string, remaining: string, newState: seq<MatchRange>)
    requires Closed(nodes) && |nodes| > 0 && InArena(nodes, state)
    ensures MaskResult(masked, remaining, newState) == MaskF(nodes, text, state)
    ensures |masked| + |remaining| == |text| && remaining == text[|masked|..]
    ensures forall j {:trigger masked[j]} :: 0 <= j < |masked| ==> masked[j] == MaskChar || masked[j] == text[j]
  {
    var current := state;
    var printedPos: nat := 0;
    var result := "";
    for i := 0 to |text|
      invariant Progress(current, printedPos, result) == MaskLoop(nodes, text, state, i)
    {
      current, printedPos, result := MaskIteration(nodes, text, i, current, printedPos, result);
    }
    newState := ShiftStarts(current, printedPos);
    masked, remaining := result, text[printedPos..];
  }

  /**
   * The end-of-stream flush: a character is masked when a span covers it or
   * when any range at all is left; otherwise it is written unchanged.
   */
  function PrintRemaining(text: string, state: seq<MatchRange>): (r: string)
    ensures |r| == |text|
    ensures state == [] ==> r == text
    ensures state != [] ==> forall j :: 0 <= j < |r| ==> r[j] == MaskChar
  {
    if text == [] then []
    else
      var i := |text| - 1;
      PrintRemaining(text[..i], state)
        + [if RangesContainAt(state, i) then MaskChar else if |state| != 0 then MaskChar else text[i]]
  }

  // ---------------------------------------------------------------------------
  // What the written output contains

  /** `text[s..e]` is an occurrence of a secret, possibly with skipped backslashes. */
  predicate Occurrence(nodes: seq<Node>, text: string, s: int, e: int)
    requires Closed(nodes) && |nodes| > 0
  {
    0 <= s < e <= |text| && EscMatch(nodes, text[s..e])
  }

  /** Index `j` lies inside an occurrence of a secret. */
  ghost predicate Covered(nodes: seq<Node>, text: string, j: int)
    requires Closed(nodes) && |nodes| > 0
  {
    exists s, e :: s <= j < e && Occurrence(nodes, text, s, e)
  }

  /** Every character of `out` that differs from the text lies inside an occurrence of a secret. */
  ghost predicate OnlySecretsMasked(nodes: seq<Node>, text: string, out: string)
    requires Closed(nodes) && |nodes| > 0
  {
    forall j {:trigger Covered(nodes, text, j)} ::
      0 <= j < |out| && j < |text| && out[j] != text[j] ==> Covered(nodes, text, j)
  }

  /** A position that a sound span covers lies inside an occurrence of a secret. */
  lemma SpanIsCovered(nodes: seq<Node>, text: string, k: int, rs: seq<MatchRange>, j: int)
    requires Closed(nodes) && |nodes| > 0 && Sound(nodes, text, k, rs) && RangesContainAt(rs, j)
    ensures Covered(nodes, text, j)
  {
    var t :| 0 <= t < |rs| && SpanCovers(rs[t], j);
    assert RangeSound(nodes, text, k, rs[t]);
    var s, e := rs[t].start, rs[t].start + rs[t].length;
    assert Occurrence(nodes, text, s, e);
  }

  /** Appending what `Emit` writes from sound ranges masks only inside occurrences. */
  lemma EmitSound(nodes: seq<Node>, text: string, k: int, rs: seq<MatchRange>, out: string, end: int)
    requires Closed(nodes) && |nodes| > 0 && Sound(nodes, text, k, rs)
    requires OnlySecretsMasked(nodes, text, out) && end < |text|
    ensures OnlySecretsMasked(nodes, text, out + Emit(text, rs, |out|, end))
  {
    var written := Emit(text, rs, |out|, end);
    var r := out + written;
    forall j | 0 <= j < |r| && j < |text| && r[j] != text[j]
      ensures Covered(nodes, text, j)
    {
      if j < |out| {
        assert r[j] == out[j];
      } else {
        var t := j - |out|;
        assert r[j] == written[t];
        assert RangesContainAt(rs, j);
        SpanIsCovered(nodes, text, k, rs, j);
      }
    }
  }

  /** A step from sound ranges keeps them sound and writes `*` only inside occurrences. */
  lemma MaskStepSound(nodes: seq<Node>, text: string, i: nat, p: Progress)
    requires Closed(nodes) && |nodes| > 0 && InArena(nodes, p.ranges)
    requires i < |text| && p.printedPos <= i && |p.out| == p.printedPos
    requires Sound(nodes, text, i, p.ranges) && OnlySecretsMasked(nodes, text, p.out)
    ensures Sound(nodes, text, i + 1, MaskStep(nodes, text, i, p).ranges)
    ensures OnlySecretsMasked(nodes, text, MaskStep(nodes, text, i, p).out)
  {
    var rs := Step(nodes, text[i], i, p.ranges);
    StepSound(nodes, text, i, p.ranges);
    if CountExisting(nodes, rs) == 0 {
      MaskStepWrites(nodes, text, i, p);
      EmitSound(nodes, text, i + 1, rs, p.out, SafeEnd(nodes, rs, i));
    }
  }

  /**
   * From a sound starting state (the empty one, in particular) the ranges stay
   * sound, and a written character differs from the text only where an
   * occurrence of a secret covers it.
   */
  lemma {:induction false} MaskLoopSound(nodes: seq<Node>, text: string, state: seq<MatchRange>, k: nat)
    requires Closed(nodes) && |nodes| > 0 && InArena(nodes, state) && Sound(nodes, text, 0, state)
    requires k <= |text|
    ensures Sound(nodes, text, k, MaskLoop(nodes, text, state, k).ranges)
    ensures OnlySecretsMasked(nodes, text, MaskLoop(nodes, text, state, k).out)
    decreases k
  {
    if k > 0 {
      var j: nat :| j + 1 == k;
      MaskLoopSound(nodes, text, state, j);
      MaskStepSound(nodes, text, j, MaskLoop(nodes, text, state, j));
      MaskLoopNext(nodes, text, state, j, k);
    }
  }

  /**
   * `u` is what a cursor reads on its way to a completed span: its last
   * character takes an edge into a node that ends a secret, and its first
   * takes an edge from the root, or is a backslash the root has no edge for
   * with the second taking one (the cursor seeded on such a backslash stays
   * at the root for one character).
   */
  predicate Completes(nodes: seq<Node>, u: string)
    requires Closed(nodes) && |nodes| > 0
  {
    |u| > 0 &&
    (u[0] in nodes[RootIndex].children ||
     (u[0] == Backslash && Backslash !in nodes[RootIndex].children && |u| > 1 && u[1] in nodes[RootIndex].children)) &&
    (var n := EscWalk(nodes, u[..|u| - 1]);
     n.Some? && u[|u| - 1] in nodes[n.value].children && nodes[nodes[n.value].children[u[|u| - 1]]].isEnd)
  }

  /** The cursor seeded at index `s` after it has read the first `m` characters of `u`. */
  function Follower(nodes: seq<Node>, u: string, s: int, m: nat): MatchRange
    requires Closed(nodes) && |nodes| > 0 && m <= |u|
  {
    MatchRange(s, m, EscWalk(nodes, u[..m]))
  }

  /** Reading the character after the first `m` of `u` is one more escape-tolerant step. */
  lemma EscWalkNext(nodes: seq<Node>, u: string, m: nat, k: nat)
    requires Closed(nodes) && |nodes| > 0 && k == m + 1 <= |u|
    ensures EscWalk(nodes, u[..k]) == match EscWalk(nodes, u[..m])
                                       case None => None
                                       case Some(n) => EscStep(nodes, n, u[m])
  {
    assert u[..k][..m] == u[..m];
  }

  /** Along a completing `u`, the cursor survives every character but the last, each time at a node with an edge out. */
  lemma {:induction false} CompletesPath(nodes: seq<Node>, u: string, m: nat)
    requires Closed(nodes) && |nodes| > 0 && Completes(nodes, u) && m < |u|
    ensures EscWalk(nodes, u[..m]).Some? && |nodes[EscWalk(nodes, u[..m]).value].children| > 0
    decreases |u| - m
  {
    if m + 1 < |u| {
      CompletesPath(nodes, u, m + 1);
      EscWalkNext(nodes, u, m, m + 1);
    } else {
      var n := EscWalk(nodes, u[..m]).value;
      assert u[m] in nodes[n].children.Keys;
    }
  }

  /** The follower of `u` that has read nothing is the seed of its start. */
  lemma FirstFollower(nodes: seq<Node>, u: string, s: int)
    requires Closed(nodes) && |nodes| > 0
    ensures Follower(nodes, u, s, 0) == Seed(s)
  {
    assert u[..0] == [];
  }

  /**
   * A follower of `u` advances on `u`'s next character (index `m`, making
   * `k == m + 1` read): to the next follower while `u` goes on, to the
   * completed span once `u` is complete.
   */
  lemma FollowerAdvances(nodes: seq<Node>, u: string, s: int, m: nat, k: nat)
    requires Closed(nodes) && |nodes| > 0 && Completes(nodes, u) && k == m + 1 <= |u|
    ensures EscWalk(nodes, u[..m]).Some?
    ensures k < |u| ==> Follower(nodes, u, s, k) in Advance(nodes, u[m], Follower(nodes, u, s, m))
    ensures k == |u| ==> MatchRange(s, |u|, None) in Advance(nodes, u[m], Follower(nodes, u, s, m))
  {
    CompletesPath(nodes, u, m);
    EscWalkNext(nodes, u, m, k);
    if k < |u| {
      CompletesPath(nodes, u, k);
    }
  }

  /** What a carried range or the seed of index `i` advances to is in the step's result. */
  lemma AdvancedIsStepped(nodes: seq<Node>, c: char, i: int, rs: seq<MatchRange>, y: MatchRange, x: MatchRange)
    requires Closed(nodes) && |nodes| > 0 && InArena(nodes, rs)
    requires y == Seed(i) || y in rs
    requires x in Advance(nodes, c, y)
    ensures x in Step(nodes, c, i, rs)
  {
    StepMember(nodes, c, i, rs, x);
    if y != Seed(i) {
      var t :| 0 <= t < |rs| && rs[t] == y;
    }
  }

  /**
   * A follower of `u` that is carried, or is the seed of index `i`, passes to
   * the step on `u`'s next character: as the next follower while `u` goes on,
   * as the completed span once `u` is complete.
   */
  lemma FollowerStepped(nodes: seq<Node>, i: int, rs: seq<MatchRange>, u: string, s: int, m: nat, k: nat)
    requires Closed(nodes) && |nodes| > 0 && InArena(nodes, rs)
    requires Completes(nodes, u) && k == m + 1 <= |u|
    requires Follower(nodes, u, s, m) == Seed(i) || Follower(nodes, u, s, m) in rs
    ensures k < |u| ==> Follower(nodes, u, s, k) in Step(nodes, u[m], i, rs)
    ensures k == |u| ==> MatchRange(s, |u|, None) in Step(nodes, u[m], i, rs)
  {
    FollowerAdvances(nodes, u, s, m, k);
    var y := Follower(nodes, u, s, m);
    if k < |u| {
      AdvancedIsStepped(nodes, u[m], i, rs, y, Follower(nodes, u, s, k));
    } else {
      AdvancedIsStepped(nodes, u[m], i, rs, y, MatchRange(s, |u|, None));
    }
  }

  /** Inside an occurrence of a prefix of `u` at `s`, the text agrees with `u` character by character. */
  lemma OccurrenceChar(text: string, u: string, s: nat, e: nat, j: nat, m: nat)
    requires j == s + m && j < e <= |text| && e - s <= |u| && text[s..e] == u[..e - s]
    ensures text[j] == u[m]
  {
    assert text[s..e][m] == u[..e - s][m];
  }

  /** A follower of `u` that has read two characters or more sits at a non-zero position. */
  ghost predicate DeepAlong(nodes: seq<Node>, u: string)
    requires Closed(nodes) && |nodes| > 0
  {
    forall m {:trigger EscWalk(nodes, u[..m])} :: 1 < m <= |u| && EscWalk(nodes, u[..m]).Some? ==>
      nodes[EscWalk(nodes, u[..m]).value].position != 0
  }

  /** In a trie, the follower of a completing `u` is past the root from its second character on. */
  lemma {:induction false} FollowerDepth(nodes: seq<Node>, u: string, m: nat)
    requires IsTrie(nodes) && Closed(nodes) && |nodes| > 0 && Completes(nodes, u)
    requires 1 < m <= |u| && EscWalk(nodes, u[..m]).Some?
    ensures nodes[EscWalk(nodes, u[..m]).value].position > 0
    decreases m
  {
    TriePositions(nodes);
    var j: nat :| j + 1 == m;
    EscWalkNext(nodes, u, j, m);
    var n := EscWalk(nodes, u[..j]).value;
    if 1 < j {
      FollowerDepth(nodes, u, j);
    } else {
      EscWalkNext(nodes, u, 0, 1);
      assert u[..0] == [];
      if u[0] in nodes[RootIndex].children {
        ChildPosition(nodes, RootIndex, u[0]);
      } else {
        assert n == RootIndex;
      }
    }
    if u[j] in nodes[n].children {
      ChildPosition(nodes, n, u[j]);
    }
  }

  /** In a trie, every completing `u` has its followers past the root. */
  lemma TrieDeepAlong(nodes: seq<Node>, u: string)
    requires IsTrie(nodes) && Closed(nodes) && |nodes| > 0 && Completes(nodes, u)
    ensures DeepAlong(nodes, u)
  {
    forall m | 1 < m <= |u| && EscWalk(nodes, u[..m]).Some?
      ensures nodes[EscWalk(nodes, u[..m]).value].position != 0
    {
      FollowerDepth(nodes, u, m);
    }
  }

  /**
   * One step inside an occurrence of `u` at `s`: the follower that has read
   * `n` characters moves on over index `i == s + n` to have read
   * `m == n + 1`, and nothing from `s` on is written: past the first
   * character the follower is an existing cursor, which holds everything
   * back; on the first it is existing, or a new cursor, which holds back `i`.
   */
  lemma PendingStep(nodes: seq<Node>, text: string, i: nat, p: Progress, u: string, s: nat, n: nat, m: nat)
    requires Closed(nodes) && |nodes| > 0 && InArena(nodes, p.ranges)
    requires i == s + n && m == n + 1 && i < |text| && p.printedPos <= s && |p.out| == p.printedPos
    requires Completes(nodes, u) && m < |u| && text[i] == u[n]
    requires 0 < n ==> ExistingCursor(nodes, Follower(nodes, u, s, m))
    requires 0 < n ==> Follower(nodes, u, s, n) in p.ranges
    ensures Follower(nodes, u, s, m) in MaskStep(nodes, text, i, p).ranges
    ensures MaskStep(nodes, text, i, p).printedPos <= s
  {
    if n == 0 {
      FirstFollower(nodes, u, s);
    }
    FollowerStepped(nodes, i, p.ranges, u, s, n, m);
    CompletesPath(nodes, u, m);
    var rs := Step(nodes, text[i], i, p.ranges);
    var x := Follower(nodes, u, s, m);
    if CountExisting(nodes, rs) == 0 {
      assert NewCursor(nodes, x);
      NewCursorKept(nodes, text, i, p, x);
    }
  }

  /** A step that leaves a new cursor reaching `i + 1` but no existing one writes up to `i - 1` and keeps it. */
  lemma NewCursorKept(nodes: seq<Node>, text: string, i: nat, p: Progress, x: MatchRange)
    requires Closed(nodes) && |nodes| > 0 && InArena(nodes, p.ranges)
    requires i < |text| && p.printedPos <= i && |p.out| == p.printedPos
    requires x in Step(nodes, text[i], i, p.ranges) && NewCursor(nodes, x) && x.start + x.length == i + 1
    requires CountExisting(nodes, Step(nodes, text[i], i, p.ranges)) == 0
    ensures x in MaskStep(nodes, text, i, p).ranges && MaskStep(nodes, text, i, p).printedPos == i
  {
    MaskStepWrites(nodes, text, i, p);
  }

  /**
   * While an occurrence of `u` at `s` is incomplete after its first `m`
   * characters (up to index `k == s + m`), its follower is live and nothing
   * from `s` on was written (the text agrees with `u` from `s` up to some `e`
   * at or beyond `k`).
   */
  lemma {:induction false} OccurrencePending(nodes: seq<Node>, text: string, state: seq<MatchRange>,
                                             u: string, s: nat, e: nat, k: nat, m: nat)
    requires Closed(nodes) && |nodes| > 0 && DeepAlong(nodes, u) && InArena(nodes, state)
    requires Completes(nodes, u) && 0 < m < |u| && k == s + m && k <= e <= |text| && e - s <= |u|
    requires text[s..e] == u[..e - s]
    ensures Follower(nodes, u, s, m) in MaskLoop(nodes, text, state, k).ranges
    ensures MaskLoop(nodes, text, state, k).printedPos <= s
    decreases m
  {
    var j: nat :| j + 1 == k;
    var n: nat :| n + 1 == m;
    var p := MaskLoop(nodes, text, state, j);
    if 0 < n {
      OccurrencePending(nodes, text, state, u, s, e, j, n);
      CompletesPath(nodes, u, m);
    }
    OccurrenceChar(text, u, s, e, j, n);
    PendingStep(nodes, text, j, p, u, s, n, m);
    MaskLoopNext(nodes, text, state, j, k);
  }

  /**
   * On the last character of an occurrence of `u` at `s` (index `i`, after
   * `n` characters), the step yields the span.
   */
  lemma CompletingStep(nodes: seq<Node>, text: string, i: nat, rs: seq<MatchRange>, u: string, s: nat, n: nat)
    requires Closed(nodes) && |nodes| > 0 && InArena(nodes, rs)
    requires Completes(nodes, u) && n + 1 == |u| && i == s + n && i < |text| && text[i] == u[n]
    requires 0 < n ==> Follower(nodes, u, s, n) in rs
    ensures MatchRange(s, |u|, None) in Step(nodes, text[i], i, rs)
  {
    if n == 0 {
      FirstFollower(nodes, u, s);
    }
    FollowerStepped(nodes, i, rs, u, s, n, |u|);
  }

  /**
   * A step keeps a completed span's characters masked: those already written
   * stay `*`, newly written ones become `*`, and the span is dropped only once
   * everything it covers has been written.
   */
  lemma SpanMaskStep(nodes: seq<Node>, text: string, i: nat, p: Progress, x: MatchRange)
    requires Closed(nodes) && |nodes| > 0 && InArena(nodes, p.ranges)
    requires i < |text| && p.printedPos <= i && |p.out| == p.printedPos
    requires x.node.None?
    requires p.printedPos < x.start + x.length ==> x in Step(nodes, text[i], i, p.ranges)
    requires forall j :: x.start <= j < x.start + x.length && 0 <= j < p.printedPos ==> p.out[j] == MaskChar
    ensures forall j :: x.start <= j < x.start + x.length && 0 <= j < MaskStep(nodes, text, i, p).printedPos ==>
              MaskStep(nodes, text, i, p).out[j] == MaskChar
    ensures MaskStep(nodes, text, i, p).printedPos < x.start + x.length ==> x in MaskStep(nodes, text, i, p).ranges
  {
    var q := MaskStep(nodes, text, i, p);
    var rs := Step(nodes, text[i], i, p.ranges);
    if CountExisting(nodes, rs) == 0 {
      MaskStepWrites(nodes, text, i, p);
      var written := Emit(text, rs, p.printedPos, SafeEnd(nodes, rs, i));
      forall j | x.start <= j < x.start + x.length && 0 <= j < q.printedPos
        ensures q.out[j] == MaskChar
      {
        if j < p.printedPos {
          assert q.out[j] == p.out[j];
        } else {
          assert q.out[j] == written[j - p.printedPos];
          var t :| 0 <= t < |rs| && rs[t] == x;
          assert SpanCovers(rs[t], j);
        }
      }
    }
  }

  /**
   * Just before the last character of an occurrence of `u` at `s` (index
   * `j`), nothing from `s` on has been written and the step yields the span.
   */
  lemma OccurrenceCompleted(nodes: seq<Node>, text: string, state: seq<MatchRange>,
                            u: string, s: nat, j: nat, k: nat)
    requires Closed(nodes) && |nodes| > 0 && DeepAlong(nodes, u) && InArena(nodes, state)
    requires Completes(nodes, u) && j + 1 == k && k == s + |u| && k <= |text| && text[s..k] == u
    ensures MaskLoop(nodes, text, state, j).printedPos <= s
    ensures MatchRange(s, |u|, None) in Step(nodes, text[j], j, MaskLoop(nodes, text, state, j).ranges)
  {
    var n: nat :| n + 1 == |u|;
    assert u[..|u|] == u;
    if 0 < n {
      OccurrencePending(nodes, text, state, u, s, k, j, n);
    }
    OccurrenceChar(text, u, s, k, j, n);
    CompletingStep(nodes, text, j, MaskLoop(nodes, text, state, j).ranges, u, s, n);
  }

  /** `SpanMaskStep` for the iteration that takes `Mask`'s loop from `j` to `k` characters. */
  lemma SpanLoopStep(nodes: seq<Node>, text: string, state: seq<MatchRange>, x: MatchRange, j: nat, k: nat)
    requires Closed(nodes) && |nodes| > 0 && InArena(nodes, state) && j + 1 == k <= |text| && x.node.None?
    requires forall l :: x.start <= l < x.start + x.length && 0 <= l < MaskLoop(nodes, text, state, j).printedPos ==>
               MaskLoop(nodes, text, state, j).out[l] == MaskChar
    requires MaskLoop(nodes, text, state, j).printedPos < x.start + x.length ==>
               x in Step(nodes, text[j], j, MaskLoop(nodes, text, state, j).ranges)
    ensures forall l :: x.start <= l < x.start + x.length && 0 <= l < MaskLoop(nodes, text, state, k).printedPos ==>
              MaskLoop(nodes, text, state, k).out[l] == MaskChar
    ensures MaskLoop(nodes, text, state, k).printedPos < x.start + x.length ==>
              x in MaskLoop(nodes, text, state, k).ranges
  {
    SpanMaskStep(nodes, text, j, MaskLoop(nodes, text, state, j), x);
    MaskLoopNext(nodes, text, state, j, k);
  }

  /**
   * Once an occurrence of `u` at `s` is complete, each of its characters is
   * written as `*`, or still unwritten with the span kept.
   */
  lemma {:induction false} OccurrenceMasked(nodes: seq<Node>, text: string, state: seq<MatchRange>,
                                            u: string, s: nat, k: nat)
    requires Closed(nodes) && |nodes| > 0 && DeepAlong(nodes, u) && InArena(nodes, state)
    requires Completes(nodes, u)
    requires s + |u| <= k <= |text| && text[s..s + |u|] == u
    ensures forall j :: s <= j < s + |u| && 0 <= j < MaskLoop(nodes, text, state, k).printedPos ==>
              MaskLoop(nodes, text, state, k).out[j] == MaskChar
    ensures MaskLoop(nodes, text, state, k).printedPos < s + |u| ==>
              MatchRange(s, |u|, None) in MaskLoop(nodes, text, state, k).ranges
    decreases k
  {
    var j: nat :| j + 1 == k;
    var p := MaskLoop(nodes, text, state, j);
    if k == s + |u| {
      OccurrenceCompleted(nodes, text, state, u, s, j, k);
    } else {
      OccurrenceMasked(nodes, text, state, u, s, j);
      StepKeepsSpans(nodes, text[j], j, p.ranges);
    }
    SpanLoopStep(nodes, text, state, MatchRange(s, |u|, None), j, k);
  }

  /**
   * A completed span carried in from the previous call keeps its characters
   * masked in this one: each one written is `*`, and the span stays until all
   * are written.
   */
  lemma {:induction false} SpanCarried(nodes: seq<Node>, text: string, state: seq<MatchRange>, x: MatchRange, k: nat)
    requires Closed(nodes) && |nodes| > 0 && InArena(nodes, state) && k <= |text|
    requires x in state && x.node.None?
    ensures forall j :: x.start <= j < x.start + x.length && 0 <= j < MaskLoop(nodes, text, state, k).printedPos ==>
              MaskLoop(nodes, text, state, k).out[j] == MaskChar
    ensures MaskLoop(nodes, text, state, k).printedPos < x.start + x.length ==> x in MaskLoop(nodes, text, state, k).ranges
    decreases k
  {
    if k > 0 {
      var j: nat :| j + 1 == k;
      var p := MaskLoop(nodes, text, state, j);
      SpanCarried(nodes, text, state, x, j);
      StepKeepsSpans(nodes, text[j], j, p.ranges);
      SpanMaskStep(nodes, text, j, p, x);
      MaskLoopNext(nodes, text, state, j, k);
    }
  }

  /** A range live after the last iteration is returned rebased to the unwritten rest. */
  lemma MaskFRebases(nodes: seq<Node>, text: string, state: seq<MatchRange>, k: nat)
    requires Closed(nodes) && |nodes| > 0 && InArena(nodes, state)
    requires k < |MaskLoop(nodes, text, state, |text|).ranges|
    ensures var p := MaskLoop(nodes, text, state, |text|);
            var r := MaskF(nodes, text, state);
            k < |r.state| && r.state[k] == p.ranges[k].(start := p.ranges[k].start - p.printedPos) && |r.masked| == p.printedPos
  {
  }

  /** Along the path of a word the trie has, every prefix node has the next character's edge. */
  lemma PrefixWalk(nodes: seq<Node>, w: string, m: nat)
    requires Closed(nodes) && |nodes| > 0 && Walk(nodes, RootIndex, w).Some? && m < |w|
    ensures Walk(nodes, RootIndex, w[..m]).Some?
    ensures w[m] in nodes[Walk(nodes, RootIndex, w[..m]).value].children
    ensures Walk(nodes, RootIndex, w[..m + 1]) == Some(nodes[Walk(nodes, RootIndex, w[..m]).value].children[w[m]])
  {
    assert w == w[..m] + w[m..];
    WalkAppend(nodes, RootIndex, w[..m], w[m..]);
    assert w[..m + 1] == w[..m] + [w[m]];
    WalkAppend(nodes, RootIndex, w[..m], [w[m]]);
  }

  /** Along a word the trie has, the escape-tolerant walk is the plain walk. */
  lemma {:induction false} EscWalkExact(nodes: seq<Node>, w: string, m: nat)
    requires Closed(nodes) && |nodes| > 0 && Walk(nodes, RootIndex, w).Some? && m <= |w|
    ensures EscWalk(nodes, w[..m]) == Walk(nodes, RootIndex, w[..m])
    decreases m
  {
    if m == 0 {
      assert w[..0] == [];
    } else {
      var j: nat :| j + 1 == m;
      EscWalkExact(nodes, w, j);
      EscWalkNext(nodes, w, j, m);
      PrefixWalk(nodes, w, j);
    }
  }

  /** A non-empty secret the trie accepts completes a cursor's walk. */
  lemma SecretCompletes(nodes: seq<Node>, w: string)
    requires Closed(nodes) && |nodes| > 0 && Accepts(nodes, w) && |w| > 0
    ensures Completes(nodes, w)
  {
    var j: nat :| j + 1 == |w|;
    PrefixWalk(nodes, w, 0);
    assert w[..0] == [];
    EscWalkExact(nodes, w, j);
    PrefixWalk(nodes, w, j);
    assert w[..j + 1] == w;
  }

  /** A backslash the root has no edge for leaves the escape-tolerant walk where it was. */
  lemma {:induction false} EscWalkSkipsLead(nodes: seq<Node>, v: string)
    requires Closed(nodes) && |nodes| > 0 && Backslash !in nodes[RootIndex].children
    ensures EscWalk(nodes, [Backslash] + v) == EscWalk(nodes, v)
    decreases |v|
  {
    var u := [Backslash] + v;
    if v == [] {
      assert u[..|u| - 1] == [];
    } else {
      var v' := v[..|v| - 1];
      EscWalkSkipsLead(nodes, v');
      assert u[..|u| - 1] == [Backslash] + v';
    }
  }

  /**
   * Such a backslash right before a completing `text[s..e]` that starts on a
   * root edge makes `text[s - 1..e]` complete as well.
   */
  lemma LeadCompletes(nodes: seq<Node>, text: string, s: nat, e: nat)
    requires Closed(nodes) && |nodes| > 0 && 0 < s < e <= |text| && Completes(nodes, text[s..e])
    requires text[s] in nodes[RootIndex].children
    requires text[s - 1] == Backslash && Backslash !in nodes[RootIndex].children
    ensures Completes(nodes, text[s - 1..e])
  {
    var v := text[s..e];
    var u := text[s - 1..e];
    assert u == [Backslash] + v;
    assert u[..|u| - 1] == [Backslash] + v[..|v| - 1];
    EscWalkSkipsLead(nodes, v[..|v| - 1]);
  }

  /** No character of `text` starts a secret at the root, and none is a backslash. */
  predicate Inert(nodes: seq<Node>, text: string)
    requires Closed(nodes) && |nodes| > 0
  {
    forall c :: c in text ==> c != Backslash && c !in nodes[RootIndex].children
  }

  /** Both halves of an inert text are inert. */
  lemma InertSplit(nodes: seq<Node>, a: string, b: string)
    requires Closed(nodes) && |nodes| > 0 && Inert(nodes, a + b)
    ensures Inert(nodes, a) && Inert(nodes, b)
  {
    forall c | c in a
      ensures c in a + b
    {
      var k :| 0 <= k < |a| && a[k] == c;
      assert (a + b)[k] == c;
    }
    forall c | c in b
      ensures c in a + b
    {
      var k :| 0 <= k < |b| && b[k] == c;
      assert (a + b)[|a| + k] == c;
    }
  }

  /** The cursor seeded on a character without a root edge that is no backslash dies at once. */
  lemma SeedDies(nodes: seq<Node>, c: char, i: int)
    requires Closed(nodes) && |nodes| > 0 && c !in nodes[RootIndex].children && c != Backslash
    ensures Step(nodes, c, i, []) == []
  {
    assert [] + [Seed(i)] == [Seed(i)];
    assert [Seed(i)][..0] == [];
    assert AdvanceAll(nodes, c, [Seed(i)]) == AdvanceAll(nodes, c, []) + Advance(nodes, c, Seed(i));
  }

  /** So a step on such a character from no ranges writes it unchanged and keeps nothing. */
  lemma PassthroughStep(nodes: seq<Node>, text: string, i: nat)
    requires Closed(nodes) && |nodes| > 0
    requires i < |text| && text[i] != Backslash && text[i] !in nodes[RootIndex].children
    ensures MaskStep(nodes, text, i, Progress([], i, text[..i])) == Progress([], i + 1, text[..i + 1])
  {
    var p := Progress([], i, text[..i]);
    SeedDies(nodes, text[i], i);
    MaskStepWrites(nodes, text, i, p);
    assert Emit(text, [], i, i) == [text[i]];
    assert text[..i + 1] == text[..i] + [text[i]];
  }

  /** On an inert text, every step writes its character unchanged and keeps no range. */
  lemma {:induction false} MaskLoopPassthrough(nodes: seq<Node>, text: string, k: nat)
    requires Closed(nodes) && |nodes| > 0 && Inert(nodes, text) && k <= |text|
    ensures MaskLoop(nodes, text, [], k) == Progress([], k, text[..k])
    decreases k
  {
    if k > 0 {
      var j: nat :| j + 1 == k;
      MaskLoopPassthrough(nodes, text, j);
      assert text[j] in text;
      PassthroughStep(nodes, text, j);
      MaskLoopNext(nodes, text, [], j, k);
    }
  }

  /** `Mask` from no ranges passes an inert text through whole and leaves nothing pending. */
  lemma MaskPassthrough(nodes: seq<Node>, text: string)
    requires Closed(nodes) && |nodes| > 0 && Inert(nodes, text)
    ensures MaskF(nodes, text, []) == MaskResult(text, [], [])
  {
    MaskLoopPassthrough(nodes, text, |text|);
    assert text[..|text|] == text;
  }

  /** Spans alone count as neither new nor existing cursors. */
  lemma NoCursorCounts(nodes: seq<Node>, rs: seq<MatchRange>)
    requires forall x :: x in rs ==> x.node.None?
    ensures CountNew(nodes, rs) == 0 && CountExisting(nodes, rs) == 0
  {
  }

  /** A step that leaves no cursor at all writes through `i` and keeps the ranges reaching past it. */
  lemma MaskStepAllSafe(nodes: seq<Node>, text: string, i: nat, p: Progress)
    requires Closed(nodes) && |nodes| > 0 && InArena(nodes, p.ranges)
    requires i < |text| && p.printedPos <= i && |p.out| == p.printedPos
    requires CountNew(nodes, Step(nodes, text[i], i, p.ranges)) == 0
    requires CountExisting(nodes, Step(nodes, text[i], i, p.ranges)) == 0
    ensures MaskStep(nodes, text, i, p).printedPos == i + 1
    ensures MaskStep(nodes, text, i, p).ranges == KeepActive(Step(nodes, text[i], i, p.ranges), i + 1)
  {
  }

  /** Ranges that all end by `printedPos` leave nothing active. */
  lemma {:induction false} KeepNone(rs: seq<MatchRange>, printedPos: int)
    requires forall x :: x in rs ==> x.start + x.length <= printedPos
    ensures KeepActive(rs, printedPos) == []
    decreases |rs|
  {
    if rs != [] {
      KeepNone(rs[..|rs| - 1], printedPos);
      assert rs[|rs| - 1] in rs;
    }
  }

  /**
   * A step that keeps no cursor left none after the matcher ran: a cursor at
   * a non-zero position would be kept with the write held back, and a sound
   * cursor at position 0 reaches past what is written, so it would be kept.
   */
  lemma StepLeftSpans(nodes: seq<Node>, text: string, i: nat, p: Progress)
    requires Closed(nodes) && |nodes| > 0 && InArena(nodes, p.ranges)
    requires i < |text| && p.printedPos <= i && |p.out| == p.printedPos && Sound(nodes, text, i, p.ranges)
    requires forall x :: x in MaskStep(nodes, text, i, p).ranges ==> x.node.None?
    ensures forall x :: x in Step(nodes, text[i], i, p.ranges) ==> x.node.None? && x.start + x.length <= i + 1
  {
    var rs := Step(nodes, text[i], i, p.ranges);
    StepSound(nodes, text, i, p.ranges);
    forall x | x in rs
      ensures x.node.None? && x.start + x.length <= i + 1
    {
      assert RangeSound(nodes, text, i + 1, x);
      if x.node.Some? {
        assert RangeSound(nodes, text, i + 1, x);
        if !ExistingCursor(nodes, x) {
          MaskStepWrites(nodes, text, i, p);
          assert NewCursor(nodes, x);
        }
        assert false;
      }
    }
  }

  /**
   * So a step from sound ranges that keeps no cursor has written everything
   * up to and including `i` and keeps nothing, since a sound span ends by
   * `i + 1`.
   */
  lemma StepSettles(nodes: seq<Node>, text: string, i: nat, p: Progress)
    requires Closed(nodes) && |nodes| > 0 && InArena(nodes, p.ranges)
    requires i < |text| && p.printedPos <= i && |p.out| == p.printedPos
    requires forall x :: x in Step(nodes, text[i], i, p.ranges) ==> x.node.None? && x.start + x.length <= i + 1
    ensures MaskStep(nodes, text, i, p).ranges == [] && MaskStep(nodes, text, i, p).printedPos == i + 1
  {
    var rs := Step(nodes, text[i], i, p.ranges);
    NoCursorCounts(nodes, rs);
    MaskStepAllSafe(nodes, text, i, p);
    KeepNone(rs, i + 1);
  }

  /**
   * A call of `Mask` from no ranges that ends with no cursor live has written
   * the whole text and holds nothing back.
   */
  lemma MaskSettles(nodes: seq<Node>, text: string)
    requires Closed(nodes) && |nodes| > 0 && |text| > 0
    requires forall x :: x in MaskF(nodes, text, []).state ==> x.node.None?
    ensures MaskF(nodes, text, []).state == [] && MaskF(nodes, text, []).remaining == []
    ensures |MaskF(nodes, text, []).masked| == |text|
  {
    var i := |text| - 1;
    var p := MaskLoop(nodes, text, [], i);
    var q := MaskLoop(nodes, text, [], |text|);
    MaskLoopSound(nodes, text, [], i);
    MaskLoopNext(nodes, text, [], i, |text|);
    forall x | x in q.ranges
      ensures x.node.None?
    {
      var k :| 0 <= k < |q.ranges| && q.ranges[k] == x;
      MaskFRebases(nodes, text, [], k);
      assert MaskF(nodes, text, []).state[k] in MaskF(nodes, text, []).state;
    }
    StepLeftSpans(nodes, text, i, p);
    StepSettles(nodes, text, i, p);
  }

  /** Arenas the same to the matcher count cursors alike. */
  lemma {:induction false} CountSame(a: seq<Node>, b: seq<Node>, rs: seq<MatchRange>)
    requires SameToMatcher(a, b)
    ensures CountNew(a, rs) == CountNew(b, rs) && CountExisting(a, rs) == CountExisting(b, rs)
    decreases |rs|
  {
    if rs != [] {
      CountSame(a, b, rs[..|rs| - 1]);
    }
  }

  /** Arenas the same to the matcher take the same iteration of `Mask`'s loop. */
  lemma MaskStepSame(a: seq<Node>, b: seq<Node>, text: string, i: nat, p: Progress)
    requires Closed(a) && Closed(b) && |a| > 0 && SameToMatcher(a, b) && InArena(a, p.ranges)
    requires i < |text| && p.printedPos <= i && |p.out| == p.printedPos
    ensures InArena(b, p.ranges) && MaskStep(a, text, i, p) == MaskStep(b, text, i, p)
  {
    StepSame(a, b, text[i], i, p.ranges);
    CountSame(a, b, Step(a, text[i], i, p.ranges));
  }

  /** ... and so the same loop, from the same ranges. */
  lemma {:induction false} MaskLoopSame(a: seq<Node>, b: seq<Node>, text: string, state: seq<MatchRange>, k: nat)
    requires Closed(a) && Closed(b) && |a| > 0 && SameToMatcher(a, b) && InArena(a, state) && k <= |text|
    ensures InArena(b, state) && MaskLoop(a, text, state, k) == MaskLoop(b, text, state, k)
    decreases k
  {
    if k > 0 {
      var j: nat :| j + 1 == k;
      MaskLoopSame(a, b, text, state, j);
      MaskStepSame(a, b, text, j, MaskLoop(a, text, state, j));
      MaskLoopNext(a, text, state, j, k);
      MaskLoopNext(b, text, state, j, k);
    }
  }

  /** Arenas the same to the matcher mask alike. */
  lemma MaskFSame(a: seq<Node>, b: seq<Node>, text: string, state: seq<MatchRange>)
    requires Closed(a) && Closed(b) && |a| > 0 && SameToMatcher(a, b) && InArena(a, state)
    ensures InArena(b, state) && MaskF(a, text, state) == MaskF(b, text, state)
  {
    MaskLoopSame(a, b, text, state, |text|);
  }
}
