/**
 * The per-character transition of the redaction engine.
 *
 * A match range with a node is a cursor: a candidate occurrence that began at
 * `start`, has consumed `length` characters and sits at `node` in the trie.
 * A match range without a node is a completed span of `length` characters
 * that begins at `start` and must be masked.
 */
module Matcher {
  import opened PatternTrie

  /** The escape character that never breaks an in-progress match. */
  const Backslash: char := '\\'

  datatype MatchRange = MatchRange(start: int, length: nat, node: Option<nat>)

  /** Every cursor of `rs` names a node of the arena. */
  ghost predicate InArena(nodes: seq<Node>, rs: seq<MatchRange>)
  {
    forall x :: x in rs && x.node.Some? ==> x.node.value < |nodes|
  }

  /** The fresh root cursor seeded at every character index. */
  function Seed(i: int): (r: MatchRange)
    ensures r.node == Some(RootIndex) && r.length == 0 && r.start + r.length == i
  {
    MatchRange(i, 0, Some(RootIndex))
  }

  /**
   * What one range becomes on character `c`: a span is kept as it is; a cursor
   * whose node has a child for `c` yields a span if the child ends a secret and
   * an advanced cursor if the child has children; otherwise a backslash keeps
   * the cursor on its node and any other character drops it.
   */
  function Advance(nodes: seq<Node>, c: char, r: MatchRange): (out: seq<MatchRange>)
    requires Closed(nodes) && (r.node.Some? ==> r.node.value < |nodes|)
    ensures InArena(nodes, out)
  {
    match r.node
    case None => [r]
    case Some(n) =>
      if c in nodes[n].children then
        var next := nodes[n].children[c];
        (if nodes[next].isEnd then [MatchRange(r.start, r.length + 1, None)] else [])
        + (if |nodes[next].children| > 0 then [MatchRange(r.start, r.length + 1, Some(next))] else [])
      else if c == Backslash then [MatchRange(r.start, r.length + 1, Some(n))]
      else []
  }

  /** The ranges of `rs` advanced one after the other, results concatenated in order. */
  function AdvanceAll(nodes: seq<Node>, c: char, rs: seq<MatchRange>): (out: seq<MatchRange>)
    requires Closed(nodes) && InArena(nodes, rs)
    ensures InArena(nodes, out)
  {
    if rs == [] then []
    else AdvanceAll(nodes, c, rs[..|rs| - 1]) + Advance(nodes, c, rs[|rs| - 1])
  }

  /** One step on character `c` at index `i`: seed a root cursor after the state, then advance all. */
  function Step(nodes: seq<Node>, c: char, i: int, state: seq<MatchRange>): (out: seq<MatchRange>)
    requires Closed(nodes) && |nodes| > 0 && InArena(nodes, state)
    ensures InArena(nodes, out)
  {
    AdvanceAll(nodes, c, state + [Seed(i)])
  }

  /** `r` is a completed span that covers index `i`. */
  predicate SpanCovers(r: MatchRange, i: int)
  {
    r.node.None? && r.start <= i < r.start + r.length
  }

  /** Some completed span of `rs` covers index `i` (cursors are ignored). */
  function RangesContainAt(rs: seq<MatchRange>, i: int): (b: bool)
    ensures b <==> exists k :: 0 <= k < |rs| && SpanCovers(rs[k], i)
  {
    if rs == [] then false
    else SpanCovers(rs[0], i) || RangesContainAt(rs[1..], i)
  }

  // ---------------------------------------------------------------------------
  // Escape-tolerant walks: what a cursor has matched

  /** One character of a cursor's walk: take the child, or stay put on a backslash. */
  function EscStep(nodes: seq<Node>, n: nat, c: char): (r: Option<nat>)
    requires Closed(nodes) && n < |nodes|
    ensures r.Some? ==> r.value < |nodes|
  {
    if c in nodes[n].children then Some(nodes[n].children[c])
    else if c == Backslash then Some(n)
    else None
  }

  /** The node a cursor reaches from the root after consuming `u`, if it survives. */
  function EscWalk(nodes: seq<Node>, u: string): (r: Option<nat>)
    requires Closed(nodes) && |nodes| > 0
    ensures r.Some? ==> r.value < |nodes|
    decreases |u|
  {
    if u == [] then Some(RootIndex)
    else match EscWalk(nodes, u[..|u| - 1])
      case None => None
      case Some(m) => EscStep(nodes, m, u[|u| - 1])
  }

  /** `u` is a non-empty occurrence of a secret in which some backslashes were skipped. */
  predicate EscMatch(nodes: seq<Node>, u: string)
    requires Closed(nodes) && |nodes| > 0
  {
    var r := EscWalk(nodes, u);
    |u| > 0 && r.Some? && nodes[r.value].isEnd
  }

  /** `w` is `u` with some of its backslashes deleted. */
  ghost predicate DropsBackslashes(u: string, w: string)
    decreases |u|
  {
    if u == [] then w == []
    else
      (w != [] && w[|w| - 1] == u[|u| - 1] && DropsBackslashes(u[..|u| - 1], w[..|w| - 1]))
      || (u[|u| - 1] == Backslash && DropsBackslashes(u[..|u| - 1], w))
  }

  /** Deleting backslashes never lengthens a string, and is the identity on strings without one. */
  lemma {:induction false} DropsBackslashesShape(u: string, w: string)
    requires DropsBackslashes(u, w)
    ensures |w| <= |u|
    ensures Backslash !in u ==> w == u
    decreases |u|
  {
    if u != [] {
      var u' := u[..|u| - 1];
      assert Backslash !in u ==> Backslash !in u';
      if w != [] && w[|w| - 1] == u[|u| - 1] && DropsBackslashes(u', w[..|w| - 1]) {
        DropsBackslashesShape(u', w[..|w| - 1]);
        assert Backslash !in u ==> w == w[..|w| - 1] + [w[|w| - 1]];
      } else {
        DropsBackslashesShape(u', w);
      }
    }
  }

  /** In a trie, a cursor's node spells what it consumed with the skipped backslashes deleted. */
  lemma {:induction false} EscWalkLabel(nodes: seq<Node>, labels: seq<string>, u: string)
    requires Labelled(nodes, labels) && EscWalk(nodes, u).Some?
    ensures DropsBackslashes(u, labels[EscWalk(nodes, u).value])
    decreases |u|
  {
    if u != [] {
      var u' := u[..|u| - 1];
      var c := u[|u| - 1];
      EscWalkLabel(nodes, labels, u');
      var m := EscWalk(nodes, u').value;
      if c in nodes[m].children {
        var w := labels[nodes[m].children[c]];
        assert w == labels[m] + [c];
        assert w[..|w| - 1] == labels[m];
      }
    }
  }

  /** A masked occurrence is, up to skipped backslashes, a secret the trie accepts. */
  lemma EscMatchIsSecret(nodes: seq<Node>, u: string)
    requires IsTrie(nodes) && Closed(nodes) && |nodes| > 0 && EscMatch(nodes, u)
    ensures exists w :: Accepts(nodes, w) && DropsBackslashes(u, w)
  {
    var labels :| Labelled(nodes, labels);
    EscWalkLabel(nodes, labels, u);
    var m := EscWalk(nodes, u).value;
    assert Accepts(nodes, labels[m]);
  }

  // ---------------------------------------------------------------------------
  // Lemmas about a step

  /** Whatever the advanced list holds comes from advancing one of the ranges. */
  lemma {:induction false} AdvanceAllFrom(nodes: seq<Node>, c: char, rs: seq<MatchRange>, x: MatchRange)
    requires Closed(nodes) && InArena(nodes, rs) && x in AdvanceAll(nodes, c, rs)
    ensures exists k :: 0 <= k < |rs| && x in Advance(nodes, c, rs[k])
    decreases |rs|
  {
    var init := rs[..|rs| - 1];
    if x in Advance(nodes, c, rs[|rs| - 1]) {
    } else {
      AdvanceAllFrom(nodes, c, init, x);
      var k :| 0 <= k < |init| && x in Advance(nodes, c, init[k]);
      assert init[k] == rs[k];
    }
  }

  /** What any range of the list advances to is in the advanced list. */
  lemma {:induction false} AdvanceAllTo(nodes: seq<Node>, c: char, rs: seq<MatchRange>, k: nat, x: MatchRange)
    requires Closed(nodes) && InArena(nodes, rs) && k < |rs| && x in Advance(nodes, c, rs[k])
    ensures x in AdvanceAll(nodes, c, rs)
    decreases |rs|
  {
    var init := rs[..|rs| - 1];
    if k < |init| {
      assert init[k] == rs[k];
      AdvanceAllTo(nodes, c, init, k, x);
    }
  }

  /** The advanced list holds exactly what the single ranges advance to. */
  lemma AdvanceAllMember(nodes: seq<Node>, c: char, rs: seq<MatchRange>, x: MatchRange)
    requires Closed(nodes) && InArena(nodes, rs)
    ensures x in AdvanceAll(nodes, c, rs) <==> exists k :: 0 <= k < |rs| && x in Advance(nodes, c, rs[k])
  {
    if x in AdvanceAll(nodes, c, rs) {
      AdvanceAllFrom(nodes, c, rs, x);
    }
    if exists k :: 0 <= k < |rs| && x in Advance(nodes, c, rs[k]) {
      var k :| 0 <= k < |rs| && x in Advance(nodes, c, rs[k]);
      AdvanceAllTo(nodes, c, rs, k, x);
    }
  }

  /**
   * The step's result is the union of what the carried ranges and the freshly
   * seeded root cursor advance to.
   */
  lemma StepMember(nodes: seq<Node>, c: char, i: int, state: seq<MatchRange>, x: MatchRange)
    requires Closed(nodes) && |nodes| > 0 && InArena(nodes, state)
    ensures x in Step(nodes, c, i, state) <==>
            (exists k :: 0 <= k < |state| && x in Advance(nodes, c, state[k])) || x in Advance(nodes, c, Seed(i))
  {
    var rs := state + [Seed(i)];
    AdvanceAllMember(nodes, c, rs, x);
    if exists k :: 0 <= k < |rs| && x in Advance(nodes, c, rs[k]) {
      var k :| 0 <= k < |rs| && x in Advance(nodes, c, rs[k]);
      if k < |state| {
        assert rs[k] == state[k];
      }
    }
    if exists k :: 0 <= k < |state| && x in Advance(nodes, c, state[k]) {
      var k :| 0 <= k < |state| && x in Advance(nodes, c, state[k]);
      assert rs[k] == state[k];
    }
    assert rs[|state|] == Seed(i);
  }

  /** Completed spans are carried through a step unchanged. */
  lemma StepKeepsSpans(nodes: seq<Node>, c: char, i: int, state: seq<MatchRange>)
    requires Closed(nodes) && |nodes| > 0 && InArena(nodes, state)
    ensures forall x :: x in state && x.node.None? ==> x in Step(nodes, c, i, state)
  {
    forall x | x in state && x.node.None?
      ensures x in Step(nodes, c, i, state)
    {
      var k :| 0 <= k < |state| && state[k] == x;
      StepMember(nodes, c, i, state, x);
    }
  }

  /** Depth facts of a trie used by the step lemmas. */
  lemma TriePositions(nodes: seq<Node>)
    requires IsTrie(nodes)
    ensures |nodes| > 0 && Closed(nodes) && nodes[RootIndex].position == 0
    ensures forall n :: 0 <= n < |nodes| ==> nodes[n].position >= 0
  {
    var labels :| Labelled(nodes, labels);
  }

  /** Every cursor sits no deeper than the number of characters it consumed. */
  ghost predicate DepthBounded(nodes: seq<Node>, rs: seq<MatchRange>)
  {
    forall x :: x in rs && x.node.Some? && x.node.value < |nodes| ==>
      0 <= nodes[x.node.value].position <= x.length
  }

  /** Advancing one range whose depth is within its length keeps that bound for every range it yields. */
  lemma AdvanceDepthBounded(nodes: seq<Node>, c: char, r: MatchRange)
    requires IsTrie(nodes) && Closed(nodes) && InArena(nodes, [r]) && DepthBounded(nodes, [r])
    ensures DepthBounded(nodes, Advance(nodes, c, r))
  {
    TriePositions(nodes);
    assert r in [r];
    if r.node.Some? && c in nodes[r.node.value].children {
      ChildPosition(nodes, r.node.value, c);
    }
  }

  /** A step keeps every cursor's depth within its length. */
  lemma StepDepthBounded(nodes: seq<Node>, c: char, i: int, state: seq<MatchRange>)
    requires IsTrie(nodes) && |nodes| > 0 && Closed(nodes)
    requires InArena(nodes, state) && DepthBounded(nodes, state)
    ensures DepthBounded(nodes, Step(nodes, c, i, state))
  {
    TriePositions(nodes);
    forall x | x in Step(nodes, c, i, state) && x.node.Some? && x.node.value < |nodes|
      ensures 0 <= nodes[x.node.value].position <= x.length
    {
      StepMember(nodes, c, i, state, x);
      var r: MatchRange;
      if x in Advance(nodes, c, Seed(i)) {
        r := Seed(i);
      } else {
        var k :| 0 <= k < |state| && x in Advance(nodes, c, state[k]);
        r := state[k];
      }
      AdvanceDepthBounded(nodes, c, r);
    }
  }

  /**
   * A cursor that still sits on the root after a step was kept by the
   * backslash rule: the character was a backslash the root has no edge for.
   */
  lemma StepRootCursors(nodes: seq<Node>, c: char, i: int, state: seq<MatchRange>)
    requires IsTrie(nodes) && |nodes| > 0 && Closed(nodes) && InArena(nodes, state)
    ensures forall x :: x in Step(nodes, c, i, state) && x.node == Some(RootIndex) ==>
              c == Backslash && c !in nodes[RootIndex].children
  {
    forall x | x in Step(nodes, c, i, state) && x.node == Some(RootIndex)
      ensures c == Backslash && c !in nodes[RootIndex].children
    {
      StepMember(nodes, c, i, state, x);
      var r: MatchRange;
      if x in Advance(nodes, c, Seed(i)) {
        r := Seed(i);
      } else {
        var k :| 0 <= k < |state| && x in Advance(nodes, c, state[k]);
        r := state[k];
      }
      var n := r.node.value;
      if c in nodes[n].children {
        ChildPosition(nodes, n, c);
      }
    }
  }

  /**
   * One range after consuming `text[..k]`: it began inside the text; a cursor
   * has consumed exactly up to `k` and sits where its escape-tolerant walk
   * leads; a span is an occurrence of a secret.
   */
  ghost predicate RangeSound(nodes: seq<Node>, text: string, k: int, x: MatchRange)
    requires Closed(nodes) && |nodes| > 0
  {
    0 <= x.start && x.start + x.length <= k <= |text| &&
    (x.node.Some? ==> x.start + x.length == k && EscWalk(nodes, text[x.start..k]) == x.node) &&
    (x.node.None? ==> EscMatch(nodes, text[x.start..x.start + x.length]))
  }

  /** Every range is sound after consuming `text[..k]`. */
  ghost predicate Sound(nodes: seq<Node>, text: string, k: int, rs: seq<MatchRange>)
    requires Closed(nodes) && |nodes| > 0
  {
    0 <= k <= |text| && forall x :: x in rs ==> RangeSound(nodes, text, k, x)
  }

  /** The seed at any index up to the end of the text is a sound cursor: the root is where the empty walk ends. */
  lemma SeedSound(nodes: seq<Node>, text: string, i: nat)
    requires Closed(nodes) && |nodes| > 0 && i <= |text|
    ensures RangeSound(nodes, text, i, Seed(i))
  {
    assert text[i..i] == [];
  }

  /** Advancing a sound range on `text[i]` yields sound ranges. */
  lemma AdvanceSound(nodes: seq<Node>, text: string, i: nat, r: MatchRange, x: MatchRange)
    requires Closed(nodes) && |nodes| > 0 && (r.node.Some? ==> r.node.value < |nodes|)
    requires i < |text| && RangeSound(nodes, text, i, r) && x in Advance(nodes, text[i], r)
    ensures RangeSound(nodes, text, i + 1, x)
  {
    if r.node.Some? {
      var u := text[r.start..i + 1];
      assert u[..|u| - 1] == text[r.start..i] && u[|u| - 1] == text[i];
    }
  }

  /** A step on `text[i]` keeps the ranges sound. */
  lemma StepSound(nodes: seq<Node>, text: string, i: nat, state: seq<MatchRange>)
    requires Closed(nodes) && |nodes| > 0 && InArena(nodes, state)
    requires i < |text| && Sound(nodes, text, i, state)
    ensures Sound(nodes, text, i + 1, Step(nodes, text[i], i, state))
  {
    var c := text[i];
    forall x | x in Step(nodes, c, i, state)
      ensures RangeSound(nodes, text, i + 1, x)
    {
      StepMember(nodes, c, i, state, x);
      if x in Advance(nodes, c, Seed(i)) {
        SeedSound(nodes, text, i);
        AdvanceSound(nodes, text, i, Seed(i), x);
      } else {
        var k :| 0 <= k < |state| && x in Advance(nodes, c, state[k]);
        AdvanceSound(nodes, text, i, state[k], x);
      }
    }
  }

  /**
   * In a trie a sound cursor sits no deeper than the characters it consumed,
   * and exactly that deep when none of them was a skipped backslash.
   */
  lemma SoundCursorDepth(nodes: seq<Node>, text: string, k: int, x: MatchRange)
    requires IsTrie(nodes) && Closed(nodes) && |nodes| > 0
    requires RangeSound(nodes, text, k, x) && x.node.Some?
    ensures nodes[x.node.value].position <= x.length
    ensures Backslash !in text[x.start..k] ==> nodes[x.node.value].position == x.length
  {
    var labels :| Labelled(nodes, labels);
    var u := text[x.start..k];
    EscWalkLabel(nodes, labels, u);
    DropsBackslashesShape(u, labels[x.node.value]);
  }

  // ---------------------------------------------------------------------------
  // What the matcher reads of the trie

  /**
   * `a` and `b` look the same to the matcher: the same edges and positions
   * node by node, and the same end flags on every node an edge leads to
   * (the root's own flag is never read).
   */
  ghost predicate SameToMatcher(a: seq<Node>, b: seq<Node>)
  {
    |a| == |b| &&
    (forall n :: 0 <= n < |a| ==> a[n].children == b[n].children && a[n].position == b[n].position) &&
    (forall n, c :: 0 <= n < |a| && c in a[n].children && a[n].children[c] < |a| ==>
       a[a[n].children[c]].isEnd == b[a[n].children[c]].isEnd)
  }

  /** Arenas the same to the matcher advance a cursor alike. */
  lemma AdvanceSame(a: seq<Node>, b: seq<Node>, c: char, r: MatchRange)
    requires Closed(a) && Closed(b) && SameToMatcher(a, b) && (r.node.Some? ==> r.node.value < |a|)
    ensures Advance(a, c, r) == Advance(b, c, r)
  {
    if r.node.Some? && c in a[r.node.value].children {
      var next := a[r.node.value].children[c];
      assert a[next].isEnd == b[next].isEnd;
      assert a[next].children == b[next].children;
    }
  }

  /** ... and step alike. */
  lemma {:induction false} AdvanceAllSame(a: seq<Node>, b: seq<Node>, c: char, rs: seq<MatchRange>)
    requires Closed(a) && Closed(b) && SameToMatcher(a, b) && InArena(a, rs)
    ensures InArena(b, rs) && AdvanceAll(a, c, rs) == AdvanceAll(b, c, rs)
    decreases |rs|
  {
    if rs != [] {
      var init := rs[..|rs| - 1];
      assert forall x :: x in init ==> x in rs;
      AdvanceAllSame(a, b, c, init);
      assert rs[|rs| - 1] in rs;
      AdvanceSame(a, b, c, rs[|rs| - 1]);
    }
  }

  /** Arenas the same to the matcher take the same step. */
  lemma StepSame(a: seq<Node>, b: seq<Node>, c: char, i: int, rs: seq<MatchRange>)
    requires Closed(a) && Closed(b) && |a| > 0 && SameToMatcher(a, b) && InArena(a, rs)
    ensures InArena(b, rs) && Step(a, c, i, rs) == Step(b, c, i, rs)
  {
    AdvanceAllSame(a, b, c, rs + [Seed(i)]);
  }
}
