/**
 * A redaction session: the chunks of a stream are fed to `Mask` one after
 * the other (each call gets the unresolved rest of the previous one with the
 * new chunk appended, and the carried ranges), and the stream ends with the
 * flush `PrintRemaining`.
 */
module Session {
  import opened PatternTrie
  import opened Matcher
  import opened Emitter

  /** The chunks joined into one string. */
  function Concat(chunks: seq<string>): string
  {
    if chunks == [] then [] else Concat(chunks[..|chunks| - 1]) + chunks[|chunks| - 1]
  }

  /** Resuming at the rest of `prefix` after `n` written characters continues `prefix + chunk` at `n`. */
  lemma ResumeAligned(prefix: string, n: nat, chunk: string)
    requires n <= |prefix|
    ensures prefix[n..] + chunk == (prefix + chunk)[n..]
  {
  }

  /**
   * What has been written, what is pending and the carried ranges after the
   * chunks have been fed to `Mask` in order, starting from no ranges.
   */
  function Feed(nodes: seq<Node>, chunks: seq<string>): (m: MaskResult)
    requires Closed(nodes) && |nodes| > 0
    ensures InArena(nodes, m.state)
    ensures |m.masked| + |m.remaining| == |Concat(chunks)| && m.remaining == Concat(chunks)[|m.masked|..]
    ensures forall j {:trigger m.masked[j]} :: 0 <= j < |m.masked| ==>
              m.masked[j] == MaskChar || m.masked[j] == Concat(chunks)[j]
  {
    if chunks == [] then MaskResult([], [], [])
    else
      var prev := Feed(nodes, chunks[..|chunks| - 1]);
      var text := prev.remaining + chunks[|chunks| - 1];
      ResumeAligned(Concat(chunks[..|chunks| - 1]), |prev.masked|, chunks[|chunks| - 1]);
      assert text == Concat(chunks)[|prev.masked|..];
      var r := MaskF(nodes, text, prev.state);
      var all := Concat(chunks);
      var out := prev.masked + r.masked;
      assert forall j {:trigger out[j]} :: 0 <= j < |out| ==> out[j] == MaskChar || out[j] == all[j] by {
        forall j | 0 <= j < |out| ensures out[j] == MaskChar || out[j] == all[j] {
          if j < |prev.masked| {
            assert out[j] == prev.masked[j] && all[j] == Concat(chunks[..|chunks| - 1])[j];
          } else {
            assert out[j] == r.masked[j - |prev.masked|] && text[j - |prev.masked|] == all[j];
          }
        }
      }
      MaskResult(out, r.remaining, r.state)
  }

  /** Feeding one more chunk masks the pending rest with the chunk appended, from the carried ranges. */
  lemma FeedNext(nodes: seq<Node>, chunks: seq<string>, chunk: string)
    requires Closed(nodes) && |nodes| > 0
    ensures var prev := Feed(nodes, chunks);
            var r := MaskF(nodes, prev.remaining + chunk, prev.state);
            Feed(nodes, chunks + [chunk]) == MaskResult(prev.masked + r.masked, r.remaining, r.state)
  {
    var all := chunks + [chunk];
    assert all[..|all| - 1] == chunks && all[|all| - 1] == chunk;
  }

  /** The whole redacted stream: everything `Feed` wrote, then the flush of what is pending. */
  function Redacted(nodes: seq<Node>, chunks: seq<string>): (r: string)
    requires Closed(nodes) && |nodes| > 0
    ensures |r| == |Concat(chunks)|
    ensures forall j :: 0 <= j < |r| ==> r[j] == MaskChar || r[j] == Concat(chunks)[j]
  {
    var m := Feed(nodes, chunks);
    m.masked + PrintRemaining(m.remaining, m.state)
  }

  /**
   * The driver of the chunked tests: append each chunk to the pending rest,
   * mask, collect the output, and flush at the end.
   */
  method RedactChunks(t: Trie, chunks: seq<string>) returns (result: string)
    requires t.Valid()
    ensures result == Redacted(t.nodes, chunks)
  {
    TriePositions(t.nodes);
    var state: seq<MatchRange> := [];
    var remaining := "";
    result := "";
    for k := 0 to |chunks|
      invariant Feed(t.nodes, chunks[..k]) == MaskResult(result, remaining, state)
    {
      assert chunks[..k + 1][..k] == chunks[..k];
      remaining := remaining + chunks[k];
      var masked;
      masked, remaining, state := Mask(t.nodes, remaining, state);
      result := result + masked;
    }
    assert chunks[..|chunks|] == chunks;
    var flushed := PrintRemaining(remaining, state);
    result := result + flushed;
  }

  /** A stream of one chunk is fed by one call of `Mask` from no ranges. */
  lemma OneChunkFed(nodes: seq<Node>, text: string)
    requires Closed(nodes) && |nodes| > 0
    ensures Feed(nodes, [text]) == MaskF(nodes, text, [])
  {
    var chunks := [text];
    assert chunks[..|chunks| - 1] == [] && chunks[|chunks| - 1] == text;
    var prev := Feed(nodes, []);
    assert prev == MaskResult([], [], []);
    assert prev.remaining + text == text;
  }

  /** A stream of one chunk is one call of `Mask` from no ranges, then the flush. */
  lemma OneChunk(nodes: seq<Node>, text: string)
    requires Closed(nodes) && |nodes| > 0
    ensures Feed(nodes, [text]) == MaskF(nodes, text, [])
    ensures Redacted(nodes, [text]) ==
              MaskF(nodes, text, []).masked + PrintRemaining(MaskF(nodes, text, []).remaining, MaskF(nodes, text, []).state)
  {
    OneChunkFed(nodes, text);
  }

  /**
   * What an occurrence of `u` at `s` in the stream guarantees once a prefix
   * of `consumed` characters has been fed with result `m`: every character of
   * it already written is `*`; once it has been read whole, its unwritten
   * part is held by its completed span among the carried ranges (rebased to
   * the pending rest); until then nothing from `s` on has been written, and
   * once it has been started its cursor is among the carried ranges.
   */
  ghost predicate Covering(m: MaskResult, consumed: nat, u: string, s: nat)
  {
    (forall j :: s <= j < s + |u| && j < |m.masked| ==> m.masked[j] == MaskChar) &&
    (s + |u| <= consumed && |m.masked| < s + |u| ==> HasRange(m.state, MatchRange(s - |m.masked|, |u|, None))) &&
    (consumed < s + |u| ==> |m.masked| <= s) &&
    (s < consumed < s + |u| ==> |m.state| > 0)
  }

  /** `x` is one of the ranges `rs`, at a known index. */
  ghost predicate HasRange(rs: seq<MatchRange>, x: MatchRange)
  {
    exists k :: 0 <= k < |rs| && rs[k] == x
  }

  /**
   * After a call of `Mask` in which the completed span `x` was carried in or
   * emitted, each of its characters the call wrote is `*`, and its unwritten
   * part is held by the span rebased among the returned ranges.
   */
  ghost predicate SpanHeld(nodes: seq<Node>, t: string, st: seq<MatchRange>, x: MatchRange)
    requires Closed(nodes) && |nodes| > 0 && InArena(nodes, st)
  {
    var r := MaskF(nodes, t, st);
    (forall l :: x.start <= l < x.start + x.length && 0 <= l < |r.masked| ==> r.masked[l] == MaskChar) &&
    (|r.masked| < x.start + x.length ==> HasRange(r.state, MatchRange(x.start - |r.masked|, x.length, x.node)))
  }

  /** A completed span carried into a call is held through it. */
  lemma CarriedHeld(nodes: seq<Node>, t: string, st: seq<MatchRange>, x: MatchRange)
    requires Closed(nodes) && |nodes| > 0 && InArena(nodes, st) && x in st && x.node.None?
    ensures SpanHeld(nodes, t, st, x)
  {
    var r := MaskF(nodes, t, st);
    var p := MaskLoop(nodes, t, st, |t|);
    SpanCarried(nodes, t, st, x, |t|);
    assert r.masked == p.out;
    if |r.masked| < x.start + x.length {
      var k :| 0 <= k < |p.ranges| && p.ranges[k] == x;
      MaskFRebases(nodes, t, st, k);
    }
  }

  /** The span of an occurrence of `u` at `s` in a call's text is held through the call. */
  lemma FoundHeld(nodes: seq<Node>, t: string, st: seq<MatchRange>, u: string, s: nat)
    requires Closed(nodes) && |nodes| > 0 && InArena(nodes, st) && Completes(nodes, u) && DeepAlong(nodes, u)
    requires s + |u| <= |t| && t[s..s + |u|] == u
    ensures SpanHeld(nodes, t, st, MatchRange(s, |u|, None))
  {
    var r := MaskF(nodes, t, st);
    var p := MaskLoop(nodes, t, st, |t|);
    OccurrenceMasked(nodes, t, st, u, s, |t|);
    assert r.masked == p.out;
    if |r.masked| < s + |u| {
      var k :| 0 <= k < |p.ranges| && p.ranges[k] == MatchRange(s, |u|, None);
      MaskFRebases(nodes, t, st, k);
    }
  }

  /**
   * One call of `Mask` keeps an occurrence of `u` covered. The occurrence
   * lies at `sl` relative to the call's text (negative when part of it was
   * written in earlier calls, in which case its span is carried in), and
   * the text agrees with `u` wherever they overlap.
   */
  lemma MaskCovers(nodes: seq<Node>, t: string, st: seq<MatchRange>, u: string, sl: int)
    requires Closed(nodes) && |nodes| > 0 && InArena(nodes, st) && Completes(nodes, u) && DeepAlong(nodes, u)
    requires forall l :: 0 <= l < |t| && sl <= l < sl + |u| ==> t[l] == u[l - sl]
    requires sl < 0 ==> sl + |u| <= |t|
    requires sl < 0 && 0 < sl + |u| ==> HasRange(st, MatchRange(sl, |u|, None))
    ensures var r := MaskF(nodes, t, st);
            (forall l :: sl <= l < sl + |u| && 0 <= l < |r.masked| ==> r.masked[l] == MaskChar) &&
            (sl + |u| <= |t| && |r.masked| < sl + |u| ==> HasRange(r.state, MatchRange(sl - |r.masked|, |u|, None))) &&
            (|t| < sl + |u| ==> |r.masked| <= sl) &&
            (sl < |t| < sl + |u| ==> |r.state| > 0)
  {
    if sl < 0 {
      if 0 < sl + |u| {
        var k :| 0 <= k < |st| && st[k] == MatchRange(sl, |u|, None);
        CarriedHeld(nodes, t, st, st[k]);
      }
    } else {
      var s: nat := sl;
      if s + |u| <= |t| {
        assert t[s..s + |u|] == u;
        FoundHeld(nodes, t, st, u, s);
      } else if s < |t| {
        var m: nat := |t| - s;
        assert t[s..|t|] == u[..|t| - s];
        OccurrencePending(nodes, t, st, u, s, |t|, |t|, m);
        var p := MaskLoop(nodes, t, st, |t|);
        var k :| 0 <= k < |p.ranges| && p.ranges[k] == Follower(nodes, u, s, m);
        MaskFRebases(nodes, t, st, k);
      }
    }
  }

  /**
   * The text of the next call (the rest of `done` after `w` written
   * characters, then the chunk) agrees with the occurrence of `u` at `s` in
   * `all` wherever they overlap, at `s - w` relative to the call.
   */
  lemma ResumedAgrees(done: string, w: nat, chunk: string, all: string, u: string, s: nat)
    requires w <= |done| && |done + chunk| <= |all| && all[..|done + chunk|] == done + chunk
    requires s + |u| <= |all| && all[s..s + |u|] == u
    ensures var t := done[w..] + chunk;
            forall l :: 0 <= l < |t| && s - w <= l < s - w + |u| ==> t[l] == u[l - (s - w)]
  {
    var t := done[w..] + chunk;
    ResumeAligned(done, w, chunk);
    forall l | 0 <= l < |t| && s - w <= l < s - w + |u|
      ensures t[l] == u[l - (s - w)]
    {
      assert t[l] == (done + chunk)[w + l] == all[w + l];
      assert all[s..s + |u|][l - (s - w)] == all[w + l];
    }
  }

  /**
   * Feeding one more chunk keeps an occurrence of `u` in the stream `all`
   * covered: `prev` is the result for the consumed prefix `done`, and
   * `done + chunk` is a prefix of `all`.
   */
  lemma ChunkCovers(nodes: seq<Node>, prev: MaskResult, done: string, chunk: string, all: string, u: string, s: nat)
    requires Closed(nodes) && |nodes| > 0 && Completes(nodes, u) && DeepAlong(nodes, u) && InArena(nodes, prev.state)
    requires |prev.masked| <= |done| && prev.remaining == done[|prev.masked|..]
    requires |done + chunk| <= |all| && all[..|done + chunk|] == done + chunk
    requires s + |u| <= |all| && all[s..s + |u|] == u
    requires Covering(prev, |done|, u, s)
    ensures var r := MaskF(nodes, prev.remaining + chunk, prev.state);
            Covering(MaskResult(prev.masked + r.masked, r.remaining, r.state), |done| + |chunk|, u, s)
  {
    var w := |prev.masked|;
    var t := prev.remaining + chunk;
    var sl := s - w;
    ResumedAgrees(done, w, chunk, all, u, s);
    MaskCovers(nodes, t, prev.state, u, sl);
    var r := MaskF(nodes, t, prev.state);
    var out := prev.masked + r.masked;
    forall j | s <= j < s + |u| && j < |out|
      ensures out[j] == MaskChar
    {
      if j >= w {
        assert out[j] == r.masked[j - w];
      }
    }
  }

  /**
   * Feeding the chunks keeps every occurrence of `u` in the stream `all`
   * (of which the chunks are a prefix) covered.
   */
  lemma {:induction false} FeedCovers(nodes: seq<Node>, chunks: seq<string>, all: string, u: string, s: nat)
    requires Closed(nodes) && |nodes| > 0 && Completes(nodes, u) && DeepAlong(nodes, u)
    requires |Concat(chunks)| <= |all| && all[..|Concat(chunks)|] == Concat(chunks)
    requires s + |u| <= |all| && all[s..s + |u|] == u
    ensures Covering(Feed(nodes, chunks), |Concat(chunks)|, u, s)
    decreases |chunks|
  {
    if chunks != [] {
      var init := chunks[..|chunks| - 1];
      var chunk := chunks[|chunks| - 1];
      var done := Concat(init);
      assert Concat(chunks) == done + chunk;
      assert all[..|done|] == done by {
        assert all[..|done|] == Concat(chunks)[..|done|];
      }
      FeedCovers(nodes, init, all, u, s);
      var prev := Feed(nodes, init);
      ChunkCovers(nodes, prev, done, chunk, all, u, s);
      var r := MaskF(nodes, prev.remaining + chunk, prev.state);
      assert Feed(nodes, chunks) == MaskResult(prev.masked + r.masked, r.remaining, r.state);
    }
  }

  /**
   * However the stream is split into chunks, every character that a
   * cursor reads on its way to a completed span comes out as `*`: each is
   * written masked by some call of `Mask`, or is still pending at the end
   * with the span carried, so that the flush masks it.
   */
  lemma OccurrenceRedacted(nodes: seq<Node>, chunks: seq<string>, s: nat, e: nat)
    requires IsTrie(nodes) && Closed(nodes) && |nodes| > 0
    requires s < e <= |Concat(chunks)| && Completes(nodes, Concat(chunks)[s..e])
    ensures forall j :: s <= j < e ==> Redacted(nodes, chunks)[j] == MaskChar
  {
    var all := Concat(chunks);
    var u := all[s..e];
    TrieDeepAlong(nodes, u);
    FeedCovers(nodes, chunks, all, u, s);
    var m := Feed(nodes, chunks);
    FlushCovers(m, |all|, u, s);
  }

  /** At the end of the stream, a covered occurrence read whole is `*` throughout once pending text is flushed. */
  lemma FlushCovers(m: MaskResult, consumed: nat, u: string, s: nat)
    requires Covering(m, consumed, u, s) && s + |u| <= consumed && |m.masked| + |m.remaining| == consumed
    ensures forall j :: s <= j < s + |u| ==> (m.masked + PrintRemaining(m.remaining, m.state))[j] == MaskChar
  {
    var flushed := PrintRemaining(m.remaining, m.state);
    forall j | s <= j < s + |u|
      ensures (m.masked + flushed)[j] == MaskChar
    {
      if j >= |m.masked| {
        var k :| 0 <= k < |m.state| && m.state[k] == MatchRange(s - |m.masked|, |u|, None);
        assert flushed[j - |m.masked|] == MaskChar;
      }
    }
  }

  /** At the end of the stream, a started occurrence still pending is `*` from its start on once flushed. */
  lemma FlushPending(m: MaskResult, consumed: nat, s: nat)
    requires |m.masked| <= s && |m.state| > 0 && |m.masked| + |m.remaining| == consumed
    ensures forall j :: s <= j < consumed ==> (m.masked + PrintRemaining(m.remaining, m.state))[j] == MaskChar
  {
    var flushed := PrintRemaining(m.remaining, m.state);
    forall j | s <= j < consumed
      ensures (m.masked + flushed)[j] == MaskChar
    {
      assert flushed[j - |m.masked|] == MaskChar;
    }
  }

  /**
   * However the stream is split into chunks, a stream that ends inside an
   * occurrence (it holds the first characters of a completing walk `u`
   * from `s` on) comes out as `*` from `s` to the end: the cursor is still
   * carried, nothing from `s` on was written, and the flush masks the rest.
   */
  lemma PendingRedacted(nodes: seq<Node>, chunks: seq<string>, u: string, s: nat)
    requires IsTrie(nodes) && Closed(nodes) && |nodes| > 0 && Completes(nodes, u)
    requires s < |Concat(chunks)| < s + |u| && Concat(chunks)[s..] == u[..|Concat(chunks)| - s]
    ensures forall j :: s <= j < |Concat(chunks)| ==> Redacted(nodes, chunks)[j] == MaskChar
  {
    var done := Concat(chunks);
    var all := done + u[|done| - s..];
    assert all[..|done|] == done;
    assert all[s..s + |u|] == u by {
      assert all[s..s + |u|] == done[s..] + u[|done| - s..];
      assert u == u[..|done| - s] + u[|done| - s..];
    }
    TrieDeepAlong(nodes, u);
    FeedCovers(nodes, chunks, all, u, s);
    FlushPending(Feed(nodes, chunks), |done|, s);
  }

  /**
   * However the stream is split into chunks, a stream that ends partway
   * into a secret comes out as `*` from where the secret starts.
   */
  lemma SecretPrefixMasked(nodes: seq<Node>, chunks: seq<string>, w: string, s: nat)
    requires IsTrie(nodes) && Accepts(nodes, w)
    requires s < |Concat(chunks)| < s + |w| && Concat(chunks)[s..] == w[..|Concat(chunks)| - s]
    ensures forall j :: s <= j < |Concat(chunks)| ==> Redacted(nodes, chunks)[j] == MaskChar
  {
    TriePositions(nodes);
    SecretCompletes(nodes, w);
    PendingRedacted(nodes, chunks, w, s);
  }

  /**
   * However the stream is split into chunks, every occurrence of a
   * non-empty secret comes out as `*`s.
   */
  lemma SecretMasked(nodes: seq<Node>, chunks: seq<string>, w: string, s: nat)
    requires IsTrie(nodes) && Accepts(nodes, w) && |w| > 0
    requires s + |w| <= |Concat(chunks)| && Concat(chunks)[s..s + |w|] == w
    ensures forall j :: s <= j < s + |w| ==> Redacted(nodes, chunks)[j] == MaskChar
  {
    TriePositions(nodes);
    SecretCompletes(nodes, w);
    OccurrenceRedacted(nodes, chunks, s, s + |w|);
  }

  /**
   * A backslash right before such an occurrence that starts on a root edge
   * comes out as `*` too, when the root has no edge for a backslash.
   */
  lemma LeadingBackslashMasked(nodes: seq<Node>, chunks: seq<string>, s: nat, e: nat)
    requires IsTrie(nodes) && Closed(nodes) && |nodes| > 0
    requires 0 < s < e <= |Concat(chunks)| && Completes(nodes, Concat(chunks)[s..e])
    requires Concat(chunks)[s] in nodes[RootIndex].children
    requires Concat(chunks)[s - 1] == Backslash && Backslash !in nodes[RootIndex].children
    ensures Redacted(nodes, chunks)[s - 1] == MaskChar
  {
    LeadCompletes(nodes, Concat(chunks), s, e);
    OccurrenceRedacted(nodes, chunks, s - 1, e);
  }

  /**
   * What `Mask` writes from no ranges differs from the text only inside
   * occurrences of secrets (with backslashes possibly skipped inside them);
   * so does the whole redacted stream when nothing is left pending.
   */
  lemma OnlySecretsWritten(nodes: seq<Node>, text: string)
    requires Closed(nodes) && |nodes| > 0
    ensures OnlySecretsMasked(nodes, text, MaskF(nodes, text, []).masked)
    ensures MaskF(nodes, text, []).state == [] ==> OnlySecretsMasked(nodes, text, Redacted(nodes, [text]))
  {
    MaskLoopSound(nodes, text, [], |text|);
    OneChunk(nodes, text);
  }

  /**
   * A one-chunk stream whose call of `Mask` ends with no cursor live comes
   * out exactly as `Mask` wrote it, and so differs from the input only
   * inside occurrences of secrets.
   */
  lemma SettledStream(nodes: seq<Node>, text: string)
    requires Closed(nodes) && |nodes| > 0 && |text| > 0
    requires forall x :: x in MaskF(nodes, text, []).state ==> x.node.None?
    ensures Redacted(nodes, [text]) == MaskF(nodes, text, []).masked
    ensures OnlySecretsMasked(nodes, text, Redacted(nodes, [text]))
  {
    MaskSettles(nodes, text);
    OneChunk(nodes, text);
    OnlySecretsWritten(nodes, text);
  }

  /** Feeding an inert stream writes each chunk whole and leaves nothing pending. */
  lemma {:induction false} FeedPassthrough(nodes: seq<Node>, chunks: seq<string>)
    requires Closed(nodes) && |nodes| > 0 && Inert(nodes, Concat(chunks))
    ensures Feed(nodes, chunks) == MaskResult(Concat(chunks), [], [])
    decreases |chunks|
  {
    if chunks != [] {
      var init := chunks[..|chunks| - 1];
      var chunk := chunks[|chunks| - 1];
      assert Concat(chunks) == Concat(init) + chunk;
      InertSplit(nodes, Concat(init), chunk);
      FeedPassthrough(nodes, init);
      MaskPassthrough(nodes, chunk);
      var prev := Feed(nodes, init);
      assert prev.remaining + chunk == chunk;
      var r := MaskF(nodes, chunk, []);
      assert Feed(nodes, chunks) == MaskResult(prev.masked + r.masked, r.remaining, r.state);
    }
  }

  /**
   * However the stream is split into chunks, a stream in which no
   * character starts a secret at the root and none is a backslash comes
   * out unchanged.
   */
  lemma NothingToMask(nodes: seq<Node>, chunks: seq<string>)
    requires Closed(nodes) && |nodes| > 0 && Inert(nodes, Concat(chunks))
    ensures Redacted(nodes, chunks) == Concat(chunks)
  {
    FeedPassthrough(nodes, chunks);
  }

  /** Arenas the same to the matcher feed a stream alike. */
  lemma {:induction false} FeedSame(a: seq<Node>, b: seq<Node>, chunks: seq<string>)
    requires Closed(a) && Closed(b) && |a| > 0 && SameToMatcher(a, b)
    ensures Feed(a, chunks) == Feed(b, chunks)
    decreases |chunks|
  {
    if chunks != [] {
      var init := chunks[..|chunks| - 1];
      FeedSame(a, b, init);
      var prev := Feed(a, init);
      MaskFSame(a, b, prev.remaining + chunks[|chunks| - 1], prev.state);
    }
  }

  /**
   * Adding the empty secret changes no redacted stream: it only marks the
   * root as an end, and no edge leads back to the root, so the matcher never
   * reads that mark.
   */
  lemma EmptySecretIgnored(secrets: seq<string>, chunks: seq<string>)
    ensures Redacted(Build(secrets + [[]]), chunks) == Redacted(Build(secrets), chunks)
  {
    var nodes := Build(secrets);
    var all := secrets + [[]];
    assert all[..|all| - 1] == secrets;
    var marked := Build(all);
    assert marked == MarkEnd(nodes, RootIndex);
    BuildAccepts(secrets);
    forall n, c | 0 <= n < |marked| && c in marked[n].children && marked[n].children[c] < |marked|
      ensures marked[marked[n].children[c]].isEnd == nodes[marked[n].children[c]].isEnd
    {
      ChildPosition(nodes, n, c);
    }
    FeedSame(marked, nodes, chunks);
  }

  /** Inserting only empty secrets gives the root no edge: the empty secret masks nothing. */
  lemma {:induction false} EmptySecretsNoEdges(secrets: seq<string>)
    requires forall v :: v in secrets ==> v == []
    ensures Build(secrets)[RootIndex].children == map[]
  {
    if secrets != [] {
      var init := secrets[..|secrets| - 1];
      assert forall v :: v in init ==> v in secrets;
      EmptySecretsNoEdges(init);
      assert secrets[|secrets| - 1] in secrets;
    }
  }
}
