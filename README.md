# with-secret: the streaming redaction engine, in Dafny

`with-secret` runs a command and masks any secret that appears in the
command's output. The engine that does the masking lives in `trie_mask.go`, and
this project models it.

- **PatternTrie** (`trie.dfy`): the trie of secrets.
  - It is an arena: a sequence of nodes, where a child is named by its index
    and index 0 is the root.
  - Each node records its depth (`position`), whether a secret ends there, and
    its edges.
  - The class `Trie` holds the arena, and its `Insert` grows it in place as the
    Go method does.
  - `BuildTrieFromSecrets` and `BuildTrieFromSecretsMap` build a trie.
  - The pure `InsertAt` and `Build` specify insertion. The lemmas show that the
    result is a trie: every node is labelled by the path that leads to it, and
    its depth is that label's length. They also show that it accepts exactly
    the inserted secrets.
- **Matcher** (`matcher.dfy`): the per-character transition `step`.
  - A match range is either a *cursor* (it has a node) or a completed *span*
    (it has none).
  - `Step` seeds a root cursor after the carried ranges and advances every
    range in order. `RangesContainAt` is the span lookup.
  - Soundness says what every range has matched. It uses an escape-tolerant
    walk, because a backslash keeps a cursor where it is.
- **Emitter** (`emitter.dfy`): `Mask` and `PrintRemaining`.
  - `Mask` is written as the imperative loop of the source. It is proved equal
    to `MaskF`, a fold of `MaskStep` over the text, and the properties are
    proved about that fold:
    - what is written;
    - that a call from no ranges writes a `*` only inside an occurrence of a
      secret;
    - that every occurrence of a secret is masked, also when backslashes
      inside it are skipped or one stands right before it;
    - that a call from no ranges which ends with no cursor live writes the
      whole text and holds nothing back;
    - that, from no ranges, a text in which no character has an edge at the
      root and none is a backslash passes through unchanged.
  - The last three are not claimed for a call that starts from carried
    ranges (see "## Left out").
  - `PrintRemaining` is the end-of-stream flush.
- **Session** (`session.dfy`): the chunked driver of the source's tests.
  - Each chunk is appended to the pending rest and passed to `Mask` with the
    carried ranges.
  - The stream ends with `PrintRemaining`.
  - However the stream is split into chunks, every occurrence of a secret
    comes out masked. A stream that ends partway into a secret comes out
    masked from the secret's start, because the flush masks the pending rest.
- **Scenarios** (`scenarios.dfy`): a worked example with the single secret
  `xyzx`. It shows that splitting the stream changes the output.
  - `xyz` then `q` comes out as `****`. The leftover `xyz` is stepped again by
    the next call while the cursor that already consumed it is carried along.
  - `xyzq` in one chunk comes out unchanged.

Characters are single bytes, so a character's index is its byte offset. Ranges
are values, so `Mask` receives a copy of the caller's state and cannot change
it.

After each step, `Mask` counts the cursors (trie_mask.go:175-190). While any
cursor sits at a node with `position > 0`, nothing is written. Otherwise the
text is written up to the current index, or up to the one before it while a
cursor sits at position 0. `ExistingCursor` and `NewCursor` model the two
kinds of cursor.

Other behaviours the model keeps as written:
- An empty secret only marks the root (trie_mask.go:47). No edge leads back
  to the root, so `step` never reads that mark, and adding an empty secret
  changes no redacted stream (`EmptySecretIgnored`).
- With no secrets, a trailing backslash keeps the seeded root cursor alive, so
  the flush turns `a\` into `a*`.

## Model

| member | source | states |
|---|---|---|
| PatternTrie.AddChild | trie_mask.go:42-44 | A missing child is created as a fresh node one level deeper than its parent. The parent gains exactly that edge and keeps its depth and end flag, and every other node is unchanged |
| PatternTrie.MarkEnd | trie_mask.go:47 | The last node of the word becomes an end and changes in nothing else, and every other node is unchanged |
| PatternTrie.InsertAt | trie_mask.go:39-48 | Insertion keeps every child index inside the arena and only grows the trie: no edge is removed and no end flag is cleared |
| PatternTrie.Build | trie_mask.go:243-249 | Building from a list yields a closed, non-empty arena |
| PatternTrie.PositionIsDepth | trie_mask.go:43 | In a trie, the node reached by walking `w` from the root has position `|w|` |
| PatternTrie.ChildPosition | trie_mask.go:43 | A child's position is its parent's plus one, and no edge leads back to the root |
| PatternTrie.MarkEndLabelled | trie_mask.go:47 | Marking a node adds exactly that node's label to the accepted strings, and the arena stays labelled |
| PatternTrie.AddChildLabelled | trie_mask.go:42-44 | Adding a fresh child keeps the arena labelled and leaves the accepted strings unchanged |
| PatternTrie.InsertAtLabelled | trie_mask.go:39-48 | After insertion the arena is still a trie, and it accepts exactly the strings it accepted before plus the inserted word |
| PatternTrie.InsertAtKnown | trie_mask.go:41-47 | Inserting a word that already ends at a marked node leaves the arena identical |
| PatternTrie.InsertIdempotent | trie_mask.go:39-48 | Re-inserting an accepted secret changes nothing |
| PatternTrie.BuildAccepts | trie_mask.go:243-249 | The built arena is a trie, and it accepts a string if and only if that string is one of the secrets |
| PatternTrie.BuildOrderIrrelevant | trie_mask.go:243-257 | Two lists with the same secrets, in any order and with any repetition, give tries that accept the same strings |
| PatternTrie.Trie.constructor | trie_mask.go:25-31 | A new trie is a lone root at depth 0 that accepts nothing |
| PatternTrie.Trie.Insert | trie_mask.go:39-48 | The loop grows the arena in place to `InsertAt` of the old arena. It keeps the trie invariant, accepts exactly the old strings plus the word, and changes nothing when the word was already present |
| PatternTrie.BuildTrieFromSecrets | trie_mask.go:243-249 | Returns a fresh trie equal to `Build` of the list, accepting exactly the listed secrets |
| PatternTrie.BuildTrieFromSecretsMap | trie_mask.go:251-257 | Returns a fresh trie accepting exactly the map's values, whatever order they are visited in |
| Matcher.RangesContainAt | trie_mask.go:105-113 | True if and only if some completed span (not a cursor) covers the index |
| Matcher.Seed | trie_mask.go:56-60 | The range seeded at each index is a cursor at the root that starts there and has consumed nothing |
| Matcher.SeedSound | trie_mask.go:56-60 | That seed is sound at its index: the escape-tolerant walk of the empty text ends at the root |
| Matcher.Advance | trie_mask.go:73-99 | Advancing one range yields ranges whose cursors all name nodes of the arena; `AdvanceSound` and `AdvanceDepthBounded` state the rule |
| Matcher.AdvanceAll | trie_mask.go:64-100 | Advancing every range in order yields ranges whose cursors all name nodes of the arena; `AdvanceAllMember` states which ranges come out |
| Matcher.AdvanceAllMember | trie_mask.go:64-100 | A range comes out of advancing a list if and only if it comes out of advancing one of the list's ranges |
| Matcher.Step | trie_mask.go:50-103 | A step's cursors all name nodes of the arena; `StepMember` and `StepSound` state the rule |
| Matcher.StepMember | trie_mask.go:50-103 | A range is in the step's result if and only if it comes from advancing one of the carried ranges or the root cursor seeded at this index |
| Matcher.StepKeepsSpans | trie_mask.go:67-71 | Every completed span of the input is still in the step's result |
| Matcher.StepRootCursors | trie_mask.go:90-98 | A cursor still at the root after a step was kept by the backslash rule: the character was a backslash with no edge from the root |
| Matcher.AdvanceDepthBounded | trie_mask.go:73-98 | Advancing one range keeps every resulting cursor's depth within its length |
| Matcher.StepDepthBounded | trie_mask.go:73-98 | A step keeps every cursor's depth at most the number of characters it has consumed |
| Matcher.AdvanceSound | trie_mask.go:73-98 | Advancing a sound range on the next character yields only sound ranges |
| Matcher.StepSound | trie_mask.go:50-103 | A step keeps every range sound. A cursor ends exactly at the current index, where its escape-tolerant walk leads. A span ends at or before it and spells a secret |
| Matcher.SoundCursorDepth | trie_mask.go:84-97 | A sound cursor's depth is at most its length, and equal to it when no backslash was skipped |
| Matcher.DropsBackslashesShape | trie_mask.go:92-97 | Deleting skipped backslashes never lengthens a string, and changes nothing in a string without one |
| Matcher.EscWalkLabel | trie_mask.go:73-98 | A cursor's node is labelled with what it consumed, minus some skipped backslashes |
| Matcher.EscMatchIsSecret | trie_mask.go:74-80 | A completed span spells one of the secrets once some of its backslashes are deleted |
| Emitter.CountNew | trie_mask.go:178-188 | Zero if and only if no cursor sits at position 0 |
| Emitter.CountExisting | trie_mask.go:178-188 | Zero if and only if no cursor sits at a non-zero position |
| Emitter.CountCursors | trie_mask.go:178-188 | The counting loop yields exactly these two counts |
| Emitter.Emit | trie_mask.go:196-204 | One character per position from `printedPos` to `end`: `*` where a span covers it, otherwise the text's character |
| Emitter.WriteSafe | trie_mask.go:196-204 | The writing loop appends exactly those characters and advances `printedPos` past `end` |
| Emitter.KeepActive | trie_mask.go:206-214 | Keeps exactly the ranges that reach past `printedPos` |
| Emitter.DropFinished | trie_mask.go:206-214 | The clean-up loop yields exactly those ranges, in order |
| Emitter.Shift | trie_mask.go:218-221 | Every start moves back by `printedPos`, and lengths and nodes are kept |
| Emitter.ShiftStarts | trie_mask.go:218-221 | The in-place rebasing loop yields the shifted ranges |
| Emitter.SafeEnd | trie_mask.go:190-194 | The last index written after the step at `i` is `i` exactly when no cursor sits at position 0, and `i - 1` exactly when one does |
| Emitter.MaskStep | trie_mask.go:168-215 | Per iteration: `printedPos` never decreases and never passes `i + 1`. Written output is never changed, and each newly written character is `*` or the text's own. When any cursor sits at a non-zero position, nothing is written and the ranges are the step's result. When none does, the text is written at least up to `i - 1`. When the step leaves no cursor at all, it is written through `i` |
| Emitter.MaskIteration | trie_mask.go:168-215 | The loop body's step, counting, writing and clean-up compute exactly `MaskStep` |
| Emitter.MaskLoop | trie_mask.go:160-216 | After `k` characters, the output holds one character per written position, each `*` or the text's own |
| Emitter.MaskF | trie_mask.go:153-224 | `masked` and `remaining` together account for the whole text, with `remaining` the unwritten suffix, and each masked character is `*` or the original |
| Emitter.Mask | trie_mask.go:153-224 | The imperative `Mask` returns exactly `MaskF` of its inputs, so the same accounting holds for it |
| Emitter.PrintRemaining | trie_mask.go:226-241 | Same length as the text: unchanged when no range is left, all `*` when any range (span or cursor) is left |
| Emitter.SpanIsCovered | trie_mask.go:106-110 | A position a sound span covers lies inside an occurrence of a secret |
| Emitter.EmitSound | trie_mask.go:196-204 | Writing from sound ranges changes a character only inside an occurrence of a secret |
| Emitter.MaskStepSound | trie_mask.go:168-215 | One iteration keeps the ranges sound and masks only inside occurrences |
| Emitter.MaskLoopSound | trie_mask.go:156-216 | From a sound (for example empty) state, after `k` characters every range is sound and the output differs from the text only inside occurrences of secrets |
| Emitter.CompletesPath | trie_mask.go:73-98 | On its way to a completed span, a cursor survives every character but the last, each time at a node that has an edge out, so the step keeps it |
| Emitter.FollowerAdvances | trie_mask.go:73-97 | Such a cursor moves on with the next character: it takes the edge, or stays put on a skipped backslash. On the last character it yields the span |
| Emitter.FollowerStepped | trie_mask.go:56-98 | The same holds within a whole step, for a carried cursor and for the freshly seeded one |
| Emitter.FollowerDepth | trie_mask.go:43 | In a trie, such a cursor is past the root from its second character on |
| Emitter.TrieDeepAlong | trie_mask.go:43 | The same holds at every character of such a walk |
| Emitter.PendingStep | trie_mask.go:168-195 | Inside an occurrence, one iteration advances its cursor and writes nothing from its start on. The cursor holds output back as an existing cursor, or on its first character as a new one |
| Emitter.OccurrencePending | trie_mask.go:162-216 | While an occurrence is incomplete, its cursor is live and nothing from its start has been written, whatever ranges were carried in |
| Emitter.CompletingStep | trie_mask.go:73-80 | The last character of an occurrence makes the step emit its span |
| Emitter.OccurrenceCompleted | trie_mask.go:162-216 | Before the last character of an occurrence, nothing from its start is written, and the step on it yields the span |
| Emitter.SpanMaskStep | trie_mask.go:190-214 | One iteration writes a span's characters as `*`, and drops the span only after all of it is written |
| Emitter.OccurrenceMasked | trie_mask.go:162-216 | After a complete occurrence (skipped backslashes included), each of its characters is written as `*` or is still pending with its span kept, whatever ranges were carried in |
| Emitter.SpanCarried | trie_mask.go:190-214 | A span carried in from the previous call has each character written in this call as `*`, and stays until all of it is written |
| Emitter.MaskFRebases | trie_mask.go:218-223 | A range live after the loop is returned with its start moved back by the number of written characters |
| Emitter.EscWalkExact | trie_mask.go:73-89 | Along a secret the trie has, the backslash-tolerant walk takes the same edges as the plain walk |
| Emitter.SecretCompletes | trie_mask.go:73-80 | A non-empty accepted secret is a walk that completes a span |
| Emitter.EscWalkSkipsLead | trie_mask.go:90-97 | A backslash the root has no edge for leaves the cursor at the root |
| Emitter.LeadCompletes | trie_mask.go:90-97 | So the cursor seeded on such a backslash right before an occurrence also completes a span |
| Emitter.SeedDies | trie_mask.go:64-99 | The cursor seeded on a character that has no edge at the root and is no backslash dies at once |
| Matcher.AdvanceSame | trie_mask.go:73-98 | Advancing reads only a node's edges and its children's end flags and edges, so arenas alike in those advance a range alike |
| Matcher.AdvanceAllSame | trie_mask.go:64-100 | The same holds for advancing every range in order |
| Matcher.StepSame | trie_mask.go:50-103 | The same holds for a whole step |
| Emitter.CountSame | trie_mask.go:178-188 | Such arenas count new and existing cursors alike |
| Emitter.MaskStepSame | trie_mask.go:168-215 | Such arenas take the same loop iteration |
| Emitter.MaskLoopSame | trie_mask.go:160-216 | Such arenas run the same loop |
| Emitter.MaskFSame | trie_mask.go:153-224 | Such arenas mask a text alike |
| Emitter.MaskPassthrough | trie_mask.go:153-224 | On a text in which no character has an edge at the root and none is a backslash, `Mask` from no ranges writes the text unchanged and leaves nothing pending |
| Emitter.StepLeftSpans | trie_mask.go:168-215 | If an iteration from sound ranges keeps no cursor, the matcher's step left only spans, all ending by `i + 1`. A cursor at a non-zero position would have been kept with the write held back, and one at position 0 reaches past what is written |
| Emitter.StepSettles | trie_mask.go:190-214 | An iteration whose step leaves only spans ending by `i + 1` writes through `i` and keeps no range |
| Emitter.MaskSettles | trie_mask.go:153-224 | A call from no ranges that returns no cursor has written the whole text, with nothing pending and no range returned |
| Session.Feed | trie_mask_test.go:70-79 | After the chunks, the written output and the pending rest together are the concatenated chunks. The rest is the unwritten suffix, and each written character is `*` or the original |
| Session.Redacted | trie_mask_test.go:70-80 | The redacted stream has the length of the input, and every character is `*` or the original |
| Session.RedactChunks | trie_mask_test.go:70-80 | The driver loop's result is exactly `Redacted` |
| Session.OneChunk | trie_mask_test.go:22-23 | A one-chunk stream is one `Mask` from no ranges followed by the flush |
| Session.CarriedHeld | trie_mask.go:153-224 | A span carried into a call has each character the call writes as `*`, and its unwritten part stays among the returned ranges, rebased |
| Session.FoundHeld | trie_mask.go:153-224 | The same holds for the span of an occurrence lying in the call's text |
| Session.MaskCovers | trie_mask.go:153-224 | One call keeps an occurrence covered. Written characters are `*`. Once it is read whole, its unwritten part is held by its rebased span. Until then nothing from its start is written, and once it is started a range is returned |
| Session.ChunkCovers | trie_mask_test.go:74-78 | Feeding one more chunk (appended to the pending rest, masked from the carried ranges) keeps an occurrence covered |
| Session.FeedCovers | trie_mask_test.go:70-79 | After any prefix of the chunks, every occurrence in the stream is covered in that sense. An occurrence that is started but not finished has nothing written from its start, and its cursor is carried |
| Session.FlushCovers | trie_mask.go:226-241 | At the end of the stream, a covered occurrence is `*` throughout once the pending text is flushed |
| Session.OccurrenceRedacted | trie_mask_test.go:97-99 | However the stream is chunked, every character of an occurrence comes out as `*`, skipped backslashes inside it included |
| Session.SecretMasked | trie_mask_test.go:63-67 | However the stream is chunked, every character of every occurrence of a non-empty secret comes out as `*` |
| Session.LeadingBackslashMasked | trie_mask_test.go:98-99 | A backslash right before such an occurrence also comes out as `*` when the root has no backslash edge |
| Session.OnlySecretsWritten | trie_mask_test.go:22-23 | `Mask` from no ranges changes a character only inside an occurrence of a secret (backslashes may be skipped), and so does the whole stream when nothing is left pending |
| Session.SettledStream | trie_mask_test.go:22-23 | A one-chunk stream whose call ends with no cursor live comes out exactly as `Mask` wrote it, so it differs from the input only inside occurrences of secrets |
| Session.FlushPending | trie_mask.go:226-241 | With a range carried and nothing written from `s` on, the flush turns everything from `s` to the end into `*` |
| Session.PendingRedacted | trie_mask_test.go:66 | However the stream is chunked, a stream that ends partway through a completing walk comes out as `*` from the walk's start to the end |
| Session.SecretPrefixMasked | trie_mask_test.go:18 | However the stream is chunked, a stream that ends partway into a secret comes out as `*` from the secret's start to the end |
| Session.FeedPassthrough | trie_mask_test.go:70-79 | Feeding a stream in which no character has an edge at the root and none is a backslash writes every chunk whole and leaves nothing pending |
| Session.NothingToMask | trie_mask_test.go:96 | However the stream is chunked, a stream in which no character has an edge at the root and none is a backslash comes out unchanged. This covers `this is not a secret` against the secret `"secret"`, whose only root edge is `"` |
| Session.FeedSame | trie_mask_test.go:70-79 | Arenas alike to the matcher feed a stream alike |
| Session.EmptySecretIgnored | trie_mask.go:47 | Adding the empty secret to any list of secrets changes no redacted stream |
| Session.EmptySecretsNoEdges | trie_mask.go:39-48 | Inserting only empty secrets gives the root no edges, so, by `NothingToMask`, they mask nothing |
| Scenarios.BuildXyzx | trie_mask.go:243-249 | Building from the single secret `xyzx` gives a chain of five nodes (four edges) ending at a marked leaf |
| Scenarios.MaskUnmasked | trie_mask.go:153-224 | `Mask` on `xyzq` from no ranges writes the text unchanged |
| Scenarios.MaskPending | trie_mask.go:153-224 | `Mask` on `xyz` from no ranges writes nothing and carries the cursor at depth 3 |
| Scenarios.MaskResumed | trie_mask.go:153-224 | `Mask` on the re-read `xyzq` with that cursor carried writes `****` |
| Scenarios.OneChunkUnmasked | trie_mask_test.go:70-80 | The stream `xyzq` in one chunk comes out unchanged |
| Scenarios.TwoChunksFed | trie_mask_test.go:74-78 | Feeding `xyz` then `q` writes `****` and leaves nothing pending |
| Scenarios.TwoChunksMasked | trie_mask_test.go:70-80 | The stream `xyz`, `q` comes out as `****` |
| Scenarios.ChunkingChangesOutput | trie_mask_test.go:74-78 | With the secret `xyzx`, the output depends on how the stream is split, so chunk-invariance does not hold |

## Left out

- main.go is not part of this model. It fetches secrets from a cloud store,
  decodes JSON, sets environment variables, starts the child process, scans
  its pipes in two goroutines and prints the output. That is all I/O,
  concurrency and foreign-library calls. main.go flushes the pending rest
  of stderr (main.go:153-154) but not of stdout: the stdout `PrintRemaining`
  call is commented out (main.go:134-135), so only stdout drops what is still
  pending when the stream ends. The modelled driver flushes at the end, as
  the tests do (trie_mask_test.go:80).
- `DebugPrintState` and the `DEBUG` environment branches inside `Mask` only
  print and do not change any result.
- Multi-byte UTF-8 text is not modelled. `Mask` mixes rune iteration with
  byte offsets. The model treats every character as one byte.
- `*TrieNode` pointer identity and sharing are replaced by arena indices.
  `NewTrieNode` is `NewNode`; a node's `position` is its depth by
  construction.
- Go map iteration order is not modelled. `BuildTrieFromSecretsMap` visits the
  map's values in an unspecified order, and its contract holds for any order.
- Scenarios.ChunkingChangesOutput: the model states the opposite of
  chunk-invariance on purpose. Re-stepping the leftover text with the carried
  cursors makes the output depend on the chunking, and the lemma records that.
- The concrete strings of the test file (for example `multiple sec`, `ret
  and pass`, `word`) are not evaluated as lemmas. Evaluating them is beyond
  what the solver does within its resource limit. For any trie and any
  chunking, `SecretMasked`, `OccurrenceRedacted` and `LeadingBackslashMasked`
  state that their secrets come out masked, `SecretPrefixMasked` that a
  trailing partial secret does, and `NothingToMask` that an inert stream comes
  out unchanged. `OnlySecretsWritten` and `SettledStream` state which
  characters may change, for one chunk.
- Emitter.MaskSettles, Emitter.MaskPassthrough and Session.OnlySecretsWritten
  are stated for a call from no ranges only. Carried ranges were matched
  against earlier text, so a call from them is not bound by these: a span
  carried over from the previous chunk can cover characters of the new text
  and star them even though they belong to no occurrence in it, and a call
  that ends with no cursor can still return such a span (secret `aaaa`,
  chunks `aa` then `b`). The carry-over effect on the output is what
  `ChunkingChangesOutput` records.
- Session.OnlySecretsWritten: for the whole stream, it holds only when nothing
  is left pending. When a cursor is left pending, the flush masks the rest
  whether or not it is a secret. `SettledStream` shows that nothing is
  pending when the call ends with no cursor live.
