/**
 * The pattern trie of the redaction engine.
 *
 * The trie is kept as an arena: a sequence of nodes in which a child is named
 * by its index. Index 0 is the root. A node records its depth (`position`),
 * whether some secret ends there (`isEnd`) and its outgoing edges.
 */
module PatternTrie {

  datatype Option<T> = None | Some(value: T)

  /** One trie node; `children` maps a character to the arena index of the child. */
  datatype Node = Node(children: map<char, nat>, position: int, isEnd: bool)

  const RootIndex: nat := 0

  /** A fresh node at the given depth, with no children and no secret ending at it. */
  function NewNode(position: int): Node
  {
    Node(map[], position, false)
  }

  /** Every child index points into the arena. */
  ghost predicate Closed(nodes: seq<Node>)
  {
    forall n, c :: 0 <= n < |nodes| && c in nodes[n].children ==> nodes[n].children[c] < |nodes|
  }

  /** Follows the characters of `w` from node `n`; None as soon as an edge is missing. */
  function Walk(nodes: seq<Node>, n: nat, w: string): (r: Option<nat>)
    ensures r.Some? ==> r.value < |nodes|
    decreases |w|
  {
    if n >= |nodes| then None
    else if w == [] then Some(n)
    else if w[0] in nodes[n].children then Walk(nodes, nodes[n].children[w[0]], w[1..])
    else None
  }

  /** `w` spells a path from the root that ends at a node marked as the end of a secret. */
  predicate Accepts(nodes: seq<Node>, w: string)
  {
    var r := Walk(nodes, RootIndex, w);
    r.Some? && nodes[r.value].isEnd
  }

  /**
   * `labels[n]` is the string spelled by the path from the root to node `n`:
   * the root spells the empty string, an edge labelled `c` appends `c`, the
   * depth of a node is the length of its label, and every node is reached
   * from the root by walking its label.
   */
  ghost predicate Labelled(nodes: seq<Node>, labels: seq<string>)
  {
    |labels| == |nodes| > 0 && labels[RootIndex] == [] &&
    (forall n :: 0 <= n < |nodes| ==> nodes[n].position == |labels[n]|) &&
    (forall n {:trigger Walk(nodes, RootIndex, labels[n])} :: 0 <= n < |nodes| ==> Walk(nodes, RootIndex, labels[n]) == Some(n)) &&
    (forall n, c :: 0 <= n < |nodes| && c in nodes[n].children ==>
       nodes[n].children[c] < |nodes| && labels[nodes[n].children[c]] == labels[n] + [c])
  }

  /** The arena is a trie: some labelling of its nodes exists. */
  ghost predicate IsTrie(nodes: seq<Node>)
  {
    exists labels :: Labelled(nodes, labels)
  }

  /** Every edge of `a` is still present in `b` (and `b` may have more nodes). */
  ghost predicate EdgesKept(a: seq<Node>, b: seq<Node>)
  {
    |a| <= |b| &&
    forall n, c :: 0 <= n < |a| && c in a[n].children ==>
      c in b[n].children && b[n].children[c] == a[n].children[c]
  }

  /** `b` extends `a`: no edge removed, no depth changed, no end flag cleared. */
  ghost predicate Grows(a: seq<Node>, b: seq<Node>)
  {
    EdgesKept(a, b) &&
    forall n :: 0 <= n < |a| ==> b[n].position == a[n].position && (a[n].isEnd ==> b[n].isEnd)
  }

  /** The arena after node `cur` gets a fresh child for `c` one level deeper. */
  function AddChild(nodes: seq<Node>, cur: nat, c: char): (r: seq<Node>)
    requires Closed(nodes) && cur < |nodes| && c !in nodes[cur].children
    ensures |r| == |nodes| + 1 && Closed(r) && Grows(nodes, r)
    ensures c in r[cur].children && r[cur].children[c] == |nodes|
    ensures r[cur] == nodes[cur].(children := nodes[cur].children[c := |nodes|])
    ensures r[|nodes|] == NewNode(nodes[cur].position + 1)
    ensures forall n :: 0 <= n < |nodes| && n != cur ==> r[n] == nodes[n]
  {
    nodes[cur := nodes[cur].(children := nodes[cur].children[c := |nodes|])]
      + [NewNode(nodes[cur].position + 1)]
  }

  /** The arena after node `cur` is marked as the end of a secret. */
  function MarkEnd(nodes: seq<Node>, cur: nat): (r: seq<Node>)
    requires Closed(nodes) && cur < |nodes|
    ensures |r| == |nodes| && Closed(r) && Grows(nodes, r) && EdgesKept(r, nodes)
    ensures r[cur] == nodes[cur].(isEnd := true)
    ensures forall n :: 0 <= n < |nodes| && n != cur ==> r[n] == nodes[n]
  {
    nodes[cur := nodes[cur].(isEnd := true)]
  }

  /**
   * Inserting the rest `w` of a word from node `cur`: follow an existing edge,
   * or create the child first, and mark the last node as an end.
   */
  function InsertAt(nodes: seq<Node>, cur: nat, w: string): (r: seq<Node>)
    requires Closed(nodes) && cur < |nodes|
    ensures Closed(r) && Grows(nodes, r)
    decreases |w|
  {
    if w == [] then MarkEnd(nodes, cur)
    else if w[0] in nodes[cur].children then InsertAt(nodes, nodes[cur].children[w[0]], w[1..])
    else InsertAt(AddChild(nodes, cur, w[0]), |nodes|, w[1..])
  }

  /** The arena built by inserting the secrets one after the other into a fresh root. */
  function Build(secrets: seq<string>): (r: seq<Node>)
    ensures Closed(r) && |r| > 0
  {
    if secrets == [] then [NewNode(0)]
    else InsertAt(Build(secrets[..|secrets| - 1]), RootIndex, secrets[|secrets| - 1])
  }

  // ---------------------------------------------------------------------------
  // Lemmas about walks

  /** Walking `u + v` is walking `u`, then `v` from where `u` ended. */
  lemma {:induction false} WalkAppend(nodes: seq<Node>, n: nat, u: string, v: string)
    ensures Walk(nodes, n, u + v) ==
            match Walk(nodes, n, u)
            case None => None
            case Some(m) => Walk(nodes, m, v)
    decreases |u|
  {
    if n < |nodes| && u != [] {
      assert (u + v)[0] == u[0] && (u + v)[1..] == u[1..] + v;
      if u[0] in nodes[n].children {
        WalkAppend(nodes, nodes[n].children[u[0]], u[1..], v);
      }
    } else if n < |nodes| {
      assert u + v == v;
    }
  }

  /** A walk that succeeds in `a` takes the same path in any arena that keeps `a`'s edges. */
  lemma {:induction false} WalkKept(a: seq<Node>, b: seq<Node>, n: nat, w: string)
    requires EdgesKept(a, b) && Walk(a, n, w).Some?
    ensures Walk(b, n, w) == Walk(a, n, w)
    decreases |w|
  {
    if w != [] {
      WalkKept(a, b, a[n].children[w[0]], w[1..]);
    }
  }

  /** Two arenas with the same edges have the same walks. */
  lemma SameEdgesSameWalks(a: seq<Node>, b: seq<Node>, n: nat, w: string)
    requires EdgesKept(a, b) && EdgesKept(b, a)
    ensures Walk(a, n, w) == Walk(b, n, w)
  {
    if Walk(a, n, w).Some? {
      WalkKept(a, b, n, w);
    } else if Walk(b, n, w).Some? {
      WalkKept(b, a, n, w);
    }
  }

  /** In a labelled arena a walk from `n` along `w` ends at the node labelled `labels[n] + w`. */
  lemma {:induction false} WalkLabel(nodes: seq<Node>, labels: seq<string>, n: nat, w: string)
    requires Labelled(nodes, labels) && n < |nodes| && Walk(nodes, n, w).Some?
    ensures labels[Walk(nodes, n, w).value] == labels[n] + w
    decreases |w|
  {
    if w == [] {
      assert labels[n] + w == labels[n];
    } else {
      var k := nodes[n].children[w[0]];
      WalkLabel(nodes, labels, k, w[1..]);
      assert labels[n] + w == labels[n] + [w[0]] + w[1..];
    }
  }

  /** In a trie the node reached by `w` from the root has depth `|w|`. */
  lemma PositionIsDepth(nodes: seq<Node>, w: string)
    requires IsTrie(nodes) && Walk(nodes, RootIndex, w).Some?
    ensures nodes[Walk(nodes, RootIndex, w).value].position == |w|
  {
    var labels :| Labelled(nodes, labels);
    WalkLabel(nodes, labels, RootIndex, w);
  }

  /** In a trie a child is one level deeper than its parent, and no edge leads back to the root. */
  lemma ChildPosition(nodes: seq<Node>, n: nat, c: char)
    requires IsTrie(nodes) && n < |nodes| && c in nodes[n].children
    ensures nodes[n].children[c] != RootIndex
    ensures nodes[nodes[n].children[c]].position == nodes[n].position + 1
  {
    var labels :| Labelled(nodes, labels);
    var k := nodes[n].children[c];
    assert labels[k] == labels[n] + [c];
    assert |labels[k]| != |labels[RootIndex]|;
  }

  // ---------------------------------------------------------------------------
  // Lemmas about insertion

  /** Marking `cur` as an end adds exactly the label of `cur` to the accepted strings. */
  lemma MarkEndLabelled(nodes: seq<Node>, labels: seq<string>, cur: nat)
    requires Labelled(nodes, labels) && cur < |nodes|
    ensures Labelled(MarkEnd(nodes, cur), labels)
    ensures forall v :: Accepts(MarkEnd(nodes, cur), v) <==> Accepts(nodes, v) || v == labels[cur]
  {
    var r := MarkEnd(nodes, cur);
    forall n | 0 <= n < |r|
      ensures Walk(r, RootIndex, labels[n]) == Some(n)
    {
      WalkKept(nodes, r, RootIndex, labels[n]);
    }
    forall v
      ensures Accepts(r, v) <==> Accepts(nodes, v) || v == labels[cur]
    {
      SameEdgesSameWalks(nodes, r, RootIndex, v);
      var w := Walk(nodes, RootIndex, v);
      if w.Some? {
        WalkLabel(nodes, labels, RootIndex, v);
        assert labels[RootIndex] + v == v;
      }
    }
  }

  /** The fresh child is labelled with its parent's label followed by `c`. */
  lemma AddChildLabels(nodes: seq<Node>, labels: seq<string>, cur: nat, c: char)
    requires Labelled(nodes, labels) && cur < |nodes| && c !in nodes[cur].children
    ensures Labelled(AddChild(nodes, cur, c), labels + [labels[cur] + [c]])
  {
    var r := AddChild(nodes, cur, c);
    var labels' := labels + [labels[cur] + [c]];
    var k := |nodes|;
    forall n | 0 <= n < |r|
      ensures r[n].position == |labels'[n]| && Walk(r, RootIndex, labels'[n]) == Some(n)
    {
      if n < k {
        WalkKept(nodes, r, RootIndex, labels[n]);
      } else {
        WalkKept(nodes, r, RootIndex, labels[cur]);
        WalkAppend(r, RootIndex, labels[cur], [c]);
        assert Walk(r, cur, [c]) == Walk(r, k, []);
      }
    }
    assert Labelled(r, labels');
  }

  /** Adding a fresh child keeps the arena labelled and accepts the same strings. */
  lemma AddChildLabelled(nodes: seq<Node>, labels: seq<string>, cur: nat, c: char)
    requires Labelled(nodes, labels) && cur < |nodes| && c !in nodes[cur].children
    ensures Labelled(AddChild(nodes, cur, c), labels + [labels[cur] + [c]])
    ensures forall v :: Accepts(AddChild(nodes, cur, c), v) <==> Accepts(nodes, v)
  {
    var r := AddChild(nodes, cur, c);
    var labels' := labels + [labels[cur] + [c]];
    var k := |nodes|;
    AddChildLabels(nodes, labels, cur, c);
    forall v
      ensures Accepts(r, v) <==> Accepts(nodes, v)
    {
      if Accepts(nodes, v) {
        WalkKept(nodes, r, RootIndex, v);
      }
      if Accepts(r, v) {
        var m := Walk(r, RootIndex, v).value;
        WalkLabel(r, labels', RootIndex, v);
        assert labels'[RootIndex] + v == v;
        assert m < k && labels[m] == v;
      }
    }
  }

  /**
   * Inserting `w` from `cur` keeps the arena a trie, and afterwards exactly the
   * previously accepted strings and `labels[cur] + w` are accepted.
   */
  lemma {:induction false} InsertAtLabelled(nodes: seq<Node>, labels: seq<string>, cur: nat, w: string)
    requires Labelled(nodes, labels) && cur < |nodes|
    ensures IsTrie(InsertAt(nodes, cur, w))
    ensures forall v :: Accepts(InsertAt(nodes, cur, w), v) <==> Accepts(nodes, v) || v == labels[cur] + w
    decreases |w|
  {
    if w == [] {
      MarkEndLabelled(nodes, labels, cur);
      assert labels[cur] + w == labels[cur];
    } else {
      assert labels[cur] + w == labels[cur] + [w[0]] + w[1..];
      if w[0] in nodes[cur].children {
        InsertAtLabelled(nodes, labels, nodes[cur].children[w[0]], w[1..]);
      } else {
        AddChildLabelled(nodes, labels, cur, w[0]);
        InsertAtLabelled(AddChild(nodes, cur, w[0]), labels + [labels[cur] + [w[0]]], |nodes|, w[1..]);
      }
    }
  }

  /** Inserting a word that is already accepted from `cur` leaves the arena unchanged. */
  lemma {:induction false} InsertAtKnown(nodes: seq<Node>, cur: nat, w: string)
    requires Closed(nodes) && cur < |nodes|
    requires Walk(nodes, cur, w).Some? && nodes[Walk(nodes, cur, w).value].isEnd
    ensures InsertAt(nodes, cur, w) == nodes
    decreases |w|
  {
    if w == [] {
      assert nodes[cur].(isEnd := true) == nodes[cur];
    } else {
      InsertAtKnown(nodes, nodes[cur].children[w[0]], w[1..]);
    }
  }

  /** Re-inserting an accepted word changes nothing. */
  lemma InsertIdempotent(nodes: seq<Node>, w: string)
    requires Closed(nodes) && |nodes| > 0 && Accepts(nodes, w)
    ensures InsertAt(nodes, RootIndex, w) == nodes
  {
    InsertAtKnown(nodes, RootIndex, w);
  }

  /** The built arena is a trie that accepts exactly the inserted secrets. */
  lemma {:induction false} BuildAccepts(secrets: seq<string>)
    ensures IsTrie(Build(secrets))
    ensures forall v :: Accepts(Build(secrets), v) <==> v in secrets
  {
    if secrets == [] {
      assert Labelled([NewNode(0)], [[]]);
      forall v ensures !Accepts(Build(secrets), v) {
        if v != [] {
          assert Walk([NewNode(0)], RootIndex, v) == None;
        }
      }
    } else {
      var init := secrets[..|secrets| - 1];
      var last := secrets[|secrets| - 1];
      BuildAccepts(init);
      var labels :| Labelled(Build(init), labels);
      InsertAtLabelled(Build(init), labels, RootIndex, last);
      assert labels[RootIndex] + last == last;
      assert secrets == init + [last];
    }
  }

  /** The order (and repetition) of the secrets does not change which strings the trie accepts. */
  lemma BuildOrderIrrelevant(s1: seq<string>, s2: seq<string>)
    requires forall v :: v in s1 <==> v in s2
    ensures forall v :: Accepts(Build(s1), v) <==> Accepts(Build(s2), v)
  {
    BuildAccepts(s1);
    BuildAccepts(s2);
  }

  // ---------------------------------------------------------------------------
  // The trie object

  /** The trie as the source uses it: a root whose subtree `Insert` grows in place. */
  class Trie {
    var nodes: seq<Node>

    ghost predicate Valid()
      reads this
    {
      IsTrie(nodes)
    }

    /** A trie holding only a root at depth 0. */
    constructor ()
      ensures Valid() && nodes == [NewNode(0)]
      ensures forall v :: !Accepts(nodes, v)
    {
      nodes := [NewNode(0)];
      new;
      BuildAccepts([]);
    }

    /** Walks `word`, creating missing children one level deeper, and marks the last node. */
    method Insert(word: string)
      requires Valid()
      modifies this
      ensures Valid()
      ensures nodes == InsertAt(old(nodes), RootIndex, word)
      ensures Grows(old(nodes), nodes)
      ensures forall v :: Accepts(nodes, v) <==> Accepts(old(nodes), v) || v == word
      ensures Accepts(old(nodes), word) ==> nodes == old(nodes)
    {
      ghost var labels :| Labelled(nodes, labels);
      var current: nat := RootIndex;
      var i := 0;
      while i < |word|
        invariant 0 <= i <= |word|
        invariant Closed(nodes) && current < |nodes|
        invariant InsertAt(nodes, current, word[i..]) == InsertAt(old(nodes), RootIndex, word)
      {
        var ch := word[i];
        assert word[i..][0] == ch && word[i..][1..] == word[i + 1..];
        if ch !in nodes[current].children {
          nodes := AddChild(nodes, current, ch);
        }
        current := nodes[current].children[ch];
        i := i + 1;
      }
      assert word[i..] == [];
      nodes := MarkEnd(nodes, current);
      InsertAtLabelled(old(nodes), labels, RootIndex, word);
      assert labels[RootIndex] + word == word;
      if Accepts(old(nodes), word) {
        InsertIdempotent(old(nodes), word);
      }
    }
  }

  /** A trie holding every secret of the list, inserted in list order. */
  method BuildTrieFromSecrets(secrets: seq<string>) returns (t: Trie)
    ensures fresh(t) && t.Valid()
    ensures t.nodes == Build(secrets)
    ensures forall v :: Accepts(t.nodes, v) <==> v in secrets
  {
    t := new Trie();
    for k := 0 to |secrets|
      invariant t.nodes == Build(secrets[..k]) && t.Valid()
    {
      assert secrets[..k + 1][..k] == secrets[..k];
      t.Insert(secrets[k]);
    }
    assert secrets[..|secrets|] == secrets;
    BuildAccepts(secrets);
  }

  /** A trie holding every value of the map; the values are visited in no particular order. */
  method BuildTrieFromSecretsMap(secrets: map<string, string>) returns (t: Trie)
    ensures fresh(t) && t.Valid()
    ensures forall v :: Accepts(t.nodes, v) <==> v in secrets.Values
  {
    t := new Trie();
    var pending := secrets.Keys;
    ghost var inserted: set<string> := {};
    while pending != {}
      invariant pending <= secrets.Keys && t.Valid()
      invariant inserted <= secrets.Values
      invariant forall k :: k in secrets.Keys && k !in pending ==> secrets[k] in inserted
      invariant forall v :: Accepts(t.nodes, v) <==> v in inserted
      decreases pending
    {
      var key :| key in pending;
      t.Insert(secrets[key]);
      inserted := inserted + {secrets[key]};
      pending := pending - {key};
    }
    forall v | v in secrets.Values
      ensures v in inserted
    {
      var key :| key in secrets.Keys && secrets[key] == v;
    }
  }
}
