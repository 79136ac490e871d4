/** Properties of `Put`: the round trip, other keys and subtrees left alone,
    the end node's children kept, overwriting, and the node invariant. */
module PutFacts {
  import opened Options
  import opened TrieNodes
  import opened Tries

  /** The node at `key` after `PutNode` holds `tv` and exactly the children
      the old node at `key` had (none if there was no such node). */
  lemma {:induction false} PutNodeAtKey<V>(prev: Option<Node<V>>, key: string, tv: Tagged<V>)
    ensures Lookup(Some(PutNode(prev, key, tv)), key) == Some(Node(ChildrenOf(Lookup(prev, key)), Some(tv)))
    decreases |key|
  {
    if |key| > 0 {
      PutNodeAtKey(ChildAt(prev, key[0]), key[1..], tv);
    }
  }

  /** Every key that is not a prefix of `key` reaches the very same subtree
      as before: `PutNode` only rebuilds the path to `key`. */
  lemma {:induction false} PutNodeElsewhere<V>(prev: Option<Node<V>>, key: string, tv: Tagged<V>, other: string)
    requires !(other <= key)
    ensures Lookup(Some(PutNode(prev, key, tv)), other) == Lookup(prev, other)
    decreases |key|
  {
    var n := PutNode(prev, key, tv);
    assert |other| > 0;
    if |key| == 0 || other[0] != key[0] {
      assert ChildAt(Some(n), other[0]) == ChildAt(prev, other[0]);
    } else {
      assert !(other[1..] <= key[1..]);
      PutNodeElsewhere(ChildAt(prev, key[0]), key[1..], tv, other[1..]);
    }
  }

  /** A node strictly on the path to `key` keeps its old value (none if it
      is new) and gets the edge for the next key character. */
  lemma {:induction false} PutNodeAlongPath<V>(prev: Option<Node<V>>, key: string, tv: Tagged<V>, p: string)
    requires p < key
    ensures Lookup(Some(PutNode(prev, key, tv)), p).Some?
    ensures Lookup(Some(PutNode(prev, key, tv)), p).value.val == ValueAt(prev, p)
    ensures key[|p|] in Lookup(Some(PutNode(prev, key, tv)), p).value.children
    decreases |key|
  {
    if |p| > 0 {
      assert p[1..] < key[1..];
      PutNodeAlongPath(ChildAt(prev, key[0]), key[1..], tv, p[1..]);
    }
  }

  /** `PutNode` changes the value stored under no key other than `key`. */
  lemma PutNodeKeepsOthers<V>(prev: Option<Node<V>>, key: string, tv: Tagged<V>, other: string)
    requires other != key
    ensures ValueAt(Some(PutNode(prev, key, tv)), other) == ValueAt(prev, other)
  {
    if other <= key {
      PutNodeAlongPath(prev, key, tv, other);
    } else {
      PutNodeElsewhere(prev, key, tv, other);
    }
  }

  /** `PutNode` never creates an empty node: each new node on the way gets
      the edge it is linked through, and the end node gets the value. */
  lemma {:induction false} PutNodeValid<V>(prev: Option<Node<V>>, key: string, tv: Tagged<V>)
    requires prev.None? || Valid(prev.value)
    ensures Valid(PutNode(prev, key, tv))
    decreases |key|
  {
    if |key| > 0 {
      PutNodeValid(ChildAt(prev, key[0]), key[1..], tv);
    }
  }

  /** Putting twice under the same key is the same as putting once. */
  lemma {:induction false} PutNodeOverwrite<V>(prev: Option<Node<V>>, key: string, a: Tagged<V>, b: Tagged<V>)
    ensures PutNode(Some(PutNode(prev, key, a)), key, b) == PutNode(prev, key, b)
    decreases |key|
  {
    if |key| > 0 {
      PutNodeOverwrite(ChildAt(prev, key[0]), key[1..], a, b);
    }
  }

  /** Round trip: after `Put(key, value)` as type `tag`, `Get` with the same
      type returns `value`, and with any other type returns nothing. */
  lemma PutThenGet<V>(t: Trie<V>, key: string, tag: TypeId, value: V, other: TypeId)
    ensures ValueOf(Put(t, key, tag, value), key) == Some(Tagged(tag, value))
    ensures Find(Put(t, key, tag, value), key, tag) == Some(value)
    ensures other != tag ==> Find(Put(t, key, tag, value), key, other) == None
  {
    PutNodeAtKey(t.root, key, Tagged(tag, value));
  }

  /** The node at `key` becomes a value node with the old node's children. */
  lemma PutKeepsChildren<V>(t: Trie<V>, key: string, tag: TypeId, value: V)
    ensures Lookup(Put(t, key, tag, value).root, key) == Some(Node(ChildrenOf(Lookup(t.root, key)), Some(Tagged(tag, value))))
  {
    PutNodeAtKey(t.root, key, Tagged(tag, value));
  }

  /** `Put` leaves every other key's value, of every type, as it was. */
  lemma PutKeepsOtherKeys<V>(t: Trie<V>, key: string, tag: TypeId, value: V, other: string, otherTag: TypeId)
    requires other != key
    ensures ValueOf(Put(t, key, tag, value), other) == ValueOf(t, other)
    ensures Find(Put(t, key, tag, value), other, otherTag) == Find(t, other, otherTag)
  {
    PutNodeKeepsOthers(t.root, key, Tagged(tag, value), other);
  }

  /** `Put` shares every subtree off the path to `key` with its operand. */
  lemma PutSharesOffPath<V>(t: Trie<V>, key: string, tag: TypeId, value: V, other: string)
    requires !(other <= key)
    ensures Lookup(Put(t, key, tag, value).root, other) == Lookup(t.root, other)
  {
    PutNodeElsewhere(t.root, key, Tagged(tag, value), other);
  }

  /** `Put` never yields the empty trie and keeps the no-empty-node invariant. */
  lemma PutKeepsValid<V>(t: Trie<V>, key: string, tag: TypeId, value: V)
    requires ValidTrie(t)
    ensures Put(t, key, tag, value).root.Some?
    ensures ValidTrie(Put(t, key, tag, value))
  {
    PutNodeValid(t.root, key, Tagged(tag, value));
  }

  /** Overwriting: the second `Put` under a key replaces the first entirely. */
  lemma PutOverwrites<V>(t: Trie<V>, key: string, tag1: TypeId, v1: V, tag2: TypeId, v2: V)
    ensures Put(Put(t, key, tag1, v1), key, tag2, v2) == Put(t, key, tag2, v2)
  {
    PutNodeOverwrite(t.root, key, Tagged(tag1, v1), Tagged(tag2, v2));
  }
}
