/** `RemoveAsWritten` against the corrected `Remove`: what the version as
    written still guarantees, exactly when the two agree, and two inputs on
    which the version as written drops keys it was not asked to remove. */
module AsWrittenFacts {
  import opened Options
  import opened TrieNodes
  import opened Tries
  import opened RemoveFacts
  import PutFacts

  /** As written, `Remove(key)` still leaves nothing under `key`. */
  lemma RemoveAsWrittenClearsKey<V>(t: Trie<V>, key: string, tag: TypeId)
    ensures ValueOf(RemoveAsWritten(t, key), key) == None
    ensures Find(RemoveAsWritten(t, key), key, tag) == None
  {
    assert key[0..] == key;
    if t.root.Some? && CutAsWritten(t.root.value, key).Some? {
      var cut := CutAsWritten(t.root.value, key).value;
      CutAsWrittenMeaning(t.root.value, key, cut);
      if cut != -1 {
        RebuildAtKey(t.root.value, key, 0, cut);
      }
    }
  }

  /** As written, `Remove` still keeps the no-empty-node invariant. */
  lemma RemoveAsWrittenKeepsValid<V>(t: Trie<V>, key: string)
    requires ValidTrie(t)
    ensures ValidTrie(RemoveAsWritten(t, key))
  {
    if t.root.Some? && CutAsWritten(t.root.value, key).Some? {
      var cut := CutAsWritten(t.root.value, key).value;
      CutAsWrittenMeaning(t.root.value, key, cut);
      if cut != -1 {
        RebuildValid(t.root.value, key, 0, cut);
      }
    }
  }

  /** The version as written agrees with the corrected one exactly when
      the trie is empty, the root itself may go, or some node below the
      root on the path must stay. Otherwise it returns the empty trie
      while the corrected one keeps the root. */
  lemma RemoveAsWrittenAgrees<V>(t: Trie<V>, key: string)
    ensures RemoveAsWritten(t, key) == Remove(t, key) <==>
            t.root.None? || Prunable(t.root.value, |key| == 0) || !DeadBelow(t.root.value, key, 0)
    ensures t.root.Some? && !Prunable(t.root.value, |key| == 0) && DeadBelow(t.root.value, key, 0) ==>
            RemoveAsWritten(t, key) == Trie(None) && Remove(t, key).root.Some?
  {
    if t.root.Some? && !Prunable(t.root.value, |key| == 0) {
      var root := t.root.value;
      if DeadBelow(root, key, 0) {
        ScanThroughDead(root, key, 0, -1);
        assert Cut(root, key).Some?;
      } else if key[0] in root.children {
        var m := root.children[key[0]];
        if Prunable(m, 1 == |key|) {
          ScanForgetsPending(m, key, 1, 0, -1);
        }
      }
    }
  }

  /** Under the condition of `RemoveAsWrittenAgrees`, the version as
      written leaves every other key's value as it was. */
  lemma RemoveAsWrittenKeepsOtherKeys<V>(t: Trie<V>, key: string, other: string)
    requires t.root.None? || Prunable(t.root.value, |key| == 0) || !DeadBelow(t.root.value, key, 0)
    requires other != key
    ensures ValueOf(RemoveAsWritten(t, key), other) == ValueOf(t, other)
  {
    RemoveAsWrittenAgrees(t, key);
    RemoveKeepsOtherKeys(t, key, other);
  }

  /** Removing `[a]` from a trie holding `[a]` and `[b]`, for any two
      distinct characters: the version as written loses `[b]`, the
      corrected one keeps it. */
  lemma RemoveAsWrittenLosesSibling<V>(a: char, b: char, tagA: TypeId, x: V, tagB: TypeId, y: V)
    requires a != b
    ensures var t := Put(Put(Trie(None), [a], tagA, x), [b], tagB, y);
            && ValueOf(t, [b]) == Some(Tagged(tagB, y))
            && RemoveAsWritten(t, [a]) == Trie(None)
            && ValueOf(Remove(t, [a]), [b]) == Some(Tagged(tagB, y))
  {
    var t := Put(Put(Trie(None), [a], tagA, x), [b], tagB, y);
    PutFacts.PutThenGet(Put(Trie(None), [a], tagA, x), [b], tagB, y, tagB);
    RemoveKeepsOtherKeys(t, [a], [b]);
    var root := t.root.value;
    var leaf: Node<V> := Node(map[], Some(Tagged(tagA, x)));
    assert [a][0] == a && [a][1..] == [];
    assert PutNode(None, [a], Tagged(tagA, x)).children[a] == leaf;
    assert root.children[a] == leaf;
    assert root.children.Keys == {a, b};
    assert DeadBelow(root, [a], 0);
    RemoveAsWrittenAgrees(t, [a]);
  }

  /** Removing "" from any trie whose root has children: the version as
      written returns the empty trie, while the corrected one keeps the
      value under every non-empty key. */
  lemma RemoveAsWrittenEmptyKeyLosesAll<V>(t: Trie<V>, other: string)
    requires t.root.Some? && |t.root.value.children| > 0
    requires other != ""
    ensures RemoveAsWritten(t, "") == Trie(None)
    ensures ValueOf(Remove(t, ""), other) == ValueOf(t, other)
  {
  }
}
