/** Properties of the two passes of `Remove`, of the corrected `Remove`,
    and of `RemoveAsWritten`: what the first pass's cut means, what the
    second pass does with it, and where the two versions part ways. */
module RemoveFacts {
  import opened Options
  import opened TrieNodes
  import opened Tries
  import PutFacts

  /** Every node strictly below `n` on the path for `key[d..]` exists and
      is prunable. */
  ghost predicate DeadBelow<V>(n: Node<V>, key: string, d: nat)
    requires d <= |key|
    decreases |key| - d
  {
    d == |key| ||
    (key[d] in n.children
     && Prunable(n.children[key[d]], d + 1 == |key|)
     && DeadBelow(n.children[key[d]], key, d + 1))
  }

  /** `n`, at depth `d`, and every node below it on the path are prunable:
      the subtree holds nothing but the value at the end of `key`. */
  ghost predicate Dead<V>(n: Node<V>, key: string, d: nat)
    requires d <= |key|
  {
    Prunable(n, d == |key|) && DeadBelow(n, key, d)
  }

  /** `cut` is the right cut for the path below `n`, which sits at depth
      `d` and is not prunable: either the end node keeps children and
      nothing is cut, or the edge at `cut` leads into a dead chain from
      a node that keeps a value or another child. */
  ghost predicate CutFits<V>(n: Node<V>, key: string, d: nat, cut: int)
    requires d <= |key|
    decreases |key| - d
  {
    d <= cut <= |key| &&
    if d == |key| then
      !Prunable(n, true)
    else
      key[d] in n.children &&
      if cut == d then
        !Prunable(n, false) && Dead(n.children[key[d]], key, d + 1)
      else
        CutFits(n.children[key[d]], key, d + 1, cut)
  }

  /** The scan from a node that must be kept ends in a cut that fits. */
  lemma {:induction false} ScanFromKept<V>(n: Node<V>, key: string, i: nat, r: int)
    requires i <= |key| && !Prunable(n, i == |key|)
    requires CutScan(n, key, i, |key|) == Some(r)
    ensures CutFits(n, key, i, r)
    decreases |key| - i, 1
  {
    if i < |key| {
      var m := n.children[key[i]];
      if Prunable(m, i + 1 == |key|) {
        ScanFromPending(m, key, i + 1, i, r);
      } else {
        ScanFromKept(m, key, i + 1, r);
      }
    }
  }

  /** The scan with a pending cut `c` either keeps it, when the rest of the
      path is dead, or ends in a deeper cut that fits. */
  lemma {:induction false} ScanFromPending<V>(n: Node<V>, key: string, i: nat, c: int, r: int)
    requires i <= |key| && c < i
    requires CutScan(n, key, i, c) == Some(r)
    ensures (r == c && DeadBelow(n, key, i)) || (i < r && CutFits(n, key, i, r))
    decreases |key| - i, 0
  {
    if i < |key| {
      var m := n.children[key[i]];
      if Prunable(m, i + 1 == |key|) {
        ScanFromPending(m, key, i + 1, c, r);
      } else {
        ScanFromKept(m, key, i + 1, r);
      }
    }
  }

  /** Through a dead path a pending cut is never replaced. */
  lemma {:induction false} ScanThroughDead<V>(n: Node<V>, key: string, i: nat, c: int)
    requires i <= |key| && c != |key| && DeadBelow(n, key, i)
    ensures CutScan(n, key, i, c) == Some(c)
    decreases |key| - i
  {
    if i < |key| {
      ScanThroughDead(n.children[key[i]], key, i + 1, c);
    }
  }

  /** Once some node below is kept, the pending cut is forgotten. */
  lemma {:induction false} ScanForgetsPending<V>(n: Node<V>, key: string, i: nat, c1: int, c2: int)
    requires i <= |key| && c1 != |key| && c2 != |key| && !DeadBelow(n, key, i)
    ensures CutScan(n, key, i, c1) == CutScan(n, key, i, c2)
    decreases |key| - i
  {
    if key[i] in n.children {
      var m := n.children[key[i]];
      if Prunable(m, i + 1 == |key|) {
        ScanForgetsPending(m, key, i + 1, c1, c2);
      }
    }
  }

  /** What the corrected first pass finds: the whole trie is dead, or the cut fits. */
  lemma CutMeaning<V>(root: Node<V>, key: string, cut: int)
    requires Cut(root, key) == Some(cut)
    ensures (cut == -1 && Dead(root, key, 0)) || (0 <= cut && CutFits(root, key, 0, cut))
  {
    if Prunable(root, |key| == 0) {
      ScanFromPending(root, key, 0, -1, cut);
    } else {
      ScanFromKept(root, key, 0, cut);
    }
  }

  /** What the first pass as written finds: everything below the root is
      dead, whatever the root holds, or the cut fits. */
  lemma CutAsWrittenMeaning<V>(root: Node<V>, key: string, cut: int)
    requires CutAsWritten(root, key) == Some(cut)
    ensures (cut == -1 && DeadBelow(root, key, 0)) || (0 < cut && CutFits(root, key, 0, cut))
  {
    ScanFromPending(root, key, 0, -1, cut);
  }

  /** A dead subtree holds no value under any key but `key[d..]`. */
  lemma {:induction false} DeadHoldsOnlyKey<V>(n: Node<V>, key: string, d: nat, other: string)
    requires d <= |key| && Dead(n, key, d) && other != key[d..]
    ensures ValueAt(Some(n), other) == None
    decreases |key| - d
  {
    if d == |key| {
      assert |other| > 0;
      assert other[0] !in n.children.Keys;
      LookupStep(Some(n), other);
      assert Lookup<V>(None, other[1..]) == None;
    } else {
      SuffixStep(key, d);
      if |other| > 0 {
        if other[0] == key[d] {
          DeadHoldsOnlyKey(n.children[key[d]], key, d + 1, other[1..]);
        } else {
          OnlyChild(n.children, key[d]);
          assert other[0] !in n.children;
          LookupStep(Some(n), other);
          assert Lookup<V>(None, other[1..]) == None;
        }
      }
    }
  }

  /** The end of a dead path exists and has no children. */
  lemma {:induction false} DeadEnd<V>(n: Node<V>, key: string, d: nat)
    requires d <= |key| && Dead(n, key, d)
    ensures Lookup(Some(n), key[d..]).Some?
    ensures |Lookup(Some(n), key[d..]).value.children| == 0
    decreases |key| - d
  {
    if d < |key| {
      SuffixStep(key, d);
      DeadEnd(n.children[key[d]], key, d + 1);
    }
  }

  /** The second pass leaves no value under `key[d..]`: the end node is
      kept without its value exactly when nothing is cut, and otherwise
      the path to it is gone. */
  lemma {:induction false} RebuildAtKey<V>(n: Node<V>, key: string, d: nat, cut: int)
    requires d <= |key| && CutFits(n, key, d, cut)
    ensures Lookup(Some(n), key[d..]).Some?
    ensures Lookup(Some(Rebuild(Some(n), key, d, cut)), key[d..]) ==
            if cut == |key| then Some(Node(Lookup(Some(n), key[d..]).value.children, None)) else None
    ensures cut == |key| <==> |Lookup(Some(n), key[d..]).value.children| > 0
    decreases |key| - d
  {
    if d < |key| {
      SuffixStep(key, d);
      if cut == d {
        DeadEnd(n.children[key[d]], key, d + 1);
      } else {
        RebuildAtKey(n.children[key[d]], key, d + 1, cut);
      }
    }
  }

  /** The second pass leaves every other key's value as it was. */
  lemma {:induction false} RebuildKeepsOthers<V>(n: Node<V>, key: string, d: nat, cut: int, other: string)
    requires d <= |key| && CutFits(n, key, d, cut) && other != key[d..]
    ensures ValueAt(Some(Rebuild(Some(n), key, d, cut)), other) == ValueAt(Some(n), other)
    decreases |key| - d
  {
    if d < |key| && |other| > 0 {
      SuffixStep(key, d);
      if other[0] == key[d] {
        LookupStep(Some(n), other);
        LookupStep(Some(Rebuild(Some(n), key, d, cut)), other);
        if cut == d {
          DeadHoldsOnlyKey(n.children[key[d]], key, d + 1, other[1..]);
        } else {
          RebuildKeepsOthers(n.children[key[d]], key, d + 1, cut, other[1..]);
        }
      }
    }
  }

  /** The second pass creates no empty node: the node losing the edge at
      the cut keeps a value or another child, and the valueless end node
      keeps its children. */
  lemma {:induction false} RebuildValid<V>(n: Node<V>, key: string, d: nat, cut: int)
    requires d <= |key| && Valid(n) && CutFits(n, key, d, cut)
    ensures Valid(Rebuild(Some(n), key, d, cut))
    decreases |key| - d
  {
    if d < |key| {
      if cut == d {
        assert n.val.Some? || |n.children| >= 2;
        assert (n.children - {key[d]}).Keys == n.children.Keys - {key[d]};
      } else {
        RebuildValid(n.children[key[d]], key, d + 1, cut);
      }
    }
  }

  /** `Remove` of a key with a missing edge, or on the empty trie, returns
      its operand unchanged; so does the version as written. */
  lemma RemoveMissingKey<V>(t: Trie<V>, key: string)
    requires Lookup(t.root, key).None?
    ensures Remove(t, key) == t
    ensures RemoveAsWritten(t, key) == t
  {
  }

  /** After `Remove(key)` nothing is stored under `key`, of any type. */
  lemma RemoveClearsKey<V>(t: Trie<V>, key: string, tag: TypeId)
    ensures ValueOf(Remove(t, key), key) == None
    ensures Find(Remove(t, key), key, tag) == None
  {
    assert key[0..] == key;
    if t.root.Some? && Cut(t.root.value, key).Some? {
      var cut := Cut(t.root.value, key).value;
      CutMeaning(t.root.value, key, cut);
      if cut != -1 {
        RebuildAtKey(t.root.value, key, 0, cut);
      }
    }
  }

  /** `Remove(key)` leaves the value under every other key as it was. */
  lemma RemoveKeepsOtherKeys<V>(t: Trie<V>, key: string, other: string)
    requires other != key
    ensures ValueOf(Remove(t, key), other) == ValueOf(t, other)
  {
    assert key[0..] == key;
    if t.root.Some? && Cut(t.root.value, key).Some? {
      var cut := Cut(t.root.value, key).value;
      CutMeaning(t.root.value, key, cut);
      if cut == -1 {
        DeadHoldsOnlyKey(t.root.value, key, 0, other);
      } else {
        RebuildKeepsOthers(t.root.value, key, 0, cut, other);
      }
    }
  }

  /** The node at `key` after `Remove(key)` is the old node without its
      value when it had children, and is gone when it had none. */
  lemma RemoveAtKey<V>(t: Trie<V>, key: string)
    requires Lookup(t.root, key).Some?
    ensures Lookup(Remove(t, key).root, key) ==
            var m := Lookup(t.root, key).value;
            if |m.children| == 0 then None else Some(Node(m.children, None))
  {
    assert key[0..] == key;
    var cut := Cut(t.root.value, key).value;
    CutMeaning(t.root.value, key, cut);
    if cut == -1 {
      DeadEnd(t.root.value, key, 0);
    } else {
      RebuildAtKey(t.root.value, key, 0, cut);
    }
  }

  /** `Remove` keeps the no-empty-node invariant. */
  lemma RemoveKeepsValid<V>(t: Trie<V>, key: string)
    requires ValidTrie(t)
    ensures ValidTrie(Remove(t, key))
  {
    if t.root.Some? && Cut(t.root.value, key).Some? {
      var cut := Cut(t.root.value, key).value;
      CutMeaning(t.root.value, key, cut);
      if cut != -1 {
        RebuildValid(t.root.value, key, 0, cut);
      }
    }
  }

  /** Removing a key that holds no value changes no stored value. */
  lemma RemoveAbsentKey<V>(t: Trie<V>, key: string, other: string)
    requires ValueOf(t, key) == None
    ensures ValueOf(Remove(t, key), other) == ValueOf(t, other)
  {
    if other == key {
      RemoveClearsKey(t, key, 0);
    } else {
      RemoveKeepsOtherKeys(t, key, other);
    }
  }

  /** Delete round trip: putting a fresh key and removing it again gives
      back the operand's contents. */
  lemma PutThenRemove<V>(t: Trie<V>, key: string, tag: TypeId, value: V, other: string)
    requires ValueOf(t, key) == None
    ensures ValueOf(Remove(Put(t, key, tag, value), key), other) == ValueOf(t, other)
  {
    if other == key {
      RemoveClearsKey(Put(t, key, tag, value), key, tag);
    } else {
      RemoveKeepsOtherKeys(Put(t, key, tag, value), key, other);
      PutFacts.PutKeepsOtherKeys(t, key, tag, value, other, tag);
    }
  }
}
