/** The persistent trie: a handle on an optional root and the three
    operations of `Trie`. Every operation returns a new handle and leaves
    its operand untouched; nodes off the rebuilt path are shared. */
module Tries {
  import opened Options
  import opened TrieNodes

  /** A trie version; `root == None` is the empty trie. */
  datatype Trie<V> = Trie(root: Option<Node<V>>)

  /** The tagged value stored under `key` in `t`. */
  function ValueOf<V>(t: Trie<V>, key: string): Option<Tagged<V>>
  {
    ValueAt(t.root, key)
  }

  /** The invariant every trie version keeps: no reachable empty node. */
  ghost predicate ValidTrie<V>(t: Trie<V>)
  {
    t.root.None? || Valid(t.root.value)
  }

  /** The typed view of `ValueOf`: the payload if it was stored as type `tag`. */
  function Find<V>(t: Trie<V>, key: string, tag: TypeId): Option<V>
  {
    var tv := ValueOf(t, key);
    if tv.Some? && tv.value.tag == tag then Some(tv.value.payload) else None
  }

  /** `Trie::Get<T>`: walk one edge per key character, then check the type. */
  method Get<V>(t: Trie<V>, key: string, tag: TypeId) returns (r: Option<V>)
    ensures r == Find(t, key, tag)
    ensures t.root.None? ==> r.None?
    ensures Lookup(t.root, key).None? ==> r.None?
    ensures r.Some? <==> ValueOf(t, key).Some? && ValueOf(t, key).value.tag == tag
    ensures r.Some? ==> r.value == ValueOf(t, key).value.payload
  {
    if t.root.None? {
      return None;
    }
    var node := t.root.value;
    var i := 0;
    while i < |key|
      invariant 0 <= i <= |key|
      invariant Lookup(t.root, key) == Lookup(Some(node), key[i..])
    {
      assert key[i..][0] == key[i] && key[i..][1..] == key[i + 1..];
      if key[i] in node.children {
        node := node.children[key[i]];
      } else {
        return None;
      }
      i := i + 1;
    }
    assert key[i..] == [];
    if node.val.Some? && node.val.value.tag == tag {
      r := Some(node.val.value.payload);
    } else {
      r := None;
    }
  }

  /** The node `Put` builds in place of `prev` for the remaining key: a value
      node keeping the old children at the end of the key, and otherwise a
      clone (or a fresh node) whose edge for the next character is redirected. */
  function PutNode<V>(prev: Option<Node<V>>, key: string, tv: Tagged<V>): Node<V>
    decreases |key|
  {
    if |key| == 0 then
      Node(ChildrenOf(prev), Some(tv))
    else
      var base := if prev.Some? then Clone(prev.value) else EmptyNode();
      Node(base.children[key[0] := PutNode(ChildAt(prev, key[0]), key[1..], tv)], base.val)
  }

  /** `Trie::Put<T>`: store `value` of type `tag` under `key`. */
  function Put<V>(t: Trie<V>, key: string, tag: TypeId, value: V): Trie<V>
  {
    Trie(Some(PutNode(t.root, key, Tagged(tag, value))))
  }

  /** Whether the first pass of `Remove` may cut the node away: a node on the
      way is prunable when it has no value and only the one child leading
      on; the node at the end of the key when it has no children. */
  predicate Prunable<V>(n: Node<V>, atEnd: bool)
  {
    if atEnd then |n.children| == 0 else n.val.None? && |n.children| == 1
  }

  /** The first pass of `Remove`, from the node `n` reached after `i` key
      characters with the cut found so far. A cut `c` with `0 <= c < |key|`
      means: erase edge `key[c]` below the node at depth `c`; `-1` means the
      root itself goes; `|key|` means nothing is cut. `None` is a missing edge. */
  function CutScan<V>(n: Node<V>, key: string, i: nat, cut: int): (r: Option<int>)
    requires i <= |key|
    decreases |key| - i
    ensures r.None? <==> Lookup(Some(n), key[i..]).None?
    ensures r.Some? ==> r.value == cut || i <= r.value <= |key|
  {
    if i == |key| then
      Some(cut)
    else if key[i] !in n.children then
      assert key[i..][0] == key[i];
      None
    else
      var m := n.children[key[i]];
      var next := if Prunable(m, i == |key| - 1) then (if cut == |key| then i else cut) else |key|;
      assert key[i..][0] == key[i] && key[i..][1..] == key[i + 1..];
      CutScan(m, key, i + 1, next)
  }

  /** The cut as the source computes it: it starts at the root sentinel
      and the root itself is never classified. */
  function CutAsWritten<V>(root: Node<V>, key: string): Option<int>
  {
    CutScan(root, key, 0, -1)
  }

  /** The cut with the root classified like every other node on the path. */
  function Cut<V>(root: Node<V>, key: string): Option<int>
  {
    CutScan(root, key, 0, if Prunable(root, |key| == 0) then -1 else |key|)
  }

  /** The second pass of `Remove`, building the node at depth `d` in place
      of `prev`: a clone down to the cut, the edge at the cut erased, and a
      valueless copy of the end node when nothing is cut. */
  function Rebuild<V>(prev: Option<Node<V>>, key: string, d: nat, cut: int): Node<V>
    requires d <= cut <= |key|
    decreases |key| - d
  {
    var base := if prev.Some? then Clone(prev.value) else EmptyNode();
    if d == |key| then
      Node(base.children, None)
    else if cut == d then
      Node(base.children - {key[d]}, base.val)
    else
      Node(base.children[key[d] := Rebuild(ChildAt(prev, key[d]), key, d + 1, cut)], base.val)
  }

  /** Apply the second pass for a cut found by the first. */
  function Prune<V>(t: Trie<V>, key: string, cut: int): Trie<V>
    requires -1 <= cut <= |key|
  {
    if cut == -1 then Trie(None) else Trie(Some(Rebuild(t.root, key, 0, cut)))
  }

  /** `Trie::Remove` exactly as written. */
  function RemoveAsWritten<V>(t: Trie<V>, key: string): Trie<V>
  {
    if t.root.None? then t
    else
      var cut := CutAsWritten(t.root.value, key);
      if cut.None? then t else Prune(t, key, cut.value)
  }

  /** `Trie::Remove` with the root classified before the walk, so that it
      is cut only when it would be left valueless and childless. */
  function Remove<V>(t: Trie<V>, key: string): Trie<V>
  {
    if t.root.None? then t
    else
      var cut := Cut(t.root.value, key);
      if cut.None? then t else Prune(t, key, cut.value)
  }
}
