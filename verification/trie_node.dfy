/** The trie's node types. A node is an immutable value holding its child
    edges and, when it is a value node, one value tagged with the identity
    of the C++ type it was stored as. Pointer identity and reference counts
    are not observable here, so sharing a subtree and copying it are the
    same thing. */
module TrieNodes {
  import opened Options

  /** Identity of the C++ value type `T` that a value node was created for;
      a checked downcast to `TrieNodeWithValue<T>` becomes a comparison of
      these identities. */
  type TypeId = nat

  datatype Tagged<V> = Tagged(tag: TypeId, payload: V)

  /** `val` is `Some` exactly for a value node (`is_value_node_`). */
  datatype Node<V> = Node(children: map<char, Node<V>>, val: Option<Tagged<V>>)

  /** A freshly constructed `TrieNode` with no children and no value. */
  function EmptyNode<V>(): Node<V>
  {
    Node(map[], None)
  }

  /** Shallow copy: the same child edges and the same value. */
  function Clone<V>(n: Node<V>): Node<V>
  {
    Node(n.children, n.val)
  }

  /** The child along edge `c`, or `None` when there is no node or no edge. */
  function ChildAt<V>(n: Option<Node<V>>, c: char): Option<Node<V>>
  {
    if n.Some? && c in n.value.children then Some(n.value.children[c]) else None
  }

  /** The children of an optional node; a missing node has none. */
  function ChildrenOf<V>(n: Option<Node<V>>): map<char, Node<V>>
  {
    if n.Some? then n.value.children else map[]
  }

  /** The node reached from `n` by following one edge per key character. */
  function Lookup<V>(n: Option<Node<V>>, key: string): Option<Node<V>>
    decreases |key|
  {
    if n.None? || |key| == 0 then n else Lookup(ChildAt(n, key[0]), key[1..])
  }

  /** The tagged value stored at `key` below `n`, if any. */
  function ValueAt<V>(n: Option<Node<V>>, key: string): Option<Tagged<V>>
  {
    var m := Lookup(n, key);
    if m.Some? then m.value.val else None
  }

  /** A node that carries a value or has at least one child. */
  predicate NonEmpty<V>(n: Node<V>)
  {
    n.val.Some? || |n.children| > 0
  }

  /** No node reachable from `n`, `n` included, is both valueless and childless. */
  ghost predicate Valid<V>(n: Node<V>)
    decreases n
  {
    NonEmpty(n) && forall c :: c in n.children ==> Valid(n.children[c])
  }

  /** A map with one key that contains `x` has no other key. */
  lemma OnlyChild<V>(m: map<char, Node<V>>, x: char)
    requires |m| == 1 && x in m
    ensures m.Keys == {x}
  {
    assert |m.Keys - {x}| == 0;
    assert m.Keys - {x} == {};
  }

  /** Looking up a non-empty key steps through the child at its first character. */
  lemma LookupStep<V>(n: Option<Node<V>>, key: string)
    requires |key| > 0
    ensures Lookup(n, key) == Lookup(ChildAt(n, key[0]), key[1..])
  {
  }

  /** Splitting a suffix of a key into its first character and the rest. */
  lemma SuffixStep(key: string, d: nat)
    requires d < |key|
    ensures |key[d..]| > 0 && key[d..][0] == key[d] && key[d..][1..] == key[d + 1..]
  {
  }
}
