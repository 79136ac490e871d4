# Persistent copy-on-write trie

A Dafny model of the BusTub primer trie (`src/primer/trie.cpp`). The trie is a
persistent string-keyed index. `Get` only reads. `Put` and `Remove` return a
new `Trie` handle that shares every node off the rebuilt path with the operand.

- `TrieNodes` (`trie_node.dfy`) models the node types. A node is an immutable
  `Node(children, val)`. `children` maps a key character to a child node.
  `val` is `Some(Tagged(tag, payload))` exactly for a value node. `tag`
  identifies the C++ type `T` the value was stored as, so the
  `dynamic_pointer_cast` in `Get` becomes a tag comparison. `Clone` is a shallow
  copy. `Lookup` follows one edge per key character. `Valid` is the invariant
  that no reachable node is both valueless and childless.
- `Tries` (`trie.dfy`) models the operations:
  - `Get` is the loop of `Trie::Get<T>`. `Find` is its functional reading.
  - `Put` / `PutNode` rebuild the path to the key.
  - `Remove` has two passes. `CutScan` is the first pass: an index-based walk
    whose cut uses `-1` for the root and `|key|` for "no cut". `Rebuild` is the
    second pass.
  - `RemoveAsWritten` starts the cut at the root sentinel, as the code does.
  - `Remove` classifies the root like every other node on the path (see
    Findings). This corrected version is the one the rest of the model uses.
- `PutFacts`, `RemoveFacts` and `AsWrittenFacts` hold the lemmas.

## Model

| member | source | states |
|---|---|---|
| `Tries.Get` | src/primer/trie.cpp:9-29 | An empty trie or a missing edge gives nothing. Otherwise the result is the payload exactly when the node at the key holds a value stored with the requested type. |
| `Tries.CutScan` | src/primer/trie.cpp:92-120 | The first pass of `Remove` fails exactly when some edge on the key's path is missing. Otherwise it returns the initial cut or an index between the current depth and `|key|`. |
| `PutFacts.PutThenGet` | src/primer/trie.cpp:55-59 | Round trip: after `Put(k, v)` as type `T`, the value under `k` is `v` tagged `T`. `Get` with `T` returns `v`; `Get` with any other type returns nothing. This holds for `k == ""` too. |
| `PutFacts.PutKeepsChildren` | src/primer/trie.cpp:55-59 | The node at the key becomes a value node holding exactly the old node's children, or none if there was no node. |
| `PutFacts.PutNodeAtKey` | src/primer/trie.cpp:46-75 | The same statement for the path-building function, for any old subtree, missing or present. |
| `PutFacts.PutNodeAlongPath` | src/primer/trie.cpp:61-73 | Every node strictly on the path keeps its old value, or has none if it is new. It gains the edge for the next key character. |
| `PutFacts.PutNodeElsewhere` | src/primer/trie.cpp:62-72 | Any key that is not a prefix of the put key reaches the same subtree as before. |
| `PutFacts.PutNodeKeepsOthers` | src/primer/trie.cpp:46-75 | The path-building function changes the value under no key except the put key. |
| `PutFacts.PutKeepsOtherKeys` | src/primer/trie.cpp:57-72 | `Put(k, v)` leaves the value, and `Get` of every type, unchanged for every key other than `k`. |
| `PutFacts.PutSharesOffPath` | src/primer/trie.cpp:62-72 | After `Put(k, v)`, every key that is not a prefix of `k` leads to the same subtree as in the operand. |
| `PutFacts.PutNodeValid` | src/primer/trie.cpp:55-74 | Building the path from a valid or missing subtree creates no empty node. |
| `PutFacts.PutKeepsValid` | src/primer/trie.cpp:55-77 | `Put` never returns the empty trie and keeps the no-empty-node invariant. |
| `PutFacts.PutNodeOverwrite` | src/primer/trie.cpp:55-64 | Building the path twice for one key equals building it once with the second value. |
| `PutFacts.PutOverwrites` | src/primer/trie.cpp:55-59 | `Put(k, v1).Put(k, v2)` equals `Put(k, v2)`, whatever the two types. The old children under `k` survive the overwrite. |
| `RemoveFacts.ScanFromKept` | src/primer/trie.cpp:100-119 | Starting from a node that must be kept, the scan ends in a cut that fits (`CutFits`). Either the end node has children and nothing is cut, or the cut edge leads into a chain of prunable nodes from a node that keeps a value or another child. |
| `RemoveFacts.ScanFromPending` | src/primer/trie.cpp:100-119 | Starting with a pending cut, the scan either keeps that cut, when every node below is prunable, or ends in a deeper cut that fits. |
| `RemoveFacts.ScanThroughDead` | src/primer/trie.cpp:101-115 | Along a path of prunable nodes, a pending cut is never replaced. |
| `RemoveFacts.ScanForgetsPending` | src/primer/trie.cpp:100-119 | Once some node below must be kept, the result does not depend on which pending cut the scan started with. |
| `RemoveFacts.CutMeaning` | src/primer/trie.cpp:88-120 | With the root classified, the cut is `-1` only when the root and everything below it on the path are prunable. Otherwise the cut fits. |
| `RemoveFacts.CutAsWrittenMeaning` | src/primer/trie.cpp:88-120 | With the cut starting at the root sentinel, the cut is `-1` when every node below the root is prunable, whatever the root holds. Otherwise the cut fits. |
| `RemoveFacts.DeadHoldsOnlyKey` | src/primer/trie.cpp:100-119 | A chain of prunable nodes holds no value under any key except the removed one. |
| `RemoveFacts.DeadEnd` | src/primer/trie.cpp:111-115 | A chain of prunable nodes reaches the key's end node, and that node has no children. |
| `RemoveFacts.RebuildAtKey` | src/primer/trie.cpp:127-162 | Given a fitting cut, the second pass keeps the end node without its value, with the same children, exactly when nothing is cut. Otherwise the path to it is gone. |
| `RemoveFacts.RebuildKeepsOthers` | src/primer/trie.cpp:127-162 | Given a fitting cut, the second pass leaves the value under every other key unchanged. |
| `RemoveFacts.RebuildValid` | src/primer/trie.cpp:127-162 | Given a fitting cut and a valid subtree, the second pass creates no empty node. |
| `RemoveFacts.RemoveMissingKey` | src/primer/trie.cpp:90-98 | On the empty trie, or when an edge on the key's path is missing, both versions of `Remove` return the operand unchanged. |
| `RemoveFacts.RemoveClearsKey` | src/primer/trie.cpp:122-164 | After `Remove(k)`, nothing of any type is stored under `k`. |
| `RemoveFacts.RemoveKeepsOtherKeys` | src/primer/trie.cpp:237-238 | After the corrected `Remove(k)`, every other key's value is unchanged. |
| `RemoveFacts.RemoveAtKey` | src/primer/trie.cpp:143-146 | After `Remove(k)`, the node at `k` is the old node without its value if it had children. If it had none, the node is gone. |
| `RemoveFacts.RemoveKeepsValid` | src/primer/trie.cpp:237-238 | The corrected `Remove` keeps the no-empty-node invariant. |
| `RemoveFacts.RemoveAbsentKey` | src/primer/trie.cpp:237-238 | With the corrected `Remove`, removing a key that holds no value changes no stored value. |
| `RemoveFacts.PutThenRemove` | src/primer/trie.cpp:237-238 | Delete round trip for the corrected `Remove`: if `k` holds nothing, `Put(k, v).Remove(k)` stores exactly what the operand stores. |
| `AsWrittenFacts.RemoveAsWrittenClearsKey` | src/primer/trie.cpp:86-164 | As written, `Remove(k)` still leaves nothing of any type under `k`. |
| `AsWrittenFacts.RemoveAsWrittenKeepsValid` | src/primer/trie.cpp:86-164 | As written, `Remove` still keeps the no-empty-node invariant. |
| `AsWrittenFacts.RemoveAsWrittenAgrees` | src/primer/trie.cpp:88-132 | The two versions agree exactly when the trie is empty, or the root is itself prunable, or some node below the root must be kept. When they disagree, the as-written version returns the empty trie and the corrected one keeps a root. |
| `AsWrittenFacts.RemoveAsWrittenKeepsOtherKeys` | src/primer/trie.cpp:88-132 | Under the agreement condition, the as-written `Remove(k)` leaves every other key's value unchanged. |
| `AsWrittenFacts.RemoveAsWrittenLosesSibling` | src/primer/trie.cpp:88-132 | Take any two distinct characters `a` and `b`, and the trie built by putting `[a]` and then `[b]`. The as-written `Remove([a])` returns the empty trie, losing `[b]`. The corrected version keeps `[b]`'s value. |
| `AsWrittenFacts.RemoveAsWrittenEmptyKeyLosesAll` | src/primer/trie.cpp:88-132 | On any trie whose root has children, the as-written `Remove("")` returns the empty trie. The corrected version keeps the value under every non-empty key. |

## Left out

- Reference counting with `shared_ptr`, atomic ownership and thread safety are left out. Immutable datatypes already give the observable semantics.
- Node identity and allocation counts are left out, because pointer identity is not observable for datatypes. Structural sharing is stated as equality of the subtrees reached, in `PutSharesOffPath`.
- Immutability of the operand is not stated as a lemma. Datatype values cannot change, so it holds by construction.
- Move-only values (`std::move`, `unique_ptr`, `MoveBlocked`) and the explicit template instantiations are left out. Every value has one generic payload type `V`, and a `TypeId` tag stands for the C++ type.
- `Get` returns the payload itself rather than a pointer to it.
- The commented-out earlier `Remove` and the unreachable `throw` are dead code and are not modelled.
- The iterator position `key.begin() - 1` is modelled as index `-1`. The pointer arithmetic itself is not modelled.
- `src/primer/trie.h` is not part of this model. The node types are modelled from how the trie uses them.
- `Rebuild` and `PutNode` model the branch that builds a fresh node when the old one is missing. After a successful first pass, `Rebuild` never takes it, and no lemma is stated about it.
- Structural sharing after `Remove` is not stated. Only stored values and the node invariant are.
- A key character stands for one byte of the C++ key. Dafny's `char` is wider, but the model only compares key characters for equality.
- `RemoveAsWritten` of a key whose node holds no value is not promised to change nothing. When some node below the root must be kept, the code rebuilds the path and turns the end node into a plain node with the same children. For the empty key, the code returns the empty trie instead (lines 88 and 128-132). The corrected `Remove` changes no stored value in either case (`RemoveAbsentKey`).
- `PutThenRemove` is stated for the corrected `Remove` only. As written, putting a fresh key `[a]` into a trie holding only `[b]` and removing `[a]` again loses `[b]`, for the reason in the finding below.

## Findings

| source | as written | input that shows it | evidently intended | confidence | as-written member | corrected member |
|---|---|---|---|---|---|---|
| src/primer/trie.cpp:88 | The cut starts at the root sentinel, and the root's own value and other edges are never inspected. When no node below the root must be kept, the second pass returns the empty trie (lines 128-132), dropping every other key. | `Remove("a")` on a trie holding "a" and "b" loses "b". `Remove("")` on any trie whose root has children empties it. | Classify the root like every other node on the path: start with no cut unless the root itself is prunable. Then `Remove` converts or removes only nodes that lose their value or their children, as the comment at lines 237-238 says. | high; not executed | `AsWrittenFacts.RemoveAsWrittenLosesSibling` | `RemoveFacts.RemoveKeepsOtherKeys` |
