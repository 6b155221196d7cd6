# Persistent collections with fat nodes

This project models the core of a Java library of *persistent* collections: an array, a
doubly linked list and a map. Every version of each collection stays readable after later
edits, and `undo` and `redo` move a handle between versions.

The library is built in four layers, and the model keeps them:

1. **A red-black tree** (`BinaryTree`, `Node`) keyed by integer hash. It supports
   insertion with the usual fix-up, exact lookup, a floor lookup (`findNearestLess`: the
   data under the greatest key not above a target) and an in-order listing.
2. **A fat node** (`PersistentNode`). It keeps a tree from modification step to value:
   - `update(step, v)` records `v` at `step`;
   - `value(step)` returns the value of the latest write at or below `step`.
3. **Shared storage** (`PersistentContent`). It holds the collection's content and a
   modification counter (`ModificationCount`) that every `update` raises by one.
4. **Handles** (`BasePersistentCollection`). A handle is an immutable
   `(nodes, count, modificationCount, startModificationCount)` record.
   - A write on a handle at step `s` writes at step `s + 1` and returns a new handle at
     `s + 1`.
   - When the storage counter has already moved past `s`, the write branches. It first
     rebuilds (`reassembleNodes`) a fresh storage by replaying the writes made up to `s`,
     and writes there. For the list, the model replays in the code's order, which can
     replay a link before the node it names (see Findings).

## Module layout

| module | file | contents |
|---|---|---|
| `RedBlackTree` | `tree.dfy` | class `BinaryTree` |
| `FatNode` | `fatnode.dfy` | class `PersistentNode` |
| `Storage` | `content.dfy` | classes `ModificationCount` and `PersistentContent` |
| `Base` | `base.dfy` | the handle datatype |
| `PersistentArrays` | `array.dfy` | the array |
| `PersistentMaps` | `map.dfy` | the map |
| `LinkedData` | `listdata.dfy` | the list's node records |
| `LinkedRebuild` | `listrebuild.dfy` | the list's `reassembleNodes` |
| `PersistentLinkedLists` | `list.dfy` | the list's operations |

## How the model represents the library

**Red-black tree.** The tree is a `Tree` datatype held in the mutable `root` of the class
`BinaryTree`.
- Java's parent links become a zipper path: the sequence of a node's ancestors.
- `find`, `insert` and `insertFixUp` are loops over that path. The loops are proved to
  keep the red-black invariants and the ordered contents.
- The tree's abstract value is `Contents()`, a map from key to data.

**Fat node.** A fat node's abstract value is `History()`, a map from step to value.
- `value(step)` is specified by `NearestLess(History(), step)`.
- The lemmas of `FatNode` state the persistence guarantees:
  - a later write leaves every earlier version as it was;
  - a write is seen from its own step on;
  - a node reads as nothing before it was created.

**Collections.** Each collection operation is a method over the handle datatype. Its
contract has two parts:
- a specification function of the stored content (`Appended`, `Inserted`, `Removed`,
  `Written`, `Cleared`, `FirstAdded`, …) states the new state;
- view lemmas then state what each version reads. The next version reads as the operation
  promises. Earlier versions read as before, except where the code itself changes them:
  array `remove` and `clearAll` and list `removeLast`, listed below.

A stored element is a Java reference, so it is an `Option` (`None` for null) in the
storage and in every write's argument: `add`, `insert` and `replace` of the array, `add`
and `replace` of the map, and `addFirst`, `addLast` and `replace` of the list all accept
null, as the Java methods do.

**Linked list.** The list's nodes point at each other, and the rebuild replaces those
objects. The model therefore keeps all list objects in one `Arena`:
- link nodes map a reference to their history of `DoubleLinkedData` records;
- element nodes map a reference to their history of values;
- Java's `UUID` ids are drawn from a counter.

A version of the list is *well-formed* (`Linked`) when it meets three conditions:
- the walk from the head sentinel reaches the tail through consistent `next` and
  `previous` links;
- its nodes are distinct;
- its elements are read from their element nodes.

**Errors.** A Java exception (`NullPointerException`, `IndexOutOfBoundsException`,
`IllegalArgumentException`) becomes a `Failure` result. Where the code has already changed
state before throwing, the contract says what changed.

Where the library's design and its code differ, the model follows the code. Lemmas name
what the code does instead:
- **Array `remove`.** It drops the last slot together with its history. An earlier version
  then loses its last value (`RemoveLosesLast`, `RemoveUndoCount`).
- **Array `clearAll`.** Its comment promises to set every element to null, but it empties
  the slot list with its histories. On the latest version, every handle on that storage,
  the one it was called on included, then throws on every `get` and iterates nothing
  (`ClearAll`).
- **Map `remove` and `clear`.** They write null and keep the key. `keySet`, `valueSet`
  and the recalculated count still include removed keys (`RemoveKeepsKey`, `ClearView`).
  `iterator` builds its entries with `Map.entry`, which refuses null. So the iterator of a
  version that sees a removed key, or a key stored with a null value, throws
  `NullPointerException` (`Iterator`).
- **List `removeLast`.** It writes the tail's new record at the handle's own step, not the
  next one. This rewrites the version it was called on (`RemoveLastRewritesPast`).
- **List `replace` on a stale handle.** It writes into the nodes of the handle's own
  storage, not into the rebuilt copy, so the replacement is lost
  (`ReplaceMissesOtherList`).
- **List `reassembleNodes` order.** It replays by step and then by record count. A link to
  a node created at the same step can then be replayed before that node is rebuilt, and
  it becomes null (`OrderLinksBeforeCreation`; see Findings). The rebuild replays in this
  order (`OrderedModifications`).
- **List `recalculateCount`.** It walks as many nodes as the handle's own count. So `undo`
  and `redo` keep the count (`RecalculateCount`, `Undo`, `Redo`).
- **List `toList`.** Given one more than the element count, it walks into the tail and
  lists the tail's null element (`ListOverrun`). `get` at the count returns null.
- **Array `replace`.** It lets index `count` through its range check. The Java `List.get` on the slots
  then throws.

## Model

| member | source | states |
|---|---|---|
| RedBlackTree.BinaryTree.constructor | src/main/java/persistence/base/tree/BinaryTree.java:5-6 | a new tree is empty and a valid red-black tree |
| RedBlackTree.BinaryTree.Find | src/main/java/persistence/base/tree/BinaryTree.java:9-35 | find returns the node holding the key exactly when the key is stored, with its data, and the path of its ancestors back to the root |
| RedBlackTree.BinaryTree.Insert | src/main/java/persistence/base/tree/BinaryTree.java:38-78 | insert keeps a valid red-black tree whose contents are the old ones with key mapped to item; an existing key keeps the tree's shape, a new key adds one node, the first key becomes a black root |
| RedBlackTree.BinaryTree.InsertFixUp | src/main/java/persistence/base/tree/BinaryTree.java:146-187 | from a red node under a possibly red parent, the fix-up restores every red-black invariant and keeps the ordered elements |
| RedBlackTree.RotateLeft | src/main/java/persistence/base/tree/BinaryTree.java:100-120 | a left rotation keeps the in-order elements |
| RedBlackTree.RotateRight | src/main/java/persistence/base/tree/BinaryTree.java:123-143 | a right rotation keeps the in-order elements |
| RedBlackTree.BinaryTree.FindNearestLess | src/main/java/persistence/base/tree/BinaryTree.java:81-97 | the walk returns the data under the greatest key not above the target, or null when every key is above it |
| RedBlackTree.NearestLess | src/main/java/persistence/base/tree/BinaryTree.java:81-97 | the floor lookup is empty exactly when every key is above the target |
| RedBlackTree.FloorIsLast | src/main/java/persistence/base/tree/BinaryTree.java:81-97 | in a sorted listing, the floor of a target is the last entry not above it |
| RedBlackTree.BinaryTree.Get | src/main/java/persistence/base/tree/BinaryTree.java:190-193 | get returns data exactly for stored keys, and the data stored |
| RedBlackTree.BinaryTree.Contains | src/main/java/persistence/base/tree/BinaryTree.java:196-198 | contains answers whether the key is stored |
| RedBlackTree.BinaryTree.ToList | src/main/java/persistence/base/tree/BinaryTree.java:201-216 | toList lists every stored key once, in strictly ascending order, with its data, and nothing else |
| RedBlackTree.ElementsAreContents | src/main/java/persistence/base/tree/BinaryTree.java:208-216 | the in-order walk of an ordered tree holds a pair exactly when the tree maps that key to that data |
| RedBlackTree.SortedListingUnique | src/main/java/persistence/base/tree/BinaryTree.java:201-205 | two strictly sorted listings of the same map are equal, so toList's result is determined by the contents |
| FatNode.PersistentNode.constructor | src/main/java/persistence/base/PersistentNode.java:20-22 | a new fat node's history is the single initial write at its creation step |
| FatNode.PersistentNode.Value | src/main/java/persistence/base/PersistentNode.java:30-32 | value returns the latest write at or below the step, and null exactly when every write is later |
| FatNode.PersistentNode.Update | src/main/java/persistence/base/PersistentNode.java:41-44 | update records the value at the step, overwriting a write at the same step, and returns the node itself |
| FatNode.Created | src/main/java/persistence/base/PersistentNode.java:20-22 | the history of a new node holds exactly its initial write |
| FatNode.ReadOwnWrite | src/main/java/persistence/base/PersistentNode.java:30-44 | a write is seen at its own step |
| FatNode.EarlierVersionsKept | src/main/java/persistence/base/PersistentNode.java:30-44 | a write at a step leaves every read at an earlier step as it was |
| FatNode.LatestWriteSeen | src/main/java/persistence/base/PersistentNode.java:30-44 | a write later than all others is seen at every step from its own on |
| FatNode.ReadsAfterLastWrite | src/main/java/persistence/base/PersistentNode.java:30-32 | past the last write every read sees that write |
| FatNode.CreatedReads | src/main/java/persistence/base/PersistentNode.java:20-32 | a new node reads as null before its creation step and as its value from it on |
| FatNode.ThreeVersions | src/main/java/persistence/base/PersistentNode.java:30-44 | three writes at increasing steps are each seen from their step up to the next |
| FatNode.Modifications | src/main/java/persistence/base/tree/BinaryTree.java:201-205 | the listing of a fat node's modifications holds each (step, value) once, in increasing step order |
| FatNode.RestrictReads | src/main/java/persistence/structure/array/PersistentArray.java:51-60 | keeping only the writes up to a bound changes no read at or below the bound |
| Storage.PersistentContent.constructor | src/main/java/persistence/base/PersistentContent.java:22-25 | the storage holds the content and shares the counter object it is given |
| Storage.PersistentContent.Update | src/main/java/persistence/base/PersistentContent.java:32-35 | update leaves the edited content and raises the shared counter by exactly one |
| Base.Versioned | src/main/java/persistence/base/BasePersistentCollection.java:35-37 | the three-argument constructor sets the storage, count and step, with start step 0 |
| Base.Initial | src/main/java/persistence/base/BasePersistentCollection.java:23-26 | the default constructor gives step 0, start step 0 and count 0 |
| PersistentArrays.NewArray | src/main/java/persistence/structure/array/PersistentArray.java:12-15 | a new array has an empty storage with its own counter at 0 and a handle at version 0 |
| PersistentArrays.AddImpl | src/main/java/persistence/structure/array/PersistentArray.java:84-87 | addImpl appends a slot created at step + 1 and raises the counter by one |
| PersistentArrays.InsertImpl | src/main/java/persistence/structure/array/PersistentArray.java:92-105 | insertImpl succeeds exactly on a non-empty list with index within it, shifting right at step + 1; otherwise it fails either before any change or after extending the list, without raising the counter |
| PersistentArrays.ReplaceImpl | src/main/java/persistence/structure/array/PersistentArray.java:110-113 | replaceImpl writes the slot at step + 1 when the index is inside the list, else fails with nothing changed |
| PersistentArrays.RemoveImpl | src/main/java/persistence/structure/array/PersistentArray.java:119-128 | removeImpl shifts left at step + 1 and drops the last slot on a non-empty list, else fails with nothing changed |
| PersistentArrays.ClearImpl | src/main/java/persistence/structure/array/PersistentArray.java:134-136 | clear empties the slot list and raises the counter by one |
| PersistentArrays.Add | src/main/java/persistence/structure/array/PersistentArray.java:141-151 | add returns a handle at step + 1 with one element more over the appended storage, rebuilt first when the handle is behind |
| PersistentArrays.Insert | src/main/java/persistence/structure/array/PersistentArray.java:156-174 | insert rejects indexes outside 0..count, hands index count to add, and otherwise inserts at step + 1, reporting insertImpl's failures and the state they leave |
| PersistentArrays.Replace | src/main/java/persistence/structure/array/PersistentArray.java:179-193 | replace rejects indexes outside 0..count and otherwise writes at step + 1 when the index is in the stored list, the count kept |
| PersistentArrays.Remove | src/main/java/persistence/structure/array/PersistentArray.java:198-212 | remove rejects indexes outside 0..count-1 and otherwise removes at step + 1, one element fewer |
| PersistentArrays.ClearAll | src/main/java/persistence/structure/array/PersistentArray.java:217-227 | clearAll gives a handle at step + 1 with count 0 over an empty storage; on the latest version the handle it was called on then fails every get and iterates nothing |
| PersistentArrays.Get | src/main/java/persistence/structure/array/PersistentArray.java:232-237 | get succeeds exactly for an index below the count and the stored length, with the value the version reads there |
| PersistentArrays.Iterator | src/main/java/persistence/structure/array/PersistentArray.java:240-249 | the iterator yields as many values as recalculateCount counts for the version |
| PersistentArrays.Undo | src/main/java/persistence/structure/array/PersistentArray.java:254-257 | undo keeps the handle at its start step, else moves one step back counting the slots live there |
| PersistentArrays.Redo | src/main/java/persistence/structure/array/PersistentArray.java:262-265 | redo keeps the handle at the storage counter, else moves one step on counting the slots live there |
| PersistentArrays.RecalculateCount | src/main/java/persistence/structure/array/PersistentArray.java:271-278 | the count of slots with a write at or below the step is the length of what the iterator yields |
| PersistentArrays.CollectModifications | src/main/java/persistence/structure/array/PersistentArray.java:42-64 | the loop collects every slot's writes at or below the step, slot by slot |
| PersistentArrays.ReassembleNodes | src/main/java/persistence/structure/array/PersistentArray.java:37-79 | the rebuild is a fresh storage holding the replayed writes, its counter at the step plus one per replayed write |
| PersistentArrays.SettledView | src/main/java/persistence/structure/array/PersistentArray.java:240-249 | a storage written only up to a step reads the same at every later step, and every slot counts |
| PersistentArrays.SameUpToView | src/main/java/persistence/structure/array/PersistentArray.java:240-249 | storages that agree up to a step show a version at that step the same values |
| PersistentArrays.AddView | src/main/java/persistence/structure/array/PersistentArray.java:84-87 | after add the next version reads the old values with the new one appended |
| PersistentArrays.AddKeepsVersion | src/main/java/persistence/structure/array/PersistentArray.java:84-87 | add leaves the version it was called on as it was |
| PersistentArrays.InsertView | src/main/java/persistence/structure/array/PersistentArray.java:92-105 | after insert the next version reads the value at the index and the rest moved one to the right |
| PersistentArrays.InsertKeepsVersion | src/main/java/persistence/structure/array/PersistentArray.java:92-105 | insert leaves the version it was called on as it was |
| PersistentArrays.ReplaceView | src/main/java/persistence/structure/array/PersistentArray.java:110-113 | after replace the next version differs at the index only |
| PersistentArrays.ReplaceKeepsVersion | src/main/java/persistence/structure/array/PersistentArray.java:110-113 | replace leaves the version it was called on as it was |
| PersistentArrays.RemoveView | src/main/java/persistence/structure/array/PersistentArray.java:119-128 | after remove the next version reads the old values without the one at the index |
| PersistentArrays.RemoveLosesLast | src/main/java/persistence/structure/array/PersistentArray.java:125-126 | remove drops the last slot's history, so the version it was called on loses its last value |
| PersistentArrays.RemoveUndoCount | src/main/java/persistence/structure/array/PersistentArray.java:254-257 | after a remove, undo counts one slot fewer than the version it returns to had |
| PersistentArrays.ReassembledSettled | src/main/java/persistence/structure/array/PersistentArray.java:37-79 | a rebuilt storage is written only up to the step it was rebuilt for, and in every slot |
| PersistentArrays.ReassembledLive | src/main/java/persistence/structure/array/PersistentArray.java:37-79 | when the live slots come first, the rebuild holds exactly them, each cut at the step, and the count is their number |
| PersistentArrays.ReassembledKeepsVersion | src/main/java/persistence/structure/array/PersistentArray.java:37-79 | the rebuild reads as the shared storage at every step up to the rebuilt one, and its length is the version's count |
| PersistentArrays.ReplayedAtLeastLive | src/main/java/persistence/structure/array/PersistentArray.java:66-76 | the replay raises the rebuilt counter at least once per live slot |
| PersistentMaps.NewMap | src/main/java/persistence/structure/map/PersistentMap.java:10-12 | a new map has an empty tree with its own counter at 0 and a handle at version 0 |
| PersistentMaps.ImplAdd | src/main/java/persistence/structure/map/PersistentMap.java:57-59 | implAdd puts a node created at step + 1 under the key and raises the counter by one |
| PersistentMaps.ImplWrite | src/main/java/persistence/structure/map/PersistentMap.java:61-75 | implRemove and implReplace write null or the value into the key's node at step + 1 |
| PersistentMaps.ClearNodes | src/main/java/persistence/structure/map/PersistentMap.java:67-69 | the loop writes null at step + 1 into every node of the tree |
| PersistentMaps.ImplClear | src/main/java/persistence/structure/map/PersistentMap.java:65-71 | implClear writes null into every node at step + 1 and raises the counter by one |
| PersistentMaps.Seen | src/main/java/persistence/structure/map/PersistentMap.java:77-93 | the guard holds exactly when the version sees the key |
| PersistentMaps.Add | src/main/java/persistence/structure/map/PersistentMap.java:77-93 | add rejects a key the version sees, leaving everything unchanged, and otherwise adds it at step + 1 with count + 1 |
| PersistentMaps.Remove | src/main/java/persistence/structure/map/PersistentMap.java:95-111 | remove returns the same handle for an unseen key, and otherwise writes null at step + 1 with count - 1 |
| PersistentMaps.Clear | src/main/java/persistence/structure/map/PersistentMap.java:113-124 | clear writes null into every node at step + 1 with count 0 |
| PersistentMaps.Replace | src/main/java/persistence/structure/map/PersistentMap.java:126-142 | replace rejects an unseen key, and otherwise writes the value at step + 1 with the count kept |
| PersistentMaps.Get | src/main/java/persistence/structure/map/PersistentMap.java:144-150 | get returns what the version sees under the key, null when it sees nothing |
| PersistentMaps.KeySet | src/main/java/persistence/structure/map/PersistentMap.java:152-163 | keySet holds exactly the keys with a write at or below the step, removed keys included |
| PersistentMaps.ValueSet | src/main/java/persistence/structure/map/PersistentMap.java:166-177 | valueSet holds exactly the values those keys read at the step |
| PersistentMaps.Iterator | src/main/java/persistence/structure/map/PersistentMap.java:179-185 | the iterator throws NullPointer exactly when the version sees a null value; otherwise it yields the version's entries, values dereferenced, once each in key order |
| PersistentMaps.Undo | src/main/java/persistence/structure/map/PersistentMap.java:187-190 | undo keeps the handle at its start step, else moves one step back counting the keys seen there |
| PersistentMaps.Redo | src/main/java/persistence/structure/map/PersistentMap.java:192-200 | redo keeps the handle at the storage counter, else moves one step on counting the keys seen there |
| PersistentMaps.RecalculateCount | src/main/java/persistence/structure/map/PersistentMap.java:202-209 | the count is the number of keys a version at the step sees |
| PersistentMaps.CollectModifications | src/main/java/persistence/structure/map/PersistentMap.java:24-37 | the first loop collects every node's writes at or below the step, node by node in key order |
| PersistentMaps.ReplayAll | src/main/java/persistence/structure/map/PersistentMap.java:39-52 | the second loop replays each write into the new tree and raises the counter once per write |
| PersistentMaps.ReassembleNodes | src/main/java/persistence/structure/map/PersistentMap.java:18-55 | the rebuild is a fresh tree holding every key's writes up to the step, with the counter at the step plus the number of replayed writes |
| PersistentMaps.LiveRead | src/main/java/persistence/structure/map/PersistentMap.java:144-163 | a key passes the keySet filter exactly when a read at the step finds a write |
| PersistentMaps.LiveLater | src/main/java/persistence/structure/map/PersistentMap.java:152-163 | a key seen at a step is seen at every later step |
| PersistentMaps.SameUpToView | src/main/java/persistence/structure/map/PersistentMap.java:179-185 | stores that agree up to a step show every version up to it the same entries |
| PersistentMaps.CurrentView | src/main/java/persistence/structure/map/PersistentMap.java:179-185 | a store written only up to a step reads the same at every later step |
| PersistentMaps.ViewUpdate | src/main/java/persistence/structure/map/PersistentMap.java:179-185 | changing one key's node changes the view at that key only |
| PersistentMaps.AddView | src/main/java/persistence/structure/map/PersistentMap.java:57-59 | after add the next version sees the new entry besides the old ones, and the version at the step is kept |
| PersistentMaps.WriteView | src/main/java/persistence/structure/map/PersistentMap.java:61-75 | after replace or remove the next version differs at that key only, and the version at the step is kept |
| PersistentMaps.RemoveKeepsKey | src/main/java/persistence/structure/map/PersistentMap.java:61-63 | after remove the next version still lists the key, with null, and as many keys as before |
| PersistentMaps.ClearView | src/main/java/persistence/structure/map/PersistentMap.java:65-71 | after clear the next version sees every stored key with null, and the version at the step is kept |
| PersistentMaps.CutView | src/main/java/persistence/structure/map/PersistentMap.java:18-55 | the rebuilt store is written only up to the step and shows every version up to it what the old one did |
| PersistentMaps.ReplayListing | src/main/java/persistence/structure/map/PersistentMap.java:39-52 | replaying a sorted listing's writes rebuilds the cut of the dictionary it lists |
| PersistentMaps.ReassembledIsCut | src/main/java/persistence/structure/map/PersistentMap.java:18-55 | the store reassembleNodes builds is the cut at the step |
| PersistentMaps.ReplayedAtLeastLive | src/main/java/persistence/structure/map/PersistentMap.java:39-52 | the replay raises the rebuilt counter at least once per key the version sees |
| PersistentMaps.LiveListingView | src/main/java/persistence/structure/map/PersistentMap.java:179-185 | filtering the tree's listing yields the version's view once per key in key order |
| LinkedData.Arena.NewValue | src/main/java/persistence/base/PersistentNode.java:20-22 | a new element node is a fresh reference whose history is its one write |
| LinkedData.Arena.NewNode | src/main/java/persistence/base/PersistentNode.java:20-22 | a new link node is a fresh reference whose history is its one record |
| LinkedData.Arena.NewData | src/main/java/persistence/structure/list/DoubleLinkedData.java:13-18 | the three-argument record gets the links and element given and an id no record carries |
| LinkedData.Arena.Update | src/main/java/persistence/base/PersistentNode.java:41-44 | update on a link node records the record at the step and changes nothing else |
| LinkedData.Arena.UpdateValue | src/main/java/persistence/base/PersistentNode.java:41-44 | update on an element node records the value at the step and changes nothing else |
| LinkedData.ListView | src/main/java/persistence/structure/list/PersistentLinkedList.java:338-346 | on a well-formed version toList returns the elements of its nodes in order |
| LinkedData.ListOverrun | src/main/java/persistence/structure/list/PersistentLinkedList.java:338-346 | told one element more, toList walks into the tail and lists its null element without failing |
| LinkedData.CollectChain | src/main/java/persistence/structure/list/PersistentLinkedList.java:341-344 | walking n nodes of a chain collects their elements |
| LinkedData.FollowChain | src/main/java/persistence/structure/list/PersistentLinkedList.java:241-248 | k steps along a chain reach the node k further on, null one past the end, and throw beyond |
| LinkedData.FindNodeLinked | src/main/java/persistence/structure/list/PersistentLinkedList.java:241-248 | findNode reaches the num-th node, the tail at the count, null one past it, and throws further on |
| LinkedData.SearchChain | src/main/java/persistence/structure/list/PersistentLinkedList.java:151-160 | contains' walk answers as the first match among the chain's elements, throwing on a null before a match |
| LinkedRebuild.CollectModifications | src/main/java/persistence/structure/list/PersistentLinkedList.java:40-54 | the first loop collects every node's records up to the step and each node's record count, and every collected record is a record the node holds |
| LinkedRebuild.NodeEntries | src/main/java/persistence/structure/list/PersistentLinkedList.java:45-49 | every collected entry is a record the node holds at its step, at most the handle's step, keyed by its own id |
| LinkedRebuild.OneIdInStepOrder | src/main/java/persistence/structure/list/PersistentLinkedList.java:45-49 | the sort by id keeps one node's records in step order, since they share one id |
| LinkedRebuild.SortBySorted | src/main/java/persistence/structure/list/PersistentLinkedList.java:55-65 | the sort orders by its key and keeps every entry as often as before |
| LinkedRebuild.SortByKeepsSorted | src/main/java/persistence/structure/list/PersistentLinkedList.java:55-65 | on input already in order the sort changes nothing |
| LinkedRebuild.Order | src/main/java/persistence/structure/list/PersistentLinkedList.java:55-65 | the ordering as written fails exactly when a node's count is missing, else it is a permutation sorted by step and then by count |
| LinkedRebuild.CountOrderBefore | src/main/java/persistence/structure/list/PersistentLinkedList.java:55-65 | in the ordering as written, a record of a node with fewer records precedes every record, from its step on, of a node with more, so that node is not rebuilt yet |
| LinkedRebuild.OrderLinksBeforeCreation | src/main/java/persistence/structure/list/PersistentLinkedList.java:55-98 | after five writes, the ordering as written replays the head's link to the first element before that element exists, and the link is renamed to null |
| LinkedRebuild.ReplayOrder | src/main/java/persistence/structure/list/PersistentLinkedList.java:55-65 | the corrected ordering fails exactly when a node's count is missing, else it is a permutation sorted by step, creations first within a step, then count |
| LinkedRebuild.CreationsFirst | src/main/java/persistence/structure/list/PersistentLinkedList.java:55-65 | in the corrected ordering a node's creation precedes every record of a later step and every other record of its own step |
| LinkedRebuild.ReplayOrderAfter | src/main/java/persistence/structure/list/PersistentLinkedList.java:55-65 | in the corrected ordering a node's creation is rebuilt before another record of its step replays |
| LinkedRebuild.ReplayOrderLinksAfterCreation | src/main/java/persistence/structure/list/PersistentLinkedList.java:55-98 | on the same five writes the corrected ordering rebuilds the first element before the head's link to it, which is renamed to the rebuilt node |
| LinkedRebuild.OrderedModifications | src/main/java/persistence/structure/list/PersistentLinkedList.java:40-65 | the collected records in the code's replay order, by step and then by the node's record count, each a record the arena holds |
| LinkedRebuild.Relink | src/main/java/persistence/structure/list/PersistentLinkedList.java:96-98 | a non-null renamed link is the rebuilt node of the id the old link's node has at the step |
| LinkedRebuild.NewRebuilt | src/main/java/persistence/structure/list/PersistentLinkedList.java:67-85 | a new rebuilt node is registered under its id, built from new objects only |
| LinkedRebuild.ReplayExisting | src/main/java/persistence/structure/list/PersistentLinkedList.java:93-99 | replaying a record of a rebuilt node writes only rebuilt objects, its next link renamed through the nodes rebuilt so far, or fails with nothing changed |
| LinkedRebuild.ReplayEntry | src/main/java/persistence/structure/list/PersistentLinkedList.java:88-109 | one replayed record registers its id among the rebuilt nodes, or fails with nothing changed |
| LinkedRebuild.ReplayRest | src/main/java/persistence/structure/list/PersistentLinkedList.java:88-109 | the replay loop writes only new objects and ends with every replayed id rebuilt |
| LinkedRebuild.ReplayNew | src/main/java/persistence/structure/list/PersistentLinkedList.java:100-108 | replaying a record of a new id creates and registers a rebuilt node, or fails with nothing changed |
| LinkedRebuild.ReplayAll | src/main/java/persistence/structure/list/PersistentLinkedList.java:67-109 | the placeholders and the replay write only new objects and rebuild exactly the replayed ids; fewer than two records make the first lookup throw |
| LinkedRebuild.ReassembleNodes | src/main/java/persistence/structure/list/PersistentLinkedList.java:38-116 | the rebuild leaves every existing object as it was, writes new objects only at steps up to the handle's, and gives a fresh storage over rebuilt sentinels with its counter at the handle's step |
| PersistentLinkedLists.NewList | src/main/java/persistence/structure/list/PersistentLinkedList.java:11-19 | a new list is the empty well-formed list at step 0, with its own counter at 0 |
| PersistentLinkedLists.EmptyLinked | src/main/java/persistence/structure/list/PersistentLinkedList.java:11-19 | the two sentinels linked at step 0 form the empty well-formed list, and toList returns nothing |
| PersistentLinkedLists.AddFirstImpl | src/main/java/persistence/structure/list/PersistentLinkedList.java:216-239 | the private addFirst succeeds exactly when the head and its successor have records, and then writes the specified records at step + 1 |
| PersistentLinkedLists.AddLastImpl | src/main/java/persistence/structure/list/PersistentLinkedList.java:266-290 | the private addLast succeeds exactly when the tail and its predecessor have records, and then writes the specified records at step + 1 |
| PersistentLinkedLists.RemoveFirstImpl | src/main/java/persistence/structure/list/PersistentLinkedList.java:292-312 | the private removeFirst succeeds exactly when the nodes it reads have records, and otherwise changes nothing |
| PersistentLinkedLists.RemoveLastImpl | src/main/java/persistence/structure/list/PersistentLinkedList.java:314-335 | the private removeLast succeeds exactly when the nodes it reads have records, writing the tail at the handle's own step |
| PersistentLinkedLists.ClearImpl | src/main/java/persistence/structure/list/PersistentLinkedList.java:131-138 | the body of clear rewrites both sentinels at step + 1, and a missing tail record throws after the head was rewritten |
| PersistentLinkedLists.ReplaceImpl | src/main/java/persistence/structure/list/PersistentLinkedList.java:251-264 | the private replace writes the node findNode locates and its element node at step + 1, or fails with nothing changed |
| PersistentLinkedLists.ReplaceLocates | src/main/java/persistence/structure/list/PersistentLinkedList.java:241-253 | on a well-formed version replace locates the node at the index and reads its record |
| PersistentLinkedLists.FindNodeImpl | src/main/java/persistence/structure/list/PersistentLinkedList.java:241-248 | findNode follows num next links from the first node, failing on a null |
| PersistentLinkedLists.ToListImpl | src/main/java/persistence/structure/list/PersistentLinkedList.java:338-346 | toList collects count elements from the first node on, failing on a null |
| PersistentLinkedLists.ContainsImpl | src/main/java/persistence/structure/list/PersistentLinkedList.java:151-160 | contains walks count nodes comparing their elements with equals |
| PersistentLinkedLists.ContainsLinked | src/main/java/persistence/structure/list/PersistentLinkedList.java:151-160 | on a well-formed version contains answers membership when no element is null, and throws when a null comes before a match |
| PersistentLinkedLists.Get | src/main/java/persistence/structure/list/PersistentLinkedList.java:118-124 | get reads the element of the node findNode reaches, null at the tail |
| PersistentLinkedLists.GetLinked | src/main/java/persistence/structure/list/PersistentLinkedList.java:118-124 | on a well-formed version get returns the element below the count, null at the count, and throws beyond |
| PersistentLinkedLists.RecalculateCount | src/main/java/persistence/structure/list/PersistentLinkedList.java:33-36 | recalculateCount answers the handle's own count whenever toList does not throw |
| PersistentLinkedLists.Undo | src/main/java/persistence/structure/list/PersistentLinkedList.java:348-356 | undo keeps the handle at its start step, else moves one step back with the recalculated count |
| PersistentLinkedLists.Redo | src/main/java/persistence/structure/list/PersistentLinkedList.java:358-365 | redo keeps the handle at the storage counter, else moves one step on with the recalculated count |
| PersistentLinkedLists.Rebuild | src/main/java/persistence/structure/list/PersistentLinkedList.java:38-116 | a write to a stale version gets a fresh copy at the version's step, built from new objects only |
| PersistentLinkedLists.AddFirst | src/main/java/persistence/structure/list/PersistentLinkedList.java:181-188 | addFirst on the latest version writes through the private addFirst and returns step + 1 with one element more; on a stale version it writes only into a rebuilt copy |
| PersistentLinkedLists.AddLast | src/main/java/persistence/structure/list/PersistentLinkedList.java:172-179 | addLast on the latest version writes through the private addLast and returns step + 1 with one element more; on a stale version it writes only into a rebuilt copy |
| PersistentLinkedLists.RemoveFirst | src/main/java/persistence/structure/list/PersistentLinkedList.java:203-214 | removeFirst returns an empty version as it is, else removes at step + 1 with one element fewer |
| PersistentLinkedLists.RemoveLast | src/main/java/persistence/structure/list/PersistentLinkedList.java:190-201 | removeLast returns an empty version as it is, else removes with one element fewer |
| PersistentLinkedLists.Clear | src/main/java/persistence/structure/list/PersistentLinkedList.java:126-149 | clear returns an empty version as it is, else relinks the sentinels at step + 1 with count 0 |
| PersistentLinkedLists.Replace | src/main/java/persistence/structure/list/PersistentLinkedList.java:162-170 | replace returns the version as it is for an index above the count, else writes the located node and element at step + 1 |
| PersistentLinkedLists.AddFirstView | src/main/java/persistence/structure/list/PersistentLinkedList.java:216-239 | after addFirst the next version is the new element followed by the old ones, well-formed, and every version up to the step reads as before |
| PersistentLinkedLists.AddLastView | src/main/java/persistence/structure/list/PersistentLinkedList.java:266-290 | after addLast the next version is the old elements followed by the new one, well-formed, and every version up to the step reads as before |
| PersistentLinkedLists.RemoveFirstView | src/main/java/persistence/structure/list/PersistentLinkedList.java:292-312 | after removeFirst the next version is the old elements without the first, well-formed, and every version up to the step reads as before |
| PersistentLinkedLists.RemoveLastView | src/main/java/persistence/structure/list/PersistentLinkedList.java:314-335 | after removeLast the next version is the old elements without the last, well-formed, and every version before the step reads as before |
| PersistentLinkedLists.RemoveLastRewritesPast | src/main/java/persistence/structure/list/PersistentLinkedList.java:326-331 | removeLast changes the tail's backward link in the version it was called on, which is then no longer well-formed although its forward walk is unchanged |
| PersistentLinkedLists.ClearView | src/main/java/persistence/structure/list/PersistentLinkedList.java:131-138 | after clear the next version is the empty well-formed list, and every version up to the step reads as before |
| PersistentLinkedLists.ReplaceView | src/main/java/persistence/structure/list/PersistentLinkedList.java:251-264 | after replace the next version is the same list with the element at the index replaced, well-formed, and every version up to the step reads as before |
| PersistentLinkedLists.ReplaceMissesOtherList | src/main/java/persistence/structure/list/PersistentLinkedList.java:162-170 | replace's writes into the stale version's nodes leave any other well-formed list, such as the rebuilt copy, reading at step + 1 as it did |

## Left out

- Java object identity for the linked list. It is modelled as an arena of references to
  node histories. Sharing a node between versions is sharing a reference in the arena.
- `UUID.randomUUID` becomes a counter. Its guarantee is kept: a new record's id is one no
  existing record carries.
- LinkedRebuild.ReassembleNodes: states that the rebuild leaves every existing object as it
  was, creates only new objects written at steps up to the handle's, and gives a counter at
  the handle's step. It replays in the code's order (`Order`), which can rename a link to
  null (see Findings). It does not state that the rebuilt copy reads as the old version,
  which with that order is false in general.
- LinkedRebuild.Order: the `groupingBy` map's iteration order is left unspecified. The
  result is stated as a permutation sorted by step and then by count, which holds whatever
  that order is. The stability of the final sort is proved only for input already in
  order (`SortByKeepsSorted`). The counterexample (`OrderLinksBeforeCreation`) does not
  depend on stability, since the counts there differ.
- PersistentLinkedLists.Replace: requires that the handle's sentinels are nodes of the
  arena (`Anchored`), as does `Clear`. Every list built through `NewList` and the
  operations has this.
- ModificationCount is not part of this model's sources. It is modelled, from its use in
  `PersistentContent.update`, as a class with one mutable integer.
- `PersistentNode.getModifications` does not exist in the node class, although the
  collections call it. The model reads the fat node's history directly.
- `Node.setKey` and `setHash` are not modelled, and neither is a hash separate from the
  key. Keys are integer steps and integer map keys, whose hash is the value itself.
- Java's 32-bit `int`: steps, counts and keys are unbounded integers. `BinaryTree.findNearestLess`
  compares keys by subtraction, and its overflow is not modelled. The exception is the
  list's `get` and `replace` index, which is kept to the `int` range because `findNode`
  counts it down to 0 (`Countdown`).
- The list operations require a count of at least 0. The list's own operations never
  give a handle a negative count: `removeFirst` and `removeLast` return an empty version
  as it is. With a negative count, the Java loops `for (i = count; i != 0; i--)` would
  run through the `int` wrap-around, which is not modelled.
- PersistentLinkedLists.Rebuild: states the same frame as `LinkedRebuild.ReassembleNodes`
  and no more. It does not state that the copy reads as the version it was rebuilt from.
  The rebuild replays in the code's order, with which that is false in general (see
  Findings).
- PersistentLinkedLists.AddFirst: on a stale version, states only that existing objects
  are left as they were and that the shared storage is unchanged. What the rebuilt copy
  then reads is not stated.
- PersistentLinkedLists.AddLast: on a stale version, states only that existing objects are
  left as they were and that the shared storage is unchanged.
- PersistentLinkedLists.RemoveFirst: on a stale version, states only that existing objects
  are left as they were and that the shared storage is unchanged.
- PersistentLinkedLists.RemoveLast: on a stale version, states only that existing objects
  are left as they were and that the shared storage is unchanged.
- PersistentLinkedLists.Clear: on a stale version, states only that existing objects are
  left as they were and that the shared storage is unchanged.
- The `size()` and `getCount()` accessors return the handle's `count` field and are not
  separate members. The `IUndoRedo` interface only declares `undo` and `redo`.
- Lazy iterators and Java `Set`s are modelled as sequences and sets of the values they
  yield.
- The exact exception message and type hierarchy are modelled as three failure kinds.
- A `Failure` result stands for an exception escaping the public method. State changed
  before the throw is stated where the code makes it (`InsertImpl`, `ClearImpl`,
  `AddFirstImpl`, `AddLastImpl`).

## Findings

| source | as written | input that shows it | evidently intended | confidence | as-written member | corrected member |
|---|---|---|---|---|---|---|
| src/main/java/persistence/structure/list/PersistentLinkedList.java:55-65 | the replay order sorts by step and then by the node's record count; a record of a node with fewer records goes first, even when it links to a node created at that step, and `newNodes.get` (line 97) then gives null | `new PersistentLinkedList().addLast(x).addLast(y).removeLast().addLast(z).removeLast()` is the version at step 5; after one more write to it, a second write to it rebuilds. At step 1 the head (3 records) links to x's node (5 records), so the head's record is replayed first and the copy's head has a null `next` (`OrderLinksBeforeCreation`) | within a step, a node's creation is replayed before the step's other records, so links to it find it rebuilt (`CreationsFirst`, `ReplayOrderLinksAfterCreation`) | not executed | LinkedRebuild.Order | LinkedRebuild.ReplayOrder |
