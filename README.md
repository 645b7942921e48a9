# Sorted linked-list sets with sentinels

The repository implements an ordered integer set three times. All three use the same
structure: a singly linked chain of nodes with keys in strictly increasing order. A
head sentinel with key `Integer.MIN_VALUE` starts the chain. A tail sentinel with key
`Integer.MAX_VALUE` ends it. The three classes differ only in how they synchronise:

- **`CoarseList`** takes one global lock around each operation.
- **`FineGrainedList`** locks nodes hand over hand. It locks head and head's
  successor. At each step of the search it keeps `curr` locked while it releases
  `pred`, then moves one node on and locks the new `curr`.
- **`OptimisticList`** searches without locks. It then locks the two nodes it found,
  `pred` and `curr`, and re-walks the list from head (`validate`) to check that `pred`
  is still reachable and still points to `curr`. It retries when that check fails.

Every operation runs the same search: `pred`/`curr` walk forward while
`curr.key < key`. Then it does one of three things:

- `add` splices a new node in with `node.next = curr; pred.next = node`;
- `remove` unlinks one with `pred.next = curr.next`;
- `contains` compares keys.

The model runs one operation at a time. An element is its own `int` key, bounded to
Java's 32-bit range.

The Dafny project has four modules:

- **`SortedChain`** (`sorted_chain.dfy`) holds what the three classes share.
  - **On values.** The keys read from head to tail are a `seq<Int32>`. This part defines:
    - `ValidKeys`, the list invariant;
    - `Elements`, the set the chain represents;
    - `Walk`, the search loop;
    - `InsertAt` and `RemoveAt`, the effect of a splice and an unlink on the keys;
    - lemmas that a splice or an unlink keeps the invariant and adds or removes exactly
      one key, and that an unlink of the key just spliced in restores the chain.
  - **On the heap.** A `Node` class and a ghost `spine`, the nodes in chain order. This
    part defines:
    - `IsChain`, `KeysOf` and `ChainValid`;
    - the search loop `Locate`;
    - the link updates `Splice`/`LinkNew` and `Unlink`/`Bypass`. These are proved
      against the value functions.
  - **Locks.** Node locks are ghost: `Acquire` and `Release` work on a ghost set of held
    nodes, refuse to lock a node twice or to release one that is not held, and ensure
    the node is held (not held) afterwards with every other lock as before.
- **`CoarseList`**, **`FineGrainedList`** and **`OptimisticList`** each define one class.
  - **State.** `head`, the ghost `spine` and the ghost `Contents: set<int>`.
  - **Invariant.** `Valid()`, the heap chain from head is valid and represents
    `Contents`.
  - **Operations.** The constructor(s), `Add`, `Remove` and `Contains` as methods with
    `while` loops and in-place link updates. `Add` and `Remove` also return the ghost
    index `at` where the search stopped. Their contracts give the new spine and the new
    key sequence in terms of the old ones at that index.
  - **Lock discipline.** The fine-grained and optimistic operations also return, as
    ghost values, the nodes they locked and the nodes they unlocked, each in order, and
    the set still held. Their contracts state the order:
    - fine-grained (`HandOverHand`): a prefix of the chain from head is locked in chain
      order; every node is unlocked in the order it was locked, except the final
      window, where `curr` is unlocked before `pred`;
    - optimistic: exactly `pred` and then `curr` are locked, and they are unlocked in
      the same order;
    - in both, nothing is held on return.

On two points the documented design and the code disagree, and the model follows the code:

- **The tail key.** The design says the tail carries the maximum key. The
  fine-grained and optimistic constructors leave it at `Integer.MIN_VALUE` (see
  Findings).
- **Key order.** The design says keys are strictly increasing from head to tail.
  The code never compares the head with a search key, so an element with key
  `Integer.MIN_VALUE` can follow the head, whose key is the same. The model's
  invariant asks for strict increase from the first node after head on.

## Model

| member | source | states |
|---|---|---|
| SortedChain.Node.constructor | CoarseList.java:14-17 | a node built from no item (a sentinel) gets key MIN_VALUE; any other node gets the item's key; `next` starts out null |
| SortedChain.Walk | CoarseList.java:35-38 | the loop `while (curr.key < key) curr = curr.next` from node i either stops at the first node whose key is at least `key` (every key before it is smaller) or runs past the last node, and it runs past exactly when every key from i on is smaller |
| SortedChain.WalkStops | CoarseList.java:33-38 | on a valid chain the search stops on a node for every int key, so `curr` never becomes null; at the stop `pred.key < key <= curr.key`, or pred is the head |
| SortedChain.StopDecidesMembership | CoarseList.java:39-40 | for a key below MAX_VALUE, the key is in the set exactly when the node the search stops at carries it, and that node is then not the tail |
| SortedChain.InsertKeepsValid | CoarseList.java:42-45 | splicing a new node in front of the stop node of a search for an absent key keeps the keys sorted between the sentinels and adds exactly that key |
| SortedChain.InsertKeepsOrder | CoarseList.java:42-44 | inserting a key between a smaller predecessor (or the head) and a larger successor keeps the key sequence valid |
| SortedChain.InsertAddsElement | CoarseList.java:42-44 | inserting strictly between the sentinels adds exactly the inserted key to the represented set |
| SortedChain.RemoveKeepsValid | CoarseList.java:64-66 | unlinking the stop node of a search for a present key (below MAX_VALUE) keeps the chain valid and removes exactly that key; the unlinked node is never the tail |
| SortedChain.RemoveKeepsOrder | CoarseList.java:65 | dropping any node strictly between the sentinels keeps the key sequence valid |
| SortedChain.RemoveDropsElement | CoarseList.java:65 | dropping the node with a key removes exactly that key from the represented set, because keys are unique |
| SortedChain.RemoveUndoesInsert | CoarseList.java:42-45 | removing the entry just spliced in at index i gives back the sequence from before the splice, for key sequences and node spines alike |
| SortedChain.InsertedKeyIndex | CoarseList.java:60-64 | after a key is inserted at index i of a valid key sequence, i is the only index (past the head) that carries it, so a later search for that key stops there |
| SortedChain.UnlinkUndoesSplice | CoarseList.java:64-66 | a spine with one entry spliced in at the key's index, then the entry carrying that key unlinked, is the original spine: the unlink removes the very node the splice added |
| SortedChain.TailCollision | CoarseList.java:39-40 | a search for MAX_VALUE stops on the tail itself, whose key then matches although MAX_VALUE is no element; unlinking the tail leaves an invalid chain |
| SortedChain.UnraisedTailBreaksSearch | FineGrainedList.java:30-33 | with both sentinels at MIN_VALUE the chain is invalid; a search for any key above MIN_VALUE runs past the tail onto null, and a search for MIN_VALUE stops on the tail and matches it |
| SortedChain.RaisedTailIsEmptySet | CoarseList.java:21-25 | head(MIN_VALUE) then tail(MAX_VALUE) is a valid chain that represents the empty set |
| SortedChain.Locate | CoarseList.java:33-38 | the search from `pred = head, curr = head.next` never meets null and ends with `pred.next == curr` and `pred.key < key <= curr.key` (or pred the head), adjacent on the spine at the index that Walk predicts |
| SortedChain.Splice | CoarseList.java:42-44 | writes only pred.next; a fresh node with the key takes curr's index in the spine, and the chain stays valid with exactly the key added |
| SortedChain.LinkNew | CoarseList.java:42-44 | after `node.next = curr; pred.next = node` the spine with the fresh node inserted is a well-linked chain whose keys are the old keys with the new key inserted |
| SortedChain.Unlink | CoarseList.java:65 | writes only pred.next; curr, which is not the tail, leaves the spine, and the chain stays valid with exactly the key removed |
| SortedChain.Bypass | CoarseList.java:65 | after `pred.next = curr.next` the spine without curr is a well-linked chain whose keys are the old keys without curr's |
| SortedChain.Acquire | FineGrainedList.java:20-22 | `lock()` on a node not yet held makes it held and leaves every other lock as it was |
| SortedChain.Release | FineGrainedList.java:24-26 | `unlock()` on a held node makes it no longer held and leaves every other lock as it was |
| CoarseList.CoarseList.constructor | CoarseList.java:21-25 | builds head(MIN_VALUE), then tail(MAX_VALUE), then null; the list is valid and Contents is empty |
| CoarseList.CoarseList.Add | CoarseList.java:28-50 | returns true exactly when the key was absent, and Contents becomes Contents + {key}; when false, the node at index `at` carries the key and the spine and every node are unchanged; when true, one fresh node is spliced into the spine at `at` and the key sequence is the old one with the key inserted at `at`, so no other node's key changes |
| CoarseList.CoarseList.Remove | CoarseList.java:53-73 | returns true exactly when the key was present, and Contents becomes Contents - {key}; when false nothing changes; when true the node at `at`, which carried the key and is not the tail, leaves the spine and the key sequence is the old one without index `at` |
| CoarseList.CoarseList.Contains | CoarseList.java:76-89 | returns `key in Contents` and writes nothing |
| CoarseList.CoarseList.SpliceIn | CoarseList.java:42-45 | the splice keeps Valid(), adds the key to Contents and inserts one fresh node at curr's index |
| CoarseList.CoarseList.SpliceOut | CoarseList.java:64-66 | the unlink keeps Valid(), removes the key from Contents and drops curr from the spine |
| CoarseList.AddThenContains | CoarseList.java:42-45 | add(x) followed by contains(x) answers true |
| CoarseList.RemoveThenContains | CoarseList.java:64-68 | remove(x) followed by contains(x) answers false |
| CoarseList.AddThenRemove | CoarseList.java:42-45 | add(x) of an absent x followed by remove(x) gives back the same Contents and the very same spine of nodes |
| FineGrainedList.FineGrainedList.AsWritten | FineGrainedList.java:30-33 | the constructor as written gives a well-linked chain whose keys are MIN_VALUE, MIN_VALUE, which violates the list invariant |
| FineGrainedList.FineGrainedList.constructor | FineGrainedList.java:30-33 | with the tail raised to MAX_VALUE the list is valid and empty |
| FineGrainedList.FineGrainedList.LockCoupledSearch | FineGrainedList.java:39-50 | locks are taken in list order from head and each trailing node is released in that order; at every step exactly pred and curr are held, and they are distinct; the search ends at the window that Walk predicts |
| FineGrainedList.FineGrainedList.Add | FineGrainedList.java:36-64 | the same result and state as the coarse add; the locks follow the hand-over-hand order, ending with curr unlocked and then pred (lines 59, 62), and nothing is held on return |
| FineGrainedList.FineGrainedList.AddAtWindow | FineGrainedList.java:51-57 | with pred and curr held: false and no change when curr carries the key, otherwise one fresh node spliced in at curr's index with the key |
| FineGrainedList.FineGrainedList.Remove | FineGrainedList.java:67-93 | the same result and state as the coarse remove; the locks follow the hand-over-hand order, ending with curr unlocked and then pred (lines 88, 91), and nothing is held on return |
| FineGrainedList.FineGrainedList.RemoveAtWindow | FineGrainedList.java:82-86 | with pred and curr held: curr unlinked when it carries the key, otherwise false and no change |
| FineGrainedList.FineGrainedList.Contains | FineGrainedList.java:96-118 | returns `key in Contents` and writes nothing; the locks follow the hand-over-hand order, ending with curr unlocked and then pred, and nothing is held on return |
| FineGrainedList.ReleaseWindowLast | FineGrainedList.java:45-63 | a search that locked the chain up to curr and released it up to pred, followed by unlocking curr and then pred, keeps the hand-over-hand order |
| FineGrainedList.FineGrainedList.SpliceIn | FineGrainedList.java:54-57 | it may be called only while both pred and curr are locked; it keeps Valid(), adds the key and inserts one fresh node |
| FineGrainedList.FineGrainedList.SpliceOut | FineGrainedList.java:82-86 | it may be called only while both pred and curr are locked; it keeps Valid(), removes the key and drops curr |
| FineGrainedList.AddThenContains | FineGrainedList.java:51-57 | add(x) followed by contains(x) answers true |
| FineGrainedList.RemoveThenContains | FineGrainedList.java:82-86 | remove(x) followed by contains(x) answers false |
| FineGrainedList.AddThenRemove | FineGrainedList.java:54-56 | add(x) of an absent x followed by remove(x) gives back the same Contents and the very same spine of nodes |
| OptimisticList.OptimisticList.AsWritten | OptimisticList.java:30-33 | the constructor as written gives a well-linked chain whose keys are MIN_VALUE, MIN_VALUE, which violates the list invariant |
| OptimisticList.OptimisticList.constructor | OptimisticList.java:30-33 | with the tail raised to MAX_VALUE the list is valid and empty |
| OptimisticList.OptimisticList.Validate | OptimisticList.java:36-45 | on a valid chain it returns true exactly when pred is on the spine and pred.next == curr; it writes nothing |
| OptimisticList.OptimisticList.LockWindow | OptimisticList.java:51-65 | the unlocked search, then locking pred and then curr, then validate: validation succeeds, exactly pred and curr are held, locked in that order, and the window is the one that Walk predicts |
| OptimisticList.OptimisticList.Add | OptimisticList.java:48-81 | the same result and state as the coarse add; exactly the window pred, curr (adjacent on the old spine at `at`) is locked, it is unlocked pred then curr (lines 77-78), and nothing is held on return |
| OptimisticList.OptimisticList.AddAtWindow | OptimisticList.java:66-73 | with pred and curr held: false and no change when curr carries the key, otherwise one fresh node spliced in at curr's index with the key |
| OptimisticList.OptimisticList.Remove | OptimisticList.java:84-115 | the same result and state as the coarse remove; exactly the window pred, curr is locked and it is unlocked pred then curr (lines 111-112); nothing is held on return |
| OptimisticList.OptimisticList.RemoveAtWindow | OptimisticList.java:102-107 | with pred and curr held: curr unlinked when it carries the key, otherwise false and no change |
| OptimisticList.OptimisticList.Contains | OptimisticList.java:118-144 | returns `key in Contents` and writes nothing; exactly the window pred, curr is locked and it is unlocked pred then curr; nothing is held on return |
| OptimisticList.OptimisticList.SpliceIn | OptimisticList.java:69-71 | it may be called only while both pred and curr are locked; it keeps Valid(), adds the key and inserts one fresh node |
| OptimisticList.OptimisticList.SpliceOut | OptimisticList.java:103 | it may be called only while both pred and curr are locked; it keeps Valid(), removes the key and drops curr |
| OptimisticList.AddThenContains | OptimisticList.java:66-72 | add(x) followed by contains(x) answers true |
| OptimisticList.RemoveThenContains | OptimisticList.java:102-107 | remove(x) followed by contains(x) answers false |
| OptimisticList.AddThenRemove | OptimisticList.java:69-71 | add(x) of an absent x followed by remove(x) gives back the same Contents and the very same spine of nodes |

## Left out

- Main.java (the driver) is not part of this model. It runs a thread pool, draws random
  numbers, times the runs and prints, which is I/O and concurrency with no behaviour to
  state.
- Real mutual exclusion is not modelled: `ReentrantLock` blocking, thread interleavings,
  linearizability, deadlock freedom and the `volatile` visibility of
  OptimisticList.java:11. The model runs one operation at a time. CoarseList's global
  lock therefore does not appear. The node locks of the other two classes are a ghost
  set of held nodes.
- `hashCode()` on a generic item is a call into code the model cannot see. An element
  is modelled as its own `int` key, as for `Integer`. A null item, which throws at
  `item.hashCode()`, cannot be passed, because a key is never null.
- The `item` payload field is left out: no operation reads it. The `Set` interface is
  not part of this model.
- The three inner `Node` classes are one `SortedChain.Node` with `key` and `next`. The
  three differ: CoarseList's node has no lock (CoarseList.java:9-18); the fine-grained
  and optimistic nodes carry a `lock` field with `lock()`/`unlock()`, which the ghost
  held-node sets and `Acquire`/`Release` stand for; the optimistic node's `next` is
  `volatile` (OptimisticList.java:11), which matters only under concurrency.
- Unlinked nodes stay allocated; garbage collection does not apply to a Dafny heap.
- OptimisticList.OptimisticList.Add: models one pass of the `while (true)` retry loop.
  With one operation at a time, validation always succeeds (LockWindow proves it), so
  the path that retries after a failed validation, and the lock releases on it, are not
  modelled.
- OptimisticList.OptimisticList.Remove: one pass of the retry loop, for the same reason.
- OptimisticList.OptimisticList.Contains: one pass of the retry loop, for the same reason.
- FineGrainedList.FineGrainedList.Add: proved from the corrected constructor's state. No
  operation's precondition holds on the chain the AsWritten constructor builds (see
  Findings).
- FineGrainedList.FineGrainedList.Remove: proved from the corrected constructor's state,
  as for Add.
- FineGrainedList.FineGrainedList.Contains: proved from the corrected constructor's
  state, as for Add.
- CoarseList.CoarseList.Add: requires key < MAX_VALUE, because a key equal to the tail's
  sentinel key collides with the tail (see Findings).
- CoarseList.CoarseList.Remove: requires key < MAX_VALUE, for the same reason.
- CoarseList.CoarseList.Contains: requires key < MAX_VALUE, for the same reason.
- FineGrainedList.FineGrainedList.Add: requires key < MAX_VALUE. With the tail raised
  to MAX_VALUE, a key equal to it collides with the tail as in CoarseList.
- FineGrainedList.FineGrainedList.Remove: requires key < MAX_VALUE, for the same reason.
- FineGrainedList.FineGrainedList.Contains: requires key < MAX_VALUE, for the same
  reason.
- OptimisticList.OptimisticList.Add: requires key < MAX_VALUE, for the same reason.
- OptimisticList.OptimisticList.Remove: requires key < MAX_VALUE, for the same reason.
- OptimisticList.OptimisticList.Contains: requires key < MAX_VALUE, for the same reason.
- OptimisticList.OptimisticList.Validate: requires that pred is on the spine or has a key
  below MAX_VALUE. For any other pred the source's walk passes the tail and dereferences
  null.

## Findings

| source | as written | input that shows it | evidently intended | confidence | as-written member | corrected member |
|---|---|---|---|---|---|---|
| FineGrainedList.java:30-33 | both sentinels are built with `new Node(null)`, which gives key `Integer.MIN_VALUE` (line 16), and the tail key is never raised | a new list, then `add(5)` or any key above MIN_VALUE: the search passes the tail (key MIN_VALUE < 5), sets `curr = null` and calls `curr.lock()` on it (UnraisedTailBreaksSearch) | the tail key is set to `Integer.MAX_VALUE`, as CoarseList.java:24 does | high, not executed | FineGrainedList.FineGrainedList.AsWritten | FineGrainedList.FineGrainedList.constructor |
| OptimisticList.java:30-33 | same: the tail keeps key `Integer.MIN_VALUE` (line 16) | a new list, then `add(5)`: the unlocked search at lines 55-58 reads `curr.key` on null (UnraisedTailBreaksSearch) | the tail key is set to `Integer.MAX_VALUE` | high, not executed | OptimisticList.OptimisticList.AsWritten | OptimisticList.OptimisticList.constructor |
| CoarseList.java:39-40 | an element key equal to `Integer.MAX_VALUE` is compared with the tail sentinel's key, which is the same | on an empty list, `add(Integer.MAX_VALUE)` returns false and `contains(Integer.MAX_VALUE)` returns true although the set is empty; `remove(Integer.MAX_VALUE)` unlinks the tail, after which a search for any key above the last remaining key runs onto null (TailCollision) | keys stay strictly below the tail's sentinel key | medium, not executed | SortedChain.TailCollision | CoarseList.CoarseList.Add |
