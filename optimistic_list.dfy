/** OptimisticList: the chain is searched without locks; only the window found,
    pred and curr, is locked, and validate() then re-walks the list from head to
    check that pred is still reachable and still points to curr before the operation
    acts. If validation fails the operation starts over.

    This model runs one operation at a time, so nothing changes the chain between
    the search and the locking: validation always succeeds (Validate's contract and the
    window the search returns prove it), and the retry loop's back edge is never taken.
    Locks are ghost, as in FineGrainedList. */
module OptimisticList {
  import opened SortedChain

  class OptimisticList {
    var head: Node
    /** The nodes reachable from head, in chain order. */
    ghost var spine: seq<Node>
    /** The keys of the set's elements. */
    ghost var Contents: set<int>

    /** The list invariant (see SortedChain.ChainValid). */
    ghost predicate Valid()
      reads this, spine
    {
      ChainValid(head, spine, Contents)
    }

    /** The constructor as written: both sentinels are built with `new Node(null)`, so
        the tail keeps key MIN_VALUE; see UnraisedTailBreaksSearch. */
    constructor AsWritten()
      ensures IsChain(head, spine) && KeysOf(spine) == UnraisedTail && !Valid()
      ensures fresh(head) && head.next != null && fresh(head.next)
    {
      var h := new Node(None);
      var t := new Node(None);
      h.next := t;
      head := h;
      spine := [h, t];
      Contents := {};
      UnraisedTailBreaksSearch(MIN_VALUE);
    }

    /** The corrected constructor: the tail key is raised to MAX_VALUE, which gives the
        empty set. */
    constructor ()
      ensures Valid() && Contents == {}
      ensures fresh(head) && head.next != null && fresh(head.next)
      ensures KeysOf(spine) == [MIN_VALUE, MAX_VALUE]
    {
      var h := new Node(None);
      var t := new Node(None);
      h.next := t;
      t.key := MAX_VALUE;
      head := h;
      spine := [h, t];
      Contents := {};
      RaisedTailIsEmptySet();
    }

    /** validate: walk node from head while node.key <= pred.key; true exactly when the
        walk meets pred and pred's successor is curr. On a valid chain this answers
        whether pred is in the list and points to curr. A node outside the list with key
        MAX_VALUE would send the walk past the tail, so such a pred is excluded. */
    method Validate(pred: Node, curr: Node) returns (ok: bool)
      requires Valid() && (pred in spine || pred.key < MAX_VALUE)
      ensures ok <==> pred in spine && pred.next == curr
    {
      ghost var keys := KeysOf(spine);
      var node := head;
      ghost var j := 0;
      while node.key <= pred.key
        invariant 0 <= j < |spine| && node == spine[j]
        invariant forall k :: 0 <= k < j ==> spine[k] != pred
        decreases |spine| - j
      {
        if node == pred {
          return pred.next == curr;
        }
        assert keys[j] == node.key && keys[|spine| - 1] == MAX_VALUE;
        assert j < |spine| - 1;
        node := node.next;
        j := j + 1;
      }
      assert keys[j] == node.key && 1 <= j;
      forall p | 0 <= p < |spine|
        ensures spine[p] != pred
      {
        if j < p {
          assert keys[j] < keys[p];
        }
      }
      return false;
    }

    /** add: search without locks, lock pred and curr, validate; then false and no
        change when curr carries the key, otherwise a fresh node is spliced in between
        pred and curr. at is curr's index: the key's node when it was present, the new
        node's place otherwise. Exactly pred and curr are locked, and they are unlocked
        in the same order, pred then curr; no lock is left held. */
    method Add(key: Int32)
      returns (added: bool, ghost at: nat,
               ghost locked: seq<Node>, ghost released: seq<Node>, ghost held: set<Node>)
      requires Valid() && key < MAX_VALUE
      modifies this, spine
      ensures Valid() && head == old(head)
      ensures added <==> key !in old(Contents)
      ensures Contents == old(Contents) + {key}
      ensures 1 <= at < |old(spine)|
      ensures !added ==> old(KeysOf(spine))[at] == key && spine == old(spine) &&
                         forall n :: n in spine ==> unchanged(n)
      ensures added ==> at < |spine| && fresh(spine[at]) &&
                        spine == old(spine)[..at] + [spine[at]] + old(spine)[at..] &&
                        KeysOf(spine) == InsertAt(old(KeysOf(spine)), at, key)
      ensures locked == [old(spine)[at - 1], old(spine)[at]] && released == locked
      ensures held == {}
    {
      var pred, curr;
      ghost var keys := KeysOf(spine);
      pred, curr, at, held, locked := LockWindow(key);
      assert KeysOf(spine) == keys && forall n :: n in spine ==> unchanged(n);
      added := AddAtWindow(pred, curr, key, at, held);
      held, released := Release(held, pred), [pred];
      held, released := Release(held, curr), released + [curr];
    }

    /** The part of add that runs while pred and curr are locked: false and no change
        when curr carries the key, otherwise the splice. */
    method AddAtWindow(pred: Node, curr: Node, key: Int32, ghost i: nat, ghost held: set<Node>)
      returns (added: bool)
      requires Valid() && 1 <= i < |spine| && pred == spine[i - 1] && curr == spine[i]
      requires pred in held && curr in held
      requires key < MAX_VALUE && Walk(KeysOf(spine), key, 1) == Some(i)
      modifies this, pred
      ensures Valid() && head == old(head)
      ensures added <==> key !in old(Contents)
      ensures Contents == old(Contents) + {key}
      ensures !added ==> old(KeysOf(spine))[i] == key && spine == old(spine) &&
                         forall n :: n in spine ==> unchanged(n)
      ensures added ==> 1 <= i < |old(spine)| < |spine| && fresh(spine[i]) &&
                        spine == old(spine)[..i] + [spine[i]] + old(spine)[i..] &&
                        KeysOf(spine) == InsertAt(old(KeysOf(spine)), i, key)
    {
      StopDecidesMembership(KeysOf(spine), key, i);
      if curr.key == key {
        return false;
      }
      SpliceIn(pred, curr, key, i, held);
      added := true;
    }

    /** remove: search without locks, lock pred and curr, validate; then curr is
        unlinked (pred.next = curr.next) when it carries the key, otherwise false and
        no change. at is curr's index. Exactly pred and curr are locked, and they are
        unlocked pred then curr. */
    method Remove(key: Int32)
      returns (removed: bool, ghost at: nat,
               ghost locked: seq<Node>, ghost released: seq<Node>, ghost held: set<Node>)
      requires Valid() && key < MAX_VALUE
      modifies this, spine
      ensures Valid() && head == old(head)
      ensures removed <==> key in old(Contents)
      ensures Contents == old(Contents) - {key}
      ensures 1 <= at < |old(spine)|
      ensures !removed ==> spine == old(spine) && forall n :: n in spine ==> unchanged(n)
      ensures removed ==> at < |old(spine)| - 1 && old(KeysOf(spine))[at] == key &&
                          spine == old(spine)[..at] + old(spine)[at + 1..] &&
                          KeysOf(spine) == RemoveAt(old(KeysOf(spine)), at)
      ensures locked == [old(spine)[at - 1], old(spine)[at]] && released == locked
      ensures held == {}
    {
      var pred, curr;
      ghost var keys := KeysOf(spine);
      pred, curr, at, held, locked := LockWindow(key);
      assert KeysOf(spine) == keys && forall n :: n in spine ==> unchanged(n);
      removed := RemoveAtWindow(pred, curr, key, at, held);
      held, released := Release(held, pred), [pred];
      held, released := Release(held, curr), released + [curr];
    }

    /** The part of remove that runs while pred and curr are locked: the unlink when
        curr carries the key, otherwise false and no change. */
    method RemoveAtWindow(pred: Node, curr: Node, key: Int32, ghost i: nat, ghost held: set<Node>)
      returns (removed: bool)
      requires Valid() && 1 <= i < |spine| && pred == spine[i - 1] && curr == spine[i]
      requires pred in held && curr in held
      requires key < MAX_VALUE && Walk(KeysOf(spine), key, 1) == Some(i)
      modifies this, pred
      ensures Valid() && head == old(head)
      ensures removed <==> key in old(Contents)
      ensures Contents == old(Contents) - {key}
      ensures !removed ==> spine == old(spine) && forall n :: n in spine ==> unchanged(n)
      ensures removed ==> 1 <= i < |old(spine)| - 1 &&
                          spine == old(spine)[..i] + old(spine)[i + 1..] &&
                          old(KeysOf(spine))[i] == key &&
                          KeysOf(spine) == RemoveAt(old(KeysOf(spine)), i)
    {
      StopDecidesMembership(KeysOf(spine), key, i);
      if curr.key != key {
        return false;
      }
      SpliceOut(pred, curr, key, i, held);
      removed := true;
    }

    /** contains: search without locks, lock pred and curr, validate, and report
        whether curr carries the key. Writes nothing; pred and curr, at index at, are
        locked and then unlocked in the same order. */
    method Contains(key: Int32)
      returns (found: bool, ghost at: nat,
               ghost locked: seq<Node>, ghost released: seq<Node>, ghost held: set<Node>)
      requires Valid() && key < MAX_VALUE
      ensures found <==> key in Contents
      ensures 1 <= at < |spine| && locked == [spine[at - 1], spine[at]] && released == locked
      ensures held == {}
    {
      var pred, curr;
      ghost var keys := KeysOf(spine);
      pred, curr, at, held, locked := LockWindow(key);
      assert KeysOf(spine) == keys && forall n :: n in spine ==> unchanged(n);
      StopDecidesMembership(KeysOf(spine), key, at);
      found := curr.key == key;
      held, released := Release(held, pred), [pred];
      held, released := Release(held, curr), released + [curr];
    }

    /** The first part of one pass of add, remove and contains: the lock-free search
        (SortedChain.Locate), `pred.lock(); curr.lock();`, and validate. Validation
        succeeds, so the pass goes on to act on the window; the source's enclosing
        `while (true)` would start another pass only after a failed validation. */
    method LockWindow(key: Int32)
      returns (pred: Node, curr: Node, ghost i: nat, ghost held: set<Node>, ghost locked: seq<Node>)
      requires Valid()
      ensures 1 <= i < |spine| && pred == spine[i - 1] && curr == spine[i]
      ensures Walk(KeysOf(spine), key, 1) == Some(i)
      ensures held == {pred, curr} && pred != curr
      ensures locked == [pred, curr]
    {
      pred, curr, i := Locate(head, spine, key);
      assert pred in spine && spine[i - 1] != spine[i];
      held, locked := Acquire({}, pred), [pred];
      held, locked := Acquire(held, curr), locked + [curr];
      var ok := Validate(pred, curr);
      assert ok;
    }

    /** The splice of add, `newNode.next = curr; pred.next = newNode`, at the validated
        window of a search for an absent key: the new node takes curr's index in the
        spine and the key joins Contents. */
    method SpliceIn(pred: Node, curr: Node, key: Int32, ghost i: nat, ghost held: set<Node>)
      requires Valid() && 1 <= i < |spine| && pred == spine[i - 1] && curr == spine[i]
      requires pred in held && curr in held
      requires key < MAX_VALUE && Walk(KeysOf(spine), key, 1) == Some(i) && curr.key != key
      modifies this, pred
      ensures Valid() && head == old(head) && Contents == old(Contents) + {key}
      ensures 1 <= i < |old(spine)| < |spine| && fresh(spine[i]) &&
              spine == old(spine)[..i] + [spine[i]] + old(spine)[i..]
      ensures KeysOf(spine) == InsertAt(old(KeysOf(spine)), i, key)
    {
      ghost var keys := KeysOf(spine);
      var node, spine' := Splice(head, pred, curr, key, spine, Contents, i);
      ghost var keys' := KeysOf(spine');
      assert keys' == InsertAt(keys, i, key);
      spine := spine';
      Contents := Contents + {key};
      assert KeysOf(spine) == keys';
    }

    /** The unlink of remove, `pred.next = curr.next`, at the validated window of a
        search that stopped on a node with the key: curr leaves the spine and the key
        leaves Contents. */
    method SpliceOut(pred: Node, curr: Node, key: Int32, ghost i: nat, ghost held: set<Node>)
      requires Valid() && 1 <= i < |spine| && pred == spine[i - 1] && curr == spine[i]
      requires pred in held && curr in held
      requires key < MAX_VALUE && Walk(KeysOf(spine), key, 1) == Some(i) && curr.key == key
      modifies this, pred
      ensures Valid() && head == old(head) && Contents == old(Contents) - {key}
      ensures i < |old(spine)| - 1 && spine == old(spine)[..i] + old(spine)[i + 1..]
      ensures old(KeysOf(spine))[i] == key && KeysOf(spine) == RemoveAt(old(KeysOf(spine)), i)
    {
      ghost var keys := KeysOf(spine);
      var spine' := Unlink(head, pred, curr, key, spine, Contents, i);
      ghost var keys' := KeysOf(spine');
      assert keys' == RemoveAt(keys, i) && keys[i] == key;
      spine := spine';
      Contents := Contents - {key};
      assert KeysOf(spine) == keys';
    }
  }

  /** add(x) followed by contains(x) answers true. */
  method AddThenContains(s: OptimisticList, x: Int32) returns (found: bool)
    requires s.Valid() && x < MAX_VALUE
    modifies s, s.spine
    ensures s.Valid() && found
  {
    var added;
    ghost var at, locked, released, held;
    added, at, locked, released, held := s.Add(x);
    found, at, locked, released, held := s.Contains(x);
  }

  /** remove(x) followed by contains(x) answers false. */
  method RemoveThenContains(s: OptimisticList, x: Int32) returns (found: bool)
    requires s.Valid() && x < MAX_VALUE
    modifies s, s.spine
    ensures s.Valid() && !found
  {
    var removed;
    ghost var at, locked, released, held;
    removed, at, locked, released, held := s.Remove(x);
    found, at, locked, released, held := s.Contains(x);
  }

  /** add(x) of an absent x followed by remove(x) gives back the same set and the same
      chain of nodes. */
  method AddThenRemove(s: OptimisticList, x: Int32) returns (added: bool, removed: bool)
    requires s.Valid() && x < MAX_VALUE && x !in s.Contents
    modifies s, s.spine
    ensures s.Valid() && added && removed
    ensures s.Contents == old(s.Contents) && s.spine == old(s.spine)
  {
    ghost var spine0, keys0 := s.spine, KeysOf(s.spine);
    ghost var i, j, locked, released, held;
    added, i, locked, released, held := s.Add(x);
    ghost var spine1, keys1 := s.spine, KeysOf(s.spine);
    assert forall n :: n in spine1 ==> n in spine0 || fresh(n);
    removed, j, locked, released, held := s.Remove(x);
    UnlinkUndoesSplice(spine0, spine1, s.spine, keys0, keys1, x, i, j);
  }
}
