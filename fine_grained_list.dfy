/** FineGrainedList: the same chain, traversed hand over hand. Each operation locks
    head and head's successor; at each step of the search it keeps curr locked while it
    releases pred, then moves the window one node on and locks the new curr, so it never
    holds more than the two adjacent nodes pred and curr.

    Node locks are ghost: each operation returns the nodes it locked and the nodes it
    released, each in order, and keeps the set of locks it holds, with Acquire/Release
    checking that no lock is taken twice or released unheld. */
module FineGrainedList {
  import opened SortedChain

  class FineGrainedList {
    var head: Node
    /** The nodes reachable from head, in chain order. */
    ghost var spine: seq<Node>
    /** The keys of the set's elements. */
    ghost var Contents: set<int>

    /** The list invariant (see SortedChain.ChainValid). */
    ghost predicate Valid()
      reads this, spine
    {
      ChainValid(head, spine, Contents)
    }

    /** The constructor as written: both sentinels are built with `new Node(null)`, so
        the tail keeps key MIN_VALUE. The chain is well linked but its keys are not a
        valid key sequence, and UnraisedTailBreaksSearch shows where every search then
        goes. */
    constructor AsWritten()
      ensures IsChain(head, spine) && KeysOf(spine) == UnraisedTail && !Valid()
      ensures fresh(head) && head.next != null && fresh(head.next)
    {
      var h := new Node(None);
      var t := new Node(None);
      h.next := t;
      head := h;
      spine := [h, t];
      Contents := {};
      UnraisedTailBreaksSearch(MIN_VALUE);
    }

    /** The corrected constructor: the tail key is raised to MAX_VALUE, as in
        CoarseList, which gives the empty set. */
    constructor ()
      ensures Valid() && Contents == {}
      ensures fresh(head) && head.next != null && fresh(head.next)
      ensures KeysOf(spine) == [MIN_VALUE, MAX_VALUE]
    {
      var h := new Node(None);
      var t := new Node(None);
      h.next := t;
      t.key := MAX_VALUE;
      head := h;
      spine := [h, t];
      Contents := {};
      RaisedTailIsEmptySet();
    }

    /** The hand-over-hand search shared by add, remove and contains: lock head, set
        pred = head, curr = head.next and lock curr; while curr.key < key, unlock pred,
        advance both and lock the new curr. Locks are taken in list order, starting at
        head (locked), each trailing node is released in that same order (released), and
        the search returns holding exactly pred and curr, at the window the value-level
        Walk predicts. */
    method LockCoupledSearch(key: Int32)
      returns (pred: Node, curr: Node, ghost i: nat, ghost held: set<Node>,
               ghost locked: seq<Node>, ghost released: seq<Node>)
      requires Valid()
      ensures 1 <= i < |spine| && pred == spine[i - 1] && curr == spine[i]
      ensures Walk(KeysOf(spine), key, 1) == Some(i)
      ensures held == {pred, curr} && pred != curr
      ensures locked == spine[..i + 1] && released == spine[..i - 1]
    {
      ghost var keys := KeysOf(spine);
      held, locked, released := Acquire({}, head), [head], [];
      pred := head;
      assert head.next == spine[1];
      curr := pred.next;
      held, locked := Acquire(held, curr), locked + [curr];
      i := 1;
      while curr.key < key
        invariant 1 <= i < |spine| && pred == spine[i - 1] && curr == spine[i]
        invariant Walk(keys, key, 1) == Walk(keys, key, i)
        invariant held == {pred, curr}
        invariant locked == spine[..i + 1] && released == spine[..i - 1]
        decreases |spine| - i
      {
        assert i < |spine| - 1 && spine[..i + 2] == spine[..i + 1] + [spine[i + 1]];
        assert spine[..i] == spine[..i - 1] + [spine[i - 1]];
        held, released := Release(held, pred), released + [pred];
        pred := curr;
        curr := curr.next;
        assert curr != pred;
        held, locked := Acquire(held, curr), locked + [curr];
        i := i + 1;
      }
    }

    /** add: with both window nodes locked, false and no change when curr carries the
        key; otherwise a fresh node is spliced in between pred and curr. at is curr's
        index: the key's node when it was present, the new node's place otherwise. The
        locks follow the hand-over-hand discipline, ending with curr unlocked, then pred,
        and no lock is left held. */
    method Add(key: Int32)
      returns (added: bool, ghost at: nat,
               ghost locked: seq<Node>, ghost released: seq<Node>, ghost held: set<Node>)
      requires Valid() && key < MAX_VALUE
      modifies this, spine
      ensures Valid() && head == old(head)
      ensures added <==> key !in old(Contents)
      ensures Contents == old(Contents) + {key}
      ensures 1 <= at < |old(spine)|
      ensures !added ==> old(KeysOf(spine))[at] == key && spine == old(spine) &&
                         forall n :: n in spine ==> unchanged(n)
      ensures added ==> at < |spine| && fresh(spine[at]) &&
                        spine == old(spine)[..at] + [spine[at]] + old(spine)[at..] &&
                        KeysOf(spine) == InsertAt(old(KeysOf(spine)), at, key)
      ensures HandOverHand(old(spine), locked, released) && |locked| == at + 1
      ensures held == {}
    {
      var pred, curr;
      ghost var keys := KeysOf(spine);
      pred, curr, at, held, locked, released := LockCoupledSearch(key);
      assert KeysOf(spine) == keys && forall n :: n in spine ==> unchanged(n);
      ReleaseWindowLast(spine, locked, released, at);
      added := AddAtWindow(pred, curr, key, at, held);
      held, released := Release(held, curr), released + [curr];
      held, released := Release(held, pred), released + [pred];
    }

    /** The part of add that runs while pred and curr are locked: false and no change
        when curr carries the key, otherwise the splice. */
    method AddAtWindow(pred: Node, curr: Node, key: Int32, ghost i: nat, ghost held: set<Node>)
      returns (added: bool)
      requires Valid() && 1 <= i < |spine| && pred == spine[i - 1] && curr == spine[i]
      requires pred in held && curr in held
      requires key < MAX_VALUE && Walk(KeysOf(spine), key, 1) == Some(i)
      modifies this, pred
      ensures Valid() && head == old(head)
      ensures added <==> key !in old(Contents)
      ensures Contents == old(Contents) + {key}
      ensures !added ==> old(KeysOf(spine))[i] == key && spine == old(spine) &&
                         forall n :: n in spine ==> unchanged(n)
      ensures added ==> 1 <= i < |old(spine)| < |spine| && fresh(spine[i]) &&
                        spine == old(spine)[..i] + [spine[i]] + old(spine)[i..] &&
                        KeysOf(spine) == InsertAt(old(KeysOf(spine)), i, key)
    {
      StopDecidesMembership(KeysOf(spine), key, i);
      if curr.key == key {
        return false;
      }
      SpliceIn(pred, curr, key, i, held);
      added := true;
    }

    /** remove: with both window nodes locked, curr is unlinked (pred.next =
        curr.next) when it carries the key; otherwise false and no change. at is curr's
        index. The locks follow the hand-over-hand discipline, ending with curr
        unlocked, then pred. */
    method Remove(key: Int32)
      returns (removed: bool, ghost at: nat,
               ghost locked: seq<Node>, ghost released: seq<Node>, ghost held: set<Node>)
      requires Valid() && key < MAX_VALUE
      modifies this, spine
      ensures Valid() && head == old(head)
      ensures removed <==> key in old(Contents)
      ensures Contents == old(Contents) - {key}
      ensures 1 <= at < |old(spine)|
      ensures !removed ==> spine == old(spine) && forall n :: n in spine ==> unchanged(n)
      ensures removed ==> at < |old(spine)| - 1 && old(KeysOf(spine))[at] == key &&
                          spine == old(spine)[..at] + old(spine)[at + 1..] &&
                          KeysOf(spine) == RemoveAt(old(KeysOf(spine)), at)
      ensures HandOverHand(old(spine), locked, released) && |locked| == at + 1
      ensures held == {}
    {
      var pred, curr;
      ghost var keys := KeysOf(spine);
      pred, curr, at, held, locked, released := LockCoupledSearch(key);
      assert KeysOf(spine) == keys && forall n :: n in spine ==> unchanged(n);
      ReleaseWindowLast(spine, locked, released, at);
      removed := RemoveAtWindow(pred, curr, key, at, held);
      held, released := Release(held, curr), released + [curr];
      held, released := Release(held, pred), released + [pred];
    }

    /** The part of remove that runs while pred and curr are locked: the unlink when
        curr carries the key, otherwise false and no change. */
    method RemoveAtWindow(pred: Node, curr: Node, key: Int32, ghost i: nat, ghost held: set<Node>)
      returns (removed: bool)
      requires Valid() && 1 <= i < |spine| && pred == spine[i - 1] && curr == spine[i]
      requires pred in held && curr in held
      requires key < MAX_VALUE && Walk(KeysOf(spine), key, 1) == Some(i)
      modifies this, pred
      ensures Valid() && head == old(head)
      ensures removed <==> key in old(Contents)
      ensures Contents == old(Contents) - {key}
      ensures !removed ==> spine == old(spine) && forall n :: n in spine ==> unchanged(n)
      ensures removed ==> 1 <= i < |old(spine)| - 1 &&
                          spine == old(spine)[..i] + old(spine)[i + 1..] &&
                          old(KeysOf(spine))[i] == key &&
                          KeysOf(spine) == RemoveAt(old(KeysOf(spine)), i)
    {
      StopDecidesMembership(KeysOf(spine), key, i);
      if curr.key != key {
        return false;
      }
      SpliceOut(pred, curr, key, i, held);
      removed := true;
    }

    /** The splice of add, `node.next = curr; pred.next = node` for a fresh node with
        the key, at the window where the search for the absent key stopped: the new
        node takes curr's index in the spine and the key joins Contents. */
    method SpliceIn(pred: Node, curr: Node, key: Int32, ghost i: nat, ghost held: set<Node>)
      requires Valid() && 1 <= i < |spine| && pred == spine[i - 1] && curr == spine[i]
      requires pred in held && curr in held
      requires key < MAX_VALUE && Walk(KeysOf(spine), key, 1) == Some(i) && curr.key != key
      modifies this, pred
      ensures Valid() && head == old(head) && Contents == old(Contents) + {key}
      ensures 1 <= i < |old(spine)| < |spine| && fresh(spine[i]) &&
              spine == old(spine)[..i] + [spine[i]] + old(spine)[i..]
      ensures KeysOf(spine) == InsertAt(old(KeysOf(spine)), i, key)
    {
      ghost var keys := KeysOf(spine);
      var node, spine' := Splice(head, pred, curr, key, spine, Contents, i);
      ghost var keys' := KeysOf(spine');
      assert keys' == InsertAt(keys, i, key);
      spine := spine';
      Contents := Contents + {key};
      assert KeysOf(spine) == keys';
    }

    /** The unlink of remove, `pred.next = curr.next`, at the window where the search
        stopped on a node with the key: curr leaves the spine and the key leaves
        Contents. */
    method SpliceOut(pred: Node, curr: Node, key: Int32, ghost i: nat, ghost held: set<Node>)
      requires Valid() && 1 <= i < |spine| && pred == spine[i - 1] && curr == spine[i]
      requires pred in held && curr in held
      requires key < MAX_VALUE && Walk(KeysOf(spine), key, 1) == Some(i) && curr.key == key
      modifies this, pred
      ensures Valid() && head == old(head) && Contents == old(Contents) - {key}
      ensures i < |old(spine)| - 1 && spine == old(spine)[..i] + old(spine)[i + 1..]
      ensures old(KeysOf(spine))[i] == key && KeysOf(spine) == RemoveAt(old(KeysOf(spine)), i)
    {
      ghost var keys := KeysOf(spine);
      var spine' := Unlink(head, pred, curr, key, spine, Contents, i);
      ghost var keys' := KeysOf(spine');
      assert keys' == RemoveAt(keys, i) && keys[i] == key;
      spine := spine';
      Contents := Contents - {key};
      assert KeysOf(spine) == keys';
    }

    /** contains: the hand-over-hand search, then whether curr carries the key. Writes
        nothing; the locks taken run from head along the chain and are all released. */
    method Contains(key: Int32)
      returns (found: bool, ghost locked: seq<Node>, ghost released: seq<Node>,
               ghost held: set<Node>)
      requires Valid() && key < MAX_VALUE
      ensures found <==> key in Contents
      ensures HandOverHand(spine, locked, released)
      ensures held == {}
    {
      var pred, curr;
      ghost var i;
      pred, curr, i, held, locked, released := LockCoupledSearch(key);
      ReleaseWindowLast(spine, locked, released, i);
      StopDecidesMembership(KeysOf(spine), key, i);
      found := curr.key == key;
      held, released := Release(held, curr), released + [curr];
      held, released := Release(held, pred), released + [pred];
    }
  }

  /** add(x) followed by contains(x) answers true. */
  method AddThenContains(s: FineGrainedList, x: Int32) returns (found: bool)
    requires s.Valid() && x < MAX_VALUE
    modifies s, s.spine
    ensures s.Valid() && found
  {
    var added;
    ghost var at, locked, released, held;
    added, at, locked, released, held := s.Add(x);
    found, locked, released, held := s.Contains(x);
  }

  /** remove(x) followed by contains(x) answers false. */
  method RemoveThenContains(s: FineGrainedList, x: Int32) returns (found: bool)
    requires s.Valid() && x < MAX_VALUE
    modifies s, s.spine
    ensures s.Valid() && !found
  {
    var removed;
    ghost var at, locked, released, held;
    removed, at, locked, released, held := s.Remove(x);
    found, locked, released, held := s.Contains(x);
  }

  /** add(x) of an absent x followed by remove(x) gives back the same set and the same
      chain of nodes. */
  method AddThenRemove(s: FineGrainedList, x: Int32) returns (added: bool, removed: bool)
    requires s.Valid() && x < MAX_VALUE && x !in s.Contents
    modifies s, s.spine
    ensures s.Valid() && added && removed
    ensures s.Contents == old(s.Contents) && s.spine == old(s.spine)
  {
    ghost var spine0, keys0 := s.spine, KeysOf(s.spine);
    ghost var i, j, locked, released, held;
    added, i, locked, released, held := s.Add(x);
    ghost var spine1, keys1 := s.spine, KeysOf(s.spine);
    assert forall n :: n in spine1 ==> n in spine0 || fresh(n);
    removed, j, locked, released, held := s.Remove(x);
    UnlinkUndoesSplice(spine0, spine1, s.spine, keys0, keys1, x, i, j);
  }

  /** The hand-over-hand lock discipline of one operation on a chain: the nodes
      locked are a prefix of the chain from head, taken in chain order, with at least
      head and its successor; each node is released once, in the order it was locked,
      except that the last two, the window pred and curr, are released curr first. */
  ghost predicate HandOverHand(spine: seq<Node>, locked: seq<Node>, released: seq<Node>)
  {
    2 <= |locked| <= |spine| && |released| == |locked| &&
    (forall k :: 0 <= k < |locked| ==> locked[k] == spine[k]) &&
    (forall k :: 0 <= k < |locked| - 2 ==> released[k] == locked[k]) &&
    released[|locked| - 2] == locked[|locked| - 1] && released[|locked| - 1] == locked[|locked| - 2]
  }

  /** A search that stops at the window spine[i-1], spine[i], having locked the chain
      up to curr and released it up to pred, followed by unlocking curr and then pred,
      keeps the hand-over-hand discipline. */
  lemma ReleaseWindowLast(spine: seq<Node>, locked: seq<Node>, released: seq<Node>, i: nat)
    requires 1 <= i < |spine| && locked == spine[..i + 1] && released == spine[..i - 1]
    ensures HandOverHand(spine, locked, released + [spine[i]] + [spine[i - 1]])
  {
  }
}
