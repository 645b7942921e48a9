/** CoarseList: the sorted sentinel-bounded chain guarded by one global lock. The lock
    makes every operation run alone on the chain, which is what this sequential model
    assumes throughout, so the lock itself does not appear. */
module CoarseList {
  import opened SortedChain

  class CoarseList {
    var head: Node
    /** The nodes reachable from head, in chain order. */
    ghost var spine: seq<Node>
    /** The keys of the set's elements. */
    ghost var Contents: set<int>

    /** The list invariant: a chain from head whose keys run MIN_VALUE, strictly
        increasing element keys, MAX_VALUE, and whose elements are Contents. */
    ghost predicate Valid()
      reads this, spine
    {
      ChainValid(head, spine, Contents)
    }

    /** head(MIN_VALUE) -> tail(MAX_VALUE) -> null: the tail is built with key MIN_VALUE
        and then raised to MAX_VALUE. */
    constructor ()
      ensures Valid() && Contents == {}
      ensures fresh(head) && head.next != null && fresh(head.next)
      ensures KeysOf(spine) == [MIN_VALUE, MAX_VALUE]
    {
      var h := new Node(None);
      var t := new Node(None);
      h.next := t;
      t.key := MAX_VALUE;
      head := h;
      spine := [h, t];
      Contents := {};
      RaisedTailIsEmptySet();
    }

    /** add: false, with no field written, when a node with the key is present;
        otherwise one fresh node is spliced in at the key's place and the key joins
        Contents; at is the index where the search stopped, the key's node or the new
        node's place. A key of MAX_VALUE would meet the tail sentinel (see
        TailCollision), so keys are kept below it. */
    method Add(key: Int32) returns (added: bool, ghost at: nat)
      requires Valid() && key < MAX_VALUE
      modifies this, spine
      ensures Valid() && head == old(head)
      ensures added <==> key !in old(Contents)
      ensures Contents == old(Contents) + {key}
      ensures 1 <= at < |old(spine)|
      ensures !added ==> old(KeysOf(spine))[at] == key && spine == old(spine) &&
                         forall n :: n in spine ==> unchanged(n)
      ensures added ==> at < |spine| && fresh(spine[at]) &&
                        spine == old(spine)[..at] + [spine[at]] + old(spine)[at..] &&
                        KeysOf(spine) == InsertAt(old(KeysOf(spine)), at, key)
    {
      var pred, curr;
      pred, curr, at := Locate(head, spine, key);
      StopDecidesMembership(KeysOf(spine), key, at);
      if key == curr.key {
        added := false;
        return;
      }
      SpliceIn(pred, curr, key, at);
      added := true;
    }

    /** remove: when a node with the key is present it is unlinked (pred.next =
        curr.next) and the key leaves Contents; otherwise false and nothing changes. at
        is the index where the search stopped. */
    method Remove(key: Int32) returns (removed: bool, ghost at: nat)
      requires Valid() && key < MAX_VALUE
      modifies this, spine
      ensures Valid() && head == old(head)
      ensures removed <==> key in old(Contents)
      ensures Contents == old(Contents) - {key}
      ensures 1 <= at < |old(spine)|
      ensures !removed ==> spine == old(spine) && forall n :: n in spine ==> unchanged(n)
      ensures removed ==> at < |old(spine)| - 1 && old(KeysOf(spine))[at] == key &&
                          spine == old(spine)[..at] + old(spine)[at + 1..] &&
                          KeysOf(spine) == RemoveAt(old(KeysOf(spine)), at)
    {
      var pred, curr;
      pred, curr, at := Locate(head, spine, key);
      StopDecidesMembership(KeysOf(spine), key, at);
      if key == curr.key {
        SpliceOut(pred, curr, key, at);
        removed := true;
      } else {
        removed := false;
      }
    }

    /** The splice of add, `node.next = curr; pred.next = node` for a fresh node with
        the key, at the window where the search for the absent key stopped: the new
        node takes curr's index in the spine and the key joins Contents. */
    method SpliceIn(pred: Node, curr: Node, key: Int32, ghost i: nat)
      requires Valid() && 1 <= i < |spine| && pred == spine[i - 1] && curr == spine[i]
      requires key < MAX_VALUE && Walk(KeysOf(spine), key, 1) == Some(i) && curr.key != key
      modifies this, pred
      ensures Valid() && head == old(head) && Contents == old(Contents) + {key}
      ensures 1 <= i < |old(spine)| < |spine| && fresh(spine[i]) &&
              spine == old(spine)[..i] + [spine[i]] + old(spine)[i..]
      ensures KeysOf(spine) == InsertAt(old(KeysOf(spine)), i, key)
    {
      ghost var keys := KeysOf(spine);
      var node, spine' := Splice(head, pred, curr, key, spine, Contents, i);
      ghost var keys' := KeysOf(spine');
      assert keys' == InsertAt(keys, i, key);
      spine := spine';
      Contents := Contents + {key};
      assert KeysOf(spine) == keys';
    }

    /** The unlink of remove, `pred.next = curr.next`, at the window where the search
        stopped on a node with the key: curr leaves the spine and the key leaves
        Contents. */
    method SpliceOut(pred: Node, curr: Node, key: Int32, ghost i: nat)
      requires Valid() && 1 <= i < |spine| && pred == spine[i - 1] && curr == spine[i]
      requires key < MAX_VALUE && Walk(KeysOf(spine), key, 1) == Some(i) && curr.key == key
      modifies this, pred
      ensures Valid() && head == old(head) && Contents == old(Contents) - {key}
      ensures i < |old(spine)| - 1 && spine == old(spine)[..i] + old(spine)[i + 1..]
      ensures old(KeysOf(spine))[i] == key && KeysOf(spine) == RemoveAt(old(KeysOf(spine)), i)
    {
      ghost var keys := KeysOf(spine);
      var spine' := Unlink(head, pred, curr, key, spine, Contents, i);
      ghost var keys' := KeysOf(spine');
      assert keys' == RemoveAt(keys, i) && keys[i] == key;
      spine := spine';
      Contents := Contents - {key};
      assert KeysOf(spine) == keys';
    }

    /** contains: walks curr from head.next while curr.key < key and reports whether
        it stopped on the key. Writes nothing. */
    method Contains(key: Int32) returns (found: bool)
      requires Valid() && key < MAX_VALUE
      ensures found <==> key in Contents
    {
      ghost var keys := KeysOf(spine);
      assert head.next == spine[1];
      var curr := head.next;
      ghost var i := 1;
      while curr.key < key
        invariant 1 <= i < |spine| && curr == spine[i]
        invariant Walk(keys, key, 1) == Walk(keys, key, i)
        decreases |spine| - i
      {
        assert i < |spine| - 1;
        curr := curr.next;
        i := i + 1;
      }
      StopDecidesMembership(keys, key, i);
      found := key == curr.key;
    }
  }

  /** add(x) followed by contains(x) answers true. */
  method AddThenContains(s: CoarseList, x: Int32) returns (found: bool)
    requires s.Valid() && x < MAX_VALUE
    modifies s, s.spine
    ensures s.Valid() && found
  {
    var added;
    ghost var at;
    added, at := s.Add(x);
    found := s.Contains(x);
  }

  /** remove(x) followed by contains(x) answers false. */
  method RemoveThenContains(s: CoarseList, x: Int32) returns (found: bool)
    requires s.Valid() && x < MAX_VALUE
    modifies s, s.spine
    ensures s.Valid() && !found
  {
    var removed;
    ghost var at;
    removed, at := s.Remove(x);
    found := s.Contains(x);
  }

  /** add(x) of an absent x followed by remove(x) gives back the same set and the same
      chain of nodes. */
  method AddThenRemove(s: CoarseList, x: Int32) returns (added: bool, removed: bool)
    requires s.Valid() && x < MAX_VALUE && x !in s.Contents
    modifies s, s.spine
    ensures s.Valid() && added && removed
    ensures s.Contents == old(s.Contents) && s.spine == old(s.spine)
  {
    ghost var spine0, keys0 := s.spine, KeysOf(s.spine);
    ghost var i, j;
    added, i := s.Add(x);
    ghost var spine1, keys1 := s.spine, KeysOf(s.spine);
    assert forall n :: n in spine1 ==> n in spine0 || fresh(n);
    removed, j := s.Remove(x);
    UnlinkUndoesSplice(spine0, spine1, s.spine, keys0, keys1, x, i, j);
  }
}
