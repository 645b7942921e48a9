/** The structure shared by the three set implementations: a singly linked chain of
    nodes with integer keys, bounded by a head sentinel (key Integer.MIN_VALUE) and a
    tail sentinel (key Integer.MAX_VALUE), keys strictly increasing in between.

    The chain is described twice: on values, by the sequence of keys read from head to
    tail (ValidKeys, Elements, Walk and the lemmas about them), and on the heap, by the
    Node class and a ghost "spine" listing the nodes in chain order (IsChain, KeysOf,
    Locate, Splice, Unlink). The heap methods are proved against the value functions. */
module SortedChain {

  /** Java's int range: an element's key is its hashCode(), an Integer's own value. */
  const MIN_VALUE: int := -0x8000_0000
  const MAX_VALUE: int := 0x7fff_ffff
  type Int32 = x: int | MIN_VALUE <= x <= MAX_VALUE

  datatype Option<T> = None | Some(value: T)

  // ---------------------------------------------------------------------------
  // The chain as a sequence of keys
  // ---------------------------------------------------------------------------

  /** The list invariant on the keys read from head to tail: a head sentinel with
      MIN_VALUE, a tail sentinel with MAX_VALUE, and strictly increasing keys from the
      first node after head on. The head itself is never compared with a search key, so
      an element whose key is MIN_VALUE may follow it. */
  predicate ValidKeys(keys: seq<Int32>)
  {
    |keys| >= 2 && keys[0] == MIN_VALUE && keys[|keys| - 1] == MAX_VALUE &&
    forall i, j :: 1 <= i < j < |keys| ==> keys[i] < keys[j]
  }

  /** The set the chain represents: the keys of every node strictly between the sentinels. */
  function Elements(keys: seq<Int32>): set<int>
  {
    set i | 1 <= i < |keys| - 1 :: keys[i] as int
  }

  /** The search loop `while (curr.key < key) curr = curr.next;` run from the node at
      index i. Some(j): it stops at node j, the first from i on whose key is at least
      `key`. None: it steps past the last node, where the next `curr.key` dereferences
      null. */
  function Walk(keys: seq<Int32>, key: int, i: nat): (r: Option<nat>)
    requires i <= |keys|
    ensures r.Some? ==> i <= r.value < |keys| && key <= keys[r.value]
    ensures r.Some? ==> forall j :: i <= j < r.value ==> keys[j] < key
    ensures r.None? <==> forall j :: i <= j < |keys| ==> keys[j] < key
    decreases |keys| - i
  {
    if i == |keys| then None
    else if keys[i] < key then Walk(keys, key, i + 1)
    else Some(i)
  }

  /** The key sequence after `node.next = curr; pred.next = node` with curr at index i. */
  function InsertAt(keys: seq<Int32>, i: nat, key: Int32): (r: seq<Int32>)
    requires i <= |keys|
    ensures |r| == |keys| + 1
  {
    keys[..i] + [key] + keys[i..]
  }

  /** The key sequence after `pred.next = curr.next` with curr at index i. */
  function RemoveAt(keys: seq<Int32>, i: nat): (r: seq<Int32>)
    requires i < |keys|
    ensures |r| == |keys| - 1
  {
    keys[..i] + keys[i + 1..]
  }

  /** Unlinking the entry that was just spliced in at index i gives back the sequence
      from before the splice; it holds of key sequences and of node spines alike. */
  lemma {:induction false} RemoveUndoesInsert<T>(s: seq<T>, i: nat, x: T)
    requires i <= |s|
    ensures var r := s[..i] + [x] + s[i..]; r[..i] + r[i + 1..] == s
  {
    var r := s[..i] + [x] + s[i..];
    assert r[..i] == s[..i] && r[i + 1..] == s[i..];
  }

  /** Keys of a valid sequence are distinct, so after key is inserted at index i, i is
      the only index that carries it. */
  lemma InsertedKeyIndex(keys: seq<Int32>, i: nat, key: Int32, j: nat)
    requires i <= |keys| && ValidKeys(InsertAt(keys, i, key))
    requires 1 <= i && 1 <= j < |keys| + 1 && InsertAt(keys, i, key)[j] == key
    ensures j == i
  {
    assert InsertAt(keys, i, key)[i] == key;
  }

  /** A spine s1 that is s0 with one entry spliced in at index i, where the key
      sequence gained key, followed by a spine s2 that is s1 with the entry at index j
      unlinked, where j carries key, is s0 again: the unlink removes the very entry the
      splice added. */
  lemma {:induction false} UnlinkUndoesSplice<T>(s0: seq<T>, s1: seq<T>, s2: seq<T>,
                                                 keys0: seq<Int32>, keys1: seq<Int32>, key: Int32,
                                                 i: nat, j: nat)
    requires |keys0| == |s0| && ValidKeys(keys1)
    requires 1 <= i < |s0| < |s1| && s1 == s0[..i] + [s1[i]] + s0[i..] &&
             keys1 == InsertAt(keys0, i, key)
    requires 1 <= j < |s1| - 1 && s2 == s1[..j] + s1[j + 1..] && keys1[j] == key
    ensures s2 == s0
  {
    InsertedKeyIndex(keys0, i, key, j);
    RemoveUndoesInsert(s0, i, s1[i]);
  }

  /** On a valid chain the search for any int key stops on a node: the tail's
      MAX_VALUE is at least every key, so `curr` never becomes null. The node it stops
      at is preceded by head or by a node with a smaller key. */
  lemma {:induction false} WalkStops(keys: seq<Int32>, key: Int32)
    requires ValidKeys(keys)
    ensures Walk(keys, key, 1).Some?
    ensures var i := Walk(keys, key, 1).value;
      1 <= i < |keys| && (i == 1 || keys[i - 1] < key) && key <= keys[i]
  {
    var last := |keys| - 1;
    assert key <= keys[last];
  }

  /** Where the search stops decides membership: for a key below the tail's, the key is
      an element exactly when the node the search stops at carries it. */
  lemma {:induction false} StopDecidesMembership(keys: seq<Int32>, key: Int32, i: nat)
    requires ValidKeys(keys) && key < MAX_VALUE
    requires Walk(keys, key, 1) == Some(i)
    ensures key in Elements(keys) <==> keys[i] == key
    ensures keys[i] == key ==> i < |keys| - 1
  {
    if key in Elements(keys) {
      var j :| 1 <= j < |keys| - 1 && keys[j] == key;
    }
    if keys[i] == key {
      assert i != |keys| - 1;
      assert keys[i] in Elements(keys);
    }
  }

  /** Splicing a new node in front of the stop node of an unsuccessful search keeps the
      chain valid and adds exactly the key. */
  lemma InsertKeepsValid(keys: seq<Int32>, key: Int32, i: nat)
    requires ValidKeys(keys) && key < MAX_VALUE
    requires Walk(keys, key, 1) == Some(i) && keys[i] != key
    ensures ValidKeys(InsertAt(keys, i, key))
    ensures Elements(InsertAt(keys, i, key)) == Elements(keys) + {key}
  {
    WalkStops(keys, key);
    InsertKeepsOrder(keys, key, i);
    InsertAddsElement(keys, key, i);
  }

  lemma {:induction false} InsertKeepsOrder(keys: seq<Int32>, key: Int32, i: nat)
    requires ValidKeys(keys) && 1 <= i < |keys|
    requires (i == 1 || keys[i - 1] < key) && key < keys[i]
    ensures ValidKeys(InsertAt(keys, i, key))
  {
    var r := InsertAt(keys, i, key);
    forall a, b | 1 <= a < b < |r| ensures r[a] < r[b] {
      if b < i {
        assert r[a] == keys[a] && r[b] == keys[b];
      } else if b == i {
        assert r[a] == keys[a] && r[b] == key;
      } else if a < i {
        assert r[a] == keys[a] && r[b] == keys[b - 1];
        if a < b - 1 { assert keys[a] < keys[b - 1]; }
      } else if a == i {
        assert r[b] == keys[b - 1];
        if i < b - 1 { assert keys[i] < keys[b - 1]; }
      } else {
        assert r[a] == keys[a - 1] && r[b] == keys[b - 1];
      }
    }
    assert r[|r| - 1] == keys[|keys| - 1];
  }

  lemma {:induction false} InsertAddsElement(keys: seq<Int32>, key: Int32, i: nat)
    requires 1 <= i < |keys|
    ensures Elements(InsertAt(keys, i, key)) == Elements(keys) + {key}
  {
    var r := InsertAt(keys, i, key);
    forall x | x in Elements(r) ensures x in Elements(keys) + {key} {
      var j :| 1 <= j < |r| - 1 && r[j] == x;
      if j < i { assert r[j] == keys[j] && keys[j] in Elements(keys); }
      else if j > i { assert r[j] == keys[j - 1] && keys[j - 1] in Elements(keys); }
    }
    forall x | x in Elements(keys) + {key} ensures x in Elements(r) {
      if x == key {
        assert r[i] == key && r[i] in Elements(r);
      } else {
        var j :| 1 <= j < |keys| - 1 && keys[j] == x;
        if j < i { assert r[j] == keys[j] && r[j] in Elements(r); }
        else { assert r[j + 1] == keys[j] && r[j + 1] in Elements(r); }
      }
    }
  }

  /** Unlinking the stop node of a successful search (with a key below the tail's)
      keeps the chain valid and removes exactly the key. */
  lemma RemoveKeepsValid(keys: seq<Int32>, key: Int32, i: nat)
    requires ValidKeys(keys) && key < MAX_VALUE
    requires Walk(keys, key, 1) == Some(i) && keys[i] == key
    ensures i < |keys| - 1
    ensures ValidKeys(RemoveAt(keys, i))
    ensures Elements(RemoveAt(keys, i)) == Elements(keys) - {key}
  {
    StopDecidesMembership(keys, key, i);
    RemoveKeepsOrder(keys, i);
    RemoveDropsElement(keys, key, i);
  }

  lemma {:induction false} RemoveKeepsOrder(keys: seq<Int32>, i: nat)
    requires ValidKeys(keys) && 1 <= i < |keys| - 1
    ensures ValidKeys(RemoveAt(keys, i))
  {
    var r := RemoveAt(keys, i);
    forall a, b | 1 <= a < b < |r| ensures r[a] < r[b] {
      if b < i {
        assert r[a] == keys[a] && r[b] == keys[b];
      } else if a < i {
        assert r[a] == keys[a] && r[b] == keys[b + 1];
      } else {
        assert r[a] == keys[a + 1] && r[b] == keys[b + 1];
      }
    }
    assert r[|r| - 1] == keys[|keys| - 1];
  }

  lemma {:induction false} RemoveDropsElement(keys: seq<Int32>, key: Int32, i: nat)
    requires ValidKeys(keys) && 1 <= i < |keys| - 1 && keys[i] == key
    ensures Elements(RemoveAt(keys, i)) == Elements(keys) - {key}
  {
    var r := RemoveAt(keys, i);
    forall x | x in Elements(r) ensures x in Elements(keys) - {key} {
      var j :| 1 <= j < |r| - 1 && r[j] == x;
      if j < i {
        assert r[j] == keys[j] && keys[j] in Elements(keys) && keys[j] < keys[i];
      } else {
        assert r[j] == keys[j + 1] && keys[j + 1] in Elements(keys) && keys[i] < keys[j + 1];
      }
    }
    forall x | x in Elements(keys) - {key} ensures x in Elements(r) {
      var j :| 1 <= j < |keys| - 1 && keys[j] == x;
      if j < i { assert r[j] == keys[j] && r[j] in Elements(r); }
      else { assert j != i && r[j - 1] == keys[j] && r[j - 1] in Elements(r); }
    }
  }

  /** A search for MAX_VALUE stops on the tail sentinel itself. As written, `add` then
      reports the key present although it is no element, `contains` answers true, and
      `remove` unlinks the tail, after which the chain is no longer valid. */
  lemma {:induction false} TailCollision(keys: seq<Int32>)
    requires ValidKeys(keys)
    ensures Walk(keys, MAX_VALUE, 1) == Some(|keys| - 1)
    ensures keys[|keys| - 1] == MAX_VALUE && MAX_VALUE !in Elements(keys)
    ensures !ValidKeys(RemoveAt(keys, |keys| - 1))
  {
    var last := |keys| - 1;
    WalkStops(keys, MAX_VALUE);
    var r := RemoveAt(keys, last);
    if |r| >= 2 {
      assert r[|r| - 1] == keys[last - 1];
      if last - 1 >= 1 {
        assert keys[last - 1] < keys[last];
      }
    }
  }

  /** The chain built by a constructor that leaves the tail key at MIN_VALUE. */
  const UnraisedTail: seq<Int32> := [MIN_VALUE, MIN_VALUE]

  /** With the tail key left at MIN_VALUE the chain is not valid, a search for any key
      above MIN_VALUE steps past the tail onto null, and a search for MIN_VALUE stops on
      the tail, whose key then matches. */
  lemma UnraisedTailBreaksSearch(key: Int32)
    ensures !ValidKeys(UnraisedTail)
    ensures MIN_VALUE < key ==> Walk(UnraisedTail, key, 1) == None
    ensures key == MIN_VALUE ==> Walk(UnraisedTail, key, 1) == Some(1) && UnraisedTail[1] == key
  {
  }

  /** Raising the tail key to MAX_VALUE gives the valid chain of the empty set. */
  lemma RaisedTailIsEmptySet()
    ensures ValidKeys([MIN_VALUE, MAX_VALUE]) && Elements([MIN_VALUE, MAX_VALUE]) == {}
  {
  }

  // ---------------------------------------------------------------------------
  // The chain on the heap
  // ---------------------------------------------------------------------------

  /** A list node. The element is represented by its key alone (the payload field is
      never read by any operation); the per-node lock of two of the variants is tracked
      as a ghost set of held nodes inside each operation. */
  class Node {
    var key: Int32
    var next: Node?

    /** `new Node(item)`: a null item (the sentinels) gets key MIN_VALUE, any other
        item its hash code, here the key itself. */
    constructor (item: Option<Int32>)
      ensures key == (if item.None? then MIN_VALUE else item.value) && next == null
    {
      key := if item.None? then MIN_VALUE else item.value;
      next := null;
    }
  }

  /** The keys of a sequence of nodes, in order. */
  ghost function KeysOf(spine: seq<Node>): (keys: seq<Int32>)
    reads spine
    ensures |keys| == |spine|
    ensures forall i {:trigger keys[i]} :: 0 <= i < |spine| ==> keys[i] == spine[i].key
  {
    seq(|spine|, i requires 0 <= i < |spine| reads spine => spine[i].key)
  }

  /** `spine` lists the nodes reachable from head, in order: distinct (so the chain is
      acyclic), each linked to the next, the last with a null link. */
  ghost predicate IsChain(head: Node, spine: seq<Node>)
    reads spine
  {
    |spine| >= 1 && spine[0] == head &&
    (forall i, j :: 0 <= i < j < |spine| ==> spine[i] != spine[j]) &&
    (forall i :: 0 <= i < |spine| - 1 ==> spine[i].next == spine[i + 1]) &&
    spine[|spine| - 1].next == null
  }

  /** The whole list invariant: a chain from head whose keys form a valid key sequence
      representing `contents`. */
  ghost predicate ChainValid(head: Node, spine: seq<Node>, contents: set<int>)
    reads spine
  {
    IsChain(head, spine) && ValidKeys(KeysOf(spine)) && contents == Elements(KeysOf(spine))
  }

  /** The unlocked search of `add` and `remove` (also the lock-free traversal of the
      optimistic variant): from pred = head, curr = head.next, advance both while
      curr.key < key. On a valid chain it never reaches null and stops at the window
      the value-level Walk predicts. */
  method Locate(head: Node, ghost spine: seq<Node>, key: Int32)
    returns (pred: Node, curr: Node, ghost i: nat)
    requires IsChain(head, spine) && ValidKeys(KeysOf(spine))
    ensures 1 <= i < |spine| && pred == spine[i - 1] && curr == spine[i]
    ensures Walk(KeysOf(spine), key, 1) == Some(i)
    ensures pred.next == curr && (pred == head || pred.key < key) && key <= curr.key
  {
    ghost var keys := KeysOf(spine);
    assert head.next == spine[1];
    pred := head;
    curr := head.next;
    i := 1;
    while curr.key < key
      invariant 1 <= i < |spine| && pred == spine[i - 1] && curr == spine[i]
      invariant Walk(keys, key, 1) == Walk(keys, key, i)
      invariant pred == head || pred.key < key
      decreases |spine| - i
    {
      assert i < |spine| - 1;
      pred := curr;
      curr := curr.next;
      i := i + 1;
    }
  }

  /** `node.next = curr; pred.next = node` for a fresh node, at the window where a
      search for an absent key stopped: the only field written is pred.next, the spine
      gains the new node at curr's index, and the chain stays valid with exactly the
      key added. */
  method Splice(head: Node, pred: Node, curr: Node, key: Int32,
                ghost spine: seq<Node>, ghost contents: set<int>, ghost i: nat)
    returns (node: Node, ghost spine': seq<Node>)
    requires ChainValid(head, spine, contents) && 1 <= i < |spine|
    requires pred == spine[i - 1] && curr == spine[i]
    requires key < MAX_VALUE && Walk(KeysOf(spine), key, 1) == Some(i) && curr.key != key
    modifies pred
    ensures fresh(node) && node.key == key && node.next == curr
    ensures spine' == spine[..i] + [node] + spine[i..] && |spine'| == |spine| + 1 && spine'[i] == node
    ensures KeysOf(spine') == InsertAt(old(KeysOf(spine)), i, key)
    ensures ChainValid(head, spine', contents + {key})
  {
    ghost var keys := KeysOf(spine);
    node, spine' := LinkNew(pred, curr, key, spine, i);
    InsertKeepsValid(keys, key, i);
  }

  /** The link work of Splice: a fresh node with the key, linked in between pred and
      its successor curr. */
  method LinkNew(pred: Node, curr: Node, key: Int32, ghost spine: seq<Node>, ghost i: nat)
    returns (node: Node, ghost spine': seq<Node>)
    requires 1 <= i < |spine| && IsChain(spine[0], spine)
    requires pred == spine[i - 1] && curr == spine[i]
    modifies pred
    ensures fresh(node) && node.key == key && node.next == curr
    ensures spine' == spine[..i] + [node] + spine[i..]
    ensures IsChain(spine[0], spine')
    ensures KeysOf(spine') == InsertAt(old(KeysOf(spine)), i, key)
  {
    ghost var keys := KeysOf(spine);
    node := new Node(Some(key));
    node.next := curr;
    pred.next := node;
    spine' := spine[..i] + [node] + spine[i..];
    forall k | 0 <= k < |spine'| - 1 ensures spine'[k].next == spine'[k + 1] {
      if k < i - 1 {
        assert spine'[k] == spine[k] != pred;
      } else if k > i {
        assert spine'[k] == spine[k - 1] != pred;
      }
    }
    assert spine'[|spine'| - 1] == spine[|spine| - 1];
    forall k | 0 <= k < |spine'| ensures KeysOf(spine')[k] == InsertAt(keys, i, key)[k] {
      if k < i { assert spine'[k] == spine[k]; }
      else if k > i { assert spine'[k] == spine[k - 1]; }
    }
  }

  /** `pred.next = curr.next` at the window where a search for a present key stopped:
      the only field written is pred.next, curr leaves the spine, and the chain stays
      valid with exactly the key removed. */
  method Unlink(head: Node, pred: Node, curr: Node, key: Int32,
                ghost spine: seq<Node>, ghost contents: set<int>, ghost i: nat)
    returns (ghost spine': seq<Node>)
    requires ChainValid(head, spine, contents) && 1 <= i < |spine|
    requires pred == spine[i - 1] && curr == spine[i]
    requires key < MAX_VALUE && Walk(KeysOf(spine), key, 1) == Some(i) && curr.key == key
    modifies pred
    ensures i < |spine| - 1 && spine' == spine[..i] + spine[i + 1..]
    ensures KeysOf(spine') == RemoveAt(old(KeysOf(spine)), i)
    ensures ChainValid(head, spine', contents - {key})
  {
    ghost var keys := KeysOf(spine);
    RemoveKeepsValid(keys, key, i);
    spine' := Bypass(pred, curr, spine, i);
  }

  /** `pred.next = curr.next` for curr, pred's successor, not the last node. */
  method Bypass(pred: Node, curr: Node, ghost spine: seq<Node>, ghost i: nat)
    returns (ghost spine': seq<Node>)
    requires 1 <= i < |spine| - 1 && IsChain(spine[0], spine)
    requires pred == spine[i - 1] && curr == spine[i]
    modifies pred
    ensures spine' == spine[..i] + spine[i + 1..]
    ensures IsChain(spine[0], spine')
    ensures KeysOf(spine') == RemoveAt(old(KeysOf(spine)), i)
  {
    ghost var keys := KeysOf(spine);
    pred.next := curr.next;
    spine' := spine[..i] + spine[i + 1..];
    forall k | 0 <= k < |spine'| - 1 ensures spine'[k].next == spine'[k + 1] {
      if k < i - 1 {
        assert spine'[k] == spine[k] != pred;
      } else if k >= i {
        assert spine'[k] == spine[k + 1] != pred;
      }
    }
    assert spine'[|spine'| - 1] == spine[|spine| - 1];
    forall k | 0 <= k < |spine'| ensures KeysOf(spine')[k] == RemoveAt(keys, i)[k] {
      if k < i { assert spine'[k] == spine[k]; }
      else { assert spine'[k] == spine[k + 1]; }
    }
  }

  // ---------------------------------------------------------------------------
  // Ghost lock bookkeeping for the node-locking variants
  // ---------------------------------------------------------------------------

  /** `n.lock()`: no implementation ever takes a lock it already holds. */
  ghost function Acquire(held: set<Node>, n: Node): (r: set<Node>)
    requires n !in held
    ensures n in r && r - {n} == held
  {
    held + {n}
  }

  /** `n.unlock()`: only a held lock is released. */
  ghost function Release(held: set<Node>, n: Node): (r: set<Node>)
    requires n in held
    ensures n !in r && r + {n} == held
  {
    held - {n}
  }
}
