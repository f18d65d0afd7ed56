/** The singly linked transaction log of transaction-log/src/lib.rs: a FIFO of
    text entries with O(1) `Append` at the tail and O(1) `Pop` at the head, and
    a forward cursor that walks the `next` links.

    Shared `Rc<RefCell<Node>>` links become references to `Node` objects. The
    log's ghost `Nodes` lists the nodes of its chain from head to tail and its
    ghost `Contents` their entries; `Valid()` ties both to `head`, `tail`,
    `length` and the `next` links. */
module LinkedLog {
  import opened LogSpec

  class Node {
    var value: string
    var next: Node?

    /** A node holding `value` and linked to nothing. */
    constructor (value: string)
      ensures this.value == value && next == null
    {
      this.value := value;
      next := null;
    }
  }

  /** `ns` is exactly the chain reached from `n` by following `next` until the
      link is absent: `n` is `ns[0]`, its `next` is `ns[1]`, and so on, and the
      last node's `next` is absent. */
  ghost predicate IsChain(n: Node?, ns: seq<Node>)
    reads ns
    decreases |ns|
  {
    if ns == [] then n == null
    else n == ns[0] && IsChain(ns[0].next, ns[1..])
  }

  /** The chain from a link is determined by the heap: two chains from the
      same link are the same nodes. */
  lemma {:induction false} ChainIsUnique(n: Node?, ns: seq<Node>, ms: seq<Node>)
    requires IsChain(n, ns) && IsChain(n, ms)
    ensures ns == ms
    decreases |ns|
  {
    if ns != [] {
      assert ms != [] && ms[0] == ns[0];
      ChainIsUnique(ns[0].next, ns[1..], ms[1..]);
      assert ns == [ns[0]] + ns[1..] && ms == [ms[0]] + ms[1..];
    } else {
      assert ms == [];
    }
  }

  class TransactionLog {
    var head: Node?
    var tail: Node?
    var length: nat

    /** The nodes of the chain, head first. */
    ghost var Nodes: seq<Node>
    /** The entries of the log, oldest first. */
    ghost var Contents: seq<string>
    ghost var Repr: set<object>

    ghost predicate Valid()
      reads this, Repr
      ensures Valid() ==> this in Repr
    {
      this in Repr &&
      (forall i :: 0 <= i < |Nodes| ==> Nodes[i] in Repr) &&
      |Nodes| == |Contents| == length &&
      (forall i, j :: 0 <= i < j < |Nodes| ==> Nodes[i] != Nodes[j]) &&
      (forall i :: 0 <= i < |Nodes| ==> Nodes[i].value == Contents[i]) &&
      (forall i :: 0 <= i < |Nodes| - 1 ==> Nodes[i].next == Nodes[i + 1]) &&
      (if Nodes == [] then head == null && tail == null
       else head == Nodes[0] && tail == Nodes[|Nodes| - 1] && tail.next == null)
    }

    /** The log holds no link to `n`: neither `head`, `tail` nor any node's
        `next` refers to it, so the log's own reference to it is the only one. */
    ghost predicate HoldsNoLinkTo(n: Node)
      reads this, Nodes
    {
      head != n && tail != n && n !in Nodes &&
      forall m :: m in Nodes ==> m.next != n
    }

    /** `it` stands at the `k`-th node of the chain, or past the end when
        `k == |Nodes|`. */
    ghost predicate CursorAt(it: ListIterator, k: nat)
      reads this, Repr, it
    {
      Valid() && k <= |Nodes| &&
      it.currentLink == (if k < |Nodes| then Nodes[k] else null)
    }

    /** An empty log: no head, no tail, length 0. */
    constructor ()
      ensures Valid() && fresh(Repr)
      ensures head == null && tail == null && length == 0
      ensures Contents == []
    {
      head := null;
      tail := null;
      length := 0;
      Nodes := [];
      Contents := [];
      Repr := {this};
    }

    /** Links a new node holding `value` after the tail. Only the old tail's
        `next` and the log's `tail` and `length` change, and `head` too when
        the log was empty. */
    method Append(value: string)
      requires Valid()
      modifies Repr
      ensures Valid() && fresh(Repr - old(Repr))
      ensures Contents == old(Contents) + [value]
      ensures length == old(length) + 1
      ensures tail != null && tail.value == value && tail.next == null
      ensures old(head) == null ==> head == tail
      ensures old(head) != null ==> head == old(head)
      ensures Nodes == old(Nodes) + [tail] && fresh(tail)
      ensures forall n :: n in old(Nodes) && n != old(tail) ==> n.next == old(n.next)
      ensures forall n :: n in old(Nodes) ==> n.value == old(n.value)
    {
      var newNode := new Node(value);
      var oldTail := tail;
      tail := null;
      if oldTail != null {
        oldTail.next := newNode;
      } else {
        head := newNode;
      }
      length := length + 1;
      tail := newNode;
      Nodes := Nodes + [newNode];
      Contents := Contents + [value];
      Repr := Repr + {newNode};
    }

    /** Unlinks the head node and returns its entry, or returns `None` and
        changes nothing when the log is empty. When the last node goes,
        `tail` is cleared too; otherwise `tail` and every remaining node are
        left as they were. Afterwards the log holds no link to the popped
        node, so reclaiming it (the `try_unwrap` of the source) cannot fail
        on the log's account. */
    method Pop() returns (r: Option<string>)
      requires Valid()
      modifies Repr
      ensures Valid() && Repr <= old(Repr)
      ensures (r, Contents) == PopFront(old(Contents))
      ensures old(head) == null ==> r == None && head == null && tail == null && length == 0
      ensures old(head) != null ==>
                r == Some(old(head.value)) && length == old(length) - 1 &&
                head == old(head.next) && (head == null <==> tail == null) &&
                old(head) !in Repr && HoldsNoLinkTo(old(head))
      ensures old(head) != null ==> Nodes == old(Nodes)[1..]
      ensures Nodes != [] ==> tail == old(tail)
      ensures forall n :: n in Nodes ==> n.next == old(n.next) && n.value == old(n.value)
    {
      var headNode := head;
      head := null;
      if headNode == null {
        r := None;
        return;
      }
      ghost var before := Nodes;
      assert forall i :: 1 <= i < |before| ==> before[i] != headNode;
      var nextNode := headNode.next;
      headNode.next := null;
      if nextNode != null {
        head := nextNode;
      } else {
        tail := null;
      }
      length := length - 1;
      Nodes := Nodes[1..];
      Contents := Contents[1..];
      Repr := Repr - {headNode};
      // The popped node is referred to by nothing the log still holds: in
      // the single-node case this needs `tail` cleared above.
      assert headNode !in Nodes;
      assert forall i :: 0 <= i < |Nodes| ==> Nodes[i].next != headNode by {
        forall i | 0 <= i < |Nodes|
          ensures Nodes[i].next != headNode
        {
          assert Nodes[i] == before[i + 1] && Nodes[i].next == old(before[i + 1].next);
          if i + 2 < |before| {
            assert Nodes[i].next == before[i + 2];
          }
        }
      }
      r := Some(headNode.value);
    }
  }

  /** The invariants the log keeps: head, tail and length are absent or
      present together, the tail ends the chain, and `length` is the number
      of nodes reached from `head` by following `next`. */
  lemma ValidLogShape(log: TransactionLog)
    requires log.Valid()
    ensures log.head == null <==> log.tail == null
    ensures log.head == null <==> log.length == 0
    ensures log.tail != null ==> log.tail.next == null
    ensures IsChain(log.head, log.Nodes) && |log.Nodes| == log.length
  {
    SuffixIsChain(log, 0);
  }

  /** Every suffix of the log's node list is the chain from its first node. */
  lemma {:induction false} SuffixIsChain(log: TransactionLog, i: nat)
    requires log.Valid() && i <= |log.Nodes|
    ensures IsChain(if i < |log.Nodes| then log.Nodes[i] else null, log.Nodes[i..])
    decreases |log.Nodes| - i
  {
    if i < |log.Nodes| {
      SuffixIsChain(log, i + 1);
      assert log.Nodes[i..][1..] == log.Nodes[i + 1..];
    }
  }

  /** Any chain from the head of a valid log is its node list, so its size
      is the log's `length`. */
  lemma ChainFromHeadHasLength(log: TransactionLog, ns: seq<Node>)
    requires log.Valid() && IsChain(log.head, ns)
    ensures ns == log.Nodes && |ns| == log.length
  {
    ValidLogShape(log);
    ChainIsUnique(log.head, ns, log.Nodes);
  }

  /** A forward cursor: holds one link and follows `next` on each step. */
  class ListIterator {
    var currentLink: Node?

    constructor (startAt: Node?)
      ensures currentLink == startAt
    {
      currentLink := startAt;
    }

    /** Yields the value at the current link, then moves to its `next`; once
        the link is absent it yields `None` and stays where it is, so every
        later call yields `None` too. Only the cursor changes. */
    method Next() returns (r: Option<string>)
      modifies this
      ensures old(currentLink) == null ==> r == None && currentLink == null
      ensures old(currentLink) != null ==>
                r == Some(old(currentLink.value)) && currentLink == old(currentLink.next)
    {
      var current := currentLink;
      r := None;
      if current != null {
        r := Some(current.value);
        currentLink := current.next;
      } else {
        currentLink := null;
      }
    }
  }

  /** A cursor started at a valid log's head and drained until it yields
      `None` returns the log's entries in append order. The log is not
      changed (this method modifies no existing object). */
  method ForwardValues(log: TransactionLog) returns (values: seq<string>)
    requires log.Valid()
    ensures values == log.Contents
  {
    var it := new ListIterator(log.head);
    values := [];
    while true
      invariant log.CursorAt(it, |values|)
      invariant values == log.Contents[..|values|]
      decreases |log.Nodes| - |values|
    {
      var r := it.Next();
      if r == None {
        break;
      }
      values := values + [r.value];
    }
    assert |values| == |log.Nodes|;
  }

  /** A new log has length 0. */
  method NewLogIsEmpty() returns (len: nat)
    ensures len == 0
  {
    var tl := new TransactionLog();
    len := tl.length;
  }

  /** Three appends give length 3; four pops then return the entries in
      append order and then `None`. */
  method AppendedItemsPopInOrder() returns (len: nat, p1: Option<string>, p2: Option<string>, p3: Option<string>, p4: Option<string>)
    ensures len == 3
    ensures p1 == Some("Log Item 1") && p2 == Some("Log Item 2") && p3 == Some("Log Item 3")
    ensures p4 == None
  {
    var tl := new TransactionLog();
    tl.Append("Log Item 1");
    tl.Append("Log Item 2");
    tl.Append("Log Item 3");
    len := tl.length;
    p1 := tl.Pop();
    p2 := tl.Pop();
    p3 := tl.Pop();
    p4 := tl.Pop();
  }

  /** A cursor from the head of a log built by three appends yields the three
      entries in append order. */
  method ForwardIterationFollowsAppends() returns (values: seq<string>)
    ensures values == ["Log Item 1", "Log Item 2", "Log Item 3"]
  {
    var tl := new TransactionLog();
    tl.Append("Log Item 1");
    tl.Append("Log Item 2");
    tl.Append("Log Item 3");
    values := ForwardValues(tl);
  }

  /** Popping the only entry clears `tail` as well as `head`, so an append
      after draining starts a fresh chain: the new entry is both head and
      tail and the next pop returns it. */
  method AppendAfterDrain() returns (p1: Option<string>, len: nat, p2: Option<string>, p3: Option<string>)
    ensures p1 == Some("A") && len == 1 && p2 == Some("B") && p3 == None
  {
    var tl := new TransactionLog();
    tl.Append("A");
    p1 := tl.Pop();
    tl.Append("B");
    assert tl.head == tl.tail;
    len := tl.length;
    p2 := tl.Pop();
    p3 := tl.Pop();
  }
}
