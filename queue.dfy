/**
 The string queue of queue.c: a `queue_t` with `head`, `tail` and `size`
 over a chain of list elements. Each `q_*` function is a method here that
 takes a possibly-null `Queue?`, as the C functions take a possibly-NULL
 `queue_t *`. The ghost field `nodes` lists the chain's nodes in link order.
 */
module LinkedQueue {
  import opened CaseFold
  import opened QueueSpec
  import opened NodeChain

  /** `queue_t`. */
  class Queue {
    var head: Node?
    var tail: Node?
    var size: int
    ghost var nodes: seq<Node>

    /** `head` starts the chain of `nodes` and `size` counts them. */
    ghost predicate Valid()
      reads this, nodes
    {
      ChainOf(head, nodes) && size == |nodes|
    }

    /** The cached `tail` is the last node, or null when there is none. */
    ghost predicate TailValid()
      reads this
    {
      tail == if nodes == [] then null else nodes[|nodes| - 1]
    }

    /** The strings in the queue, front first. */
    ghost function Contents(): seq<string>
      reads this
    {
      Values(nodes)
    }

    constructor ()
      ensures Valid() && TailValid()
      ensures head == null && tail == null && size == 0 && Contents() == []
    {
      head, tail, size := null, null, 0;
      nodes := [];
    }
  }

  /**
   `q_new`: an empty queue, or null when the allocation fails (`oom` is the
   allocator's answer).
   */
  method NewQueue(oom: bool) returns (q: Queue?)
    ensures q == null <==> oom
    ensures q != null ==> fresh(q) && q.Valid() && q.TailValid()
    ensures q != null ==> q.head == null && q.tail == null && q.size == 0 && q.Contents() == []
  {
    if oom {
      return null;
    }
    q := new Queue();
  }

  /**
   `q_free`: walks the chain from the head, releasing each node in turn.
   `released` lists the nodes in the order they are released.
   */
  method Free(q: Queue?) returns (ghost released: seq<Node>)
    requires q != null ==> q.Valid()
    modifies q
    ensures q == null ==> released == []
    ensures q != null ==> q.head == null && q.nodes == [] && released == old(q.nodes)
    ensures Distinct(released)
  {
    released := [];
    if q == null {
      return;
    }
    ChainDistinct(q.head, q.nodes);
    while q.head != null
      invariant ChainOf(q.head, q.nodes)
      invariant released + q.nodes == old(q.nodes)
      decreases |q.nodes|
    {
      ChainTail(q.head, q.nodes);
      ShiftFirst(released, q.nodes);
      released := released + [q.nodes[0]];
      q.head := q.head.next;
      q.nodes := q.nodes[1..];
    }
  }

  /**
   `q_insert_head`: a new node holding `s` becomes the head. Fails, changing
   nothing, on a null queue or when allocation fails.
   */
  method InsertHead(q: Queue?, s: CString, oom: bool) returns (ok: bool)
    requires q != null ==> q.Valid()
    modifies q
    ensures ok <==> q != null && !oom
    ensures q != null ==> q.Valid()
    ensures q != null && !ok ==> unchanged(q)
    ensures ok ==> fresh(q.head) && q.nodes == [q.head] + old(q.nodes)
    ensures ok ==> q.Contents() == [s] + old(q.Contents()) && q.size == old(q.size) + 1
    ensures ok ==> q.tail == if old(q.size) == 0 then q.head else old(q.tail)
    ensures ok && old(q.TailValid()) ==> q.TailValid()
  {
    if q == null || oom {
      return false;
    }
    var n := new Node(s, q.head);
    ChainCons(n, q.head, q.nodes);
    q.head := n;
    q.size := q.size + 1;
    if q.size == 1 {
      q.tail := n;
    }
    q.nodes := [n] + q.nodes;
    ok := true;
  }

  /**
   `q_insert_tail`: a new node holding `s` is linked after the cached tail
   without walking the chain, and becomes the tail. Fails, changing nothing,
   on a null queue or when allocation fails.
   */
  method InsertTail(q: Queue?, s: CString, oom: bool) returns (ok: bool)
    requires q != null ==> q.Valid() && q.TailValid()
    modifies q, if q != null then {q.tail} else {}
    ensures ok <==> q != null && !oom
    ensures q != null ==> q.Valid() && q.TailValid()
    ensures q != null && !ok ==> unchanged(q)
    ensures ok ==> fresh(q.tail) && q.tail.next == null && q.nodes == old(q.nodes) + [q.tail]
    ensures ok ==> q.Contents() == old(q.Contents()) + [s] && q.size == old(q.size) + 1
  {
    if q == null || oom {
      return false;
    }
    var n := new Node(s, null);
    ghost var ns := q.nodes;
    if q.tail == null {
      q.head := n;
      q.tail := n;
    } else {
      q.tail.next := n;
      q.tail := q.tail.next;
    }
    q.size := q.size + 1;
    q.nodes := ns + [n];
    ChainSnoc(q.head, ns, n);
    ok := true;
  }

  /**
   `q_remove_head`: fails on a null or empty queue. Otherwise copies the
   head's string into `sp` (when `sp` is not null) truncated to
   `bufsize - 1` characters and NUL-terminated, and unlinks the head.
   `tail` is never touched, so removing the last node leaves it pointing at
   that node.
   */
  method RemoveHead(q: Queue?, sp: array?<char>, bufsize: nat) returns (ok: bool)
    requires q != null ==> q.Valid()
    requires sp != null ==> 1 <= bufsize <= sp.Length
    modifies q, sp
    ensures ok <==> q != null && old(q.nodes) != []
    ensures q != null ==> q.Valid() && q.tail == old(q.tail)
    ensures q != null && !ok ==> unchanged(q)
    ensures sp != null && !ok ==> unchanged(sp)
    ensures ok ==> q.nodes == old(q.nodes)[1..]
    ensures ok ==> q.Contents() == old(q.Contents())[1..] && q.size == old(q.size) - 1
    ensures ok && sp != null ==> sp[..bufsize] == CopyOut(old(q.Contents())[0], bufsize)
    ensures ok && sp != null ==> sp[bufsize..] == old(sp[bufsize..])
    ensures q != null && old(q.TailValid()) && |old(q.nodes)| != 1 ==> q.TailValid()
  {
    if q == null || q.head == null {
      return false;
    }
    var tmp := q.head;
    if sp != null {
      forall i | 0 <= i < bufsize - 1 {
        sp[i] := StrNCpyOf(tmp.value, bufsize - 1)[i];
      }
      sp[bufsize - 1] := '\0';
    }
    ChainTail(q.head, q.nodes);
    q.head := q.head.next;
    if q.size != 0 {
      q.size := q.size - 1;
    }
    q.nodes := q.nodes[1..];
    ok := true;
  }

  /** `q_size`: 0 for a null queue, otherwise the maintained count. */
  method Size(q: Queue?) returns (n: int)
    requires q != null ==> q.Valid()
    ensures n == if q == null then 0 else |q.Contents()|
  {
    if q == null {
      return 0;
    }
    return q.size;
  }

  /**
   `q_reverse`: walks the chain once, pointing each node back at its
   predecessor. The same nodes end up in reverse order and the old head
   becomes the tail; on an empty queue `tail` keeps its old value.
   */
  method Reverse(q: Queue?)
    requires q != null ==> q.Valid()
    modifies q, if q != null then q.nodes else []
    ensures q != null ==> q.Valid() && q.size == old(q.size)
    ensures q != null ==> q.nodes == Reversed(old(q.nodes))
    ensures q != null ==> q.Contents() == Reversed(old(q.Contents()))
    ensures q != null ==> q.tail == if old(q.nodes) == [] then old(q.tail) else old(q.nodes)[0]
    ensures q != null && (old(q.nodes) != [] || old(q.TailValid())) ==> q.TailValid()
  {
    if q == null {
      return;
    }
    ghost var ns := q.nodes;
    var cursor, nodeTail := ReverseLinks(q.head, q.tail, ns);
    ValuesReversed(ns);
    q.head := cursor;
    q.tail := nodeTail;
    q.nodes := Reversed(ns);
  }

  /**
   `q_sort`: merge sorts the chain by relinking its nodes. The queue ends
   up holding the same nodes, its strings sorted; `tail` is not updated.
   */
  method Sort(q: Queue?)
    requires q != null ==> q.Valid()
    modifies q, if q != null then q.nodes else []
    ensures q != null ==> q.Valid() && q.size == old(q.size) && q.tail == old(q.tail)
    ensures q != null ==> multiset(q.nodes) == multiset(old(q.nodes))
    ensures q != null ==> q.Contents() == MergeSortOf(old(q.Contents()))
    ensures q != null ==> Sorted(q.Contents()) && multiset(q.Contents()) == multiset(old(q.Contents()))
  {
    if q == null {
      return;
    }
    q.head, q.nodes := MergeSort(q.head, q.nodes);
    MergeSortOfCorrect(old(q.Contents()));
  }
}
