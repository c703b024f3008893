/**
 Two places where queue.c leaves the cached `tail` pointing at the wrong
 node, each shown on a concrete queue, and the repaired operation that keeps
 `tail` on the last node.
 */
module QueueFixes {
  import opened CaseFold
  import opened QueueSpec
  import opened NodeChain
  import opened LinkedQueue

  /**
   Removing the only element leaves `head` null but `tail` still pointing at
   the removed node, so the queue no longer meets what `q_insert_tail` relies
   on: a following insertion at the tail would link the new node after the
   released one and leave `head` null.
   */
  method DrainLeavesStaleTail() returns (q: Queue)
    ensures q.Valid() && q.Contents() == [] && q.size == 0
    ensures q.head == null && q.tail != null
    ensures !q.TailValid()
  {
    q := new Queue();
    var ok := InsertTail(q, "a", false);
    ok := RemoveHead(q, null, 0);
  }

  /**
   Sorting relinks the nodes but keeps the old `tail`. Insert `x` then `y`
   at the tail, two different strings with `y` sorting no later than `x` (a
   case-insensitive tie such as "a" then "A" counts, since the merge takes
   the later run's element first): sorting moves the node holding `y`, which
   `tail` still points at, to the front.
   */
  method SortLeavesStaleTail(x: CString, y: CString) returns (q: Queue)
    requires CaseLe(y, x) && x != y
    ensures q.Valid() && q.Contents() == [y, x]
    ensures q.tail == q.head && q.tail.value == y
    ensures !q.TailValid()
  {
    var b, a;
    q, b, a := TailInsertions(x, y);
    SortTwo(x, y);
    Sort(q);
    assert q.nodes[0].value == q.Contents()[0];
    assert q.nodes[1].value == q.Contents()[1];
    assert q.nodes[0] in multiset([b, a]);
    assert q.nodes[0] == a;
  }

  /** Merge sort puts two elements that tie or are out of order the other way round. */
  lemma SortTwo(x: string, y: string)
    requires CaseLe(y, x)
    ensures MergeSortOf([x, y]) == [y, x]
  {
    var s := [x, y];
    assert FrontLength(|s|) == 1 && s[..1] == [x] && s[1..] == [y];
    StrCaseCmpAntisymmetric(x, y);
    assert Merge([x], [y]) == [y] + Merge([x], []);
  }

  /** A new queue after inserting `x` and then `y` at the tail, with its two nodes. */
  method TailInsertions(x: CString, y: CString) returns (q: Queue, b: Node, a: Node)
    ensures q.Valid() && q.TailValid() && q.head == b && q.tail == a
    ensures q.nodes == [b, a] && q.Contents() == [x, y]
    ensures b.value == x && a.value == y
    ensures fresh(q) && fresh(b) && fresh(a)
  {
    q := new Queue();
    var ok := InsertTail(q, x, false);
    b := q.tail;
    assert b.value == q.Contents()[0];
    ok := InsertTail(q, y, false);
    a := q.tail;
    assert a.value == q.Contents()[1];
  }

  /**
   `q_remove_head` repaired: when the removed node was the last one, `tail`
   is cleared as well, so `tail` stays on the last node across every
   removal.
   */
  method RemoveHeadClearingTail(q: Queue?, sp: array?<char>, bufsize: nat) returns (ok: bool)
    requires q != null ==> q.Valid() && q.TailValid()
    requires sp != null ==> 1 <= bufsize <= sp.Length
    modifies q, sp
    ensures ok <==> q != null && old(q.nodes) != []
    ensures q != null ==> q.Valid() && q.TailValid()
    ensures q != null && !ok ==> unchanged(q)
    ensures sp != null && !ok ==> unchanged(sp)
    ensures ok ==> q.nodes == old(q.nodes)[1..]
    ensures ok ==> q.Contents() == old(q.Contents())[1..] && q.size == old(q.size) - 1
    ensures ok && sp != null ==> sp[..bufsize] == CopyOut(old(q.Contents())[0], bufsize)
    ensures ok && sp != null ==> sp[bufsize..] == old(sp[bufsize..])
  {
    ok := RemoveHead(q, sp, bufsize);
    if q != null && q.head == null {
      q.tail := null;
    }
  }

  /**
   With the repaired removal, draining a queue leaves `tail` null, and a
   following insertion at the tail gives a one-element queue again.
   */
  method DrainThenRefill() returns (q: Queue)
    ensures q.Valid() && q.TailValid() && q.Contents() == ["b"]
    ensures q.head == q.tail && q.head != null
  {
    q := new Queue();
    var ok := InsertTail(q, "a", false);
    ok := RemoveHeadClearingTail(q, null, 0);
    assert q.tail == null;
    ok := InsertTail(q, "b", false);
  }

  /**
   `q_sort` repaired: after relinking, the chain is walked from the new head
   to its last node, which becomes `tail`.
   */
  method SortUpdatingTail(q: Queue?)
    requires q != null ==> q.Valid()
    modifies q, if q != null then q.nodes else []
    ensures q != null ==> q.Valid() && q.TailValid() && q.size == old(q.size)
    ensures q != null ==> multiset(q.nodes) == multiset(old(q.nodes))
    ensures q != null ==> q.Contents() == MergeSortOf(old(q.Contents()))
  {
    if q == null {
      return;
    }
    var head, ns := MergeSort(q.head, q.nodes);
    var last := LastNode(head, ns);
    q.head, q.tail, q.nodes := head, last, ns;
  }
}
