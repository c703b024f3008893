/**
 List elements (`list_ele_t`) and the two sort routines of queue.c that work
 on bare chains of them, `SortedMerge` and `MergeSort`. A chain is described
 by the ghost sequence of its nodes in link order; its strings are `Values`.
 */
module NodeChain {
  import opened CaseFold
  import opened QueueSpec

  /** A list element: an owned string, fixed once the element exists, and a link. */
  class Node {
    const value: CString
    var next: Node?

    constructor (value: CString, next: Node?)
      ensures this.value == value && this.next == next
    {
      this.value := value;
      this.next := next;
    }
  }

  /** No node occurs twice. */
  ghost predicate Distinct(ns: seq<Node>)
  {
    forall i, j :: 0 <= i < j < |ns| ==> ns[i] != ns[j]
  }

  /**
   `h` heads a NULL-terminated chain whose nodes, in link order, are `ns`:
   each node links to the one after it and the last one to null.
   */
  ghost predicate ChainOf(h: Node?, ns: seq<Node>)
    reads ns
  {
    && h == (if ns == [] then null else ns[0])
    && (forall i {:trigger ns[i].next} :: 0 <= i < |ns| - 1 ==> ns[i].next == ns[i + 1])
    && (ns != [] ==> ns[|ns| - 1].next == null)
  }

  /** The strings held by a sequence of nodes, in order. */
  function Values(ns: seq<Node>): seq<string>
  {
    seq(|ns|, i requires 0 <= i < |ns| => ns[i].value)
  }

  lemma ValuesReversed(ns: seq<Node>)
    ensures Values(Reversed(ns)) == Reversed(Values(ns))
  {
  }

  lemma ValuesCons(n: Node, ns: seq<Node>)
    ensures Values([n] + ns) == [n.value] + Values(ns)
  {
  }

  lemma ValuesSlices(ns: seq<Node>, m: nat)
    requires m <= |ns|
    ensures Values(ns[..m]) == Values(ns)[..m]
    ensures Values(ns[m..]) == Values(ns)[m..]
  {
  }

  /**
   If two places of a chain hold the same node, so do the places `t` links
   further on.
   */
  lemma {:induction false} ChainShift(h: Node?, ns: seq<Node>, i: nat, j: nat, t: nat)
    requires ChainOf(h, ns) && i < j && j + t < |ns|
    ensures ns[i] == ns[j] ==> ns[i + t] == ns[j + t]
    decreases t
  {
    if t > 0 {
      ChainShift(h, ns, i, j, t - 1);
      assert ns[i + t - 1].next == ns[i + t];
      assert ns[j + t - 1].next == ns[j + t];
    }
  }

  /**
   A NULL-terminated chain never revisits a node: a node met twice would be
   met again at the end, where one copy links on and the other to null.
   */
  lemma ChainDistinct(h: Node?, ns: seq<Node>)
    requires ChainOf(h, ns)
    ensures Distinct(ns)
  {
    forall i, j | 0 <= i < j < |ns| ensures ns[i] != ns[j] {
      var t := |ns| - 1 - j;
      ChainShift(h, ns, i, j, t);
      assert ns[i + t].next == ns[i + t + 1];
    }
  }

  /** Dropping the first node of a chain leaves the chain its link points to. */
  lemma ChainTail(h: Node?, ns: seq<Node>)
    requires ChainOf(h, ns) && ns != []
    ensures ChainOf(ns[0].next, ns[1..])
    ensures ns[0] !in ns[1..]
  {
    ChainDistinct(h, ns);
    forall i | 0 <= i < |ns| - 1 ensures ns[1..][i] != ns[0] {
      assert ns[1..][i] == ns[i + 1];
    }
    assert |ns| > 1 ==> ns[0].next == ns[1];
  }

  /** Sequences holding the same nodes as multisets hold the same nodes. */
  lemma SameNodes(xs: seq<Node>, ys: seq<Node>)
    requires multiset(xs) == multiset(ys)
    ensures forall x :: x in xs <==> x in ys
  {
    forall x ensures x in xs <==> x in ys {
      assert x in xs <==> x in multiset(xs);
      assert x in ys <==> x in multiset(ys);
    }
  }

  /** The two parts of a chain cut at `m` share no node. */
  lemma SplitDisjoint(ns: seq<Node>, m: nat)
    requires Distinct(ns) && m <= |ns|
    ensures multiset(ns[..m]) !! multiset(ns[m..])
    ensures forall i :: m <= i < |ns| ==> ns[i] !in ns[..m]
  {
    forall x | x in ns[..m] ensures x !in ns[m..] {
      var i :| 0 <= i < m && ns[i] == x;
    }
    forall x | x in multiset(ns[..m]) ensures x !in multiset(ns[m..]) {
      assert x in ns[..m];
    }
  }

  /** Linking `n` in front of a chain gives a longer chain. */
  lemma ChainCons(n: Node, rest: Node?, ns: seq<Node>)
    requires ChainOf(rest, ns) && n.next == rest
    ensures ChainOf(n, [n] + ns)
  {
    var ms := [n] + ns;
    forall i | 0 < i < |ms| - 1
      ensures ms[i].next == ms[i + 1]
    {
      assert ms[i] == ns[i - 1];
    }
  }

  /** Linking a last node `n` after a chain gives a longer chain. */
  lemma ChainSnoc(h: Node?, ns: seq<Node>, n: Node)
    requires n.next == null
    requires h == if ns == [] then n else ns[0]
    requires forall i :: 0 <= i < |ns| - 1 ==> ns[i].next == ns[i + 1]
    requires ns != [] ==> ns[|ns| - 1].next == n
    ensures ChainOf(h, ns + [n])
  {
    var ms := ns + [n];
    forall i | 0 <= i < |ms| - 1 ensures ms[i].next == ms[i + 1] {
      if i < |ns| - 1 {
        assert ms[i] == ns[i] && ms[i + 1] == ns[i + 1];
      }
    }
  }

  /** One step of in-place reversal: the next node goes in front of the reversed prefix. */
  lemma ReverseStep(ns: seq<Node>, i: nat)
    requires Distinct(ns) && i < |ns|
    ensures Reversed(ns[..i + 1]) == [ns[i]] + Reversed(ns[..i])
    ensures ns[i] !in Reversed(ns[..i])
  {
    var r := Reversed(ns[..i]);
    forall k | 0 <= k < |r| ensures r[k] != ns[i] {
      assert r[k] == ns[i - 1 - k];
    }
  }
  /** Walks a chain from its first node to its last one, null for an empty chain. */
  method LastNode(head: Node?, ghost ns: seq<Node>) returns (last: Node?)
    requires ChainOf(head, ns)
    ensures last == if ns == [] then null else ns[|ns| - 1]
  {
    last := head;
    if last != null {
      ghost var k := 0;
      while last.next != null
        invariant 0 <= k < |ns| && last == ns[k]
        decreases |ns| - k
      {
        last := last.next;
        k := k + 1;
      }
    }
  }

  /**
   Points `n` back at the chain `done` and returns the node it linked to
   before, which still heads the chain `rest`.
   */
  method LinkBack(n: Node, cursor: Node?, ghost done: seq<Node>, ghost rest: seq<Node>) returns (next: Node?)
    requires ChainOf(cursor, done) && ChainOf(n.next, rest)
    requires n !in done && n !in rest
    modifies n
    ensures n.next == cursor
    ensures ChainOf(n, [n] + done) && ChainOf(next, rest)
  {
    next := n.next;
    LinkFront(n, cursor, done);
  }

  /** Links `n` in front of the chain `rest`, whose nodes do not include it. */
  method LinkFront(n: Node, rest: Node?, ghost restNodes: seq<Node>)
    requires ChainOf(rest, restNodes) && n !in restNodes
    modifies n
    ensures n.next == rest && ChainOf(n, [n] + restNodes)
  {
    n.next := rest;
    ChainCons(n, rest, restNodes);
  }

  /**
   The loop of `q_reverse`: walks the chain from `head`, pointing each node
   back at its predecessor. Returns the new first node and the new last node,
   which is the old first node; on an empty chain `tail` comes back unchanged.
   */
  method ReverseLinks(head: Node?, tail: Node?, ghost ns: seq<Node>) returns (cursor: Node?, nodeTail: Node?)
    requires ChainOf(head, ns)
    modifies ns
    ensures ChainOf(cursor, Reversed(ns))
    ensures nodeTail == if ns == [] then tail else ns[0]
  {
    cursor := null;
    nodeTail := tail;
    var nodeHead := head;
    ghost var done: seq<Node> := [];
    ghost var i := 0;
    ChainDistinct(head, ns);
    while nodeHead != null
      invariant 0 <= i <= |ns|
      invariant done == Reversed(ns[..i])
      invariant ChainOf(cursor, done) && ChainOf(nodeHead, ns[i..])
      invariant nodeTail == if i == 0 then tail else ns[0]
      decreases |ns| - i
    {
      ReverseStep(ns, i);
      ChainTail(nodeHead, ns[i..]);
      assert ns[i..][1..] == ns[i + 1..];
      var next := LinkBack(nodeHead, cursor, done, ns[i + 1..]);
      cursor := nodeHead;
      if cursor.next == null {
        nodeTail := cursor;
      }
      nodeHead := next;
      done := [ns[i]] + done;
      i := i + 1;
    }
    assert ns[..i] == ns;
  }


  /** Taking the first node of the left chain extends the merge of what remains. */
  lemma MergeTakesLeft(aNodes: seq<Node>, bNodes: seq<Node>, restNodes: seq<Node>)
    requires aNodes != [] && bNodes != [] && aNodes[0] !in aNodes[1..]
    requires StrCaseCmp(aNodes[0].value, bNodes[0].value) < 0
    requires multiset(aNodes) !! multiset(bNodes)
    requires multiset(restNodes) == multiset(aNodes[1..]) + multiset(bNodes)
    requires Values(restNodes) == Merge(Values(aNodes[1..]), Values(bNodes))
    ensures aNodes[0] !in restNodes
    ensures multiset([aNodes[0]] + restNodes) == multiset(aNodes) + multiset(bNodes)
    ensures Values([aNodes[0]] + restNodes) == Merge(Values(aNodes), Values(bNodes))
  {
    HeadMultiset(aNodes);
    assert aNodes[0] in multiset(aNodes) && aNodes[0] !in multiset(aNodes[1..]);
    assert aNodes[0] !in multiset(bNodes) && aNodes[0] !in multiset(restNodes);
    var va, vb := Values(aNodes), Values(bNodes);
    ValuesSlices(aNodes, 1);
    assert Merge(va, vb) == [va[0]] + Merge(va[1..], vb);
    ValuesCons(aNodes[0], restNodes);
  }

  /** Taking the first node of the right chain extends the merge of what remains. */
  lemma MergeTakesRight(aNodes: seq<Node>, bNodes: seq<Node>, restNodes: seq<Node>)
    requires aNodes != [] && bNodes != [] && bNodes[0] !in bNodes[1..]
    requires StrCaseCmp(aNodes[0].value, bNodes[0].value) >= 0
    requires multiset(aNodes) !! multiset(bNodes)
    requires multiset(restNodes) == multiset(aNodes) + multiset(bNodes[1..])
    requires Values(restNodes) == Merge(Values(aNodes), Values(bNodes[1..]))
    ensures bNodes[0] !in restNodes
    ensures multiset([bNodes[0]] + restNodes) == multiset(aNodes) + multiset(bNodes)
    ensures Values([bNodes[0]] + restNodes) == Merge(Values(aNodes), Values(bNodes))
  {
    HeadMultiset(bNodes);
    assert bNodes[0] in multiset(bNodes) && bNodes[0] !in multiset(bNodes[1..]);
    assert bNodes[0] !in multiset(aNodes) && bNodes[0] !in multiset(restNodes);
    var va, vb := Values(aNodes), Values(bNodes);
    ValuesSlices(bNodes, 1);
    assert Merge(va, vb) == [vb[0]] + Merge(va, vb[1..]);
    ValuesCons(bNodes[0], restNodes);
  }

  /**
   `SortedMerge(a, b)`: relinks the nodes of two disjoint chains into one
   chain holding exactly those nodes, whose strings are `Merge` of theirs.
   */
  method SortedMerge(a: Node?, b: Node?, ghost aNodes: seq<Node>, ghost bNodes: seq<Node>)
    returns (r: Node?, ghost rs: seq<Node>)
    requires ChainOf(a, aNodes) && ChainOf(b, bNodes)
    requires multiset(aNodes) !! multiset(bNodes)
    modifies aNodes, bNodes
    ensures ChainOf(r, rs)
    ensures multiset(rs) == multiset(aNodes) + multiset(bNodes)
    ensures Values(rs) == Merge(Values(aNodes), Values(bNodes))
    decreases |aNodes| + |bNodes|
  {
    if a == null {
      return b, bNodes;
    } else if b == null {
      return a, aNodes;
    }
    ChainTail(a, aNodes);
    ChainTail(b, bNodes);
    var rest;
    ghost var restNodes;
    if StrCaseCmp(a.value, b.value) < 0 {
      rest, restNodes := SortedMerge(a.next, b, aNodes[1..], bNodes);
      MergeTakesLeft(aNodes, bNodes, restNodes);
      LinkFront(a, rest, restNodes);
      r, rs := a, [aNodes[0]] + restNodes;
    } else {
      rest, restNodes := SortedMerge(a, b.next, aNodes, bNodes[1..]);
      MergeTakesRight(aNodes, bNodes, restNodes);
      LinkFront(b, rest, restNodes);
      r, rs := b, [bNodes[0]] + restNodes;
    }
  }

  /**
   The front/back split at the start of `MergeSort`: a fast cursor moves two
   links for each link of a slow one, and the chain is cut after the slow
   cursor. The front keeps `FrontLength(n)` nodes (the ceiling of half) and
   the back, headed by `back`, the other floor-of-half nodes.
   */
  method FrontBackSplit(head: Node, ghost ns: seq<Node>) returns (back: Node?, ghost m: nat)
    requires ChainOf(head, ns) && |ns| >= 2
    modifies ns
    ensures m == FrontLength(|ns|)
    ensures ChainOf(head, ns[..m]) && ChainOf(back, ns[m..])
    ensures multiset(ns[..m]) !! multiset(ns[m..])
    ensures forall x :: x in ns[..m] ==> x !in ns[m..]
  {
    ChainDistinct(head, ns);
    var fast := head.next;
    var slow := head;
    ghost var k := 0;
    ghost var f := 1;
    while fast != null
      invariant ChainOf(head, ns)
      invariant 0 <= k < f <= |ns|
      invariant f == k + k + 1 || (f == k + k + 2 && f == |ns|)
      invariant slow == ns[k]
      invariant fast == if f < |ns| then ns[f] else null
      decreases |ns| - f
    {
      assert f < |ns|;
      fast := fast.next;
      f := f + 1;
      assert fast == if f < |ns| then ns[f] else null;
      if fast != null {
        assert k + 1 < |ns|;
        slow := slow.next;
        fast := fast.next;
        k, f := k + 1, f + 1;
      }
    }
    m := k + 1;
    back := slow.next;
    slow.next := null;
    SplitDisjoint(ns, m);
  }

  /** The sorted front half holds no node of the back half. */
  lemma SortedHalvesDisjoint(ns: seq<Node>, m: nat, aNodes: seq<Node>)
    requires m <= |ns| && multiset(ns[..m]) !! multiset(ns[m..])
    requires multiset(aNodes) == multiset(ns[..m])
    ensures forall i :: 0 <= i < |aNodes| ==> aNodes[i] !in ns[m..]
  {
    forall i | 0 <= i < |aNodes| ensures aNodes[i] !in ns[m..] {
      assert aNodes[i] in multiset(aNodes);
    }
  }

  /** The two sorted halves are disjoint and lie within the whole chain. */
  lemma SortedHalvesMerge(ns: seq<Node>, m: nat, aNodes: seq<Node>, bNodes: seq<Node>)
    requires m <= |ns| && multiset(ns[..m]) !! multiset(ns[m..])
    requires multiset(aNodes) == multiset(ns[..m])
    requires multiset(bNodes) == multiset(ns[m..])
    ensures multiset(aNodes) !! multiset(bNodes)
    ensures forall i :: 0 <= i < |aNodes| ==> aNodes[i] in ns
    ensures forall i :: 0 <= i < |bNodes| ==> bNodes[i] in ns
  {
    SameNodes(aNodes, ns[..m]);
    SameNodes(bNodes, ns[m..]);
    assert ns == ns[..m] + ns[m..];
    forall i | 0 <= i < |aNodes| ensures aNodes[i] in ns {
      assert aNodes[i] in aNodes;
    }
    forall i | 0 <= i < |bNodes| ensures bNodes[i] in ns {
      assert bNodes[i] in bNodes;
    }
  }

  /** Merging the sorted halves gives the merge sort of the whole chain. */
  lemma MergeOfSortedHalves(ns: seq<Node>, m: nat, aNodes: seq<Node>, bNodes: seq<Node>, rs: seq<Node>)
    requires |ns| >= 2 && m == FrontLength(|ns|)
    requires multiset(aNodes) == multiset(ns[..m]) && Values(aNodes) == MergeSortOf(Values(ns[..m]))
    requires multiset(bNodes) == multiset(ns[m..]) && Values(bNodes) == MergeSortOf(Values(ns[m..]))
    requires multiset(rs) == multiset(aNodes) + multiset(bNodes)
    requires Values(rs) == Merge(Values(aNodes), Values(bNodes))
    ensures multiset(rs) == multiset(ns)
    ensures Values(rs) == MergeSortOf(Values(ns))
  {
    SplitMultiset(ns, m);
    ValuesSlices(ns, m);
  }

  /**
   `MergeSort(&head)`: splits the chain, sorts both halves and merges them.
   Returns the new first node; the chain holds the same nodes, and its
   strings are `MergeSortOf` of the old ones.
   */
  method MergeSort(head: Node?, ghost ns: seq<Node>) returns (r: Node?, ghost rs: seq<Node>)
    requires ChainOf(head, ns)
    modifies ns
    ensures ChainOf(r, rs)
    ensures multiset(rs) == multiset(ns)
    ensures Values(rs) == MergeSortOf(Values(ns))
    decreases |ns|
  {
    if head == null || head.next == null {
      if head != null {
        ChainTail(head, ns);
      }
      return head, ns;
    }
    var b;
    ghost var m;
    b, m := FrontBackSplit(head, ns);
    var a;
    ghost var aNodes, bNodes;
    assert forall i :: 0 <= i < |ns| - m ==> ns[m..][i] !in ns[..m];
    a, aNodes := MergeSort(head, ns[..m]);
    SortedHalvesDisjoint(ns, m, aNodes);
    b, bNodes := MergeSort(b, ns[m..]);
    SortedHalvesMerge(ns, m, aNodes, bNodes);
    r, rs := SortedMerge(a, b, aNodes, bNodes);
    MergeOfSortedHalves(ns, m, aNodes, bNodes, rs);
  }
}
