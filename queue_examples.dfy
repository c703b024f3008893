/**
 Two runs of the queue operations on concrete strings, with the strings a
 caller reads back from its buffer after each removal.
 */
module QueueExamples {
  import opened CaseFold
  import opened QueueSpec
  import opened NodeChain
  import opened LinkedQueue

  /**
   Removes the head into a 16-character buffer and reads the buffer back as
   a C string; a value shorter than the buffer comes back whole.
   */
  method Pop(q: Queue) returns (s: string)
    requires q.Valid() && q.Contents() != [] && |q.Contents()[0]| < 16
    modifies q
    ensures q.Valid() && q.nodes == old(q.nodes)[1..] && q.tail == old(q.tail)
    ensures q.Contents() == old(q.Contents())[1..]
    ensures s == old(q.Contents())[0]
  {
    ghost var v := q.nodes[0].value;
    assert q.Contents()[0] == v;
    var buf := new char[16];
    var ok := RemoveHead(q, buf, 16);
    CopyOutReadBack(v, 16);
    assert buf[..] == buf[..16];
    s := CStringOf(buf[..]);
  }

  /** The merge sort of ["banana", "Apple", "cherry"]. */
  lemma SortFruit()
    ensures MergeSortOf(["banana", "Apple", "cherry"]) == ["Apple", "banana", "cherry"]
  {
    FruitOrder();
    SortThree("banana", "Apple", "cherry");
  }

  /**
   Merge sort of three strings where only the first two are out of order:
   the front half `[x, y]` is swapped and `z` stays last.
   */
  lemma SortThree(x: string, y: string, z: string)
    requires StrCaseCmp(x, y) > 0 && StrCaseCmp(y, z) < 0 && StrCaseCmp(x, z) < 0
    ensures MergeSortOf([x, y, z]) == [y, x, z]
  {
    var s := [x, y, z];
    assert FrontLength(|s|) == 2 && s[..2] == [x, y] && s[2..] == [z];
    var t := [x, y];
    assert FrontLength(|t|) == 1 && t[..1] == [x] && t[1..] == [y];
    assert Merge([x], [y]) == [y] + Merge([x], []);
    assert MergeSortOf(t) == [y, x];
    assert Merge([y, x], [z]) == [y] + Merge([x], [z]);
    assert Merge([x], [z]) == [x] + Merge([], [z]);
  }

  /** "Apple" sorts before "banana", which sorts before "cherry", ignoring case. */
  lemma FruitOrder()
    ensures StrCaseCmp("banana", "Apple") > 0
    ensures StrCaseCmp("Apple", "cherry") < 0
    ensures StrCaseCmp("banana", "cherry") < 0
  {
  }

  /** A new queue after inserting `x`, `y`, `z` at the tail in that order. */
  method TailInserted(x: CString, y: CString, z: CString) returns (q: Queue)
    ensures fresh(q) && q.Valid() && q.Contents() == [x, y, z]
    ensures forall i :: 0 <= i < |q.nodes| ==> fresh(q.nodes[i])
  {
    q := new Queue();
    var ok := InsertTail(q, x, false);
    ok := InsertTail(q, y, false);
    ok := InsertTail(q, z, false);
  }

  /**
   Sorting "banana", "Apple", "cherry" and removing the head three times
   gives "Apple", "banana", "cherry": the comparison ignores case.
   */
  method SortThenDrain() returns (first: string, second: string, third: string)
    ensures first == "Apple" && second == "banana" && third == "cherry"
  {
    var q := TailInserted("banana", "Apple", "cherry");
    SortFruit();
    Sort(q);
    assert q.Contents() == ["Apple", "banana", "cherry"];
    first := Pop(q);
    second := Pop(q);
    third := Pop(q);
  }

  /** A new queue after inserting `x`, `y`, `z` at the head in that order. */
  method HeadInserted(x: CString, y: CString, z: CString) returns (q: Queue)
    ensures fresh(q) && q.Valid() && q.Contents() == [z, y, x]
    ensures forall i :: 0 <= i < |q.nodes| ==> fresh(q.nodes[i])
  {
    q := new Queue();
    var ok := InsertHead(q, x, false);
    ok := InsertHead(q, y, false);
    ok := InsertHead(q, z, false);
  }

  /**
   Inserting "a", "b", "c" at the head, reversing, and removing the head
   three times gives "a", "b", "c" back in insertion order.
   */
  method ReverseThenDrain() returns (first: string, second: string, third: string)
    ensures first == "a" && second == "b" && third == "c"
  {
    var q := HeadInserted("a", "b", "c");
    Reverse(q);
    assert q.Contents() == ["a", "b", "c"];
    first := Pop(q);
    second := Pop(q);
    third := Pop(q);
  }
}
