/**
 The abstract meaning of the queue operations on sequences of strings: what
 reversal, the merge step and merge sort compute, what "sorted" means under
 `strcasecmp`, and what `q_remove_head` leaves in the caller's buffer.
 */
module QueueSpec {
  import opened CaseFold

  /** The sequence read back to front. */
  function Reversed<T>(s: seq<T>): (r: seq<T>)
    ensures |r| == |s|
  {
    seq(|s|, i requires 0 <= i < |s| => s[|s| - 1 - i])
  }

  /** Reversing twice gives the sequence back. */
  lemma ReversedInvolution<T>(s: seq<T>)
    ensures Reversed(Reversed(s)) == s
  {
  }

  /** Reversal moves elements and neither adds nor drops any. */
  lemma {:induction false} ReversedPermutation<T>(s: seq<T>)
    ensures multiset(Reversed(s)) == multiset(s)
  {
    if s != [] {
      ReversedPermutation(s[1..]);
      assert Reversed(s) == Reversed(s[1..]) + [s[0]];
      assert s == [s[0]] + s[1..];
    }
  }

  /** Every adjacent pair is in non-decreasing case-insensitive order. */
  predicate Sorted(s: seq<string>)
  {
    forall i :: 0 <= i < |s| - 1 ==> CaseLe(s[i], s[i + 1])
  }

  /**
   The merge step of the sort: the head of `a` is taken only when it sorts
   strictly before the head of `b`; on a tie the head of `b` is taken.
   */
  function Merge(a: seq<string>, b: seq<string>): (r: seq<string>)
    ensures |r| == |a| + |b|
    decreases |a| + |b|
  {
    if a == [] then b
    else if b == [] then a
    else if StrCaseCmp(a[0], b[0]) < 0 then [a[0]] + Merge(a[1..], b)
    else [b[0]] + Merge(a, b[1..])
  }

  /** Number of elements in the front half of a split: the front gets the odd one. */
  function FrontLength(n: nat): (m: nat)
    ensures n >= 2 ==> 0 < m < n
    ensures m + m == n || m + m == n + 1
  {
    (n + 1) / 2
  }

  /** Merge sort with the front/back split of the linked-list code. */
  function MergeSortOf(s: seq<string>): (r: seq<string>)
    ensures |r| == |s|
    decreases |s|
  {
    if |s| <= 1 then s
    else
      var m := FrontLength(|s|);
      Merge(MergeSortOf(s[..m]), MergeSortOf(s[m..]))
  }

  /** Merging neither adds nor drops an element. */
  lemma {:induction false} MergePermutation(a: seq<string>, b: seq<string>)
    ensures multiset(Merge(a, b)) == multiset(a) + multiset(b)
    decreases |a| + |b|
  {
    if a == [] || b == [] {
    } else if StrCaseCmp(a[0], b[0]) < 0 {
      MergePermutation(a[1..], b);
      HeadMultiset(a);
    } else {
      MergePermutation(a, b[1..]);
      HeadMultiset(b);
    }
  }

  /** The first element of a merge is the first element of one of the inputs. */
  lemma MergeHead(a: seq<string>, b: seq<string>)
    requires a != [] || b != []
    ensures Merge(a, b)[0] == (if a == [] then b[0]
                               else if b == [] then a[0]
                               else if StrCaseCmp(a[0], b[0]) < 0 then a[0] else b[0])
  {
  }

  /** Merging two sorted sequences gives a sorted sequence. */
  lemma {:induction false} MergeSorted(a: seq<string>, b: seq<string>)
    requires Sorted(a) && Sorted(b)
    ensures Sorted(Merge(a, b))
    decreases |a| + |b|
  {
    if a == [] || b == [] {
    } else if StrCaseCmp(a[0], b[0]) < 0 {
      var rest := Merge(a[1..], b);
      MergeSorted(a[1..], b);
      MergeHead(a[1..], b);
      assert Merge(a, b) == [a[0]] + rest;
      assert CaseLe(a[0], rest[0]);
    } else {
      var rest := Merge(a, b[1..]);
      MergeSorted(a, b[1..]);
      MergeHead(a, b[1..]);
      StrCaseCmpAntisymmetric(a[0], b[0]);
      assert Merge(a, b) == [b[0]] + rest;
      assert CaseLe(b[0], rest[0]);
    }
  }

  /** Merge sort returns a sorted sequence. */
  lemma {:induction false} MergeSortOfSorted(s: seq<string>)
    ensures Sorted(MergeSortOf(s))
    decreases |s|
  {
    if |s| > 1 {
      var m := FrontLength(|s|);
      MergeSortOfSorted(s[..m]);
      MergeSortOfSorted(s[m..]);
      MergeSorted(MergeSortOf(s[..m]), MergeSortOf(s[m..]));
    }
  }

  /** Merge sort neither adds nor drops an element. */
  lemma {:induction false} MergeSortOfPermutation(s: seq<string>)
    ensures multiset(MergeSortOf(s)) == multiset(s)
    decreases |s|
  {
    if |s| > 1 {
      var m := FrontLength(|s|);
      MergeSortOfPermutation(s[..m]);
      MergeSortOfPermutation(s[m..]);
      MergePermutation(MergeSortOf(s[..m]), MergeSortOf(s[m..]));
      SplitMultiset(s, m);
    }
  }

  /** A non-empty sequence's multiset is its first element plus the rest. */
  lemma HeadMultiset<T>(s: seq<T>)
    requires s != []
    ensures multiset(s) == multiset{s[0]} + multiset(s[1..])
  {
    assert s == [s[0]] + s[1..];
  }

  /** Moving the first element of `t` to the end of `s` keeps their concatenation. */
  lemma ShiftFirst<T>(s: seq<T>, t: seq<T>)
    requires t != []
    ensures s + [t[0]] + t[1..] == s + t
  {
    assert [t[0]] + t[1..] == t;
    assert s + [t[0]] + t[1..] == s + ([t[0]] + t[1..]);
  }

  /** Cutting a sequence in two splits its multiset in two. */
  lemma SplitMultiset<T>(s: seq<T>, m: nat)
    requires m <= |s|
    ensures multiset(s) == multiset(s[..m]) + multiset(s[m..])
  {
    assert s == s[..m] + s[m..];
  }

  /** Merge sort returns a sorted permutation of its input. */
  lemma MergeSortOfCorrect(s: seq<string>)
    ensures Sorted(MergeSortOf(s))
    ensures multiset(MergeSortOf(s)) == multiset(s)
  {
    MergeSortOfSorted(s);
    MergeSortOfPermutation(s);
  }

  /**
   Ties go to the right-hand run: of two elements that compare equal, the one
   from the back half comes out first, so the sort is not stable.
   */
  lemma MergeTakesRightOnTie(x: string, y: string)
    requires StrCaseCmp(x, y) == 0
    ensures Merge([x], [y]) == [y, x]
  {
  }

  /** Sorted C strings are pairwise ordered, not only neighbour by neighbour. */
  lemma {:induction false} SortedPairwise(s: seq<CString>, i: nat, j: nat)
    requires Sorted(s)
    requires i <= j < |s|
    ensures CaseLe(s[i], s[j])
    decreases j - i
  {
    if i == j {
      StrCaseCmpAntisymmetric(s[i], s[i]);
    } else {
      SortedPairwise(s, i + 1, j);
      CaseLeTransitive(s[i], s[i + 1], s[j]);
    }
  }

  /**
   What `strncpy(dst, src, n)` writes into the first `n` cells of `dst`: the
   characters of `src` up to `n` of them, then NUL up to `n` cells.
   */
  function StrNCpyOf(src: string, n: nat): (r: seq<char>)
    ensures |r| == n
    ensures forall i :: 0 <= i < n ==> r[i] == if i < |src| then src[i] else '\0'
  {
    var k := if |src| < n then |src| else n;
    src[..k] + seq(n - k, _ => '\0')
  }

  /**
   What `q_remove_head` leaves in the first `bufsize` cells of the caller's
   buffer: `strncpy` of `bufsize - 1` cells, then a NUL in the last cell.
   */
  function CopyOut(v: string, bufsize: nat): (r: seq<char>)
    requires bufsize >= 1
    ensures |r| == bufsize && r[bufsize - 1] == '\0'
    ensures forall i :: 0 <= i < bufsize - 1 ==> r[i] == if i < |v| then v[i] else '\0'
  {
    StrNCpyOf(v, bufsize - 1) + ['\0']
  }

  /** The C string a buffer holds: its characters up to the first NUL. */
  function CStringOf(buf: seq<char>): (r: string)
  {
    if buf == [] || buf[0] == '\0' then [] else [buf[0]] + CStringOf(buf[1..])
  }

  lemma {:induction false} CStringOfTerminated(p: string, rest: seq<char>)
    requires '\0' !in p
    ensures CStringOf(p + ['\0'] + rest) == p
  {
    if p != [] {
      CStringOfTerminated(p[1..], rest);
      assert (p + ['\0'] + rest)[1..] == p[1..] + ['\0'] + rest;
    }
  }

  /**
   The copied-out buffer is NUL-terminated in its last cell, and reading it
   back as a C string gives the value truncated to `bufsize - 1` characters.
   */
  lemma CopyOutReadBack(v: CString, bufsize: nat)
    requires bufsize >= 1
    ensures |CopyOut(v, bufsize)| == bufsize
    ensures CopyOut(v, bufsize)[bufsize - 1] == '\0'
    ensures CStringOf(CopyOut(v, bufsize)) == v[..if |v| < bufsize - 1 then |v| else bufsize - 1]
    ensures bufsize > |v| ==> CStringOf(CopyOut(v, bufsize)) == v
  {
    var n := if |v| < bufsize - 1 then |v| else bufsize - 1;
    var pad := seq(bufsize - n, _ => '\0');
    assert pad == ['\0'] + pad[1..];
    assert CopyOut(v, bufsize) == v[..n] + pad;
    assert CopyOut(v, bufsize) == v[..n] + ['\0'] + pad[1..];
    assert '\0' !in v[..n] by {
      forall k | 0 <= k < n ensures v[..n][k] != '\0' {
        assert v[k] in v;
      }
    }
    CStringOfTerminated(v[..n], pad[1..]);
    assert n == |v| ==> v[..n] == v;
  }
}
