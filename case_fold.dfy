/**
 Case-insensitive comparison of C strings, as `strcasecmp` does it in the
 "C" locale: both strings are walked together, each character is folded
 with `tolower`, and the first difference decides; the end of a string reads
 as the terminating NUL, whose code is 0.
 */
module CaseFold {

  /** A C string: the characters before the terminating NUL, so none is NUL. */
  type CString = s: string | '\0' !in s

  /** `tolower` in the "C" locale: only 'A'..'Z' change. */
  function Lower(c: char): (r: char)
    ensures 'A' <= c <= 'Z' ==> r as int == c as int + 32
    ensures !('A' <= c <= 'Z') ==> r == c
    ensures r == '\0' <==> c == '\0'
  {
    if 'A' <= c <= 'Z' then (c as int + 32) as char else c
  }

  /** Code of the character at `i`, or 0 for the terminator just past the end. */
  function CodeAt(s: string, i: nat): int
    requires i <= |s|
  {
    if i == |s| then 0 else Lower(s[i]) as int
  }

  /**
   `strcasecmp(a, b)`: negative, zero or positive as `a` sorts before, with
   or after `b`; the value is the difference of the first pair of folded
   codes that differ.
   */
  function StrCaseCmp(a: string, b: string): (r: int)
    ensures LowerAll(a) == LowerAll(b) ==> r == 0
    ensures |a| < |b| && LowerAll(a) == LowerAll(b)[..|a|] && b[|a|] != '\0' ==> r < 0
  {
    if a == [] || b == [] || Lower(a[0]) != Lower(b[0]) then
      CodeAt(a, 0) - CodeAt(b, 0)
    else
      StrCaseCmp(a[1..], b[1..])
  }

  /** `a` sorts no later than `b`. */
  predicate CaseLe(a: string, b: string)
  {
    StrCaseCmp(a, b) <= 0
  }

  /** Folds every character of a string. */
  function LowerAll(s: string): (r: string)
    ensures |r| == |s|
    ensures forall i :: 0 <= i < |s| ==> r[i] == Lower(s[i])
  {
    if s == [] then [] else [Lower(s[0])] + LowerAll(s[1..])
  }

  /** Swapping the operands negates the result. */
  lemma {:induction false} StrCaseCmpAntisymmetric(a: string, b: string)
    ensures StrCaseCmp(a, b) == -StrCaseCmp(b, a)
  {
    if a == [] || b == [] || Lower(a[0]) != Lower(b[0]) {
    } else {
      StrCaseCmpAntisymmetric(a[1..], b[1..]);
    }
  }

  /** Of any two strings, one sorts no later than the other. */
  lemma CaseLeTotal(a: string, b: string)
    ensures CaseLe(a, b) || CaseLe(b, a)
  {
    StrCaseCmpAntisymmetric(a, b);
  }

  /** On C strings the comparison is zero exactly when the folded strings agree. */
  lemma {:induction false} StrCaseCmpZero(a: CString, b: CString)
    ensures StrCaseCmp(a, b) == 0 <==> LowerAll(a) == LowerAll(b)
  {
    if a == [] || b == [] {
      if a != [] {
        assert LowerAll(a)[0] != '\0';
      }
      if b != [] {
        assert LowerAll(b)[0] != '\0';
      }
    } else if Lower(a[0]) != Lower(b[0]) {
      assert LowerAll(a)[0] != LowerAll(b)[0];
    } else {
      StrCaseCmpZero(a[1..], b[1..]);
      assert LowerAll(a) == [Lower(a[0])] + LowerAll(a[1..]);
      assert LowerAll(b) == [Lower(b[0])] + LowerAll(b[1..]);
      if LowerAll(a) == LowerAll(b) {
        assert LowerAll(a[1..]) == LowerAll(a)[1..];
        assert LowerAll(b[1..]) == LowerAll(b)[1..];
      }
    }
  }

  /** On C strings "sorts no later than" is transitive, so it is a total preorder. */
  lemma {:induction false} CaseLeTransitive(a: CString, b: CString, c: CString)
    requires CaseLe(a, b) && CaseLe(b, c)
    ensures CaseLe(a, c)
  {
    if a == [] {
    } else if b == [] {
    } else if c == [] {
      assert false;
    } else if Lower(a[0]) == Lower(b[0]) && Lower(b[0]) == Lower(c[0]) {
      CaseLeTransitive(a[1..], b[1..], c[1..]);
    }
  }
}
