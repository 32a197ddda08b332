/**
  The two C library string routines the evaluator relies on, over strings
  seen as sequences of characters (the terminating NUL is not part of the
  sequence).  `strcmp(a, b) == 0` is plain sequence equality and needs no
  definition; `strstr(s, sub) != NULL` is `Contains(s, sub)`.
 */
module CString {

  /** `sub` occurs in `s` starting at index `i`. */
  predicate OccursAt(s: string, sub: string, i: nat)
  {
    i + |sub| <= |s| && s[i..i + |sub|] == sub
  }

  /**
    `strstr(s, sub) != NULL`: the library scans `s` from the left and stops at
    the first position where `sub` matches.  The result is true exactly when
    `sub` occurs somewhere in `s`.
   */
  function Contains(s: string, sub: string): (r: bool)
    ensures r <==> exists i: nat :: OccursAt(s, sub, i)
    decreases |s|
  {
    if |sub| > |s| then
      assert forall i: nat :: !OccursAt(s, sub, i);
      false
    else if s[..|sub|] == sub then
      assert OccursAt(s, sub, 0);
      true
    else
      var r := Contains(s[1..], sub);
      ShiftOccurrence(s, sub);
      r
  }

  /** An occurrence in `s` other than at 0 is an occurrence in `s[1..]`, and conversely. */
  lemma ShiftOccurrence(s: string, sub: string)
    requires |s| > 0 && !OccursAt(s, sub, 0)
    ensures (exists i: nat :: OccursAt(s, sub, i)) <==> (exists i: nat :: OccursAt(s[1..], sub, i))
  {
    forall i: nat | OccursAt(s, sub, i)
      ensures OccursAt(s[1..], sub, i - 1)
    {
      assert i > 0;
      assert s[1..][i - 1..i - 1 + |sub|] == s[i..i + |sub|];
    }
    forall i: nat | OccursAt(s[1..], sub, i)
      ensures OccursAt(s, sub, i + 1)
    {
      assert s[1..][i..i + |sub|] == s[i + 1..i + 1 + |sub|];
    }
  }
}
