/**
 * Case-insensitive comparison of names, as String.equalsIgnoreCase and the
 * IgnoreCase keyword of derived queries use it. Only ASCII letters are
 * folded.
 */
module Text {

  /** ASCII lower-case folding of one character. */
  function LowerChar(c: char): (l: char)
  {
    if 'A' <= c <= 'Z' then (c as int + 32) as char else c
  }

  /** ASCII lower-case folding of a string. */
  function Lower(s: string): (r: string)
    ensures |r| == |s|
    ensures forall i :: 0 <= i < |s| ==> r[i] == LowerChar(s[i])
  {
    if s == [] then [] else [LowerChar(s[0])] + Lower(s[1..])
  }

  /** Character-by-character comparison ignoring case. */
  predicate EqualsIgnoreCase(a: string, b: string)
  {
    |a| == |b| && forall i :: 0 <= i < |a| ==> LowerChar(a[i]) == LowerChar(b[i])
  }

  /** Two strings are equal ignoring case exactly when their folded forms are equal. */
  lemma EqualsIgnoreCaseIsFoldedEquality(a: string, b: string)
    ensures EqualsIgnoreCase(a, b) <==> Lower(a) == Lower(b)
  {
    if Lower(a) == Lower(b) {
      forall i | 0 <= i < |a| ensures LowerChar(a[i]) == LowerChar(b[i]) {
        assert Lower(a)[i] == Lower(b)[i];
      }
    }
  }

  /** `t` occurs in `s` starting at position `i`. */
  predicate OccursAt(s: string, t: string, i: int)
  {
    0 <= i <= |s| - |t| && s[i .. i + |t|] == t
  }

  /** `term` occurs in `s` ignoring case (LIKE '%term%' on case-folded operands). */
  predicate ContainsIgnoreCase(s: string, term: string)
  {
    exists i :: 0 <= i <= |s| && OccursAt(Lower(s), Lower(term), i)
  }

  /** A string contains itself and the empty term, whatever their case. */
  lemma ContainsIgnoreCaseBasics(s: string, t: string)
    ensures ContainsIgnoreCase(s, "")
    ensures EqualsIgnoreCase(s, t) ==> ContainsIgnoreCase(s, t)
  {
    assert 0 <= |s| && OccursAt(Lower(s), Lower(""), 0);
    if EqualsIgnoreCase(s, t) {
      EqualsIgnoreCaseIsFoldedEquality(s, t);
      assert OccursAt(Lower(s), Lower(t), 0);
    }
  }
}
