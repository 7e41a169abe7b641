/**
 Upper-casing of strings, the folding the answer checker applies before a
 case-insensitive comparison. Only the ASCII letters `a`-`z` have an upper-case
 counterpart here; every other character is its own upper case.

 Besides the folding itself the module gives an independent description of
 "equal up to case", character by character, and proves that comparing the
 folded strings decides exactly that relation.
 */
module CaseFold {

  predicate IsLower(c: char) {
    'a' <= c <= 'z'
  }

  predicate IsUpper(c: char) {
    'A' <= c <= 'Z'
  }

  /** Distance between a lower-case ASCII letter and its upper-case partner. */
  const CaseOffset: int := 'a' as int - 'A' as int

  /** Upper-cases one character. */
  function UpperChar(c: char): (u: char)
    ensures !IsLower(u)
    ensures IsLower(c) ==> IsUpper(u) && c as int - u as int == CaseOffset
    ensures !IsLower(c) ==> u == c
  {
    if IsLower(c) then (c as int - CaseOffset) as char else c
  }

  /** Upper-cases a string: the length is kept and no lower-case letter is
      left over. */
  function Upper(s: string): (r: string)
    ensures |r| == |s|
    ensures forall i :: 0 <= i < |r| ==> !IsLower(r[i])
  {
    if |s| == 0 then [] else [UpperChar(s[0])] + Upper(s[1..])
  }

  /** Each position of the upper-cased string is folded on its own, from the
      character at the same position. */
  lemma {:induction false} UpperAt(s: string)
    ensures forall i :: 0 <= i < |s| ==> Upper(s)[i] == UpperChar(s[i])
  {
    if |s| > 0 {
      UpperAt(s[1..]);
      forall i | 0 <= i < |s|
        ensures Upper(s)[i] == UpperChar(s[i])
      {
        if i > 0 {
          assert Upper(s)[i] == Upper(s[1..])[i - 1];
        }
      }
    }
  }

  /** Two characters are equal up to case: they are the same character, or
      one is a lower-case letter and the other is its upper-case partner. */
  predicate SameIgnoringCase(x: char, y: char) {
    || x == y
    || (IsLower(x) && x as int - y as int == CaseOffset)
    || (IsLower(y) && y as int - x as int == CaseOffset)
  }

  /** Two strings are equal up to case: same length, and position by
      position the characters are equal up to case. */
  predicate EqualIgnoringCase(a: string, b: string) {
    && |a| == |b|
    && forall i :: 0 <= i < |a| ==> SameIgnoringCase(a[i], b[i])
  }

  lemma UpperCharAgree(x: char, y: char)
    ensures UpperChar(x) == UpperChar(y) <==> SameIgnoringCase(x, y)
  {
  }

  /** Comparing upper-cased strings decides equality up to case, in both
      directions. */
  lemma UpperEqualIff(a: string, b: string)
    ensures Upper(a) == Upper(b) <==> EqualIgnoringCase(a, b)
  {
    UpperAt(a);
    UpperAt(b);
    if Upper(a) == Upper(b) {
      forall i | 0 <= i < |a|
        ensures SameIgnoringCase(a[i], b[i])
      {
        assert Upper(a)[i] == Upper(b)[i];
        UpperCharAgree(a[i], b[i]);
      }
    }
    if EqualIgnoringCase(a, b) {
      forall i | 0 <= i < |a|
        ensures Upper(a)[i] == Upper(b)[i]
      {
        UpperCharAgree(a[i], b[i]);
      }
    }
  }

  /** A string without lower-case letters is its own upper case. */
  lemma {:induction false} UpperFixesCaseless(s: string)
    requires forall i :: 0 <= i < |s| ==> !IsLower(s[i])
    ensures Upper(s) == s
  {
    UpperAt(s);
    forall i | 0 <= i < |s|
      ensures Upper(s)[i] == s[i]
    {
    }
  }
}
