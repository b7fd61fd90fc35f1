/**
 * Character-level string helpers: the ASCII part of Java's case mapping and
 * `String.equalsIgnoreCase`, on which the catalog key and the test-message
 * lookup depend.
 */
module Text {

  function UpperChar(c: char): char {
    if 'a' <= c <= 'z' then (c as int - 32) as char else c
  }

  function LowerChar(c: char): char {
    if 'A' <= c <= 'Z' then (c as int + 32) as char else c
  }

  /** The string with every ASCII capital replaced by its small letter. */
  function Lower(s: string): (r: string)
    ensures |r| == |s|
    ensures forall i :: 0 <= i < |s| ==> r[i] == LowerChar(s[i])
  {
    seq(|s|, i requires 0 <= i < |s| => LowerChar(s[i]))
  }

  /** Java's per-character test in `regionMatches(true, ...)`. */
  predicate CharsEqualIgnoreCase(a: char, b: char) {
    a == b
    || UpperChar(a) == UpperChar(b)
    || LowerChar(UpperChar(a)) == LowerChar(UpperChar(b))
  }

  /** `String.equalsIgnoreCase`: same length, and every position matches ignoring case. */
  predicate EqualsIgnoreCase(a: string, b: string) {
    |a| == |b| && forall i :: 0 <= i < |a| ==> CharsEqualIgnoreCase(a[i], b[i])
  }

  lemma CharsEqualIgnoreCaseIffLower(a: char, b: char)
    ensures CharsEqualIgnoreCase(a, b) <==> LowerChar(a) == LowerChar(b)
  {
  }

  /**
   * The per-character definition agrees with comparing lower-cased copies,
   * which makes case-insensitive equality an equivalence relation.
   */
  lemma EqualsIgnoreCaseIffLowerEqual(a: string, b: string)
    ensures EqualsIgnoreCase(a, b) <==> Lower(a) == Lower(b)
  {
    if EqualsIgnoreCase(a, b) {
      forall i | 0 <= i < |a|
        ensures Lower(a)[i] == Lower(b)[i]
      {
        CharsEqualIgnoreCaseIffLower(a[i], b[i]);
      }
    }
    if Lower(a) == Lower(b) {
      forall i | 0 <= i < |a|
        ensures CharsEqualIgnoreCase(a[i], b[i])
      {
        assert Lower(a)[i] == Lower(b)[i];
        CharsEqualIgnoreCaseIffLower(a[i], b[i]);
      }
    }
  }

  lemma EqualsIgnoreCaseReflexive(a: string)
    ensures EqualsIgnoreCase(a, a)
  {
  }

  lemma EqualsIgnoreCaseSymmetric(a: string, b: string)
    ensures EqualsIgnoreCase(a, b) <==> EqualsIgnoreCase(b, a)
  {
    EqualsIgnoreCaseIffLowerEqual(a, b);
    EqualsIgnoreCaseIffLowerEqual(b, a);
  }

  lemma EqualsIgnoreCaseTransitive(a: string, b: string, c: string)
    requires EqualsIgnoreCase(a, b) && EqualsIgnoreCase(b, c)
    ensures EqualsIgnoreCase(a, c)
  {
    EqualsIgnoreCaseIffLowerEqual(a, b);
    EqualsIgnoreCaseIffLowerEqual(b, c);
    EqualsIgnoreCaseIffLowerEqual(a, c);
  }
}
