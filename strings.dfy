/** The few operations of java.lang.String that the twitter core relies on,
    restricted to ASCII: lower-casing, case-insensitive equality, the
    character class [A-Za-z0-9_] and the lexicographic compareTo. */
module Strings {

  /** The character class [A-Za-z0-9_]: a Twitter username character, and
      also what the regex engine calls a word character (\w) for ASCII text. */
  predicate IsWordChar(c: char) {
    ('A' <= c <= 'Z') || ('a' <= c <= 'z') || ('0' <= c <= '9') || c == '_'
  }

  /** Character.toLowerCase on ASCII letters; every other character is kept. */
  function LowerChar(c: char): char {
    if 'A' <= c <= 'Z' then (c as int - 'A' as int + 'a' as int) as char else c
  }

  /** String.toLowerCase, restricted to ASCII case mapping. */
  function ToLower(s: string): string {
    seq(|s|, i requires 0 <= i < |s| => LowerChar(s[i]))
  }

  /** String.equalsIgnoreCase, restricted to ASCII case mapping. */
  predicate EqualsIgnoreCase(a: string, b: string) {
    ToLower(a) == ToLower(b)
  }

  /** A canonical username character: [a-z0-9_]. */
  predicate IsLowerWordChar(c: char) {
    ('a' <= c <= 'z') || ('0' <= c <= '9') || c == '_'
  }

  lemma LowerCharFacts(c: char)
    ensures IsWordChar(LowerChar(c)) <==> IsWordChar(c)
    ensures LowerChar(c) == '@' <==> c == '@'
    ensures LowerChar(LowerChar(c)) == LowerChar(c)
    ensures IsWordChar(c) ==> IsLowerWordChar(LowerChar(c))
  {
  }

  /** Lower-casing is idempotent: a canonical name stays as it is. */
  lemma ToLowerIdempotent(s: string)
    ensures |ToLower(s)| == |s|
    ensures ToLower(ToLower(s)) == ToLower(s)
  {
    forall i | 0 <= i < |s| ensures ToLower(ToLower(s))[i] == ToLower(s)[i] {
      LowerCharFacts(s[i]);
    }
  }

  /** A string of canonical username characters is its own lower-case form. */
  lemma ToLowerOfLowerWord(s: string)
    requires forall i :: 0 <= i < |s| ==> IsLowerWordChar(s[i])
    ensures ToLower(s) == s
  {
  }

  /** String.compareTo: the difference of the first pair of characters that
      differ, or else the difference of the lengths. */
  function CompareTo(a: string, b: string): int
    decreases |a|
  {
    if |a| == 0 || |b| == 0 then |a| - |b|
    else if a[0] != b[0] then a[0] as int - b[0] as int
    else CompareTo(a[1..], b[1..])
  }

  /** compareTo is zero exactly on equal strings. */
  lemma {:induction false} CompareToZero(a: string, b: string)
    ensures CompareTo(a, b) == 0 <==> a == b
    decreases |a|
  {
    if |a| != 0 && |b| != 0 && a[0] == b[0] {
      CompareToZero(a[1..], b[1..]);
      assert a == [a[0]] + a[1..] && b == [b[0]] + b[1..];
    }
  }

  /** Swapping the arguments of compareTo negates the result. */
  lemma {:induction false} CompareToAntisymmetric(a: string, b: string)
    ensures CompareTo(b, a) == -CompareTo(a, b)
    decreases |a|
  {
    if |a| != 0 && |b| != 0 && a[0] == b[0] {
      CompareToAntisymmetric(a[1..], b[1..]);
    }
  }

  /** "compareTo is negative" is a transitive relation. */
  lemma {:induction false} CompareToTransitive(a: string, b: string, c: string)
    requires CompareTo(a, b) < 0 && CompareTo(b, c) < 0
    ensures CompareTo(a, c) < 0
    decreases |a|
  {
    if |a| != 0 && |b| != 0 && |c| != 0 && a[0] == b[0] && b[0] == c[0] {
      CompareToTransitive(a[1..], b[1..], c[1..]);
    }
  }
}
