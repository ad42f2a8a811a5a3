/** Small shared vocabulary: an optional value and the ordinal, case-insensitive
    string comparison (StringComparer.OrdinalIgnoreCase) used both by the
    extension filter and by the month-name match of the timestamp parser. */
module Common {

  datatype Option<+T> = None | Some(value: T)

  /** The upper-case form of an ASCII letter; every other character is itself. */
  function UpperAscii(c: char): (u: char)
    ensures 'a' <= c <= 'z' ==> u as int == c as int - 32
    ensures !('a' <= c <= 'z') ==> u == c
  {
    if 'a' <= c <= 'z' then (c as int - 32) as char else c
  }

  function Upper(s: string): (u: string)
    ensures |u| == |s|
    ensures forall i :: 0 <= i < |s| ==> u[i] == UpperAscii(s[i])
  {
    if s == [] then [] else [UpperAscii(s[0])] + Upper(s[1..])
  }

  /** Ordinal comparison ignoring case: same length, and position by position
      the same character once both are upper-cased. */
  predicate EqualsIgnoreCase(a: string, b: string) {
    |a| == |b| && forall i :: 0 <= i < |a| ==> UpperAscii(a[i]) == UpperAscii(b[i])
  }

  /** Comparing ignoring case is comparing the upper-cased strings. */
  lemma EqualsIgnoreCaseIffSameUpper(a: string, b: string)
    ensures EqualsIgnoreCase(a, b) <==> Upper(a) == Upper(b)
  {
    if Upper(a) == Upper(b) {
      assert |a| == |b|;
      forall i | 0 <= i < |a| ensures UpperAscii(a[i]) == UpperAscii(b[i]) {
        assert Upper(a)[i] == Upper(b)[i];
      }
    }
  }
}
