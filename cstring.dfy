/** C strings as the phone book stores them, and the byte-wise comparison
    `strcmp` that orders the tree. */
module CString {

  /** One character of a C string: an unsigned byte that is not the NUL terminator. */
  newtype CChar = b: int | 1 <= b < 256 witness 1

  /** The contents of a NUL-terminated buffer, terminator excluded. */
  type CStr = seq<CChar>

  /** `i` is the first index at which `a` and `b` hold different bytes. */
  predicate FirstDifference(a: CStr, b: CStr, i: int) {
    0 <= i < |a| && i < |b| && a[..i] == b[..i] && a[i] != b[i]
  }

  /** `a` is a strictly shorter initial part of `b`. */
  predicate ProperPrefix(a: CStr, b: CStr) {
    |a| < |b| && a == b[..|a|]
  }

  /** `strcmp`: compares unsigned bytes up to the first difference; the end of the
      shorter string reads as the byte 0. Only the sign of the result is meaningful. */
  function StrCmp(a: CStr, b: CStr): (r: int)
    ensures r == 0 <==> a == b
    ensures a != [] && b != [] && a[0] != b[0] ==> (r < 0 <==> a[0] < b[0])
    ensures a == [] && b != [] ==> r < 0
    ensures a != [] && b == [] ==> r > 0
    decreases |a|
  {
    if a == [] && b == [] then 0
    else if a == [] then 0 - b[0] as int
    else if b == [] then a[0] as int
    else if a[0] != b[0] then a[0] as int - b[0] as int
    else
      assert a == [a[0]] + a[1..] && b == [b[0]] + b[1..];
      StrCmp(a[1..], b[1..])
  }

  /** `strcmp` orders lexicographically: the first differing byte decides the sign,
      and a proper prefix sorts first. */
  lemma {:induction false} StrCmpLexicographic(a: CStr, b: CStr)
    ensures forall i :: FirstDifference(a, b, i) ==> (StrCmp(a, b) < 0 <==> a[i] < b[i])
    ensures ProperPrefix(a, b) ==> StrCmp(a, b) < 0
    ensures ProperPrefix(b, a) ==> StrCmp(a, b) > 0
    decreases |a|
  {
    if a != [] && b != [] {
      if a[0] != b[0] {
        assert forall i :: FirstDifference(a, b, i) ==> i == 0;
      } else {
        StrCmpLexicographic(a[1..], b[1..]);
        forall i | FirstDifference(a, b, i) ensures FirstDifference(a[1..], b[1..], i - 1) {
          assert i != 0;
          assert a[..i] == [a[0]] + a[1..][..i - 1] && b[..i] == [b[0]] + b[1..][..i - 1];
        }
        assert ProperPrefix(a, b) ==> ProperPrefix(a[1..], b[1..]);
        assert ProperPrefix(b, a) ==> ProperPrefix(b[1..], a[1..]);
      }
    }
  }

  /** The strict order the tree is sorted by: `strcmp(a, b) < 0`. */
  predicate Less(a: CStr, b: CStr) {
    StrCmp(a, b) < 0
  }

  /** Swapping the arguments negates the result, so `strcmp(a, b) > 0` means `b` sorts first. */
  lemma {:induction false} StrCmpAntisymmetric(a: CStr, b: CStr)
    ensures StrCmp(b, a) == -StrCmp(a, b)
    decreases |a|
  {
    if a != [] && b != [] && a[0] == b[0] {
      StrCmpAntisymmetric(a[1..], b[1..]);
    }
  }

  /** The order is transitive. */
  lemma {:induction false} LessTransitive(a: CStr, b: CStr, c: CStr)
    requires Less(a, b) && Less(b, c)
    ensures Less(a, c)
    decreases |a|
  {
    if a != [] && b != [] && c != [] && a[0] == b[0] && b[0] == c[0] {
      LessTransitive(a[1..], b[1..], c[1..]);
    }
  }

  /** The order is total: two distinct strings are comparable one way or the other. */
  lemma LessTotal(a: CStr, b: CStr)
    ensures a == b || Less(a, b) || Less(b, a)
  {
    StrCmpAntisymmetric(a, b);
  }
}
