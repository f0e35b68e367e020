/** Keys as the map sees them: the bytes of a NUL-terminated C string, and `strcmp_` on them. */
module CStrings {
  /** An `unsigned char`. */
  type byte = b: int | 0 <= b < 256

  /** The bytes of a C string before its terminating NUL; none of them is NUL. */
  type CString = s: seq<byte> | forall i | 0 <= i < |s| :: s[i] != 0

  /** The byte a C string reads at its start: its first byte, or the NUL of an empty string. */
  function Head(s: CString): (b: byte)
  {
    if s == [] then 0 else s[0]
  }

  /** What `strcmp_` returns: the difference of the first pair of bytes (terminators included)
      that differ, or 0 when there is none. */
  function Compare(s1: CString, s2: CString): (r: int)
    ensures -255 <= r <= 255
    ensures r == 0 <==> s1 == s2
    decreases |s1|
  {
    if s1 == [] || s2 == [] || s1[0] != s2[0] then
      Head(s1) - Head(s2)
    else
      assert s1 == [s1[0]] + s1[1..] && s2 == [s2[0]] + s2[1..];
      Compare(s1[1..], s2[1..])
  }

  /** `strcmp_`: walk both terminated buffers while the bytes agree and are not NUL. */
  method Strcmp(s1: CString, s2: CString) returns (r: int)
    ensures r == Compare(s1, s2)
  {
    var a, b := s1 + [0], s2 + [0];
    var i := 0;
    while a[i] != 0 && a[i] == b[i]
      invariant 0 <= i <= |s1| && i <= |s2|
      invariant Compare(s1[i..], s2[i..]) == Compare(s1, s2)
      decreases |s1| - i
    {
      assert s1[i..][1..] == s1[i + 1..] && s2[i..][1..] == s2[i + 1..];
      i := i + 1;
    }
    r := a[i] as int - b[i] as int;
  }

  /** Swapping the arguments negates the result. */
  lemma {:induction false} CompareAntisymmetric(s1: CString, s2: CString)
    ensures Compare(s1, s2) == -Compare(s2, s1)
    decreases |s1|
  {
    if s1 != [] && s2 != [] && s1[0] == s2[0] {
      CompareAntisymmetric(s1[1..], s2[1..]);
    }
  }

  /** The result is the difference of the bytes at the first index where the strings differ
      or one of them ends. */
  lemma {:induction false} CompareFirstMismatch(s1: CString, s2: CString, i: nat)
    requires i <= |s1| && i <= |s2| && s1[..i] == s2[..i]
    requires i == |s1| || i == |s2| || s1[i] != s2[i]
    ensures Compare(s1, s2) == Head(s1[i..]) - Head(s2[i..])
    decreases i
  {
    if i > 0 {
      assert s1[0] == s1[..i][0] == s2[..i][0] == s2[0];
      assert s1[1..][..i - 1] == s1[..i][1..] == s2[..i][1..] == s2[1..][..i - 1];
      CompareFirstMismatch(s1[1..], s2[1..], i - 1);
      assert s1[1..][i - 1..] == s1[i..] && s2[1..][i - 1..] == s2[i..];
    }
  }
}
