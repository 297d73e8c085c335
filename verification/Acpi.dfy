/** Searching bytes: `memmem`, and the search for the `_S5_` package in an AML image. */
module Acpi {

  predicate MatchAt(h: seq<int>, needle: seq<int>, i: int) {
    0 <= i && i + |needle| <= |h| && h[i..i + |needle|] == needle
  }

  /** The first match in the len bytes from lo on, or -1. */
  method Memmem(h: seq<int>, lo: nat, len: nat, needle: seq<int>) returns (r: int)
    requires lo + len <= |h|
    ensures r == -1 || (lo <= r && r + |needle| <= lo + len && MatchAt(h, needle, r))
    ensures forall i | lo <= i && i + |needle| <= lo + len && (r == -1 || i < r) :: !MatchAt(h, needle, i)
  {
    if |needle| == 0 {
      return lo;
    }
    if |needle| > len {
      return -1;
    }
    var i := 0;
    while i <= len - |needle|
      invariant 0 <= i <= len - |needle| + 1
      invariant forall k | lo <= k < lo + i :: !MatchAt(h, needle, k)
    {
      if h[lo + i] == needle[0] && h[lo + i..lo + i + |needle|] == needle {
        return lo + i;
      }
      assert !MatchAt(h, needle, lo + i);
      i := i + 1;
    }
    return -1;
  }

  const NAME_OP := 0x08
  const PACKAGE_OP := 0x12
  const ROOT_CHAR := 0x5C
  /** The bytes of "_S5_". */
  const S5: seq<int> := [0x5F, 0x53, 0x35, 0x5F]

  /** The bytes of `_S5_` at i, named by 0x08 (with or without a backslash) and followed by a package (0x12). */
  predicate NamesS5(h: seq<int>, i: int) {
    && 1 <= i && i + 4 < |h|
    && h[i] == '_' as int && h[i + 1] == 'S' as int && h[i + 2] == '5' as int && h[i + 3] == '_' as int
    && (h[i - 1] == 0x08 || (i >= 2 && h[i - 1] == '\\' as int && h[i - 2] == 0x08))
    && h[i + 4] == 0x12
  }

  lemma S5Bytes(h: seq<int>, i: nat)
    requires i + 4 <= |h|
    ensures MatchAt(h, S5, i) <==> h[i] == 0x5F && h[i + 1] == 0x53 && h[i + 2] == 0x35 && h[i + 3] == 0x5F
  {
    var w := h[i..i + 4];
    assert w[0] == h[i] && w[1] == h[i + 1] && w[2] == h[i + 2] && w[3] == h[i + 3];
  }

  /** Behind a hit at p nothing is named before p + 4, so the search may restart there. */
  lemma NoNameWithinHit(h: seq<int>, p: nat, i: nat)
    requires MatchAt(h, S5, p) && p < i < p + 4
    ensures !NamesS5(h, i)
  {
    S5Bytes(h, p);
  }

  /** Leftmost position of the pattern in the whole image, or -1 exactly when there is none. */
  method SearchS5(h: seq<int>) returns (r: int)
    ensures r == -1 || NamesS5(h, r)
    ensures forall i | 0 <= i < |h| && (r == -1 || i < r) :: !NamesS5(h, i)
  {
    var aml, len := 0, |h|;
    while true
      invariant 0 <= aml && aml + len == |h| && len >= 0
      invariant forall i | 0 <= i < aml :: !NamesS5(h, i)
      invariant aml > 0 ==> aml >= 4 && MatchAt(h, S5, aml - 4)
      decreases len
    {
      var s5 := Memmem(h, aml, len, S5);
      forall i | aml <= i < |h| && (s5 == -1 || i < s5) ensures !NamesS5(h, i) {
        if i + 4 <= |h| { S5Bytes(h, i); }
      }
      if s5 == -1 {
        return -1;
      }
      var pos := s5 - aml;
      if aml > 0 { S5Bytes(h, aml - 4); }
      S5Bytes(h, s5);
      if pos != 0 && pos + 4 < len
         && (h[s5 - 1] == NAME_OP || (pos != 1 && h[s5 - 1] == ROOT_CHAR && h[s5 - 2] == NAME_OP))
         && h[s5 + 4] == PACKAGE_OP {
        return s5;
      }
      assert !NamesS5(h, s5);
      forall i | aml <= i < s5 + 4 ensures !NamesS5(h, i) {
        if i > s5 { NoNameWithinHit(h, s5, i); }
      }
      len := len - (pos + 4);
      aml := s5 + 4;
    }
  }
}
