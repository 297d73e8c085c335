/** Numbers to text and back, as 32-bit C computes them. */
module Conv {
  import opened Strtok

  const MIN32 := -0x8000_0000
  const MAX32 := 0x7FFF_FFFF
  const TWO32 := 0x1_0000_0000

  type int32 = n: int | MIN32 <= n <= MAX32
  type uint32 = n: int | 0 <= n < TWO32

  /** Two's complement wrap-around. */
  function Wrap(x: int): int32 {
    (x + 0x8000_0000) % TWO32 - 0x8000_0000
  }

  /** C division and remainder, which truncate toward zero. */
  function Quot10(n: int): int {
    if n >= 0 then n / 10 else -((-n) / 10)
  }

  function Rem10(n: int): (r: int)
    ensures -10 < r < 10 && n == 10 * Quot10(n) + r
  {
    n - 10 * Quot10(n)
  }

  function DigitChar(d: int): char
    requires -10 < d < 10
  {
    (48 + d) as char
  }

  /** The digits of n, least significant first, as the division loop produces them. */
  function RevDigits(n: int): seq<char>
    decreases if n < 0 then -n else n
  {
    [DigitChar(Rem10(n))] + if Quot10(n) == 0 then [] else RevDigits(Quot10(n))
  }

  function Reversed(s: seq<char>): (r: seq<char>)
    ensures |r| == |s| && forall i | 0 <= i < |s| :: r[i] == s[|s| - 1 - i]
  {
    seq(|s|, i requires 0 <= i < |s| => s[|s| - 1 - i])
  }

  /** Negation in 32 bits: the minimum is its own negative. */
  function Neg(n: int32): int32 {
    Wrap(-(n as int))
  }

  function Itoa(n: int32): seq<char> {
    if n < 0 then ['-'] + Reversed(RevDigits(Neg(n))) else Reversed(RevDigits(n))
  }

  function Utoa(n: uint32): seq<char> {
    Reversed(RevDigits(n))
  }

  // ----- Reading back --------------------------------------------------------------------------

  /** `*x - '0'`, where `char` is a signed byte. */
  function DigitOf(c: char): int {
    var b := c as int % 0x100;
    (if b < 0x80 then b else b - 0x100) - 48
  }

  /** The value of a string of decimal places, whatever its characters. */
  function Value(s: seq<char>): int {
    if s == [] then 0 else 10 * Value(s[..|s| - 1]) + DigitOf(s[|s| - 1])
  }

  lemma ValueOfReversed(c: char, s: seq<char>)
    ensures Value(Reversed([c] + s)) == 10 * Value(Reversed(s)) + DigitOf(c)
  {
    var r := Reversed([c] + s);
    assert r[..|r| - 1] == Reversed(s) && r[|r| - 1] == c;
  }

  /** The digits of n have the value n, for negative n too. */
  lemma {:induction false} DigitsValue(n: int)
    ensures Value(Reversed(RevDigits(n))) == n
    decreases if n < 0 then -n else n
  {
    var d, q := DigitChar(Rem10(n)), Quot10(n);
    if q == 0 {
      assert RevDigits(n) == [d] + [];
      ValueOfReversed(d, []);
    } else {
      DigitsValue(q);
      ValueOfReversed(d, RevDigits(q));
    }
  }

  /** What the loop of `atoi` computes on the digits, wrapping at each step. */
  function WrappedValue(s: seq<char>): int32 {
    if s == [] then 0 else Wrap(10 * WrappedValue(s[..|s| - 1]) + DigitOf(s[|s| - 1]))
  }

  lemma WrapStep(a: int, c: int)
    ensures Wrap(10 * Wrap(a) + c) == Wrap(10 * a + c)
  {
    var k := (a + 0x8000_0000) / TWO32;
    assert Wrap(a) == a - TWO32 * k;
    assert 10 * Wrap(a) + c == 10 * a + c - TWO32 * (10 * k);
    WrapShift(10 * a + c, -10 * k);
  }

  lemma WrapShift(x: int, k: int)
    ensures Wrap(x + TWO32 * k) == Wrap(x)
  {
    assert (x + TWO32 * k + 0x8000_0000) % TWO32 == (x + 0x8000_0000) % TWO32;
  }

  /** Wrapping at every step is wrapping once at the end. */
  lemma {:induction false} WrappedValueIsWrap(s: seq<char>)
    ensures WrappedValue(s) == Wrap(Value(s))
  {
    if s != [] {
      WrappedValueIsWrap(s[..|s| - 1]);
      WrapStep(Value(s[..|s| - 1]), DigitOf(s[|s| - 1]));
    }
  }

  /** The sign and the rest of a numeral. */
  function Body(s: seq<char>): seq<char> {
    if s != [] && (s[0] == '-' || s[0] == '+') then s[1..] else s
  }

  function Atoi(s: seq<char>): int32 {
    Wrap((if s != [] && s[0] == '-' then -1 else 1) * WrappedValue(Body(s)))
  }

  /** For every string, `atoi` is its signed decimal value modulo 2^32. */
  lemma AtoiIsValue(s: seq<char>)
    ensures Atoi(s) == Wrap((if s != [] && s[0] == '-' then -1 else 1) * Value(Body(s)))
  {
    WrappedValueIsWrap(Body(s));
    var v := Value(Body(s));
    WrapNegation(v);
  }

  lemma WrapNegation(v: int)
    ensures Wrap(-(Wrap(v) as int)) == Wrap(-v) && Wrap(Wrap(v)) == Wrap(v)
  {
    var k := (v + 0x8000_0000) / TWO32;
    assert Wrap(v) == v - TWO32 * k;
    WrapShift(-v, k);
    WrapShift(v, -k);
  }

  /** The result lies in 32 signed bits and differs from x by a multiple of 2^32. */
  lemma WrapLaw(x: int)
    ensures -0x8000_0000 <= Wrap(x) < 0x8000_0000 && (x - Wrap(x) as int) % 0x1_0000_0000 == 0
  {
  }

  /** A place counts ten times the places behind it, and the digits are '0' to '9'. */
  lemma ValueLaw(s: seq<char>, c: char)
    ensures Value([]) == 0 && Value(s + [c]) == 10 * Value(s) + DigitOf(c)
    ensures '0' <= c <= '9' ==> DigitOf(c) == c as int - '0' as int
    ensures c as int < 128 ==> DigitOf(c) == c as int - 48
    ensures 128 <= c as int < 256 ==> DigitOf(c) == c as int - 256 - 48
  {
    assert (s + [c])[..|s|] == s;
  }

  /** One leading sign is read: plus is skipped, minus negates, and a digit in front is no sign. */
  lemma AtoiOfSigned(s: seq<char>)
    ensures Atoi(['+'] + s) == Wrap(Value(s)) && Atoi(['-'] + s) == Wrap(-Value(s))
    ensures s != [] && '0' <= s[0] <= '9' ==> Atoi(s) == Atoi(['+'] + s)
  {
    SignedValue('+', s);
    SignedValue('-', s);
    if s != [] && '0' <= s[0] <= '9' { AtoiIsValue(s); }
  }

  lemma SignedValue(c: char, s: seq<char>)
    requires c == '+' || c == '-'
    ensures Atoi([c] + s) == Wrap(if c == '-' then -Value(s) else Value(s))
  {
    var t := [c] + s;
    assert t[0] == c && t[1..] == s;
    AtoiIsValue(t);
  }

  /** A decimal digit. */
  predicate IsDigit(c: char) {
    '0' <= c <= '9'
  }

  lemma {:induction false} DigitsOfNat(n: nat)
    ensures RevDigits(n) != [] && forall i | 0 <= i < |RevDigits(n)| :: IsDigit(RevDigits(n)[i])
  {
    if Quot10(n) > 0 { DigitsOfNat(Quot10(n)); }
  }

  /** Printing and reading back gives every 32-bit number again, the minimum included. */
  lemma AtoiOfItoa(n: int)
    requires -0x8000_0000 <= n < 0x8000_0000
    ensures Atoi(Itoa(n)) == n
  {
    AtoiIsValue(Itoa(n));
    ItoaBody(n);
    DigitsValue(if n < 0 then Neg(n) else n);
    NegTwice(n);
  }

  lemma NegTwice(n: int32)
    ensures Wrap(-(Neg(n) as int)) == n && Wrap(n) == n
  {
    WrapNegation(-(n as int));
  }

  /** The sign and the digits of the text. */
  lemma ItoaBody(n: int32)
    ensures var s := Itoa(n);
            && s != [] && (s[0] == '-' <==> n < 0)
            && Body(s) == Reversed(RevDigits(if n < 0 then Neg(n) else n))
  {
    if n >= 0 {
      DigitsOfNat(n);
      var r := RevDigits(n);
      assert IsDigit(r[|r| - 1]) && Reversed(r)[0] == r[|r| - 1];
    }
  }

  /** But the text is a decimal numeral for every number except the minimum. */
  lemma ItoaIsDecimal(n: int)
    requires -0x8000_0000 <= n < 0x8000_0000
    ensures (forall i | 0 <= i < |Body(Itoa(n))| :: IsDigit(Body(Itoa(n))[i])) <==> n != -0x8000_0000
    ensures Itoa(n) == if n < 0 then ['-'] + Body(Itoa(n)) else Body(Itoa(n))
  {
    ItoaBody(n);
    Magnitude(n);
    var m: int := if n < 0 then Neg(n) else n;
    var body := Body(Itoa(n));
    assert body == Reversed(RevDigits(m));
    if m >= 0 {
      DigitsOfNat(m);
    } else {
      LastDigit(m);
      assert !IsDigit(body[|body| - 1]);
    }
  }

  lemma Magnitude(n: int32)
    ensures var m: int := if n < 0 then Neg(n) else n;
            (m < 0 <==> n == MIN32) && (m < 0 ==> Rem10(m) != 0)
  {
  }

  /** A negative number that is no multiple of ten ends in a character below '0'. */
  lemma LastDigit(m: int)
    requires m < 0 && Rem10(m) != 0
    ensures !IsDigit(Reversed(RevDigits(m))[|RevDigits(m)| - 1])
  {
    var r := RevDigits(m);
    assert r[0] == DigitChar(Rem10(m));
  }

  /** No number but zero is written with a leading zero. */
  lemma {:induction false} NoLeadingZero(n: int)
    requires n != 0
    ensures Reversed(RevDigits(n))[0] != '0'
    decreases if n < 0 then -n else n
  {
    var r := RevDigits(n);
    if Quot10(n) != 0 {
      NoLeadingZero(Quot10(n));
      var q := RevDigits(Quot10(n));
      assert r[|r| - 1] == q[|q| - 1];
    }
  }

  /** `utoa` is read back exactly, over the whole unsigned range. */
  lemma UtoaValue(n: int)
    requires 0 <= n < 0x1_0000_0000
    ensures Value(Utoa(n)) == n && forall i | 0 <= i < |Utoa(n)| :: IsDigit(Utoa(n)[i])
  {
    DigitsValue(n);
    DigitsOfNat(n);
  }

  // ----- Hexadecimal ------------------------------------------------------------------------------

  const HEX := "0123456789ABCDEF"

  function HexChar(d: nat): char
    requires d < 16
  {
    (if d < 10 then 48 + d else 55 + d) as char
  }

  lemma HexTable(d: nat)
    requires d < 16
    ensures |HEX| == 16 && HEX[d] == HexChar(d)
  {
  }

  function HexLen(n: nat): (k: nat)
    ensures k >= 1
  {
    if n < 16 then 1 else 1 + HexLen(n / 16)
  }

  /** The len lowest hexadecimal digits of n, most significant first. */
  function HexDigits(n: nat, len: nat): (s: seq<char>)
    ensures |s| == len
    decreases len
  {
    if len == 0 then [] else HexDigits(n / 16, len - 1) + [HexChar(n % 16)]
  }

  function Itoh(n: nat): seq<char> {
    (if HexLen(n) % 2 == 1 then ['0'] else []) + HexDigits(n, HexLen(n))
  }

  function Nibble(c: char): nat {
    if '0' <= c <= '9' then c as int - 48 else if 'A' <= c <= 'F' then c as int - 55 else 0
  }

  predicate UpperHex(s: seq<char>) {
    forall i | 0 <= i < |s| :: '0' <= s[i] <= '9' || 'A' <= s[i] <= 'F'
  }

  function HexValue(s: seq<char>): nat {
    if s == [] then 0 else 16 * HexValue(s[..|s| - 1]) + Nibble(s[|s| - 1])
  }

  function Pow16(k: nat): nat {
    if k == 0 then 1 else 16 * Pow16(k - 1)
  }

  /** The sixteen digits in order, and the weight of a place. */
  lemma HexValueLaw(s: seq<char>, c: char, d: nat)
    requires d < 16
    ensures |"0123456789ABCDEF"| == 16 && Nibble("0123456789ABCDEF"[d]) == d
    ensures HexValue([]) == 0 && HexValue(s + [c]) == 16 * HexValue(s) + Nibble(c)
  {
    assert (s + [c])[..|s|] == s;
  }

  lemma HexCharNibble(d: nat)
    requires d < 16
    ensures Nibble(HexChar(d)) == d && UpperHex([HexChar(d)])
  {
  }

  lemma {:induction false} HexDigitsValue(n: nat, len: nat)
    requires len >= HexLen(n)
    ensures HexValue(HexDigits(n, len)) == n
    decreases len
  {
    var s := HexDigits(n, len);
    HexCharNibble(n % 16);
    assert s[..len - 1] == HexDigits(n / 16, len - 1) && s[len - 1] == HexChar(n % 16);
    if len > 1 {
      HexDigitsValue(n / 16, len - 1);
    }
  }

  lemma {:induction false} HexDigitsUpper(n: nat, len: nat)
    ensures UpperHex(HexDigits(n, len))
    decreases len
  {
    if len > 0 { HexDigitsUpper(n / 16, len - 1); }
  }

  /** A leading zero does not change the digits: they are one digit longer. */
  lemma {:induction false} HexPad(n: nat, len: nat)
    requires len >= HexLen(n)
    ensures ['0'] + HexDigits(n, len) == HexDigits(n, len + 1)
    decreases len
  {
    if len == 1 {
      assert HexDigits(n / 16, 1) == HexDigits(0, 0) + [HexChar(0)];
    } else {
      HexPad(n / 16, len - 1);
      assert ['0'] + HexDigits(n, len) == (['0'] + HexDigits(n / 16, len - 1)) + [HexChar(n % 16)];
    }
  }

  lemma {:induction false} HexLenBound(n: nat)
    ensures n > 0 ==> n >= Pow16(HexLen(n) - 1)
  {
    if n >= 16 { HexLenBound(n / 16); }
  }

  lemma {:induction false} HexValueBound(s: seq<char>)
    ensures HexValue(s) < Pow16(|s|)
  {
    if s != [] { HexValueBound(s[..|s| - 1]); }
  }

  lemma {:induction false} Pow16Monotone(i: nat, j: nat)
    requires i <= j
    ensures Pow16(i) <= Pow16(j)
    decreases j - i
  {
    if i < j { Pow16Monotone(i, j - 1); }
  }

  /** The text is the digits themselves, one more if that makes their number even. */
  lemma ItohDigits(n: nat)
    ensures Itoh(n) == HexDigits(n, EvenUp(HexLen(n)))
  {
    if HexLen(n) % 2 == 1 { HexPad(n, HexLen(n)); } else { assert [] + HexDigits(n, HexLen(n)) == HexDigits(n, HexLen(n)); }
  }

  /** Any string with the value n has at least as many digits as n. */
  lemma HexLenLeast(n: nat, u: seq<char>)
    requires HexValue(u) == n && |u| > 0
    ensures HexLen(n) <= |u|
  {
    HexLenBound(n);
    HexValueBound(u);
    Pow16Monotone(|u|, if |u| < HexLen(n) then HexLen(n) - 1 else |u|);
  }

  function EvenUp(k: nat): (r: nat)
    ensures r % 2 == 0 && k <= r <= k + 1
  {
    k + k % 2
  }

  lemma ItohValue(n: nat)
    ensures |Itoh(n)| == EvenUp(HexLen(n)) && UpperHex(Itoh(n)) && HexValue(Itoh(n)) == n
  {
    ItohDigits(n);
    HexDigitsValue(n, EvenUp(HexLen(n)));
    HexDigitsUpper(n, EvenUp(HexLen(n)));
  }

  /** Upper-case, of even length, with the value n, and no shorter such string exists. */
  lemma ItohIsShortest(n: nat, u: seq<char>)
    ensures var t := Itoh(n);
            && |t| % 2 == 0 && |t| > 0 && UpperHex(t) && HexValue(t) == n
            && (|u| % 2 == 0 && |u| > 0 && HexValue(u) == n ==> |t| <= |u|)
  {
    ItohValue(n);
    if |u| > 0 && HexValue(u) == n { HexLenLeast(n, u); }
  }

  // ----- The code ---------------------------------------------------------------------------------

  /** Reverses the string at the start of a in place. */
  method Strrev(a: array<char>)
    requires Terminated(a[..], 0)
    modifies a
    ensures var e := EndOf(old(a[..]), 0);
            a[..] == Reversed(old(a[..e])) + old(a[e..])
  {
    ghost var w := a[..];
    ghost var e := EndOf(w, 0);
    EndOfSpec(w, 0);
    var len := 0;
    while a[len] != '\0'
      invariant 0 <= len <= e
      decreases e - len
    {
      len := len + 1;
    }
    var start, end := 0, len - 1;
    while start < end
      invariant 0 <= start <= end + 1 && start + end == len - 1
      invariant forall k | 0 <= k < start :: a[k] == w[len - 1 - k]
      invariant forall k | end < k < len :: a[k] == w[len - 1 - k]
      invariant forall k | start <= k <= end :: a[k] == w[k]
      invariant forall k | len <= k < a.Length :: a[k] == w[k]
    {
      a[start], a[end] := a[end], a[start];
      start, end := start + 1, end - 1;
    }
    assert a[..len] == Reversed(w[..len]);
    assert a[..] == a[..len] + a[len..] && a[len..] == w[len..];
  }

  /** The division loop: writes the digits of n at the start of s, least significant first. */
  method WriteDigits(n: int, s: array<char>) returns (x: nat)
    requires |RevDigits(n)| <= s.Length
    modifies s
    ensures x == |RevDigits(n)| && s[..x] == RevDigits(n)
  {
    var m, more := n, true;
    x := 0;
    while more
      invariant 0 <= x <= s.Length
      invariant s[..x] + (if more then RevDigits(m) else []) == RevDigits(n)
      decreases more, if m < 0 then -m else m
    {
      assert |s[..x] + RevDigits(m)| == |RevDigits(n)|;
      s[x] := DigitChar(Rem10(m));
      x := x + 1;
      m := Quot10(m);
      more := m != 0;
    }
  }

  /** Terminates the x characters written so far and reverses them. */
  method Finish(s: array<char>, x: nat, ghost written: seq<char>)
    requires x < s.Length && s[..x] == written && forall i | 0 <= i < x :: written[i] != '\0'
    modifies s
    ensures Terminated(s[..], 0) && Text(s[..], 0) == Reversed(written)
  {
    s[x] := '\0';
    ghost var w := s[..];
    assert w[..x] == written;
    assert forall i | 0 <= i < x :: w[i] == written[i];
    EndOfUnique(w, 0, x);
    Strrev(s);
    Terminates(s[..], Reversed(written));
  }

  method ItoaInto(n: int32, s: array<char>)
    requires |Itoa(n)| < s.Length
    modifies s
    ensures Terminated(s[..], 0) && Text(s[..], 0) == Itoa(n)
  {
    var neg := n < 0;
    var m: int := if neg then Neg(n) else n;
    ItoaWritten(n, RevDigits(m));
    NoNulInDigits(m);
    var x := WriteDigits(m, s);
    if neg {
      s[x] := '-';
      x := x + 1;
    }
    Finish(s, x, RevDigits(m) + if neg then ['-'] else []);
  }

  lemma ItoaWritten(n: int32, r: seq<char>)
    requires r == RevDigits(if n < 0 then Neg(n) else n)
    ensures Itoa(n) == Reversed(r + if n < 0 then ['-'] else [])
  {
  }

  method UtoaInto(n: uint32, s: array<char>)
    requires |Utoa(n)| < s.Length
    modifies s
    ensures Terminated(s[..], 0) && Text(s[..], 0) == Utoa(n)
  {
    NoNulInDigits(n);
    var x := WriteDigits(n, s);
    Finish(s, x, RevDigits(n));
  }

  lemma {:induction false} NoNulInDigits(n: int)
    ensures forall i | 0 <= i < |RevDigits(n)| :: RevDigits(n)[i] != '\0'
    decreases if n < 0 then -n else n
  {
    if Quot10(n) != 0 { NoNulInDigits(Quot10(n)); }
  }

  /** A buffer that starts with t and a terminator holds the string t. */
  lemma Terminates(w: seq<char>, t: seq<char>)
    requires |t| < |w| && w[..|t|] == t && w[|t|] == '\0' && forall i | 0 <= i < |t| :: t[i] != '\0'
    ensures Terminated(w, 0) && Text(w, 0) == t
  {
    assert forall i | 0 <= i < |t| :: w[i] == t[i];
    EndOfUnique(w, 0, |t|);
  }

  method NumHexDigits(n: nat) returns (r: nat)
    ensures r == HexLen(n)
  {
    if n == 0 {
      return 1;
    }
    var m := n;
    r := 0;
    while m != 0
      invariant r + (if m == 0 then 0 else HexLen(m)) == HexLen(n)
    {
      m := m / 16;
      r := r + 1;
    }
  }

  /** Writes the len lowest hexadecimal digits of n from place base on. */
  method WriteHex(n: nat, s: array<char>, base: nat, total: nat)
    requires base + total <= s.Length
    modifies s
    ensures forall k | 0 <= k < s.Length ::
              s[k] == if base <= k < base + total then HexDigits(n, total)[k - base] else old(s[k])
  {
    ghost var d := HexDigits(n, total);
    var m: nat, len: int := n, total - 1;
    while len >= 0
      invariant -1 <= len < total
      invariant HexDigits(m, len + 1) == d[..len + 1]
      invariant forall k | 0 <= k < s.Length :: s[k] == if base + len < k < base + total then d[k - base] else old(s[k])
    {
      HexTable(m % 16);
      LastHexDigit(m, len + 1);
      assert d[..len + 1][len] == d[len] && d[..len + 1][..len] == d[..len];
      s[base + len] := HEX[m % 16];
      m := m / 16;
      len := len - 1;
    }
  }

  lemma LastHexDigit(m: nat, len: nat)
    requires len > 0
    ensures var s := HexDigits(m, len);
            s[len - 1] == HexChar(m % 16) && s[..len - 1] == HexDigits(m / 16, len - 1)
  {
  }

  method ItohInto(n: uint32, s: array<char>)
    requires |Itoh(n)| < s.Length
    modifies s
    ensures Terminated(s[..], 0) && Text(s[..], 0) == Itoh(n)
  {
    var total := NumHexDigits(n);
    var base := 0;
    if total % 2 == 1 {
      s[0] := '0';
      base := 1;
    }
    s[base + total] := '\0';
    WriteHex(n, s, base, total);
    assert s[..base] == if total % 2 == 1 then ['0'] else [];
    assert s[base..base + total] == HexDigits(n, total);
    assert s[..base + total] == s[..base] + s[base..base + total];
    HexNoNul(n);
    Terminates(s[..], Itoh(n));
  }

  lemma HexNoNul(n: nat)
    ensures forall i | 0 <= i < |Itoh(n)| :: Itoh(n)[i] != '\0'
  {
    ItohDigits(n);
    HexDigitsUpper(n, EvenUp(HexLen(n)));
  }

  /** `atoi`: an optional sign, then every character as a decimal place, wrapping. */
  method ReadInt(s: seq<char>) returns (r: int32)
    ensures r == Atoi(s)
  {
    var x, sign := 0, 1;
    if s != [] && s[0] == '-' {
      sign := -1;
      x := 1;
    } else if s != [] && s[0] == '+' {
      x := 1;
    }
    ghost var start := x;
    assert s[x..] == Body(s);
    r := 0;
    while x < |s|
      invariant start <= x <= |s|
      invariant r == WrappedValue(s[start..x])
    {
      assert s[start..x + 1][..x - start] == s[start..x];
      r := Wrap(r * 10 + DigitOf(s[x]));
      x := x + 1;
    }
    assert s[start..x] == Body(s);
    r := Wrap(sign * r);
  }

  // ----- How long the texts are ----------------------------------------------------------------------

  function Pow10(k: nat): nat {
    if k == 0 then 1 else 10 * Pow10(k - 1)
  }

  lemma {:induction false} DigitsLength(n: int, k: nat)
    requires k >= 1 && n < Pow10(k) && -n < Pow10(k)
    ensures |RevDigits(n)| <= k
    decreases k
  {
    assert Pow10(1) == 10;
    if Quot10(n) != 0 { DigitsLength(Quot10(n), k - 1); }
  }

  lemma {:induction false} HexLength(n: nat, k: nat)
    requires k >= 1 && n < Pow16(k)
    ensures HexLen(n) <= k
    decreases k
  {
    assert Pow16(1) == 16;
    if n >= 16 { HexLength(n / 16, k - 1); }
  }

  lemma BigPowers() returns (k: nat, h: nat)
    ensures k == 10 && h == 8 && Pow10(k) > TWO32 && Pow16(h) == TWO32
  {
    k, h := 10, 8;
    assert Pow10(5) == 100000;
    assert Pow10(7) == 100 * Pow10(5);
    assert Pow10(9) == 100 * Pow10(7);
    assert Pow16(4) == 0x10000;
    assert Pow16(6) == 0x100 * Pow16(4);
    assert Pow16(8) == 0x100 * Pow16(6);
  }

  /** No 32-bit number needs more than eleven characters. */
  lemma TextsAreShort(n: int32, u: uint32)
    ensures |Itoa(n)| <= 11 && |Utoa(u)| <= 10 && |Itoh(u)| <= 8
  {
    var k, h := BigPowers();
    DecimalLength(n, u, k);
    HexTextLength(u, h);
  }

  lemma DecimalLength(n: int32, u: uint32, k: nat)
    requires k >= 1 && TWO32 < Pow10(k)
    ensures |Itoa(n)| <= k + 1 && |Utoa(u)| <= k
  {
    DigitsLength(u, k);
    DigitsLength(if n < 0 then Neg(n) else n, k);
  }

  lemma HexTextLength(u: uint32, k: nat)
    requires k >= 1 && k % 2 == 0 && TWO32 <= Pow16(k)
    ensures |Itoh(u)| <= k
  {
    HexLength(u, k);
    ItohValue(u);
  }
}
