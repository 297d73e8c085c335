/** The bitwise operators of C on non-negative words. */
module Bits {
  import opened Memory

  predicate Bit(w: nat, i: nat) {
    if i == 0 then w % 2 == 1 else Bit(w / 2, i - 1)
  }

  function Or(a: nat, b: nat): nat {
    if a == 0 then b
    else if b == 0 then a
    else (if a % 2 == 1 || b % 2 == 1 then 1 else 0) + 2 * Or(a / 2, b / 2)
  }

  function And(a: nat, b: nat): nat {
    if a == 0 || b == 0 then 0
    else (if a % 2 == 1 && b % 2 == 1 then 1 else 0) + 2 * And(a / 2, b / 2)
  }

  /** `~x` on 32 bits. */
  function Not32(x: nat): nat
    requires x < Pow2(32)
  {
    Pow2(32) - 1 - x
  }

  lemma {:induction false} OrBit(a: nat, b: nat, i: nat)
    ensures Bit(Or(a, b), i) == (Bit(a, i) || Bit(b, i))
  {
    if a == 0 {
      ZeroBit(i);
    } else if b == 0 {
      ZeroBit(i);
    } else if i > 0 {
      OrBit(a / 2, b / 2, i - 1);
    }
  }

  lemma {:induction false} AndBit(a: nat, b: nat, i: nat)
    ensures Bit(And(a, b), i) == (Bit(a, i) && Bit(b, i))
  {
    if a == 0 || b == 0 {
      ZeroBit(i);
    } else if i > 0 {
      AndBit(a / 2, b / 2, i - 1);
    }
  }

  lemma {:induction false} ZeroBit(i: nat)
    ensures !Bit(0, i)
  {
    if i > 0 { ZeroBit(i - 1); }
  }

  lemma {:induction false} Pow2Bit(k: nat, i: nat)
    ensures Bit(Pow2(k), i) <==> i == k
  {
    if k == 0 {
      if i > 0 { ZeroBit(i - 1); }
    } else if i > 0 {
      Pow2Bit(k - 1, i - 1);
    }
  }

  /** A word that is not zero has a bit set. */
  lemma {:induction false} NonZeroHasBit(w: nat) returns (i: nat)
    requires w != 0
    ensures Bit(w, i)
  {
    if w % 2 == 1 {
      i := 0;
    } else {
      var j := NonZeroHasBit(w / 2);
      i := j + 1;
    }
  }

  /** `w & (1 << k)` tests bit k. */
  lemma TestBit(w: nat, k: nat)
    ensures And(w, Pow2(k)) != 0 <==> Bit(w, k)
  {
    if And(w, Pow2(k)) != 0 {
      var i := NonZeroHasBit(And(w, Pow2(k)));
      AndBit(w, Pow2(k), i);
      Pow2Bit(k, i);
    }
    if Bit(w, k) {
      AndBit(w, Pow2(k), k);
      Pow2Bit(k, k);
      ZeroBit(k);
    }
  }

  lemma {:induction false} ComplementBit(x: nat, n: nat, i: nat)
    requires x < Pow2(n) && i < n
    ensures Bit(Pow2(n) - 1 - x, i) == !Bit(x, i)
  {
    assert Pow2(n) == 2 * Pow2(n - 1);
    var y := Pow2(n) - 1 - x;
    if i > 0 {
      assert y / 2 == Pow2(n - 1) - 1 - x / 2;
      ComplementBit(x / 2, n - 1, i - 1);
    }
  }

  lemma {:induction false} Pow2Less(i: nat, n: nat)
    requires i < n
    ensures Pow2(i) < Pow2(n)
  {
    if i + 1 < n { Pow2Less(i, n - 1); }
  }

  /** The lowest bit and the rest can be taken separately. */
  lemma OrHalves(a: nat, b: nat)
    ensures Or(a, b) / 2 == Or(a / 2, b / 2)
    ensures Or(a, b) % 2 == if a % 2 == 1 || b % 2 == 1 then 1 else 0
  {
  }

  function Shr(v: nat, k: nat): nat {
    if k == 0 then v else Shr(v / 2, k - 1)
  }

  lemma {:induction false} OrShr(a: nat, b: nat, k: nat)
    ensures Shr(Or(a, b), k) == Or(Shr(a, k), Shr(b, k))
  {
    OrHalves(a, b);
    if k > 0 { OrShr(a / 2, b / 2, k - 1); }
  }

  lemma {:induction false} ShrIsDiv(v: nat, k: nat)
    ensures Shr(v, k) == v / Pow2(k)
  {
    if k > 0 {
      ShrIsDiv(v / 2, k - 1);
      HalfDiv(v, Pow2(k - 1));
    }
  }

  lemma HalfDiv(v: nat, n: nat)
    requires n > 0
    ensures v / (2 * n) == v / 2 / n
  {
    var q, r := v / 2 / n, v / 2 % n;
    assert v / 2 == q * n + r;
    DoubledDivMod(v, n, q, r);
  }

  const PAGE := 4096

  /** A page frame or-ed with flag bits: the frame, and each flag, can be read back. */
  lemma OrFlags(frame: nat, flags: nat)
    requires frame % PAGE == 0 && flags < PAGE
    ensures var v := Or(Or(frame, 1), flags);
            && v - v % PAGE == frame
            && v % 2 == 1
            && v / 2 % 2 == flags / 2 % 2
  {
    var u := Or(frame, 1);
    var v := Or(u, flags);
    assert Pow2(12) == PAGE by { Pow2Add(6, 6); SmallPowers(6); }
    OrShr(frame, 1, 12);
    OrShr(u, flags, 12);
    ShrIsDiv(frame, 12);
    ShrIsDiv(1, 12);
    ShrIsDiv(u, 12);
    ShrIsDiv(v, 12);
    ShrIsDiv(flags, 12);
    assert Or(frame / PAGE, 0) == frame / PAGE;
    OrHalves(frame, 1);
    OrHalves(u, flags);
    OrHalves(frame / 2, 0);
    OrHalves(frame / 2, flags / 2);
    assert Or(frame / 2, 0) == frame / 2;
  }

  /** Or-ing a word with its present bit into an old entry: frame numbers and flags blend bit by bit. */
  lemma OrEntry(entry: nat, word: nat)
    requires word % 2 == 1
    ensures var v := Or(entry, word);
            && v - v % PAGE == PAGE * Or(entry / PAGE, word / PAGE)
            && v % 2 == 1
            && (v / 2 % 2 == 1 <==> entry / 2 % 2 == 1 || word / 2 % 2 == 1)
  {
    OrPage(entry, word);
    OrHalves(entry, word);
    OrHalves(entry / 2, word / 2);
  }

  /** Any word or-ed with the present bit has it. */
  lemma OrPresent(a: nat, b: nat)
    ensures Or(Or(a, 1), b) % 2 == 1
  {
    OrHalves(a, 1);
    OrHalves(Or(a, 1), b);
  }

  lemma OrPage(a: nat, b: nat)
    ensures Or(a, b) / PAGE == Or(a / PAGE, b / PAGE)
  {
    assert Pow2(12) == PAGE by { Pow2Add(6, 6); SmallPowers(6); }
    OrShr(a, b, 12);
    ShrIsDiv(a, 12);
    ShrIsDiv(b, 12);
    ShrIsDiv(Or(a, b), 12);
  }
}
