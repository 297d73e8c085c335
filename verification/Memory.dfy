/** Word-addressed memory and powers of two, shared by the heap and the pager. */
module Memory {

  /** A 32-bit word per address; a word never written reads as zero. */
  type Mem = map<int, nat>

  function Rd(m: Mem, a: int): nat {
    if a in m then m[a] else 0
  }

  function Pow2(k: nat): (r: nat)
    ensures r > 0
  {
    if k == 0 then 1 else 2 * Pow2(k - 1)
  }

  lemma {:induction false} Pow2Add(i: nat, j: nat)
    ensures Pow2(i + j) == Pow2(i) * Pow2(j)
  {
    if i > 0 {
      Pow2Add(i - 1, j);
      assert Pow2(i + j) == 2 * (Pow2(i - 1) * Pow2(j));
    }
  }

  lemma MulAtLeast(k: int, n: int)
    requires k >= 1 && n > 0
    ensures k * n >= n
  {
    assert (k - 1) * n >= 0;
    assert k * n == (k - 1) * n + n;
  }

  /** Quotient and remainder are unique. */
  lemma DivModUnique(x: int, n: nat, q: int, r: int)
    requires n > 0 && 0 <= r < n && x == q * n + r
    ensures x % n == r && x / n == q
  {
    var q', r' := x / n, x % n;
    var d := q - q';
    assert d * n == r' - r by { assert x == q' * n + r'; assert d * n == q * n - q' * n; }
    if d >= 1 { MulAtLeast(d, n); }
    if d <= -1 { assert (-d) * n == -(d * n); MulAtLeast(-d, n); }
  }

  lemma Pow2Multiple(k: nat, j: nat)
    requires j <= k
    ensures Pow2(k) % Pow2(j) == 0
  {
    Pow2Add(k - j, j);
    DivModUnique(Pow2(k), Pow2(j), Pow2(k - j), 0);
  }

  lemma SmallPowers(k: nat)
    requires k <= 6
    ensures Pow2(k) == [1, 2, 4, 8, 16, 32, 64][k]
  {
    assert Pow2(0) == 1;
    assert Pow2(1) == 2;
    assert Pow2(2) == 4;
    assert Pow2(3) == 8;
    assert Pow2(4) == 16;
    assert Pow2(5) == 32;
    assert Pow2(6) == 64;
  }

  /** The low k bits of x. */
  function Low(x: int, k: nat): (r: nat)
    ensures r < Pow2(k)
    decreases k, x
  {
    if k == 0 then 0 else x % 2 + 2 * Low(x / 2, k - 1)
  }

  lemma {:induction false} LowIsMod(x: int, k: nat)
    ensures Low(x, k) == x % Pow2(k)
    decreases k
  {
    if k > 0 {
      LowIsMod(x / 2, k - 1);
      var n, q, r := Pow2(k - 1), (x / 2) / Pow2(k - 1), (x / 2) % Pow2(k - 1);
      assert x / 2 == q * n + r;
      DoubledDivMod(x, n, q, r);
    }
  }

  lemma DoubledDivMod(x: int, n: nat, q: int, r: int)
    requires n > 0 && 0 <= r < n && x / 2 == q * n + r
    ensures x % (2 * n) == x % 2 + 2 * r && x / (2 * n) == q
  {
    assert q * (2 * n) == 2 * (q * n);
    DivModUnique(x, 2 * n, q, x % 2 + 2 * r);
  }
}
