/** Bitwise operators on naturals, as C defines them on unsigned operands, and the
    laws that turn masks, shifts and field packing into arithmetic. */
module Bits {

  function Pow2(n: nat): (p: nat)
    ensures p > 0
  {
    if n == 0 then 1 else 2 * Pow2(n - 1)
  }

  function And(x: nat, y: nat): nat {
    if x == 0 || y == 0 then 0
    else 2 * And(x / 2, y / 2) + (if x % 2 == 1 && y % 2 == 1 then 1 else 0)
  }

  function Or(x: nat, y: nat): nat {
    if x == 0 && y == 0 then 0
    else 2 * Or(x / 2, y / 2) + (if x % 2 == 1 || y % 2 == 1 then 1 else 0)
  }

  function Xor(x: nat, y: nat): nat {
    if x == 0 && y == 0 then 0
    else 2 * Xor(x / 2, y / 2) + (if x % 2 != y % 2 then 1 else 0)
  }

  /** x >> n, one place at a time. */
  function Shr(x: nat, n: nat): nat {
    if n == 0 then x else Shr(x / 2, n - 1)
  }

  /** x << n in a word wide enough to hold it. */
  function Shl(x: nat, n: nat): nat {
    if n == 0 then x else 2 * Shl(x, n - 1)
  }

  /** The low n bits of x. */
  function Low(x: nat, n: nat): nat {
    if n == 0 then 0 else 2 * Low(x / 2, n - 1) + x % 2
  }

  /** The number of 1 bits. */
  function PopCount(x: nat): nat {
    if x == 0 then 0 else x % 2 + PopCount(x / 2)
  }

  // ----- arithmetic

  lemma MulSub(a: int, b: int, d: int)
    ensures (a - b) * d == a * d - b * d
  {
  }

  lemma MulMono(a: int, b: int, d: int)
    requires a <= b && d >= 0
    ensures a * d <= b * d
  {
    MulSub(b, a, d);
    assert (b - a) * d >= 0;
  }

  lemma DivUnique(x: int, d: int, q: int, r: int)
    requires 0 <= r < d && x == q * d + r
    ensures x / d == q && x % d == r
  {
    var q', r' := x / d, x % d;
    assert (q' - q) * d == r - r' by {
      assert x == q' * d + r';
      MulSub(q', q, d);
    }
    if q' > q {
      MulMono(1, q' - q, d);
    } else if q' < q {
      MulMono(q' - q, -1, d);
    }
  }

  lemma {:induction false} Pow2Add(m: nat, n: nat)
    ensures Pow2(m + n) == Pow2(m) * Pow2(n)
  {
    if m > 0 {
      Pow2Add(m - 1, n);
      assert 2 * (Pow2(m - 1) * Pow2(n)) == (2 * Pow2(m - 1)) * Pow2(n);
    }
  }

  lemma {:induction false} Pow2Mono(m: nat, n: nat)
    requires m <= n
    ensures Pow2(m) <= Pow2(n)
  {
    if m < n { Pow2Mono(m, n - 1); }
  }

  lemma Pow2Values()
    ensures Pow2(0) == 1 && Pow2(1) == 2 && Pow2(2) == 4 && Pow2(3) == 8 && Pow2(4) == 0x10
    ensures Pow2(8) == 0x100 && Pow2(16) == 0x1_0000
    ensures Pow2(31) == 0x8000_0000 && Pow2(32) == 0x1_0000_0000
    ensures Pow2(63) == 0x8000_0000_0000_0000 && Pow2(64) == 0x1_0000_0000_0000_0000
  {
    Pow2Add(16, 16);
    Pow2Add(32, 32);
    assert Pow2(32) == 2 * Pow2(31) && Pow2(64) == 2 * Pow2(63);
  }

  // ----- shifts

  /** A word is its high part shifted back, plus its low part. */
  lemma {:induction false} ShiftSplit(x: nat, n: nat)
    ensures x == Shl(Shr(x, n), n) + Low(x, n)
    ensures Low(x, n) < Pow2(n)
  {
    if n > 0 { ShiftSplit(x / 2, n - 1); }
  }

  lemma {:induction false} ShlIsMul(x: nat, n: nat)
    ensures Shl(x, n) == x * Pow2(n)
  {
    if n > 0 {
      ShlIsMul(x, n - 1);
      assert 2 * (x * Pow2(n - 1)) == x * (2 * Pow2(n - 1));
    }
  }

  /** Shifting right is the quotient by a power of two, and the bits shifted out are the remainder. */
  lemma ShrIsDiv(x: nat, n: nat)
    ensures Shr(x, n) == x / Pow2(n) && Low(x, n) == x % Pow2(n)
  {
    ShiftSplit(x, n);
    ShlIsMul(Shr(x, n), n);
    DivUnique(x, Pow2(n), Shr(x, n), Low(x, n));
  }

  /** Splitting is unique. */
  lemma {:induction false} SplitUnique(hi: nat, lo: nat, n: nat)
    requires lo < Pow2(n)
    ensures Shr(Shl(hi, n) + lo, n) == hi && Low(Shl(hi, n) + lo, n) == lo
  {
    if n > 0 {
      SplitUnique(hi, lo / 2, n - 1);
      assert (2 * Shl(hi, n - 1) + lo) / 2 == Shl(hi, n - 1) + lo / 2;
    }
  }

  lemma {:induction false} ShlMono(x: nat, y: nat, n: nat)
    ensures x <= y <==> Shl(x, n) <= Shl(y, n)
    ensures x < y ==> Shl(x, n) + Pow2(n) <= Shl(y, n)
  {
    if n > 0 { ShlMono(x, y, n - 1); }
  }

  lemma {:induction false} ShlShl(x: nat, m: nat, n: nat)
    ensures Shl(Shl(x, m), n) == Shl(x, m + n)
  {
    if n > 0 { ShlShl(x, m, n - 1); }
  }

  lemma {:induction false} ShrShr(x: nat, m: nat, n: nat)
    ensures Shr(Shr(x, m), n) == Shr(x, m + n)
  {
    if m > 0 { ShrShr(x / 2, m - 1, n); }
  }

  lemma {:induction false} ShlZero(n: nat)
    ensures Shl(0, n) == 0
  {
    if n > 0 { ShlZero(n - 1); }
  }

  lemma {:induction false} ShlOne(n: nat)
    ensures Shl(1, n) == Pow2(n)
  {
    if n > 0 { ShlOne(n - 1); }
  }

  lemma {:induction false} LowSmall(x: nat, n: nat)
    requires x < Pow2(n)
    ensures Low(x, n) == x && Shr(x, n) == 0
  {
    if n > 0 { LowSmall(x / 2, n - 1); }
  }

  // ----- masks

  lemma AndUnfold(x: nat, y: nat)
    ensures And(x, y) == 2 * And(x / 2, y / 2) + (if x % 2 == 1 && y % 2 == 1 then 1 else 0)
  {
  }

  /** AND works on the low k bits and on the rest separately. */
  lemma {:induction false} AndSplit(x: nat, y: nat, k: nat)
    ensures And(x, y) == Shl(And(Shr(x, k), Shr(y, k)), k) + And(Low(x, k), Low(y, k))
  {
    if k > 0 {
      AndSplit(x / 2, y / 2, k - 1);
      AndUnfold(x, y);
      AndUnfold(Low(x, k), Low(y, k));
    }
  }

  /** Masking with k ones keeps the low k bits. */
  lemma {:induction false} AndOnes(x: nat, k: nat)
    ensures And(x, Pow2(k) - 1) == Low(x, k)
  {
    if k > 0 { AndOnes(x / 2, k - 1); }
  }

  lemma AndZero(x: nat)
    ensures And(x, 0) == 0 && And(0, x) == 0
  {
  }

  lemma {:induction false} AndCommutes(x: nat, y: nat)
    ensures And(x, y) == And(y, x)
  {
    if x != 0 && y != 0 { AndCommutes(x / 2, y / 2); }
  }

  /** The mask of the top n - k bits of an n-bit word is clear exactly below 2^k. */
  lemma {:induction false} AndTop(x: nat, n: nat, k: nat)
    requires x < Pow2(n) && k <= n
    ensures Pow2(k) <= Pow2(n)
    ensures And(x, Pow2(n) - Pow2(k)) == 0 <==> x < Pow2(k)
  {
    Pow2Mono(k, n);
    if k == 0 {
      AndOnes(x, n);
      LowSmall(x, n);
    } else {
      AndTop(x / 2, n - 1, k - 1);
      AndUnfold(x, Pow2(n) - Pow2(k));
    }
  }

  // ----- packing and inverting

  /** OR-ing a low field into clear low bits is addition. */
  lemma {:induction false} OrDisjoint(hi: nat, lo: nat, k: nat)
    requires lo < Pow2(k)
    ensures Or(Shl(hi, k), lo) == Shl(hi, k) + lo
  {
    if k == 0 {
      OrZero(hi);
    } else {
      OrDisjoint(hi, lo / 2, k - 1);
    }
  }

  lemma {:induction false} OrZero(x: nat)
    ensures Or(x, 0) == x
  {
    if x != 0 { OrZero(x / 2); }
  }

  lemma {:induction false} OrCommutes(x: nat, y: nat)
    ensures Or(x, y) == Or(y, x)
  {
    if x != 0 || y != 0 { OrCommutes(x / 2, y / 2); }
  }

  lemma {:induction false} AndBound(x: nat, y: nat)
    ensures And(x, y) <= x
  {
    if x != 0 && y != 0 { AndBound(x / 2, y / 2); }
  }

  lemma {:induction false} ShrBelow(x: nat, n: nat)
    ensures Shr(x, n) <= x
  {
    if n > 0 { ShrBelow(x / 2, n - 1); }
  }

  lemma {:induction false} OrBound(x: nat, y: nat, k: nat)
    requires x < Pow2(k) && y < Pow2(k)
    ensures Or(x, y) < Pow2(k)
  {
    if k > 0 { OrBound(x / 2, y / 2, k - 1); }
  }

  /** Complementing a k-bit word. */
  lemma {:induction false} XorOnes(x: nat, k: nat)
    requires x < Pow2(k)
    ensures Xor(x, Pow2(k) - 1) == Pow2(k) - 1 - x
  {
    if k > 0 { XorOnes(x / 2, k - 1); }
  }

  lemma {:induction false} XorZero(x: nat)
    ensures Xor(x, 0) == x
  {
    if x != 0 { XorZero(x / 2); }
  }

  /** The top bit of an exclusive or of two k-bit words says whether their top bits differ. */
  lemma {:induction false} XorTop(x: nat, y: nat, k: nat)
    requires k > 0 && x < Pow2(k) && y < Pow2(k)
    ensures Xor(x, y) < Pow2(k)
    ensures Xor(x, y) >= Pow2(k - 1) <==> ((x >= Pow2(k - 1)) != (y >= Pow2(k - 1)))
  {
    if k == 1 {
      assert Pow2(1) == 2;
      assert Xor(x / 2, y / 2) == 0;
    } else {
      XorTop(x / 2, y / 2, k - 1);
    }
  }
}
