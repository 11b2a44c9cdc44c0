/** Fixed-width C integers: truncation, sign and the operators that can overflow. */
module Words {
  import opened Bits

  const B32 := 0x1_0000_0000
  const B63 := 0x8000_0000_0000_0000
  const B64 := 0x1_0000_0000_0000_0000

  type u32 = x: int | 0 <= x < 0x1_0000_0000
  type u64 = x: int | 0 <= x < 0x1_0000_0000_0000_0000
  type s64 = x: int | -0x8000_0000_0000_0000 <= x < 0x8000_0000_0000_0000

  /** Conversion to unsigned long long, which is also what wrapping arithmetic does. */
  function U64(x: int): u64 {
    x % B64
  }

  /** Conversion of a 64-bit pattern to signed long long. */
  function S64(x: u64): (s: s64)
    ensures U64(s) == x
  {
    if x < B63 then x else x - B64
  }

  function U32(x: int): u32 {
    x % B32
  }

  function S32(x: u32): (s: int)
    ensures U32(s) == x
  {
    if x < 0x8000_0000 then x else x - B32
  }

  function Shl64(x: u64, n: nat): u64 {
    U64(Shl(x, n))
  }

  function Shl32(x: u32, n: nat): u32 {
    U32(Shl(x, n))
  }

  function Or64(x: u64, y: u64): u64 {
    Pow2Values();
    OrBound(x, y, 64);
    Or(x, y)
  }

  function And64(x: u64, y: u64): u64 {
    AndBound(x, y);
    And(x, y)
  }

  function And32(x: u32, y: u32): u32 {
    AndBound(x, y);
    And(x, y)
  }

  function Shr64(x: u64, n: nat): u64 {
    ShrBelow(x, n);
    Shr(x, n)
  }

  /** >> on a signed operand copies the sign: a negative x is complemented, shifted and complemented back. */
  function Sar(x: int, n: nat): int {
    if x >= 0 then Shr(x, n) else -1 - Shr(-1 - x, n)
  }

  /** C's !x. */
  function Not(x: int): nat {
    if x == 0 then 1 else 0
  }

  function Hi(x: u64): u32 {
    x / B32
  }

  function Lo(x: u64): u32 {
    x % B32
  }

  function Join(hi: u32, lo: u32): (x: u64)
    ensures Hi(x) == hi && Lo(x) == lo
  {
    hi * B32 + lo
  }

  // ----- laws

  lemma Pow32()
    ensures Pow2(32) == B32
  {
    Pow2Values();
  }

  lemma Pow64()
    ensures Pow2(64) == B64
  {
    Pow2Values();
  }

  lemma {:induction false} ShlAdd(x: nat, y: nat, n: nat)
    ensures Shl(x + y, n) == Shl(x, n) + Shl(y, n)
  {
    if n > 0 { ShlAdd(x, y, n - 1); }
  }

  /** A left shift in a w-bit word keeps the low w - n bits and clears the n places they leave. */
  lemma ShlTruncates(x: nat, n: nat, w: nat)
    requires n <= w
    ensures Shl(x, n) % Pow2(w) == Shl(Low(x, w - n), n)
    ensures Shl(x, n) / Pow2(w) == Shr(x, w - n)
  {
    ShiftSplit(x, w - n);
    var h, l := Shr(x, w - n), Low(x, w - n);
    ShlAdd(Shl(h, w - n), l, n);
    ShlShl(h, w - n, n);
    ShlIsMul(h, w);
    ShlMono(l, Pow2(w - n), n);
    ShlOne(w - n);
    ShlShl(1, w - n, n);
    ShlOne(w);
    DivUnique(Shl(x, n), Pow2(w), h, Shl(l, n));
  }

  lemma {:induction false} ShrBound(x: nat, n: nat, m: nat)
    requires x < Pow2(n + m)
    ensures Shr(x, n) < Pow2(m)
  {
    if n > 0 { ShrBound(x / 2, n - 1, m); }
  }

  lemma SarSign(x: s64)
    ensures Sar(x, 63) == if x < 0 then -1 else 0
  {
    Pow2Values();
    LowSmall(if x < 0 then -1 - x else x, 63);
  }

  /** Arithmetic shift is division rounding down. */
  lemma SarIsFloor(x: int, n: nat)
    ensures Sar(x, n) == x / Pow2(n)
  {
    if x >= 0 {
      ShrIsDiv(x, n);
    } else {
      var y, p := -1 - x, Pow2(n);
      ShiftSplit(y, n);
      ShlIsMul(Shr(y, n), n);
      MulSub(-1, Shr(y, n), p);
      DivUnique(x, p, -1 - Shr(y, n), p - 1 - Low(y, n));
    }
  }
}
