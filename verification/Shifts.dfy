/** The 64-bit shifts of src/app_arith64.c, done on 32-bit halves. */
module Shifts {
  import opened Bits
  import opened Words

  /** `b &= 63`: the count is taken modulo 64, for negative counts too. */
  function Count(b: int): (c: nat)
    ensures c < 64 && c == b % 64
  {
    CountMask(U32(b));
    Wraps64(b);
    And(U32(b), 63)
  }

  lemma CountMask(u: u32)
    ensures And(u, 63) == u % 64
  {
    AndOnes(u, 6);
    ShrIsDiv(u, 6);
    assert Pow2(6) == 64;
  }

  lemma Wraps64(b: int)
    ensures U32(b) % 64 == b % 64
  {
    var q, u := b / B32, b % B32;
    SameRest(u, q * 0x400_0000);
  }

  lemma SameRest(u: int, k: int)
    ensures (u + 64 * k) % 64 == u % 64
  {
  }

  function Or32(x: u32, y: u32): u32 {
    Pow2Values();
    OrBound(x, y, 32);
    Or(x, y)
  }

  function Shr32(x: u32, n: nat): u32 {
    ShrBelow(x, n);
    Shr(x, n)
  }

  /** A left shift across the halves. */
  lemma ShlHalves(hi: u32, lo: u32, b: nat)
    requires 0 < b < 32
    ensures Join(Or32(Shr32(lo, 32 - b), Shl32(hi, b)), Shl32(lo, b)) == Shl64(Join(hi, lo), b)
  {
    CarriedBits(hi, lo, b);
    ShlJoin(hi, lo, b);
    Carry(Shl(hi, b), Shl(lo, b), Or32(Shr32(lo, 32 - b), Shl32(hi, b)));
  }

  /** The bits the low half pushes out are or-ed in below the high half's own. */
  lemma CarriedBits(hi: u32, lo: u32, b: nat)
    requires 0 < b < 32
    ensures Or32(Shr32(lo, 32 - b), Shl32(hi, b)) == Shl(hi, b) % B32 + Shl(lo, b) / B32
  {
    Pow32();
    ShlTruncates(lo, b, 32);
    ShlTruncates(hi, b, 32);
    ShrBound(lo, 32 - b, b);
    OrCommutes(Shr32(lo, 32 - b), Shl32(hi, b));
    OrDisjoint(Low(hi, 32 - b), Shr(lo, 32 - b), b);
  }

  lemma {:induction false} ShlJoin(hi: nat, lo: nat, b: nat)
    ensures Shl(hi * B32 + lo, b) == Shl(hi, b) * B32 + Shl(lo, b)
  {
    if b > 0 { ShlJoin(hi, lo, b - 1); }
  }

  /** Two half-word products combine: the low one's overflow is added into the high one. */
  lemma Carry(x: nat, y: nat, sum: u32)
    requires sum == x % B32 + y / B32
    ensures (x * B32 + y) % B64 == sum * B32 + y % B32
  {
    DivUnique(x * B32 + y, B64, x / B32, sum * B32 + y % B32);
  }

  method AshlDi3(a: s64, b0: int) returns (r: s64)
    ensures U64(r) == Shl64(U64(a), b0 % 64)
  {
    var hi, lo := Hi(U64(a)), Lo(U64(a));
    var b := Count(b0);
    if b >= 32 {
      ShlHighHalf(hi, lo, b);
      hi := Shl32(lo, b - 32);
      lo := 0;
    } else if b != 0 {
      ShlHalves(hi, lo, b);
      hi, lo := Or32(Shr32(lo, 32 - b), Shl32(hi, b)), Shl32(lo, b);
    }
    r := S64(Join(hi, lo));
  }

  lemma ShlHighHalf(hi: u32, lo: u32, b: nat)
    requires 32 <= b
    ensures Join(Shl32(lo, b - 32), 0) == Shl64(Join(hi, lo), b)
  {
    var k := b - 32;
    Pow2Values();
    ShlShl(Join(hi, lo), k, 32);
    ShlJoin(hi, lo, k);
    ShlIsMul(Shl(Join(hi, lo), k), 32);
    DropHigh(Shl(hi, k), Shl(lo, k));
  }

  lemma DropHigh(x: nat, y: nat)
    ensures ((x * B32 + y) * B32) % B64 == (y % B32) * B32
  {
    DivUnique((x * B32 + y) * B32, B64, x + y / B32, (y % B32) * B32);
  }

  /** A right shift across the halves. */
  lemma ShrHalves(hi: u32, lo: u32, b: nat)
    requires 0 < b < 32
    ensures Join(Shr32(hi, b), Or32(Shl32(hi, 32 - b), Shr32(lo, b))) == Shr(Join(hi, lo), b)
    ensures Or32(Shl32(hi, 32 - b), Shr32(lo, b)) == Shl(Low(hi, b), 32 - b) + Shr(lo, b)
  {
    Pow2Values();
    ShlTruncates(hi, 32 - b, 32);
    ShrBound(lo, b, 32 - b);
    OrDisjoint(Low(hi, b), Shr(lo, b), 32 - b);
    ShrJoin(hi, lo, b);
  }

  /** Shifting a joined word right feeds the low bits of the high half into the low half. */
  lemma ShrJoin(hi: nat, lo: nat, b: nat)
    requires b <= 32 && lo < B32
    ensures Shr(hi * B32 + lo, b) == Shr(hi, b) * B32 + Shl(Low(hi, b), 32 - b) + Shr(lo, b)
  {
    ShiftSplit(hi, b);
    ShiftSplit(lo, b);
    Rejoin(Shr(hi, b), Low(hi, b), Shr(lo, b), b, 32);
    SplitUnique(Shr(hi, b) * B32 + Shl(Low(hi, b), 32 - b) + Shr(lo, b), Low(lo, b), b);
  }

  lemma Rejoin(hh: nat, hl: nat, lh: nat, b: nat, w: nat)
    requires b <= w && w == 32
    ensures Shl(hh * B32 + Shl(hl, w - b) + lh, b) == (Shl(hh, b) + hl) * B32 + Shl(lh, b)
  {
    ShlJoin(hh, Shl(hl, w - b) + lh, b);
    ShlAdd(Shl(hl, w - b), lh, b);
    ShlShl(hl, w - b, b);
    ShlIsMul(hl, w);
    Pow32();
  }

  method LshrDi3(a: u64, b0: int) returns (r: u64)
    ensures r == Shr(a, b0 % 64)
  {
    var hi, lo := Hi(a), Lo(a);
    var b := Count(b0);
    if b >= 32 {
      ShrLowHalf(hi, lo, b);
      lo := Shr32(hi, b - 32);
      hi := 0;
    } else if b != 0 {
      ShrHalves(hi, lo, b);
      lo, hi := Or32(Shl32(hi, 32 - b), Shr32(lo, b)), Shr32(hi, b);
    }
    r := Join(hi, lo);
  }

  lemma ShrLowHalf(hi: nat, lo: u32, b: nat)
    requires 32 <= b
    ensures Shr(hi * B32 + lo, b) == Shr(hi, b - 32)
  {
    ShrShr(hi * B32 + lo, 32, b - 32);
    Pow2Values();
    ShrIsDiv(hi * B32 + lo, 32);
    DivUnique(hi * B32 + lo, B32, hi, lo);
  }

  lemma {:induction false} ShrComplement(y: nat, w: nat, n: nat)
    requires n <= w && y < Pow2(w)
    ensures Shr(Pow2(w) - 1 - y, n) == Pow2(w - n) - 1 - Shr(y, n)
  {
    if n > 0 {
      assert (Pow2(w) - 1 - y) / 2 == Pow2(w - 1) - 1 - y / 2;
      ShrComplement(y / 2, w - 1, n - 1);
    }
  }

  /** The arithmetic shift of a negative number, seen on its two's-complement pattern. */
  lemma SarPattern(x: int, w: nat, n: nat)
    requires n <= w && 0 - Pow2(w) <= x < 0
    ensures Sar(x, n) == Shr(x + Pow2(w), n) - Pow2(w - n)
  {
    ShrComplement(-1 - x, w, n);
  }

  /** An arithmetic right shift across the halves, the high half signed. */
  lemma SarHalves(hi: int, lo: u32, b: nat)
    requires -0x8000_0000 <= hi < 0x8000_0000 && b <= 32
    ensures Sar(hi * B32 + lo, b) == Sar(hi, b) * B32 + Shl(Low(U32(hi), b), 32 - b) + Shr(lo, b)
  {
    if hi >= 0 {
      assert U32(hi) == hi;
      ShrJoin(hi, lo, b);
    } else {
      var u := hi + B32;
      assert U32(hi) == u;
      ShrJoin(u, lo, b);
      SarNegativeHalves(hi, lo, b);
    }
  }

  lemma SarNegativeHalves(hi: int, lo: u32, b: nat)
    requires -0x8000_0000 <= hi < 0 && b <= 32
    ensures Sar(hi * B32 + lo, b) - Sar(hi, b) * B32 == Shr((hi + B32) * B32 + lo, b) - Shr(hi + B32, b) * B32
  {
    Pow32();
    Pow64();
    Pow2Add(32, 32 - b);
    var p := Pow2(32 - b);
    assert Pow2(64 - b) == B32 * p;
    SarPattern(hi, 32, b);
    SarPattern(hi * B32 + lo, 64, b);
  }

  lemma SarLowHalf(hi: int, lo: u32, b: nat)
    requires -0x8000_0000 <= hi < 0x8000_0000 && 32 <= b < 64
    ensures Sar(hi * B32 + lo, b) == Sar(hi, b - 32)
  {
    if hi >= 0 {
      ShrLowHalf(hi, lo, b);
    } else {
      Pow2Values();
      ShrLowHalf(hi + B32, lo, b);
      SarPattern(hi, 32, b - 32);
      SarPattern(hi * B32 + lo, 64, b);
    }
  }

  lemma SarRange(hi: int, n: nat)
    requires -0x8000_0000 <= hi < 0x8000_0000
    ensures -0x8000_0000 <= Sar(hi, n) < 0x8000_0000
    ensures Sar(hi, n) < 0 <==> hi < 0
    ensures n == 31 ==> Sar(hi, n) == if hi < 0 then -1 else 0
  {
    var y := if hi < 0 then -1 - hi else hi;
    ShrBelow(y, n);
    Pow2Values();
    LowSmall(y, 31);
  }

  /** A low half under a high half of sign bits is the low half sign-extended. */
  lemma SignFill(x: int, sign: int)
    requires -0x8000_0000 <= x < 0x8000_0000 && sign == if x < 0 then -1 else 0
    ensures sign * B32 + U32(x) == x
  {
  }

  method AshrDi3(a: s64, b0: int) returns (r: s64)
    ensures r == Sar(a, b0 % 64)
  {
    var hi, lo := S32(Hi(U64(a))), Lo(U64(a));
    assert a == hi * B32 + lo;
    var b := Count(b0);
    if b >= 32 {
      SarLowHalf(hi, lo, b);
      SarRange(hi, b - 32);
      SarRange(hi, 31);
      SignFill(Sar(hi, b - 32), Sar(hi, 31));
      lo := U32(Sar(hi, b - 32));
      hi := Sar(hi, 31);
    } else if b != 0 {
      SarHalves(hi, lo, b);
      SarRange(hi, b);
      ShrHalves(U32(hi), lo, b);
      lo, hi := Or32(Shl32(U32(hi), 32 - b), Shr32(lo, b)), Sar(hi, b);
    }
    r := Rejoined(hi, lo);
  }

  /** The union's two halves read back as one signed word. */
  function Rejoined(hi: int, lo: u32): (r: s64)
    requires -0x8000_0000 <= hi < 0x8000_0000
    ensures r == hi * B32 + lo
  {
    S64(Join(U32(hi), lo))
  }
}
