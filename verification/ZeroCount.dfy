/** The leading- and trailing-zero counts of src/app_arith64.c. */
module ZeroCount {
  import opened Bits
  import opened Words

  /** One halving round of a leading-zero count. Afterwards the top s bits hold a 1. */
  lemma ClzRound(w: nat, s: nat, a: nat, n: nat, x: nat)
    requires 2 * s <= w && x == Shl(a, n) && Pow2(w - 2 * s) <= x < Pow2(w)
    ensures Pow2(w - s) <= Pow2(w)
    ensures var b := if And(x, Pow2(w) - Pow2(w - s)) == 0 then s else 0;
            Shl(x, b) == Shl(a, n + b) && Pow2(w - s) <= Shl(x, b) < Pow2(w)
  {
    AndTop(x, w, w - s);
    if x < Pow2(w - s) {
      ShlShl(a, n, s);
      ShlMono(x, Pow2(w - s), s);
      ShlMono(Pow2(w - 2 * s), x, s);
      Reshift(w - s, s);
      Reshift(w - 2 * s, s);
    }
  }

  lemma Reshift(m: nat, n: nat)
    ensures Shl(Pow2(m), n) == Pow2(m + n)
  {
    ShlOne(m);
    ShlShl(1, m, n);
    ShlOne(m + n);
  }

  /** A word whose top bit is set after shifting left by n has exactly n leading zeros. */
  lemma ClzBracket(w: nat, a: nat, n: nat)
    requires n < w && Pow2(w - 1) <= Shl(a, n) < Pow2(w)
    ensures Pow2(w - 1 - n) <= a < Pow2(w - n)
  {
    Reshift(w - 1 - n, n);
    Reshift(w - n, n);
    ShlMono(Pow2(w - 1 - n), a, n);
    ShlMono(Pow2(w - n), a, n);
  }

  lemma Masks()
    ensures Pow2(64) - Pow2(32) == 0xffff_ffff_0000_0000 && Pow2(64) - Pow2(48) == 0xffff_0000_0000_0000
    ensures Pow2(64) - Pow2(56) == 0xff00_0000_0000_0000 && Pow2(64) - Pow2(60) == 0xf000_0000_0000_0000
    ensures Pow2(64) - Pow2(62) == 0xc000_0000_0000_0000 && Pow2(64) - Pow2(63) == 0x8000_0000_0000_0000
    ensures Pow2(32) - Pow2(16) == 0xffff_0000 && Pow2(32) - Pow2(24) == 0xff00_0000
    ensures Pow2(32) - Pow2(28) == 0xf000_0000 && Pow2(32) - Pow2(30) == 0xc000_0000
    ensures Pow2(32) - Pow2(31) == 0x8000_0000
    ensures Pow2(0) == 1 && Pow2(64) == B64 && Pow2(32) == B32
  {
    Pow2Values();
    Pow2Add(32, 16);
    Pow2Add(48, 8);
    Pow2Add(56, 4);
    Pow2Add(16, 8);
    Pow2Add(24, 4);
  }

  /** One line of the count: `b = !(a & mask) << log; n += b; a <<= b;` in a w-bit word. */
  method ClzLine(w: nat, a: nat, n: nat, mask: nat, log: nat, ghost a0: nat, ghost s: nat)
    returns (a': nat, n': nat)
    requires s == Shl(1, log) && 2 * s <= w && n + 2 * s <= w
    requires Pow2(w - s) <= Pow2(w) && mask == Pow2(w) - Pow2(w - s)
    requires a == Shl(a0, n) && Pow2(w - 2 * s) <= a < Pow2(w)
    ensures a' == Shl(a0, n') && Pow2(w - s) <= a' < Pow2(w) && n' + s <= w
  {
    ClzRound(w, s, a0, n, a);
    ShlZero(log);
    var b := Shl(Not(And(a, mask)), log);
    n' := n + b;
    a' := Shl(a, b) % Pow2(w);
    LowSmall(Shl(a, b), w);
    ShrIsDiv(Shl(a, b), w);
  }

  method Clzdi2(a0: u64) returns (r: nat)
    requires a0 != 0
    ensures r < 64 && Pow2(63 - r) <= a0 < Pow2(64 - r)
  {
    Masks();
    var a, n := a0, 0;
    a, n := ClzLine(64, a, n, 0xffff_ffff_0000_0000, 5, a0, 32);
    a, n := ClzLine(64, a, n, 0xffff_0000_0000_0000, 4, a0, 16);
    a, n := ClzLine(64, a, n, 0xff00_0000_0000_0000, 3, a0, 8);
    a, n := ClzLine(64, a, n, 0xf000_0000_0000_0000, 2, a0, 4);
    a, n := ClzLine(64, a, n, 0xc000_0000_0000_0000, 1, a0, 2);
    r := n + Not(And(a, 0x8000_0000_0000_0000));
    ClzRound(64, 1, a0, n, a);
    ClzBracket(64, a0, r);
  }

  method Clzsi2(a0: u32) returns (r: nat)
    requires a0 != 0
    ensures r < 32 && Pow2(31 - r) <= a0 < Pow2(32 - r)
  {
    Masks();
    var a, n := a0, 0;
    a, n := ClzLine(32, a, n, 0xffff_0000, 4, a0, 16);
    a, n := ClzLine(32, a, n, 0xff00_0000, 3, a0, 8);
    a, n := ClzLine(32, a, n, 0xf000_0000, 2, a0, 4);
    a, n := ClzLine(32, a, n, 0xc000_0000, 1, a0, 2);
    r := n + Not(And(a, 0x8000_0000));
    ClzRound(32, 1, a0, n, a);
    ClzBracket(32, a0, r);
  }

  /** One halving round of a trailing-zero count. Afterwards the low s bits hold a 1. */
  lemma CtzRound(s: nat, a: nat, n: nat, x: nat)
    requires x == Shr(a, n) && Low(a, n) == 0 && Low(x, 2 * s) != 0
    ensures var b := if And(x, Pow2(s) - 1) == 0 then s else 0;
            Shr(x, b) == Shr(a, n + b) && Low(a, n + b) == 0 && Low(Shr(x, b), s) != 0
  {
    AndOnes(x, s);
    if Low(x, s) == 0 {
      ShrShr(a, n, s);
      LowSplit(a, n, s);
      LowSplit(x, s, s);
      ShlZero(n);
      ShlZero(s);
    }
  }

  lemma {:induction false} LowSplit(x: nat, m: nat, n: nat)
    ensures Low(x, m + n) == Shl(Low(Shr(x, m), n), m) + Low(x, m)
  {
    if m > 0 { LowSplit(x / 2, m - 1, n); }
  }

  lemma LowMasks()
    ensures Pow2(32) - 1 == 0xffff_ffff && Pow2(16) - 1 == 0xffff && Pow2(8) - 1 == 0xff
    ensures Pow2(4) - 1 == 0xf && Pow2(2) - 1 == 3 && Pow2(1) - 1 == 1
  {
    Pow2Values();
  }

  /** One line of the count: `b = !(a & mask) << log; n += b; a >>= b;`. */
  method CtzLine(a: nat, n: nat, mask: nat, log: nat, ghost a0: nat, ghost s: nat) returns (a': nat, n': nat)
    requires s == Shl(1, log) && mask == Pow2(s) - 1
    requires a == Shr(a0, n) && Low(a0, n) == 0 && Low(a, 2 * s) != 0
    ensures a' == Shr(a0, n') && Low(a0, n') == 0 && Low(a', s) != 0 && n' <= n + s
  {
    CtzRound(s, a0, n, a);
    ShlZero(log);
    var b := Shl(Not(And(a, mask)), log);
    n' := n + b;
    a' := Shr(a, b);
  }

  method Ctzdi2(a0: u64) returns (r: nat)
    requires a0 != 0
    ensures r < 64 && Low(a0, r) == 0 && Shr(a0, r) % 2 == 1
  {
    Masks();
    LowMasks();
    LowSmall(a0, 64);
    var a, n := a0, 0;
    a, n := CtzLine(a, n, 0x0000_0000_ffff_ffff, 5, a0, 32);
    a, n := CtzLine(a, n, 0x0000_0000_0000_ffff, 4, a0, 16);
    a, n := CtzLine(a, n, 0x0000_0000_0000_00ff, 3, a0, 8);
    a, n := CtzLine(a, n, 0x0000_0000_0000_000f, 2, a0, 4);
    a, n := CtzLine(a, n, 0x0000_0000_0000_0003, 1, a0, 2);
    r := n + Not(And(a, 0x0000_0000_0000_0001));
    CtzRound(1, a0, n, a);
  }

  method Ctzsi2(a0: u32) returns (r: nat)
    requires a0 != 0
    ensures r < 32 && Low(a0, r) == 0 && Shr(a0, r) % 2 == 1
  {
    Masks();
    LowMasks();
    LowSmall(a0, 32);
    var a, n := a0, 0;
    a, n := CtzLine(a, n, 0x0000_ffff, 4, a0, 16);
    a, n := CtzLine(a, n, 0x0000_00ff, 3, a0, 8);
    a, n := CtzLine(a, n, 0x0000_000f, 2, a0, 4);
    a, n := CtzLine(a, n, 0x0000_0003, 1, a0, 2);
    r := n + Not(And(a, 0x0000_0001));
    CtzRound(1, a0, n, a);
  }

  /** The index of the least significant 1 bit, counted from one; zero when there is none. */
  method Ffsdi2(a: u64) returns (r: nat)
    ensures r == 0 <==> a == 0
    ensures r > 0 ==> Low(a, r - 1) == 0 && Low(a, r) != 0
  {
    if a == 0 { return 0; }
    var n := Ctzdi2(a);
    r := n + 1;
    LowSplit(a, n, 1);
    ShlOne(n);
  }
}
