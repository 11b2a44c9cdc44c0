/** The branch-free long division of src/app_arith64.c and the signed forms built on it. */
module Division {
  import opened Bits
  import opened Words
  import ZeroCount

  /** Division by zero raises an exception in the original. */
  datatype Quotient = Trap | Quotient(q: u64, r: u64)

  /** What the loop knows with t numerator bits still to bring down: q is the quotient of the
      bits already consumed and p what it accounts for; q's last bit is in wrap and the others
      at the low end of reg. */
  ghost predicate LoopInv(a: u64, b: u64, t: nat, q: nat, p: nat, rem: nat, reg: nat, wrap: nat) {
    && t <= 63
    && Shr(a, t) == p + rem
    && rem < b
    && reg == Shl(Low(a, t), 64 - t) + q / 2
    && wrap == (if q % 2 == 1 then B64 - 1 else 0)
  }

  /** Bit t - 1 of a joins the consumed part. */
  lemma {:induction false} BitStep(a: nat, t: nat)
    requires t > 0
    ensures Shr(a, t - 1) == 2 * Shr(a, t) + Shr(a, t - 1) % 2
    ensures Low(a, t) == (if Shr(a, t - 1) % 2 == 1 then Pow2(t - 1) else 0) + Low(a, t - 1)
    ensures Low(a, t - 1) < Pow2(t - 1)
  {
    ShiftSplit(a, t - 1);
    if t > 1 { BitStep(a / 2, t - 1); }
  }

  /** The numerator register: its top bit is the next numerator bit, and shifting it up makes room. */
  lemma RegStep(a: u64, t: nat, h: nat, reg: u64)
    requires 0 < t <= 63 && h < Pow2(64 - t)
    requires reg == Shl(Low(a, t), 64 - t) + h
    ensures Shr(reg, 63) == Shr(a, t - 1) % 2
    ensures Shl64(reg, 1) == 2 * (Shl(Low(a, t - 1), 64 - t) + h)
  {
    var bit, rest := Shr(a, t - 1) % 2, Low(a, t - 1);
    BitStep(a, t);
    LowPlaced(a, t);
    RestBelow(rest, h, t);
    TopBit(bit, Shl(rest, 64 - t) + h);
  }

  lemma LowPlaced(a: u64, t: nat)
    requires 0 < t <= 63
    ensures Shl(Low(a, t), 64 - t)
         == (if Shr(a, t - 1) % 2 == 1 then Pow2(63) else 0) + Shl(Low(a, t - 1), 64 - t)
  {
    var bit := Shr(a, t - 1) % 2;
    BitStep(a, t);
    TopPlaced(bit, t);
    ShlSum(Low(a, t), if bit == 1 then Pow2(t - 1) else 0, Low(a, t - 1), 64 - t);
  }

  lemma ShlSum(x: nat, top: nat, low: nat, n: nat)
    requires x == top + low
    ensures Shl(x, n) == Shl(top, n) + Shl(low, n)
  {
    ShlAdd(top, low, n);
  }

  lemma TopPlaced(bit: nat, t: nat)
    requires bit < 2 && 0 < t <= 63
    ensures Shl(if bit == 1 then Pow2(t - 1) else 0, 64 - t) == if bit == 1 then Pow2(63) else 0
  {
    ZeroCount.Reshift(t - 1, 64 - t);
    ShlZero(64 - t);
    assert t - 1 + (64 - t) == 63;
  }

  lemma RestBelow(rest: nat, h: nat, t: nat)
    requires 0 < t <= 63 && rest < Pow2(t - 1) && h < Pow2(64 - t)
    ensures Shl(rest, 64 - t) + h < Pow2(63)
  {
    ZeroCount.Reshift(t - 1, 64 - t);
    ShlMono(rest, Pow2(t - 1), 64 - t);
    assert t - 1 + (64 - t) == 63;
  }

  lemma TopBit(bit: nat, rest: nat)
    requires bit < 2 && rest < Pow2(63)
    ensures var reg := (if bit == 1 then Pow2(63) else 0) + rest;
            reg < B64 && Shr(reg, 63) == bit && Shl64(reg, 1) == 2 * rest
  {
    var reg := (if bit == 1 then Pow2(63) else 0) + rest;
    FieldAbove(bit, rest, 63);
    assert Pow2(63) == B63 by { Pow2Values(); }
    DropTop(bit, rest);
  }

  lemma FieldAbove(bit: nat, rest: nat, k: nat)
    requires bit < 2 && rest < Pow2(k)
    ensures Shr((if bit == 1 then Pow2(k) else 0) + rest, k) == bit
  {
    ShlZero(k);
    ShlOne(k);
    SplitUnique(bit, rest, k);
  }

  lemma DropTop(bit: nat, rest: nat)
    requires bit < 2 && rest < B63
    ensures Shl64((if bit == 1 then B63 else 0) + rest, 1) == 2 * rest
  {
    var reg := (if bit == 1 then B63 else 0) + rest;
    assert Shl(reg, 1) == 2 * Shl(reg, 0) == 2 * reg;
  }

  /** The sign bit of b - rem - 1 decides rem >= b, for every rem below 2b, exactly if rem is not more
      than 2^63 below b; further below the difference has its top bit set as well. */
  lemma SignDecides(b: u64, rem: u64)
    requires rem < 2 * b
    ensures var wrap := U64(Sar(S64(U64(b - rem - 1)), 63));
            && wrap == (if rem >= b || b - rem > B63 then B64 - 1 else 0)
            && (wrap == (if rem >= b then B64 - 1 else 0) <==> b - rem <= B63)
  {
    var d := b - rem - 1;
    SarSign(S64(U64(d)));
    if rem >= b {
      DivUnique(d, B64, -1, d + B64);
    } else {
      DivUnique(d, B64, 0, d);
    }
  }

  /** The remainder takes in the next numerator bit without overflowing; p is the part already divided. */
  lemma RemStep(a: u64, t: nat, p: nat, rem: u64)
    requires 0 < t && Shr(a, t) == p + rem
    ensures var bit := Shr(a, t - 1) % 2;
            && Or(Shl64(rem, 1), bit) == 2 * rem + bit < B64
            && Shr(a, t - 1) == 2 * p + (2 * rem + bit)
  {
    BitStep(a, t);
    ShiftSplit(a, t - 1);
    ShlGrows(Shr(a, t - 1), t - 1);
    ShlNoOverflow(rem);
    OrBit(rem, Shr(a, t - 1) % 2);
  }

  lemma ShlNoOverflow(x: nat)
    requires 2 * x < B64
    ensures x < B64 && Shl64(x, 1) == 2 * x
  {
    assert Shl(x, 1) == 2 * Shl(x, 0) == 2 * x;
  }

  /** The register takes in the last quotient bit c, below the earlier ones in h. */
  lemma QuotientStep(a: u64, t: nat, h: nat, c: nat, reg: u64, wrap: u64)
    requires 0 < t <= 63 && h < Pow2(64 - t) && c < 2
    requires reg == Shl(Low(a, t), 64 - t) + h
    requires wrap == (if c == 1 then B64 - 1 else 0)
    ensures Shr(reg, 63) == Shr(a, t - 1) % 2
    ensures Or(Shl64(reg, 1), And(wrap, 1)) == Shl(Low(a, t - 1), 65 - t) + 2 * h + c < B64
  {
    RegStep(a, t, h, reg);
    OrBit(Shl(Low(a, t - 1), 64 - t) + h, c);
    WrapBit(wrap);
  }

  lemma WrapBit(wrap: u64)
    requires wrap == 0 || wrap == B64 - 1
    ensures And(wrap, 1) == if wrap == 0 then 0 else 1
  {
    assert Pow2(1) == 2;
    AndOnes(wrap, 1);
    assert Low(wrap, 1) == wrap % 2 by { assert Low(wrap / 2, 0) == 0; }
  }

  lemma AndAllOnes(b: u64)
    ensures And(b, B64 - 1) == b
  {
    Pow2Values();
    AndOnes(b, 64);
    LowSmall(b, 64);
  }

  /** Subtracting b under the mask leaves the smaller remainder. */
  lemma SubtractStep(b: u64, rem: u64)
    requires rem < 2 * b
    requires b <= B63 || rem >= b
    ensures var wrap := U64(Sar(S64(U64(b - rem - 1)), 63));
            && wrap == (if rem >= b then B64 - 1 else 0)
            && U64(rem - And(b, wrap)) == if rem >= b then rem - b else rem
  {
    SignDecides(b, rem);
    MaskedAway(b, rem, if rem >= b then B64 - 1 else 0);
  }

  lemma MaskedAway(b: u64, rem: u64, wrap: u64)
    requires wrap == if rem >= b then B64 - 1 else 0
    ensures U64(rem - And(b, wrap)) == if rem >= b then rem - b else rem
  {
    AndZero(b);
    AndAllOnes(b);
    if rem >= b { DivUnique(rem - b, B64, 0, rem - b); } else { DivUnique(rem, B64, 0, rem); }
  }

  /** One pass of the loop body: the remainder with the next bit, the register, the mask and
      the reduced remainder. */
  ghost predicate Pass(b: u64, rem: u64, reg: u64, wrap: u64, rem1: u64, reg1: u64, wrap1: u64, rem2: u64) {
    && rem1 == Or64(Shl64(rem, 1), Shr64(reg, 63))
    && reg1 == Or64(Shl64(reg, 1), And64(wrap, 1))
    && wrap1 == U64(Sar(S64(U64(b - rem1 - 1)), 63))
    && rem2 == U64(rem1 - And64(b, wrap1))
  }

  /** One bit of the long division keeps the invariant. */
  lemma LoopStep(a: u64, b: u64, t: nat, q: nat, p: nat, rem: u64, reg: u64, wrap: u64,
                 rem1: u64, reg1: u64, wrap1: u64, rem2: u64)
    requires 0 < t && LoopInv(a, b, t, q, p, rem, reg, wrap)
    requires Pass(b, rem, reg, wrap, rem1, reg1, wrap1, rem2)
    requires q < Pow2(63 - t)
    requires b <= B63 || (t == 1 && p == 0 && b <= a)
    ensures LoopInv(a, b, t - 1, 2 * q + (if rem1 >= b then 1 else 0), 2 * p + (if rem1 >= b then b else 0),
                    rem2, reg1, wrap1)
  {
    RemStep(a, t, p, rem);
    TakenIn(a, t, q, reg, wrap, reg1);
    SubtractStep(b, rem1);
    DivUnique(2 * q + if rem1 >= b then 1 else 0, 2, q, if rem1 >= b then 1 else 0);
  }

  /** The register after a pass holds one bit more of the quotient and one less of the numerator. */
  lemma TakenIn(a: u64, t: nat, q: nat, reg: u64, wrap: u64, reg1: u64)
    requires 0 < t <= 63 && q < Pow2(63 - t) && reg == Shl(Low(a, t), 64 - t) + q / 2
    requires wrap == (if q % 2 == 1 then B64 - 1 else 0)
    requires reg1 == Or64(Shl64(reg, 1), And64(wrap, 1))
    ensures Shr(reg, 63) == Shr(a, t - 1) % 2 && reg1 == Shl(Low(a, t - 1), 65 - t) + q
  {
    PowStep(q, t);
    QuotientStep(a, t, q / 2, q % 2, reg, wrap);
  }

  lemma PowStep(q: nat, t: nat)
    requires 0 < t <= 63 && q < Pow2(63 - t)
    ensures 2 * q + 1 < Pow2(64 - t) && q / 2 < Pow2(64 - t)
  {
  }

  lemma {:induction false} ShlGrows(x: nat, n: nat)
    ensures Shl(x, n) >= x
  {
    if n > 0 { ShlGrows(x, n - 1); }
  }

  /** Shifting up by one and OR-ing in a bit, when the shift does not overflow. */
  lemma OrBit(x: nat, bit: nat)
    requires bit < 2
    ensures Or(2 * x, bit) == 2 * x + bit
  {
    assert Shl(x, 1) == 2 * Shl(x, 0) == 2 * x;
    Pow2Values();
    OrDisjoint(x, bit, 1);
  }

  /** The two leading-zero counts leave between 1 and 63 quotient bits, one when b has its top bit set. */
  lemma BitsRange(a: u64, b: u64, na: nat, nb: nat)
    requires 1 < b <= a && na < 64 && nb < 64
    requires Pow2(63 - na) <= a < Pow2(64 - na) && Pow2(63 - nb) <= b < Pow2(64 - nb)
    ensures 1 <= nb - na + 1 <= 63
    ensures b >= B63 ==> nb - na + 1 == 1
  {
    if na > nb { Pow2Mono(64 - na, 63 - nb); }
    if nb == 63 { Pow2Values(); }
    if b >= B63 && nb > 0 { Pow2Mono(64 - nb, 63); Pow2Values(); }
  }

  lemma StartLoop(a: u64, b: u64, na: nat, nb: nat)
    requires 1 <= nb - na + 1 <= 63 && nb < 64
    requires a < Pow2(64 - na) && Pow2(63 - nb) <= b
    ensures var bits := nb - na + 1;
            Shr(a, bits) < B64 && LoopInv(a, b, bits, 0, 0, Shr(a, bits), Shl64(a, 64 - bits), 0)
  {
    var bits := nb - na + 1;
    ShrBound(a, bits, 63 - nb);
    StartRegister(a, bits);
    assert LoopInv(a, b, bits, 0, 0, Shr(a, bits), Shl64(a, 64 - bits), 0);
  }

  lemma StartRegister(a: u64, bits: nat)
    requires 1 <= bits <= 63
    ensures Shl64(a, 64 - bits) == Shl(Low(a, bits), 64 - bits)
  {
    ShlTruncates(a, 64 - bits, 64);
    Pow2Values();
  }

  lemma LastBit(a: u64, b: u64, q: nat, p: nat, rem: u64, reg: u64, wrap: u64)
    requires LoopInv(a, b, 0, q, p, rem, reg, wrap) && q <= p
    ensures Or(Shl64(reg, 1), And(wrap, 1)) == q < B64
    ensures a == p + rem
  {
    ShlZero(64);
    assert reg == q / 2;
    LastRegister(q, reg, wrap);
  }

  lemma LastRegister(q: nat, reg: u64, wrap: u64)
    requires reg == q / 2 && q < B64 && wrap == (if q % 2 == 1 then B64 - 1 else 0)
    ensures Or(Shl64(reg, 1), And(wrap, 1)) == q
  {
    var h, c := q / 2, q % 2;
    assert q == 2 * h + c;
    ShlNoOverflow(h);
    OrBit(h, c);
    WrapBit(wrap);
  }

  method DivModdi4(a0: u64, b: u64) returns (o: Quotient)
    ensures o.Trap? <==> b == 0
    ensures o.Quotient? ==> a0 == o.q * b + o.r && o.r < b
  {
    var a := a0;
    if b > a { return Quotient(0, a); }
    if Hi(b) == 0 {
      if b == 0 { return Trap; }
      if b == 1 { return Quotient(a, 0); }
      if Hi(a) == 0 {
        return Quotient(Lo(a) / Lo(b), Lo(a) % Lo(b));
      }
    }
    o := LongDivision(a, b);
  }

  /** The loop invariant with the quotient's size and product. */
  ghost predicate Running(a: u64, b: u64, total: nat, t: nat, q: nat, rem: nat, reg: nat, wrap: nat) {
    && t <= total <= 63 && b <= a
    && q < Pow2(total - t)
    && LoopInv(a, b, t, q, q * b, rem, reg, wrap)
    && (b >= B63 ==> total == 1)
  }

  lemma RunningStep(a: u64, b: u64, total: nat, t: nat, q: nat, rem: u64, reg: u64, wrap: u64,
                    rem1: u64, reg1: u64, wrap1: u64, rem2: u64)
    requires 0 < t && Running(a, b, total, t, q, rem, reg, wrap)
    requires Pass(b, rem, reg, wrap, rem1, reg1, wrap1, rem2)
    ensures Running(a, b, total, t - 1, 2 * q + (if rem1 >= b then 1 else 0), rem2, reg1, wrap1)
  {
    PowRoom(q, total, t);
    if t == total { assert q * b == 0; }
    LoopStep(a, b, t, q, q * b, rem, reg, wrap, rem1, reg1, wrap1, rem2);
    Distribute(q, 0, b);
    Distribute(q, 1, b);
  }

  lemma StartRunning(a: u64, b: u64, na: nat, nb: nat)
    requires 1 <= nb - na + 1 <= 63 && nb < 64 && b <= a < Pow2(64 - na) && Pow2(63 - nb) <= b
    requires b >= B63 ==> nb == na
    ensures var bits := nb - na + 1;
            Shr(a, bits) < B64 && Running(a, b, bits, bits, 0, Shr(a, bits), Shl64(a, 64 - bits), 0)
  {
    StartLoop(a, b, na, nb);
    assert 0 * b == 0;
  }

  lemma Finish(a: u64, b: u64, total: nat, q: nat, rem: u64, reg: u64, wrap: u64)
    requires 0 < b && Running(a, b, total, 0, q, rem, reg, wrap)
    ensures Or(Shl64(reg, 1), And(wrap, 1)) == q < B64
    ensures a == q * b + rem && rem < b
  {
    MulMono(1, b, q);
    assert b * q == q * b;
    LastBit(a, b, q, q * b, rem, reg, wrap);
  }

  /** The loop of the division, reached when 1 < b <= a. */
  method LongDivision(a0: u64, b: u64) returns (o: Quotient)
    requires 1 < b <= a0
    ensures o.Quotient? && a0 == o.q * b + o.r && o.r < b
  {
    var a: u64 := a0;
    var nb := ZeroCount.Clzdi2(b);
    var na := ZeroCount.Clzdi2(a);
    BitsRange(a, b, na, nb);
    var bits := nb - na + 1;
    StartRunning(a0, b, na, nb);
    var rem: u64 := Shr(a, bits);
    a := Shl64(a, 64 - bits);
    var wrap: u64 := 0;
    ghost var q: nat, total := 0, bits;
    while bits > 0
      invariant 0 <= bits && Running(a0, b, total, bits, q, rem, a, wrap)
    {
      ghost var rem0, a', wrap0 := rem, a, wrap;
      rem := Or64(Shl64(rem, 1), Shr64(a, 63));
      a := Or64(Shl64(a, 1), And64(wrap, 1));
      wrap := U64(Sar(S64(U64(b - rem - 1)), 63));
      ghost var rem1 := rem;
      rem := U64(rem - And64(b, wrap));
      RunningStep(a0, b, total, bits, q, rem0, a', wrap0, rem1, a, wrap, rem);
      q := 2 * q + (if rem1 >= b then 1 else 0);
      bits := bits - 1;
    }
    Finish(a0, b, total, q, rem, a, wrap);
    o := Quotient(Or64(Shl64(a, 1), And64(wrap, 1)), rem);
  }

  lemma Distribute(q: int, bit: int, b: int)
    ensures (2 * q + bit) * b == 2 * (q * b) + bit * b
  {
  }

  lemma PowRoom(q: nat, total: nat, bits: nat)
    requires 0 < bits <= total <= 63 && q < Pow2(total - bits)
    ensures q < Pow2(63 - bits) && 2 * q + 1 < Pow2(total - bits + 1)
    ensures bits == total ==> q == 0
  {
    Pow2Mono(total - bits, 63 - bits);
  }

  // ----- signed division (app_arith64.c:51-60, 191-196, 224-230)

  /** The branch-free "negate a if b is negative": invert under a sign mask, then add one. */
  function NegIf(a: u64, b: s64): u64 {
    U64(Xor(a, U64((if b >= 0 then 1 else 0) - 1)) + (if b < 0 then 1 else 0))
  }

  lemma NegIfMeaning(a: u64, b: s64)
    ensures NegIf(a, b) == if b < 0 then U64(0 - a) else a
  {
    if b >= 0 {
      XorZero(a);
      assert U64(1 - 1) == 0;
    } else {
      XorAllOnes(a);
      assert U64(0 - 1) == B64 - 1;
      Complement(a);
    }
  }

  lemma Complement(a: u64)
    ensures U64(B64 - 1 - a + 1) == U64(0 - a)
  {
  }

  lemma XorAllOnes(a: u64)
    ensures Xor(a, B64 - 1) == B64 - 1 - a
  {
    Pow2Values();
    XorOnes(a, 64);
  }

  function Abs(x: int): nat {
    if x < 0 then -x else x
  }

  /** The absolute value as an unsigned word: exact for every input, the smallest one included. */
  lemma AbsMeaning(a: s64)
    ensures NegIf(U64(a), a) == Abs(a)
  {
    NegIfMeaning(U64(a), a);
  }

  lemma SignsDiffer(a: s64, b: s64)
    ensures 0 <= Xor(U64(a), U64(b)) < B64
    ensures S64(Xor(U64(a), U64(b))) < 0 <==> ((a < 0) != (b < 0))
  {
    XorSign(U64(a), U64(b));
  }

  lemma XorSign(x: u64, y: u64)
    ensures 0 <= Xor(x, y) < B64
    ensures Xor(x, y) >= B63 <==> ((x >= B63) != (y >= B63))
  {
    Pow2Values();
    XorTop(x, y, 64);
  }

  datatype SignedResult = SignedTrap | Signed(value: s64)

  /** Division truncated toward zero: |a| over |b|, with the sign of a / b. */
  function Truncated(a: int, b: int): int
    requires b != 0
  {
    var m := Abs(a) / Abs(b);
    if (a < 0) != (b < 0) then -m else m
  }

  /** Truncated is the one quotient whose remainder is smaller than b and takes a's sign. */
  lemma TruncatedUnique(a: int, b: int, q: int)
    requires b != 0
    ensures q == Truncated(a, b) <==>
            var r := a - q * b;
            Abs(r) < Abs(b) && (a >= 0 ==> r >= 0) && (a <= 0 ==> r <= 0)
  {
    SignedProduct(q, b);
    var k := if (a < 0) != (b < 0) then -q else q;
    var p := q * b;
    assert k * Abs(b) == if a < 0 then -p else p;
    DivTest(Abs(a), Abs(b), k, if a < 0 then -(a - p) else a - p);
  }

  lemma DivTest(m: nat, d: nat, k: int, r: int)
    requires d > 0 && m == k * d + r
    ensures k == m / d <==> 0 <= r < d
    ensures m == 0 && 0 <= r < d ==> r == 0
  {
    assert m == (m / d) * d + m % d;
    if 0 <= r < d { DivUnique(m, d, k, r); }
  }

  lemma SignedProduct(q: int, b: int)
    ensures (-q) * b == -(q * b) && q * (-b) == -(q * b) && (-q) * (-b) == q * b
  {
  }

  /** Magnitudes q and r of an unsigned division give the truncated quotient and remainder. */
  lemma FromMagnitudes(a: int, b: int, q: nat, r: nat)
    requires b != 0 && Abs(a) == q * Abs(b) + r && r < Abs(b)
    ensures Truncated(a, b) == if (a < 0) != (b < 0) then 0 - q else q
    ensures a - Truncated(a, b) * b == if a < 0 then 0 - r else r
    ensures q <= Abs(a) && (Abs(b) >= 2 ==> 2 * q <= Abs(a))
  {
    DivUnique(Abs(a), Abs(b), q, r);
    SignedProduct(q, b);
    MulMono(1, Abs(b), q);
    if Abs(b) >= 2 { MulMono(2, Abs(b), q); }
    assert Abs(b) * q == q * Abs(b);
  }

  /** The quotient of signed operands, truncated; the only one that does not fit wraps. */
  method DivDi3(a: s64, b: s64) returns (o: SignedResult)
    ensures o.SignedTrap? <==> b == 0
    ensures b != 0 ==> U64(o.value) == U64(Truncated(a, b))
    ensures b != 0 && !(a == -B63 && b == -1) ==> o.value == Truncated(a, b)
  {
    AbsMeaning(a);
    AbsMeaning(b);
    SignsDiffer(a, b);
    var d := DivModdi4(NegIf(U64(a), a), NegIf(U64(b), b));
    if d.Trap? { return SignedTrap; }
    var sign := S64(Xor(U64(a), U64(b)));
    NegIfMeaning(d.q, sign);
    FromMagnitudes(a, b, d.q, d.r);
    o := Signed(S64(NegIf(d.q, sign)));
    SignedFits(o.value, Truncated(a, b));
  }

  /** The remainder of signed operands takes the sign of the numerator. */
  method ModDi3(a: s64, b: s64) returns (o: SignedResult)
    ensures o.SignedTrap? <==> b == 0
    ensures b != 0 ==> o.value == a - Truncated(a, b) * b
  {
    AbsMeaning(a);
    AbsMeaning(b);
    var d := DivModdi4(NegIf(U64(a), a), NegIf(U64(b), b));
    if d.Trap? { return SignedTrap; }
    NegIfMeaning(d.r, a);
    FromMagnitudes(a, b, d.q, d.r);
    o := Signed(S64(NegIf(d.r, a)));
    SignedFits(o.value, a - Truncated(a, b) * b);
  }

  lemma SignedFits(x: s64, y: int)
    requires U64(x) == U64(y)
    ensures -B63 <= y < B63 ==> x == y
  {
  }
}
