/** The branch-free population counts of src/app_arith64.c (lines 232-255), proved equal to
    counting the 1 bits one by one. */
module PopCounts {
  import opened Bits
  import opened Words

  // ----- the three masks: 01, 0011 and 00001111 repeated k times

  function Fives(k: nat): nat {
    if k == 0 then 0 else 4 * Fives(k - 1) + 1
  }

  function Threes(k: nat): nat {
    if k == 0 then 0 else 16 * Threes(k - 1) + 3
  }

  function Fifteens(k: nat): nat {
    if k == 0 then 0 else 256 * Fifteens(k - 1) + 15
  }

  // ----- the word with each field of 2, 4 or 8 bits replaced by that field's bit count

  function PairSums(x: nat): nat {
    if x == 0 then 0 else 4 * PairSums(x / 4) + PopCount(x % 4)
  }

  function NibbleSums(x: nat): nat {
    if x == 0 then 0 else 16 * NibbleSums(x / 16) + PopCount(x % 16)
  }

  function ByteSums(x: nat): nat {
    if x == 0 then 0 else 256 * ByteSums(x / 256) + PopCount(x % 256)
  }

  // ----- digits

  // Quotients and remainders of a number written in digits.

  lemma Div2(h: nat, l: nat)
    requires l < 2
    ensures (2 * h + l) / 2 == h && (2 * h + l) % 2 == l
  {
  }

  lemma Div4(h: nat, l: nat)
    requires l < 4
    ensures (4 * h + l) / 4 == h && (4 * h + l) % 4 == l
  {
  }

  lemma Div16(h: nat, l: nat)
    requires l < 16
    ensures (16 * h + l) / 16 == h && (16 * h + l) % 16 == l
  {
  }

  lemma Div256(h: nat, l: nat)
    requires l < 256
    ensures (256 * h + l) / 256 == h && (256 * h + l) % 256 == l
  {
  }

  lemma Split4(x: nat) returns (h: nat, l: nat)
    ensures x == 4 * h + l && l < 4
  {
    h, l := x / 4, x % 4;
  }

  lemma Split16(x: nat) returns (h: nat, l: nat)
    ensures x == 16 * h + l && l < 16
  {
    h, l := x / 16, x % 16;
  }

  lemma Split256(x: nat) returns (h: nat, l: nat)
    ensures x == 256 * h + l && l < 256
  {
    h, l := x / 256, x % 256;
  }

  lemma PopPair(l: nat)
    requires l < 4
    ensures PopCount(l) == l % 2 + l / 2 <= 2
  {
  }

  lemma PopSplit4(h: nat, l: nat)
    requires l < 4
    ensures PopCount(4 * h + l) == PopCount(h) + PopCount(l) && PopCount(l) <= 2
  {
    PopPair(l);
    Div2(2 * h + l / 2, l % 2);
    Div2(h, l / 2);
    assert 4 * h + l == 2 * (2 * h + l / 2) + l % 2;
  }

  lemma PopSplit16(h: nat, l: nat)
    requires l < 16
    ensures PopCount(16 * h + l) == PopCount(h) + PopCount(l) && PopCount(l) <= 4
  {
    var m, n := Split4(l);
    PopSplit4(4 * h + m, n);
    PopSplit4(h, m);
    PopSplit4(m, n);
    assert 16 * h + l == 4 * (4 * h + m) + n;
  }

  lemma PopSplit256(h: nat, l: nat)
    requires l < 256
    ensures PopCount(256 * h + l) == PopCount(h) + PopCount(l) && PopCount(l) <= 8
  {
    var m, n := Split16(l);
    PopSplit16(16 * h + m, n);
    PopSplit16(h, m);
    PopSplit16(m, n);
    assert 256 * h + l == 16 * (16 * h + m) + n;
  }

  lemma PairDigit(h: nat, l: nat)
    requires l < 4
    ensures PairSums(4 * h + l) == 4 * PairSums(h) + PopCount(l)
  {
    Div4(h, l);
  }

  lemma NibbleSumsDigit(h: nat, l: nat)
    requires l < 16
    ensures NibbleSums(16 * h + l) == 16 * NibbleSums(h) + PopCount(l)
  {
    Div16(h, l);
  }

  lemma ByteSumsDigit(h: nat, l: nat)
    requires l < 256
    ensures ByteSums(256 * h + l) == 256 * ByteSums(h) + PopCount(l)
  {
    Div256(h, l);
  }

  /** First line: a - ((a >> 1) & 0x55..). */
  lemma {:induction false} PairStep(x: nat, k: nat)
    requires x < Pow2(2 * k)
    ensures x - And(x / 2, Fives(k)) == PairSums(x)
  {
    if k > 0 {
      var h, l := Split4(x);
      PairStep(h, k - 1);
      NextPair(h, l, Fives(k - 1));
    }
  }

  lemma NextPair(h: nat, l: nat, t: nat)
    requires l < 4 && h - And(h / 2, t) == PairSums(h)
    ensures (4 * h + l) - And((4 * h + l) / 2, 4 * t + 1) == PairSums(4 * h + l)
  {
    var x := 4 * h + l;
    PairDigit(h, l);
    PopPair(l);
    Div2(2 * h + l / 2, l % 2);
    Div2(h, l / 2);
    assert x == 2 * (2 * h + l / 2) + l % 2;
    AndPair(h, l / 2, t);
  }

  lemma AndPair(h: nat, c: nat, t: nat)
    requires c < 2
    ensures And(2 * h + c, 4 * t + 1) == 4 * And(h / 2, t) + c
  {
    Div2(h, c);
    Div2(2 * t, 1);
    Div2(t, 0);
    AndUnfold(2 * h + c, 4 * t + 1);
    AndUnfold(h, 2 * t);
  }

  /** Second line: ((a >> 2) & 0x33..) + (a & 0x33..). */
  lemma {:induction false} NibbleStep(x: nat, k: nat)
    requires x < Pow2(4 * k)
    ensures And(PairSums(x) / 4, Threes(k)) + And(PairSums(x), Threes(k)) == NibbleSums(x)
  {
    if k > 0 {
      var h, l := Split16(x);
      Pow2Next4(k);
      NibbleStep(h, k - 1);
      NextNibble(h, l, Threes(k - 1));
    }
  }

  lemma NextNibble(h: nat, l: nat, t: nat)
    requires l < 16 && And(PairSums(h) / 4, t) + And(PairSums(h), t) == NibbleSums(h)
    ensures And(PairSums(16 * h + l) / 4, 16 * t + 3) + And(PairSums(16 * h + l), 16 * t + 3) == NibbleSums(16 * h + l)
  {
    var m, n := Split4(l);
    NibbleDigit(h, m, n, t);
    NibbleSumsDigit(h, l);
  }

  lemma Pow2Next4(k: nat)
    requires k > 0
    ensures Pow2(4 * k) == 16 * Pow2(4 * (k - 1))
  {
    PowAdded(4, 4 * (k - 1), 4 * k);
    Pow2Values();
  }

  lemma Pow2Next8(k: nat)
    requires k > 0
    ensures Pow2(8 * k) == 256 * Pow2(8 * (k - 1))
  {
    PowAdded(8, 8 * (k - 1), 8 * k);
    Pow2Values();
  }

  lemma PowAdded(a: nat, b: nat, c: nat)
    requires c == a + b
    ensures Pow2(c) == Pow2(a) * Pow2(b)
  {
    Pow2Add(a, b);
  }

  lemma PairSums16(h: nat, m: nat, l: nat)
    requires m < 4 && l < 4
    ensures PairSums(16 * h + (4 * m + l)) == 16 * PairSums(h) + (4 * PopCount(m) + PopCount(l))
    ensures PopCount(4 * m + l) == PopCount(m) + PopCount(l) && PopCount(m) <= 2 && PopCount(l) <= 2
  {
    assert 16 * h + (4 * m + l) == 4 * (4 * h + m) + l;
    PairDigit(4 * h + m, l);
    PairDigit(h, m);
    PopSplit4(m, l);
    PopPair(m);
  }

  lemma NibbleDigit(h: nat, m: nat, l: nat, t: nat)
    requires m < 4 && l < 4
    ensures var y, y' := PairSums(16 * h + (4 * m + l)), PairSums(h);
            And(y / 4, 16 * t + 3) + And(y, 16 * t + 3)
            == 16 * (And(y' / 4, t) + And(y', t)) + PopCount(4 * m + l)
  {
    PairSums16(h, m, l);
    MaskPairs(PairSums(h), PopCount(m), PopCount(l), t);
  }

  lemma MaskPairs(y: nat, p: nat, q: nat, t: nat)
    requires p <= 2 && q <= 2
    ensures And((16 * y + (4 * p + q)) / 4, 16 * t + 3) == 16 * And(y / 4, t) + p
    ensures And(16 * y + (4 * p + q), 16 * t + 3) == 16 * And(y, t) + q
  {
    AndNibble(y, 4 * p + q, t);
    Div4(4 * y + p, q);
    var h, l := Split4(y);
    Div4(h, l);
    assert 16 * y + (4 * p + q) == 4 * (4 * y + p) + q && 4 * y + p == 16 * h + (4 * l + p);
    AndNibble(h, 4 * l + p, t);
    Div4(l, p);
    Div4(p, q);
  }

  lemma AndNibble(a: nat, b: nat, m: nat)
    requires b < 16
    ensures And(16 * a + b, 16 * m + 3) == 16 * And(a, m) + b % 4
  {
    And16(a, b, m, 3);
    Pow2Values();
    AndOnes(b, 2);
    ShrIsDiv(b, 2);
  }

  /** Third line: (a + (a >> 4)) & 0x0F... */
  lemma {:induction false} ByteStep(x: nat, k: nat)
    requires x < Pow2(8 * k)
    ensures And(NibbleSums(x) + NibbleSums(x) / 16, Fifteens(k)) == ByteSums(x)
  {
    if k > 0 {
      var h, l := Split256(x);
      Pow2Next8(k);
      ByteStep(h, k - 1);
      NextByte(h, l, Fifteens(k - 1));
    }
  }

  lemma NextByte(h: nat, l: nat, t: nat)
    requires l < 256 && And(NibbleSums(h) + NibbleSums(h) / 16, t) == ByteSums(h)
    ensures And(NibbleSums(256 * h + l) + NibbleSums(256 * h + l) / 16, 256 * t + 15) == ByteSums(256 * h + l)
  {
    var m, n := Split16(l);
    ByteDigit(h, m, n, t);
    ByteSumsDigit(h, l);
  }

  lemma NibbleSums256(h: nat, m: nat, l: nat)
    requires m < 16 && l < 16
    ensures NibbleSums(256 * h + (16 * m + l)) == 256 * NibbleSums(h) + (16 * PopCount(m) + PopCount(l))
    ensures PopCount(16 * m + l) == PopCount(m) + PopCount(l) && PopCount(m) <= 4 && PopCount(l) <= 4
  {
    var hm := 16 * h + m;
    assert 256 * h + (16 * m + l) == 16 * hm + l;
    NibbleSumsDigit(hm, l);
    NibbleSumsDigit(h, m);
    PopSplit16(m, l);
    PopSplit16(h, m);
  }

  lemma NibbleSumsLow(h: nat)
    ensures NibbleSums(h) % 16 <= 4
  {
    var m, n := Split16(h);
    NibbleSumsDigit(m, n);
    PopSplit16(m, n);
    Div16(NibbleSums(m), PopCount(n));
  }

  /** Adding the shifted word never carries out of a nibble. */
  lemma ByteDigit(h: nat, m: nat, l: nat, t: nat)
    requires m < 16 && l < 16
    ensures var z, z' := NibbleSums(256 * h + (16 * m + l)), NibbleSums(h);
            And(z + z / 16, 256 * t + 15) == 256 * And(z' + z' / 16, t) + PopCount(16 * m + l)
  {
    NibbleSums256(h, m, l);
    NibbleSumsLow(h);
    MaskNibbles(NibbleSums(h), PopCount(m), PopCount(l), t);
  }

  lemma MaskNibbles(y: nat, p: nat, q: nat, t: nat)
    requires p <= 4 && q <= 4 && y % 16 <= 4
    ensures var z := 256 * y + (16 * p + q);
            And(z + z / 16, 256 * t + 15) == 256 * And(y + y / 16, t) + (p + q)
  {
    var z := 256 * y + (16 * p + q);
    var h, l := Split16(y);
    Div16(h, l);
    Div16(16 * y + p, q);
    assert z == 16 * (16 * y + p) + q;
    assert z + (16 * y + p) == 256 * (y + h) + (16 * (p + l) + (p + q));
    AndByte(y + h, p + l, p + q, t);
  }

  lemma AndByte(a: nat, c: nat, b: nat, m: nat)
    requires c < 16 && b < 16
    ensures And(256 * a + (16 * c + b), 256 * m + 15) == 256 * And(a, m) + b
  {
    And16(16 * a + c, b, 16 * m, 15);
    And16(a, c, m, 0);
    AndFifteen(b);
    AndZero(c);
  }

  lemma AndFifteen(b: nat)
    requires b < 16
    ensures And(b, 15) == b
  {
    Pow2Values();
    AndOnes(b, 4);
    LowSmall(b, 4);
  }

  lemma And16(a: nat, b: nat, m: nat, c: nat)
    requires b < 16 && c < 16
    ensures And(16 * a + b, 16 * m + c) == 16 * And(a, m) + And(b, c)
  {
    AndField(a, b, m, c, 4);
    ShlIsMul(a, 4);
    ShlIsMul(m, 4);
    ShlIsMul(And(a, m), 4);
    assert Pow2(4) == 16;
  }

  lemma AndField(a: nat, b: nat, m: nat, c: nat, k: nat)
    requires b < Pow2(k) && c < Pow2(k)
    ensures And(Shl(a, k) + b, Shl(m, k) + c) == Shl(And(a, m), k) + And(b, c)
  {
    SplitUnique(a, b, k);
    SplitUnique(m, c, k);
    AndSplit(Shl(a, k) + b, Shl(m, k) + c, k);
  }

  // ----- no line overflows

  lemma {:induction false} SumsBound(x: nat, k: nat)
    requires x < Pow2(8 * k)
    ensures 15 * NibbleSums(x) <= 4 * (Pow2(8 * k) - 1)
    ensures 255 * ByteSums(x) <= 8 * (Pow2(8 * k) - 1)
  {
    if k > 0 {
      var h, l := Split256(x);
      Pow2Next8(k);
      SumsBound(h, k - 1);
      NextSums(h, l);
    }
  }

  lemma NextSums(h: nat, l: nat)
    requires l < 256
    ensures NibbleSums(256 * h + l) <= 256 * NibbleSums(h) + 68 && ByteSums(256 * h + l) <= 256 * ByteSums(h) + 8
  {
    NextNibbleSum(h, l);
    ByteSumsDigit(h, l);
    PopSplit256(h, l);
  }

  lemma NextNibbleSum(h: nat, l: nat)
    requires l < 256
    ensures NibbleSums(256 * h + l) <= 256 * NibbleSums(h) + 68
  {
    var m, n := Split16(l);
    NibbleSums256(h, m, n);
  }

  lemma {:induction false} PairsBelow(x: nat)
    ensures PairSums(x) <= x
  {
    if x > 0 {
      PairsBelow(x / 4);
      PopPair(x % 4);
    }
  }

  // ----- folding the byte counts together

  /** The lowest byte's count split off. */
  lemma LowestByte(x: nat, n: nat) returns (h: nat, b: nat)
    requires x < 256 * n
    ensures h < n && b <= 8
    ensures ByteSums(x) == 256 * ByteSums(h) + b && PopCount(x) == PopCount(h) + b
  {
    var l;
    h, l := Split256(x);
    b := PopCount(l);
    PopSplit256(h, l);
    ByteSumsDigit(h, l);
  }

  lemma Bytes4(x: nat, n: nat) returns (h: nat, b0: nat, b1: nat, b2: nat, b3: nat)
    requires x < 0x1_0000_0000 * n
    ensures h < n && b0 <= 8 && b1 <= 8 && b2 <= 8 && b3 <= 8
    ensures ByteSums(x) == b0 + 0x100 * b1 + 0x1_0000 * b2 + 0x100_0000 * b3 + 0x1_0000_0000 * ByteSums(h)
    ensures PopCount(x) == PopCount(h) + (b0 + b1 + b2 + b3)
  {
    h, b0 := LowestByte(x, 0x100_0000 * n);
    h, b1 := LowestByte(h, 0x1_0000 * n);
    h, b2 := LowestByte(h, 0x100 * n);
    h, b3 := LowestByte(h, n);
  }

  /** Last two lines of the 32-bit count. */
  lemma Fold4(v: nat, b0: nat, b1: nat, b2: nat, b3: nat)
    requires b0 <= 8 && b1 <= 8 && b2 <= 8 && b3 <= 8
    requires v == b0 + 0x100 * b1 + 0x1_0000 * b2 + 0x100_0000 * b3
    ensures var w := v + v / 0x1_0000;
            w < B32 && w + w / 0x100 < B32 && (w + w / 0x100) % 64 == b0 + b1 + b2 + b3
  {
    var h := b2 + 0x100 * b3;
    DivUnique(v, 0x1_0000, h, b0 + 0x100 * b1);
    var w := v + h;
    var g := (b1 + b3) + 0x100 * h;
    DivUnique(w, 0x100, g, b0 + b2);
    DivUnique(w + g, 64, 4 * (g - (b1 + b3) + b2 + 0x100 * b3 + ((b1 + b3) - h)) + 4 * h, b0 + b1 + b2 + b3);
  }

  /** Last three lines of the 64-bit count. */
  lemma Fold8(v: nat, l0: nat, l1: nat, l2: nat, l3: nat, h0: nat, h1: nat, h2: nat, h3: nat)
    requires l0 <= 8 && l1 <= 8 && l2 <= 8 && l3 <= 8 && h0 <= 8 && h1 <= 8 && h2 <= 8 && h3 <= 8
    requires v == l0 + 0x100 * l1 + 0x1_0000 * l2 + 0x100_0000 * l3
                  + 0x1_0000_0000 * (h0 + 0x100 * h1 + 0x1_0000 * h2 + 0x100_0000 * h3)
    ensures var u := v + v / 0x1_0000_0000;
            var w := u + u / 0x1_0000;
            && u < B64 && w < B64 && w + w / 0x100 < B64
            && (w + w / 0x100) % 128 == (l0 + l1 + l2 + l3) + (h0 + h1 + h2 + h3)
  {
    var h := h0 + 0x100 * h1 + 0x1_0000 * h2 + 0x100_0000 * h3;
    DivUnique(v, 0x1_0000_0000, h, l0 + 0x100 * l1 + 0x1_0000 * l2 + 0x100_0000 * l3);
    FoldSums(v + h, l0 + h0, l1 + h1, l2 + h2, l3 + h3, h);
  }

  lemma FoldSums(u: nat, s0: nat, s1: nat, s2: nat, s3: nat, h: nat)
    requires s0 <= 16 && s1 <= 16 && s2 <= 16 && s3 <= 16 && h < 0x1000_0000
    requires u == (s0 + 0x100 * s1) + 0x1_0000 * (s2 + 0x100 * s3 + 0x1_0000 * h)
    ensures var w := u + u / 0x1_0000;
            && u < B64 && w < B64 && w + w / 0x100 < B64
            && (w + w / 0x100) % 128 == s0 + s1 + s2 + s3
  {
    var x := s2 + 0x100 * s3 + 0x1_0000 * h;
    DivUnique(u, 0x1_0000, x, s0 + 0x100 * s1);
    var w, r := u + x, h + x;
    DivUnique(w, 0x100, (s1 + s3) + 0x100 * r, s0 + s2);
    DivUnique(w + w / 0x100, 128, 2 * ((s1 + s3) + 0x100 * r + r), s0 + s2 + s1 + s3);
  }

  // ----- the two routines, w being the word size 2^32 or 2^64

  lemma ModSmall(x: nat, w: nat)
    requires x < w
    ensures x % w == x
  {
    DivUnique(x, w, 0, x);
  }

  lemma Line1(a: nat, k: nat, w: nat, m: nat)
    requires a < Pow2(8 * k) == w && m == Fives(4 * k)
    ensures (a - And(Shr(a, 1), m)) % w == PairSums(a)
  {
    assert Shr(a, 1) == Shr(a / 2, 0) == a / 2;
    assert 2 * (4 * k) == 8 * k;
    PairStep(a, 4 * k);
    PairsBelow(a);
    ModSmall(PairSums(a), w);
  }

  lemma Line2(a: nat, k: nat, w: nat, m: nat)
    requires a < Pow2(8 * k) == w && m == Threes(2 * k)
    ensures (And(Shr(PairSums(a), 2), m) + And(PairSums(a), m)) % w == NibbleSums(a)
  {
    ShrIsDiv(PairSums(a), 2);
    assert Pow2(2) == 4;
    assert 4 * (2 * k) == 8 * k;
    NibbleStep(a, 2 * k);
    SumsBound(a, k);
    ModSmall(NibbleSums(a), w);
  }

  lemma Line3(a: nat, k: nat, w: nat, m: nat)
    requires a < Pow2(8 * k) == w && m == Fifteens(k)
    ensures And((NibbleSums(a) + Shr(NibbleSums(a), 4)) % w, m) == ByteSums(a)
  {
    var n := NibbleSums(a);
    ShrIsDiv(n, 4);
    assert Pow2(4) == 16;
    ByteStep(a, k);
    SumsBound(a, k);
    ModSmall(n + n / 16, w);
  }

  lemma Masks()
    ensures Fives(16) == 0x5555_5555 && Threes(8) == 0x3333_3333 && Fifteens(4) == 0x0f0f_0f0f
    ensures Fives(32) == 0x5555_5555_5555_5555 && Threes(16) == 0x3333_3333_3333_3333
    ensures Fifteens(8) == 0x0f0f_0f0f_0f0f_0f0f
    ensures Pow2(32) == B32 && Pow2(64) == B64 
  {
    Pow2Values();
    assert Fives(4) == 0x55 && Fives(8) == 0x5555;
    assert Fives(12) == 0x55_5555;
    assert Fives(16) == 0x5555_5555;
    assert Fives(20) == 0x55_5555_5555;
    assert Fives(24) == 0x5555_5555_5555;
    assert Fives(28) == 0x55_5555_5555_5555;
    assert Threes(4) == 0x3333 && Threes(8) == 0x3333_3333;
    assert Threes(12) == 0x3333_3333_3333;
    assert Fifteens(4) == 0x0f0f_0f0f;
  }

  /** One line `a = a + (a >> n);` that does not overflow. */
  lemma FoldLine(x: nat, n: nat, d: nat, e: nat, w: nat)
    requires d == Pow2(n) && e == x / d && x + e < w
    ensures Shr(x, n) == e && (x + e) % w == x + e
  {
    ShrIsDiv(x, n);
    ModSmall(x + e, w);
  }

  lemma FoldConstants()
    ensures Pow2(7) == 128 && Pow2(8) == 0x100 && Pow2(16) == 0x1_0000 && Pow2(32) == 0x1_0000_0000
  {
    Pow2Values();
  }

  lemma LowBits(x: nat, k: nat, m: nat)
    requires m == Pow2(k)
    ensures And(x, m - 1) == x % m
  {
    AndOnes(x, k);
    ShrIsDiv(x, k);
  }

  /** The word after the third line is v; the folds add up its four bytes. */
  lemma Fold32(a: u32, v: nat) returns (e: nat, f: nat)
    requires v == ByteSums(a)
    ensures e == v / 0x1_0000 && v + e < B32
    ensures f == (v + e) / 0x100 && v + e + f < B32
    ensures (v + e + f) % 64 == PopCount(a)
  {
    var h, b0, b1, b2, b3 := Bytes4(a, 1);
    Fold4(v, b0, b1, b2, b3);
    e := v / 0x1_0000;
    f := (v + e) / 0x100;
  }

  // The three lines with the constants of the 32-bit and the 64-bit routine.

  lemma Pairs32(a: u32)
    ensures U32(a - And(Shr(a, 1), 0x5555_5555)) == PairSums(a)
  {
    Masks();
    Line1(a, 4, B32, 0x5555_5555);
  }

  lemma Nibbles32(a: u32)
    ensures U32(And(Shr(PairSums(a), 2), 0x3333_3333) + And(PairSums(a), 0x3333_3333)) == NibbleSums(a)
  {
    Masks();
    Line2(a, 4, B32, 0x3333_3333);
  }

  lemma Bytes32(a: u32)
    ensures And(U32(NibbleSums(a) + Shr(NibbleSums(a), 4)), 0x0F0F_0F0F) == ByteSums(a)
  {
    Masks();
    Line3(a, 4, B32, 0x0F0F_0F0F);
  }

  lemma Pairs64(a: u64)
    ensures U64(a - And(Shr(a, 1), 0x5555_5555_5555_5555)) == PairSums(a)
  {
    Masks();
    Line1(a, 8, B64, 0x5555_5555_5555_5555);
  }

  lemma Nibbles64(a: u64)
    ensures U64(And(Shr(PairSums(a), 2), 0x3333_3333_3333_3333) + And(PairSums(a), 0x3333_3333_3333_3333))
         == NibbleSums(a)
  {
    Masks();
    Line2(a, 8, B64, 0x3333_3333_3333_3333);
  }

  lemma Bytes64(a: u64)
    ensures And(U64(NibbleSums(a) + Shr(NibbleSums(a), 4)), 0x0F0F_0F0F_0F0F_0F0F) == ByteSums(a)
  {
    Masks();
    Line3(a, 8, B64, 0x0F0F_0F0F_0F0F_0F0F);
  }

  method PopCountSi2(a0: u32) returns (r: nat)
    ensures r == PopCount(a0)
  {
    var a := U32(a0 - And(Shr(a0, 1), 0x5555_5555));
    assert a == PairSums(a0) by { Pairs32(a0); }
    a := U32(And(Shr(a, 2), 0x3333_3333) + And(a, 0x3333_3333));
    assert a == NibbleSums(a0) by { Nibbles32(a0); }
    a := And32(U32(a + Shr(a, 4)), 0x0F0F_0F0F);
    assert a == ByteSums(a0) by { Bytes32(a0); }
    r := FoldBytes32(a, a0);
  }

  /** Adds the four bytes of a word into one and returns its low six bits. */
  method FoldBytes32(v: u32, ghost a0: u32) returns (r: nat)
    requires v == ByteSums(a0)
    ensures r == PopCount(a0)
  {
    Pow2Values();
    ghost var e, f := Fold32(a0, v);
    FoldLine(v, 16, 0x1_0000, e, B32);
    FoldLine(v + e, 8, 0x100, f, B32);
    LowBits(v + e + f, 6, 64);
    var a := U32(v + Shr(v, 16));
    r := And(U32(a + Shr(a, 8)), 63);
  }

  lemma Fold64(a: u64, v: nat) returns (e: nat, f: nat, g: nat)
    requires v == ByteSums(a)
    ensures e == v / 0x1_0000_0000 && v + e < B64
    ensures f == (v + e) / 0x1_0000 && v + e + f < B64
    ensures g == (v + e + f) / 0x100 && v + e + f + g < B64
    ensures (v + e + f + g) % 128 == PopCount(a)
  {
    var h, l0, l1, l2, l3 := Bytes4(a, B32);
    var z, h0, h1, h2, h3 := Bytes4(h, 1);
    assert z == 0;
    Fold8(v, l0, l1, l2, l3, h0, h1, h2, h3);
    e := v / 0x1_0000_0000;
    f := (v + e) / 0x1_0000;
    g := (v + e + f) / 0x100;
  }

  method PopCountDi2(a0: u64) returns (r: nat)
    ensures r == PopCount(a0)
  {
    var a := U64(a0 - And(Shr(a0, 1), 0x5555_5555_5555_5555));
    assert a == PairSums(a0) by { Pairs64(a0); }
    a := U64(And(Shr(a, 2), 0x3333_3333_3333_3333) + And(a, 0x3333_3333_3333_3333));
    assert a == NibbleSums(a0) by { Nibbles64(a0); }
    a := And64(U64(a + Shr(a, 4)), 0x0F0F_0F0F_0F0F_0F0F);
    assert a == ByteSums(a0) by { Bytes64(a0); }
    r := FoldBytes64(a, a0);
  }

  lemma Fold64Lines(v: nat, e: nat, f: nat, g: nat)
    requires e == v / 0x1_0000_0000 && v + e < B64
    requires f == (v + e) / 0x1_0000 && v + e + f < B64
    requires g == (v + e + f) / 0x100 && v + e + f + g < B64
    ensures U64(v + Shr(v, 32)) == v + e && U64(v + e + Shr(v + e, 16)) == v + e + f
    ensures U64(v + e + f + Shr(v + e + f, 8)) == v + e + f + g
  {
    FoldConstants();
    FoldLine(v, 32, 0x1_0000_0000, e, B64);
    FoldLine(v + e, 16, 0x1_0000, f, B64);
    FoldLine(v + e + f, 8, 0x100, g, B64);
  }

  lemma Folded64(a: u64, v: nat) returns (e: nat, f: nat, g: nat)
    requires v == ByteSums(a)
    ensures U64(v + Shr(v, 32)) == v + e && U64(v + e + Shr(v + e, 16)) == v + e + f
    ensures U64(v + e + f + Shr(v + e + f, 8)) == v + e + f + g
    ensures (v + e + f + g) % 128 == PopCount(a)
  {
    e, f, g := Fold64(a, v);
    Fold64Lines(v, e, f, g);
  }

  /** Adds the eight bytes of a word into one and returns its low seven bits. */
  method FoldBytes64(v: u64, ghost a0: u64) returns (r: nat)
    requires v == ByteSums(a0)
    ensures r == PopCount(a0)
  {
    ghost var e, f, g := Folded64(a0, v);
    var a := U64(v + Shr(v, 32));
    a := U64(a + Shr(a, 16));
    a := U64(a + Shr(a, 8));
    r := And(a, 127);
    assert r == a % 128 by { FoldConstants(); LowBits(a, 7, 128); }
  }
}
