/** The bootloader's checks and copy loop as the code runs them, on a flash that may fail. */
module BootCopy {
  import opened NorFlash
  import opened Crc32
  import opened BootInstall

  /** Nothing outside [lo, hi) differs. */
  ghost predicate SameOutside(m0: Mem, m: Mem, lo: nat, hi: nat) {
    |m| == |m0| && forall i :: 0 <= i < |m0| && !(lo <= i < hi) ==> m[i] == m0[i]
  }

  /** The first i bytes of the image stand in the application region and nothing outside that
      region has changed. */
  ghost predicate Copied(l: Layout, m0: Mem, m: Mem, i: nat) {
    && l.load + l.max <= l.image && l.image + l.max <= |m0| && i <= l.max
    && SameOutside(m0, m, l.load, l.load + l.max)
    && m[l.load..l.load + i] == m0[l.image..l.image + i]
  }

  /** An operation at offset i keeps what was copied before, whatever the flash does inside the
      range it addresses. */
  lemma CopyFrame(l: Layout, m0: Mem, m: Mem, i: nat, op: Op, m': Mem)
    requires Copied(l, m0, m, i) && Torn(m, op, m')
    requires op.addr == l.load + i
    requires if op.Erase? then op.addr % SECTOR == 0 && i + SECTOR <= l.max else i + |op.data| <= l.max
    ensures Copied(l, m0, m', i)
  {
    TornFrame(m, op, m');
    assert op.Erase? ==> SectorOf(op.addr) == op.addr;
    assert forall k :: 0 <= k < |m| && !(l.load + i <= k < l.load + l.max) ==> !Touches(op, k);
    forall k | l.load <= k < l.load + i ensures m'[k] == m0[l.image..l.image + i][k - l.load] {
      assert m'[k] == m[k] == m[l.load..l.load + i][k - l.load];
    }
  }

  /** A page that reads back equal extends the copy. */
  lemma CopyVerified(l: Layout, m0: Mem, m: Mem, i: nat)
    requires Copied(l, m0, m, i) && i + PAGE <= l.max
    requires m[l.load + i..l.load + i + PAGE] == Page(l, m0, i)
    ensures Copied(l, m0, m, i + PAGE)
  {
    assert m[l.load..l.load + i + PAGE] == m[l.load..l.load + i] + m[l.load + i..l.load + i + PAGE];
    assert m0[l.image..l.image + i + PAGE] == m0[l.image..l.image + i] + Page(l, m0, i);
  }

  // ----- on a flash that does not fail

  /** The sector and page of a whole number of pages: 16 pages make a sector. */
  lemma PageOf(i: nat) returns (k: nat, j: nat)
    requires i % PAGE == 0
    ensures i == SECTOR * k + PAGE * j && j < 16 && SectorOf(i) == SECTOR * k && i % SECTOR == PAGE * j
  {
    var p := i / PAGE;
    k, j := p / 16, p % 16;
    ModuloIs(i, k, PAGE * j);
  }

  lemma ModuloIs(i: nat, k: nat, r: nat)
    requires i == SECTOR * k + r && r < SECTOR
    ensures i % SECTOR == r
  {
  }

  lemma SameSector(i: nat)
    requires i % PAGE == 0 && i % SECTOR != 0
    ensures i >= PAGE && (i - PAGE) % PAGE == 0 && SectorOf(i - PAGE) == SectorOf(i)
  {
    var k, j := PageOf(i);
    ModuloIs(i - PAGE, k, PAGE * (j - 1));
    PageBack(i);
  }

  lemma PageBack(i: nat)
    requires i % PAGE == 0 && i > 0
    ensures i >= PAGE && (i - PAGE) % PAGE == 0
  {
  }

  lemma PageInSector(i: nat)
    requires i % PAGE == 0
    ensures i + PAGE <= SectorOf(i) + SECTOR
  {
    var k, j := PageOf(i);
  }

  /** What lies behind a write stays erased. */
  lemma ErasedBehind(mem: Mem, a: nat, data: seq<byte>, hi: nat)
    requires IsErased(mem, a, hi)
    ensures IsErased(Program(mem, a, data), a + |data|, hi)
  {
  }

  lemma ReadyAt(l: Layout, mem: Mem, j: nat)
    requires j % PAGE == 0 && l.image + j <= |mem|
    ensures ReadyOps(l, mem, j)
         == if j % SECTOR == 0 then CopyOps(l, mem, j) + [Erase(l.load + j)] else CopyOps(l, mem, j)
  {
  }

  /** Every page is written on erased flash. */
  lemma {:induction false} CopyAhead(l: Layout, mem: Mem, i: nat)
    requires l.load % SECTOR == 0 && i % PAGE == 0 && l.image + i <= |mem|
    requires l.load + SectorOf(i) + SECTOR <= |mem|
    ensures IsErased(RunOps(mem, ReadyOps(l, mem, i)), l.load + i, l.load + SectorOf(i) + SECTOR)
  {
    if i % SECTOR == 0 {
      Aligned(l.load, i);
      FreshlyErased(mem, CopyOps(l, mem, i), l.load + i);
    } else {
      SameSector(i);
      CopyAhead(l, mem, i - PAGE);
      ReadyAt(l, mem, i);
      CopyLast(l, mem, i, i - PAGE);
      WrittenAhead(l, mem, i - PAGE, ReadyOps(l, mem, i - PAGE), l.load + SectorOf(i) + SECTOR);
    }
  }

  lemma WrittenAhead(l: Layout, mem: Mem, j: nat, ops: seq<Op>, hi: nat)
    requires l.image + j + PAGE <= |mem| && IsErased(RunOps(mem, ops), l.load + j, hi)
    ensures IsErased(RunOps(mem, ops + [Write(l.load + j, Page(l, mem, j))]), l.load + j + PAGE, hi)
  {
    RunOpsNext(mem, ops, Write(l.load + j, Page(l, mem, j)));
    ErasedBehind(RunOps(mem, ops), l.load + j, Page(l, mem, j), hi);
  }

  lemma FreshlyErased(mem: Mem, ops: seq<Op>, a: nat)
    requires a % SECTOR == 0 && a + SECTOR <= |mem|
    ensures IsErased(RunOps(mem, ops + [Erase(a)]), a, a + SECTOR)
  {
    RunOpsNext(mem, ops, Erase(a));
    assert SectorOf(a) == a;
  }

  /** So the page reads back as written. */
  lemma PageReadsBack(l: Layout, mem: Mem, i: nat)
    requires l.load % SECTOR == 0 && i % PAGE == 0 && l.image + i + PAGE <= |mem|
    requires l.load + SectorOf(i) + SECTOR <= |mem|
    ensures RunOps(mem, CopyOps(l, mem, i + PAGE))[l.load + i..l.load + i + PAGE] == Page(l, mem, i)
  {
    CopyAhead(l, mem, i);
    PageInSector(i);
    var ready := RunOps(mem, ReadyOps(l, mem, i));
    RunOpsNext(mem, ReadyOps(l, mem, i), Write(l.load + i, Page(l, mem, i)));
    ProgramErased(ready, l.load + i, Page(l, mem, i));
  }

  /** What has been done so far on a flash that does not fail: exactly the operations planned. */
  ghost predicate OnPlan(flash: Flash, mem: Mem, before: seq<Step>, ops: seq<Op>)
    reads flash
  {
    !flash.faulty ==> flash.mem == RunOps(mem, ops) && flash.trace == before + Steps(mem, ops)
  }

  // ----- the code

  method IsValidFw(flash: Flash, addr: nat) returns (ok: bool)
    requires addr + FLAG_OFFSET + 4 <= |flash.mem|
    ensures ok <==> HasFlag(flash.mem, addr)
  {
    var flag := flash.Read(addr + FLAG_OFFSET, 4);
    ok := flag == STARTUP;
  }

  /** The size test and the checksum. */
  method CheckImage(flash: Flash, image: nat, max: nat, step: Table, fwSize: nat) returns (ok: bool)
    requires 4 <= image && image + max <= |flash.mem|
    ensures ok <==> fwSize <= max && SumsUp(flash.mem, image, fwSize, step)
    ensures ok <==> ImageOk(flash.mem, image, fwSize, max, step)
  {
    OkExactly(flash.mem, image, fwSize, max, step);
    ok := false;
    if fwSize <= max {
      var tail := flash.Read(image + fwSize - 4, 4);
      var curCrc := CrcOf(flash, step, image, fwSize - 4);
      ok := curCrc == Word(tail);
    }
  }

  lemma Chunks(mem: Mem, a: nat, done: nat, w: nat)
    requires a + done + w <= |mem|
    ensures mem[a..a + done] + mem[a + done..a + done + w] == mem[a..a + done + w]
    ensures done == 0 ==> mem[a..a + done] == []
  {
  }

  /** The checksum loop, 256 bytes at a time; a negative length runs no pass. */
  method CrcOf(flash: Flash, step: Table, addr: nat, len: int) returns (crc: nat)
    requires addr + len <= |flash.mem|
    ensures crc == Crc(step, INIT, if len < 0 then [] else flash.mem[addr..addr + len])
  {
    var totalLen, done: nat := len, 0;
    crc := INIT;
    while totalLen > 0
      invariant totalLen == len - done && (totalLen >= 0 || done == 0)
      invariant addr + done <= |flash.mem| || done == 0
      invariant crc == Crc(step, INIT, if done == 0 then [] else flash.mem[addr..addr + done])
    {
      var wLen: nat := if totalLen > 256 then 256 else totalLen;
      var buf := flash.Read(addr + done, wLen);
      Chunks(flash.mem, addr, done, wLen);
      CrcAppend(step, INIT, flash.mem[addr..addr + done], buf);
      crc := Xcrc32(step, buf, crc);
      totalLen, done := totalLen - wLen, done + wLen;
    }
  }

  lemma PageFits(i: nat, size: nat, max: nat)
    requires i % PAGE == 0 && i < size <= max && max % SECTOR == 0
    ensures i + PAGE <= max && SectorOf(i) + SECTOR <= max && i + PAGE <= Extent(size) && (i + PAGE) % PAGE == 0
  {
    var k, j := PageOf(i);
    WholeSectors(k, i, max);
    NextMultiple(i, Extent(size));
  }

  lemma WholeSectors(k: nat, i: nat, max: nat)
    requires SECTOR * k <= i < max && max % SECTOR == 0
    ensures SECTOR * k + SECTOR <= max
  {
  }

  lemma NextMultiple(i: nat, e: nat)
    requires i % PAGE == 0 && e % PAGE == 0 && i < e
    ensures i + PAGE <= e && (i + PAGE) % PAGE == 0
  {
  }

  lemma LastPage(i: nat, size: nat)
    requires i % PAGE == 0 && size <= i <= Extent(size)
    ensures i == Extent(size)
  {
  }

  /** The copy loop with its read-back; false when a page came out wrong. */
  method CopyImage(l: Layout, flash: Flash, fwSize: nat) returns (ok: bool)
    requires fwSize <= l.max && l.max % SECTOR == 0 && l.load % SECTOR == 0
    requires l.load + l.max <= l.image && l.image + l.max <= |flash.mem|
    modifies flash
    ensures SameOutside(old(flash.mem), flash.mem, l.load, l.load + l.max)
    ensures ok ==> Copied(l, old(flash.mem), flash.mem, Extent(fwSize))
    ensures !flash.faulty ==> ok
    ensures Extent(fwSize) <= l.max
    ensures OnPlan(flash, old(flash.mem), old(flash.trace), CopyOps(l, old(flash.mem), Extent(fwSize)))
  {
    ghost var m0, t0 := flash.mem, flash.trace;
    ExtentFits(fwSize, l.max);
    var i := 0;
    while i < fwSize
      invariant i % PAGE == 0 && i <= Extent(fwSize)
      invariant Copied(l, m0, flash.mem, i)
      invariant OnPlan(flash, m0, t0, CopyOps(l, m0, i))
    {
      PageFits(i, fwSize, l.max);
      ok := CopyPage(l, flash, i, m0, t0);
      if !ok { return; }
      i := i + 256;
    }
    LastPage(i, fwSize);
    ok := true;
  }

  /** One pass of the copy loop. */
  method CopyPage(l: Layout, flash: Flash, i: nat, ghost m0: Mem, ghost t0: seq<Step>) returns (ok: bool)
    requires Copied(l, m0, flash.mem, i) && i % PAGE == 0 && l.load % SECTOR == 0
    requires i + PAGE <= l.max && SectorOf(i) + SECTOR <= l.max
    requires OnPlan(flash, m0, t0, CopyOps(l, m0, i))
    modifies flash
    ensures SameOutside(m0, flash.mem, l.load, l.load + l.max)
    ensures ok ==> Copied(l, m0, flash.mem, i + PAGE)
    ensures OnPlan(flash, m0, t0, CopyOps(l, m0, i + PAGE)) && (!flash.faulty ==> ok)
  {
    EraseAhead(l, flash, i, m0, t0);
    ok := WriteAndCheck(l, flash, i, m0, t0);
  }

  /** A sector is erased when its first page comes up. */
  method EraseAhead(l: Layout, flash: Flash, i: nat, ghost m0: Mem, ghost t0: seq<Step>)
    requires Copied(l, m0, flash.mem, i) && i % PAGE == 0 && l.load % SECTOR == 0
    requires SectorOf(i) + SECTOR <= l.max
    requires OnPlan(flash, m0, t0, CopyOps(l, m0, i))
    modifies flash
    ensures Copied(l, m0, flash.mem, i) && OnPlan(flash, m0, t0, ReadyOps(l, m0, i))
  {
    ReadyAt(l, m0, i);
    if i % SECTOR == 0 {
      Aligned(l.load, i);
      EraseAt(l, flash, i, m0, t0, CopyOps(l, m0, i));
    }
  }

  method EraseAt(l: Layout, flash: Flash, i: nat, ghost m0: Mem, ghost t0: seq<Step>, ghost ops: seq<Op>)
    requires Copied(l, m0, flash.mem, i) && (l.load + i) % SECTOR == 0 && i + SECTOR <= l.max
    requires OnPlan(flash, m0, t0, ops)
    modifies flash
    ensures Copied(l, m0, flash.mem, i) && OnPlan(flash, m0, t0, ops + [Erase(l.load + i)])
  {
    ghost var m := flash.mem;
    flash.Erase(l.load + i);
    CopyFrame(l, m0, m, i, Erase(l.load + i), flash.mem);
    RunOpsNext(m0, ops, Erase(l.load + i));
  }

  lemma Aligned(load: nat, i: nat)
    requires load % SECTOR == 0 && i % SECTOR == 0
    ensures (load + i) % SECTOR == 0 && SectorOf(i) == i
  {
  }

  lemma CopyNext(l: Layout, mem: Mem, i: nat)
    requires i % PAGE == 0 && l.image + i + PAGE <= |mem|
    ensures (i + PAGE) % PAGE == 0
    ensures CopyOps(l, mem, i + PAGE) == ReadyOps(l, mem, i) + [Write(l.load + i, Page(l, mem, i))]
  {
    NextPage(i);
    CopyLast(l, mem, i + PAGE, i);
  }

  lemma NextPage(i: nat)
    requires i % PAGE == 0
    ensures (i + PAGE) % PAGE == 0
  {
  }

  lemma CopyLast(l: Layout, mem: Mem, n: nat, i: nat)
    requires n % PAGE == 0 && i % PAGE == 0 && n == i + PAGE && l.image + n <= |mem|
    ensures CopyOps(l, mem, n) == ReadyOps(l, mem, i) + [Write(l.load + i, Page(l, mem, i))]
  {
    assert n - PAGE == i && l.load + n - PAGE == l.load + i;
  }

  /** Read a page of the image, write it, read it back. */
  method WriteAndCheck(l: Layout, flash: Flash, i: nat, ghost m0: Mem, ghost t0: seq<Step>) returns (ok: bool)
    requires Copied(l, m0, flash.mem, i) && i % PAGE == 0 && l.load % SECTOR == 0
    requires i + PAGE <= l.max && SectorOf(i) + SECTOR <= l.max
    requires OnPlan(flash, m0, t0, ReadyOps(l, m0, i))
    modifies flash
    ensures SameOutside(m0, flash.mem, l.load, l.load + l.max)
    ensures ok ==> Copied(l, m0, flash.mem, i + PAGE)
    ensures OnPlan(flash, m0, t0, CopyOps(l, m0, i + PAGE)) && (!flash.faulty ==> ok)
  {
    PageReadsBack(l, m0, i);
    CopyNext(l, m0, i);
    ok := WriteThrough(l, flash, i, m0, t0, ReadyOps(l, m0, i));
  }

  method WriteThrough(l: Layout, flash: Flash, i: nat, ghost m0: Mem, ghost t0: seq<Step>,
                      ghost ops: seq<Op>) returns (ok: bool)
    requires Copied(l, m0, flash.mem, i) && i + PAGE <= l.max && OnPlan(flash, m0, t0, ops)
    requires RunOps(m0, ops + [Write(l.load + i, Page(l, m0, i))])[l.load + i..l.load + i + PAGE] == Page(l, m0, i)
    modifies flash
    ensures SameOutside(m0, flash.mem, l.load, l.load + l.max)
    ensures ok ==> Copied(l, m0, flash.mem, i + PAGE)
    ensures OnPlan(flash, m0, t0, ops + [Write(l.load + i, Page(l, m0, i))]) && (!flash.faulty ==> ok)
  {
    var buf := flash.Read(l.image + i, 256);
    assert buf == Page(l, m0, i);
    SendPage(l, flash, i, buf, m0, t0, ops);
    var readBuf := flash.Read(l.load + i, 256);
    ok := readBuf == buf;
    if ok { CopyVerified(l, m0, flash.mem, i); }
  }

  method SendPage(l: Layout, flash: Flash, i: nat, buf: seq<byte>, ghost m0: Mem, ghost t0: seq<Step>,
                  ghost ops: seq<Op>)
    requires Copied(l, m0, flash.mem, i) && i + |buf| <= l.max && OnPlan(flash, m0, t0, ops)
    modifies flash
    ensures Copied(l, m0, flash.mem, i) && OnPlan(flash, m0, t0, ops + [Write(l.load + i, buf)])
  {
    ghost var m := flash.mem;
    RunOpsNext(m0, ops, Write(l.load + i, buf));
    var sent := flash.WritePage(l.load + i, buf);
    if flash.faulty {
      CopyFrame(l, m0, m, i, Write(l.load + i, buf[..sent]), flash.mem);
    } else {
      CopyFrame(l, m0, m, i, Write(l.load + i, buf), flash.mem);
    }
  }

  /** Launch ends in REBOOT(), Reset in SYSTEM_RESET() after a failed read-back; NoApp sets noAppFlg. */
  datatype Outcome = Launch | NoApp | Reset

  /** Addresses of sectors that fit in the chip are not reduced. */
  lemma NotReduced(image: nat, i: nat, n: nat, size: nat)
    requires i < n && image + n * SECTOR <= size && image % SECTOR == 0
    ensures image + i * SECTOR + SECTOR <= size && (image + i * SECTOR) % SECTOR == 0
    ensures Decoded(image + i * SECTOR, size) == image + i * SECTOR
  {
  }

  lemma OutsideErase(m0: Mem, m: Mem, a: nat, m': Mem, lo: nat)
    requires SameOutside(m0, m, lo, |m0|) && Torn(m, Erase(a), m')
    requires a % SECTOR == 0 && lo <= a && a + SECTOR <= |m0|
    ensures SameOutside(m0, m', lo, |m0|)
  {
    TornFrame(m, Erase(a), m');
    assert SectorOf(a) == a;
  }

  /** Erasing the image, sector by sector. */
  method EraseImage(l: Layout, flash: Flash, n: nat, ghost m0: Mem, ghost t0: seq<Step>, ghost ops: seq<Op>)
    requires |flash.mem| == |m0| > 0 && OnPlan(flash, m0, t0, ops)
    modifies flash
    ensures |flash.mem| == |m0| && OnPlan(flash, m0, t0, ops + EraseOps(l, |m0|, n))
    ensures l.image % SECTOR == 0 && l.image + n * SECTOR <= |m0| ==>
              SameOutside(old(flash.mem), flash.mem, l.image, |m0|)
  {
    assert ops + [] == ops;
    ghost var inside := l.image % SECTOR == 0 && l.image + n * SECTOR <= |m0|;
    var i := 0;
    while i < n
      invariant 0 <= i <= n && |flash.mem| == |m0|
      invariant OnPlan(flash, m0, t0, ops + EraseOps(l, |m0|, i))
      invariant inside ==> SameOutside(old(flash.mem), flash.mem, l.image, |m0|)
    {
      ErasePass(l, flash, i, n, inside, m0, old(flash.mem), t0, ops);
      i := i + 1;
    }
  }

  /** One pass of the erase loop. */
  method ErasePass(l: Layout, flash: Flash, i: nat, ghost n: nat, ghost inside: bool, ghost m0: Mem, ghost start: Mem,
                   ghost t0: seq<Step>, ghost ops: seq<Op>)
    requires |flash.mem| == |m0| == |start| > 0 && i < n && OnPlan(flash, m0, t0, ops + EraseOps(l, |m0|, i))
    requires inside ==> l.image % SECTOR == 0 && l.image + n * SECTOR <= |m0|
                        && SameOutside(start, flash.mem, l.image, |m0|)
    modifies flash
    ensures |flash.mem| == |m0| && OnPlan(flash, m0, t0, ops + EraseOps(l, |m0|, i + 1))
    ensures inside ==> SameOutside(start, flash.mem, l.image, |m0|)
  {
    var a := Decoded(l.image + i * SECTOR, |flash.mem|);
    ErasePlan(l, m0, ops, i, a);
    if inside { NotReduced(l.image, i, n, |m0|); }
    EraseOne(flash, a, inside, l.image, m0, start, t0, ops + EraseOps(l, |m0|, i));
  }

  lemma ErasePlan(l: Layout, m0: Mem, ops: seq<Op>, i: nat, a: nat)
    requires |m0| > 0 && a == Decoded(l.image + i * SECTOR, |m0|)
    ensures ops + EraseOps(l, |m0|, i + 1) == ops + EraseOps(l, |m0|, i) + [Erase(a)]
  {
  }

  /** One erase. */
  method EraseOne(flash: Flash, a: nat, ghost inside: bool, ghost lo: nat, ghost m0: Mem, ghost start: Mem,
                  ghost t0: seq<Step>, ghost ops: seq<Op>)
    requires |flash.mem| == |m0| == |start| && OnPlan(flash, m0, t0, ops)
    requires inside ==> SameOutside(start, flash.mem, lo, |m0|) && a % SECTOR == 0 && lo <= a && a + SECTOR <= |m0|
    modifies flash
    ensures |flash.mem| == |m0| && OnPlan(flash, m0, t0, ops + [Erase(a)])
    ensures inside ==> SameOutside(start, flash.mem, lo, |m0|)
  {
    ghost var m := flash.mem;
    RunOpsNext(m0, ops, Erase(a));
    flash.Erase(a);
    if inside { OutsideErase(start, m, a, flash.mem, lo); }
  }

  /** The application region starts with the first n bytes the image had. */
  ghost predicate InPlace(l: Layout, m0: Mem, m: Mem, n: nat) {
    && l.load + n <= |m| && l.image + n <= |m0| && n <= l.max
    && m[l.load..l.load + n] == m0[l.image..l.image + n]
  }

  lemma StaysInPlace(l: Layout, m0: Mem, m1: Mem, m: Mem, n: nat)
    requires InPlace(l, m0, m1, n) && l.load + l.max <= l.image && |m1| == |m0| && SameOutside(m1, m, l.image, |m0|)
    ensures InPlace(l, m0, m, n)
  {
    assert m[l.load..l.load + n] == m1[l.load..l.load + n];
  }

  /** After the copy, or instead of it: the flag cleared and the image erased. */
  method Retire(l: Layout, flash: Flash, fwSize: nat, ghost m0: Mem, ghost t0: seq<Step>, ghost ops: seq<Op>)
    requires |flash.mem| == |m0| && OnPlan(flash, m0, t0, ops) && Fits(l, m0)
    modifies flash
    ensures |flash.mem| == |m0| && OnPlan(flash, m0, t0, ops + RetireOps(l, m0, Sectors(fwSize)))
    ensures fwSize <= l.max ==> SameOutside(old(flash.mem), flash.mem, l.image, |m0|)
  {
    ghost var m, flag := flash.mem, Write(l.image + FLAG_OFFSET, [0]);
    RunOpsNext(m0, ops, flag);
    var sent := flash.WritePage(l.image + FLAG_OFFSET, [0]);
    TornFrame(m, Write(l.image + FLAG_OFFSET, [0][..sent]), flash.mem);
    ghost var m1 := flash.mem;
    assert SameOutside(m, m1, l.image, |m0|);
    var n := ((fwSize + 4095) % 0x1_0000_0000) / 4096;
    if fwSize <= l.max { SectorsFit(fwSize, l.max); }
    EraseImage(l, flash, n, m0, t0, ops + [flag]);
    assert ops + [flag] + EraseOps(l, |m0|, n) == ops + RetireOps(l, m0, n);
  }

  lemma SectorsFit(size: nat, max: nat)
    requires size <= max && max % SECTOR == 0
    ensures Sectors(size) * SECTOR <= max
  {
  }

  /** Install or reject, then retire; true when a page read back wrong and the chip is reset. */
  method InstallImage(l: Layout, flash: Flash, fwSize: nat, valid: bool) returns (reset: bool)
    requires Fits(l, flash.mem) && (valid ==> fwSize <= l.max)
    modifies flash
    ensures |flash.mem| == |old(flash.mem)|
    ensures valid && !reset ==> InPlace(l, old(flash.mem), flash.mem, Extent(fwSize))
    ensures reset ==> SameOutside(old(flash.mem), flash.mem, l.load, l.load + l.max)
    ensures !flash.faulty ==> !reset
    ensures OnPlan(flash, old(flash.mem), old(flash.trace), InstallOps(l, old(flash.mem), fwSize, valid))
  {
    ghost var m0, t0 := flash.mem, flash.trace;
    ghost var ops: seq<Op> := [];
    reset := false;
    if valid {
      var same := CopyImage(l, flash, fwSize);
      if !same { return true; }
      ops := CopyOps(l, m0, Extent(fwSize));
    }
    ghost var m1 := flash.mem;
    Retire(l, flash, fwSize, m0, t0, ops);
    if valid { StaysInPlace(l, m0, m1, flash.mem, Extent(fwSize)); }
    assert [] + RetireOps(l, m0, Sectors(fwSize)) == RetireOps(l, m0, Sectors(fwSize));
  }

  /** The word at SIZE_OFFSET in the first 256 bytes read from the image. */
  method ReadSize(l: Layout, flash: Flash) returns (n: nat)
    requires Fits(l, flash.mem)
    ensures n == FwSize(l, flash.mem)
  {
    var buf := flash.Read(l.image, 256);
    SubSlice(flash.mem, l.image, l.image + 256, SIZE_OFFSET, SIZE_OFFSET + 4);
    n := Word(buf[SIZE_OFFSET..SIZE_OFFSET + 4]);
  }

  /** bootloader_with_ota_check: install a flagged image that passes its check, retire it, and
      say whether the application is started. Even on a faulty flash, an image that passed and did
      not end in a reset stands in the application region byte for byte; a reset leaves
      everything but that region as it was. On a sound flash the run is exactly BootOps. */
  method BootloaderWithOtaCheck(l: Layout, flash: Flash, step: Table) returns (o: Outcome)
    requires Fits(l, flash.mem)
    modifies flash
    ensures |flash.mem| == |old(flash.mem)|
    ensures o == Reset || o == if HasFlag(flash.mem, l.load) then Launch else NoApp
    ensures !HasFlag(old(flash.mem), l.image) ==> flash.mem == old(flash.mem) && flash.trace == old(flash.trace)
    ensures HasFlag(old(flash.mem), l.image) && o != Reset ==>
              var n := Word(old(flash.mem)[l.image + 0x18..l.image + 0x1c]);
              n <= l.max && SumsUp(old(flash.mem), l.image, n, step) ==>
                InPlace(l, old(flash.mem), flash.mem, Extent(n))
    ensures o == Reset ==> SameOutside(old(flash.mem), flash.mem, l.load, l.load + l.max)
    ensures !flash.faulty ==> o != Reset
    ensures OnPlan(flash, old(flash.mem), old(flash.trace), BootOps(l, old(flash.mem), step))
  {
    var flagged := IsValidFw(flash, l.image);
    if flagged {
      var fwSize := ReadSize(l, flash);
      var valid := CheckImage(flash, l.image, l.max, step, fwSize);
      var reset := InstallImage(l, flash, fwSize, valid);
      if reset { return Reset; }
    }
    var app := IsValidFw(flash, l.load);
    o := if app then Launch else NoApp;
  }
}
