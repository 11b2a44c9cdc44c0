/** Power cuts during an install, and what a rejected image costs
    (tl_zigbee_sdk/apps/bootLoader/bootloader.c:121-224). */
module BootSafety {
  import opened NorFlash
  import opened Crc32
  import opened BootInstall
  import opened BootCopy

  // ----- sequences of operations

  lemma {:induction false} RunOpsAppend(mem: Mem, a: seq<Op>, b: seq<Op>)
    ensures RunOps(mem, a + b) == RunOps(RunOps(mem, a), b)
    ensures Steps(mem, a + b) == Steps(mem, a) + Steps(RunOps(mem, a), b)
  {
    if b == [] {
      assert a + b == a;
    } else {
      var b' := b[..|b| - 1];
      RunOpsAppend(mem, a, b');
      assert b == b' + [b[|b| - 1]];
      assert a + b == (a + b') + [b[|b| - 1]];
      RunOpsNext(mem, a + b', b[|b| - 1]);
      RunOpsNext(RunOps(mem, a), b', b[|b| - 1]);
    }
  }

  /** A cut in two runs, one after the other, is a cut in one of them. */
  lemma CutAppend(s: seq<Step>, t: seq<Step>, m: Mem)
    requires CutIn(s + t, m)
    ensures CutIn(s, m) || CutIn(t, m)
  {
    var k :| 0 <= k < |s + t| && Torn((s + t)[k].before, (s + t)[k].op, m);
    if k < |s| {
      assert (s + t)[k] == s[k];
    } else {
      assert (s + t)[k] == t[k - |s|];
    }
  }

  /** The operation addresses nothing outside [lo, hi). */
  predicate Within(op: Op, lo: nat, hi: nat) {
    match op
    case Erase(a) => lo <= SectorOf(a) && SectorOf(a) + SECTOR <= hi
    case Write(a, d) => lo <= a && a + |d| <= hi
  }

  predicate AllWithin(ops: seq<Op>, lo: nat, hi: nat) {
    forall k :: 0 <= k < |ops| ==> Within(ops[k], lo, hi)
  }

  lemma TornWithin(m0: Mem, m: Mem, op: Op, m': Mem, lo: nat, hi: nat)
    requires SameOutside(m0, m, lo, hi) && Within(op, lo, hi) && Torn(m, op, m')
    ensures SameOutside(m0, m', lo, hi)
  {
    TornFrame(m, op, m');
    assert forall k :: 0 <= k < |m| && !(lo <= k < hi) ==> !Touches(op, k);
  }

  /** Operations within a range change nothing outside it, completed or cut short. */
  lemma {:induction false} RunWithin(mem: Mem, ops: seq<Op>, lo: nat, hi: nat)
    requires AllWithin(ops, lo, hi)
    ensures SameOutside(mem, RunOps(mem, ops), lo, hi)
    ensures forall m :: CutIn(Steps(mem, ops), m) ==> SameOutside(mem, m, lo, hi)
  {
    if ops != [] {
      var init, op := ops[..|ops| - 1], ops[|ops| - 1];
      RunWithin(mem, init, lo, hi);
      var before := RunOps(mem, init);
      TornWithin(mem, before, op, Apply(before, op), lo, hi);
      forall m | CutIn(Steps(mem, ops), m) ensures SameOutside(mem, m, lo, hi) {
        CutAppend(Steps(mem, init), [Step(before, op)], m);
        if !CutIn(Steps(mem, init), m) {
          TornWithin(mem, before, op, m, lo, hi);
        }
      }
    }
  }

  // ----- the copy

  lemma {:induction false} CopyOpsWithin(l: Layout, mem: Mem, i: nat)
    requires i % PAGE == 0 && l.image + i <= |mem| && l.load % SECTOR == 0 && i <= l.max && l.max % SECTOR == 0
    ensures AllWithin(CopyOps(l, mem, i), l.load, l.load + l.max)
  {
    if i > 0 {
      CopyOpsWithin(l, mem, i - PAGE);
      if (i - PAGE) % SECTOR == 0 { SectorWithin(l.load, i - PAGE, l.max); }
    }
  }

  lemma SectorWithin(load: nat, i: nat, max: nat)
    requires load % SECTOR == 0 && i % SECTOR == 0 && i < max && max % SECTOR == 0
    ensures SectorOf(load + i) == load + i && i + SECTOR <= max
  {
  }

  lemma PageBefore(i: nat, max: nat) returns (j: nat)
    requires i % PAGE == 0 && 0 < i <= max && max % SECTOR == 0
    ensures i == j + PAGE && j % PAGE == 0 && SectorOf(j) + SECTOR <= max
  {
    PageBack(i);
    j := i - PAGE;
    var k, r := PageOf(j);
    WholeSectors(k, j, max);
  }

  lemma PageIsWritten(l: Layout, mem: Mem, j: nat)
    requires Fits(l, mem) && j % PAGE == 0 && j + PAGE <= l.max && SectorOf(j) + SECTOR <= l.max
    ensures CopyOps(l, mem, j + PAGE) == ReadyOps(l, mem, j) + [Write(l.load + j, Page(l, mem, j))]
    ensures RunOps(mem, CopyOps(l, mem, j + PAGE))[l.load + j..l.load + j + PAGE] == Page(l, mem, j)
  {
    PageReadsBack(l, mem, j);
  }

  /** Completed, the copy is exact. */
  lemma {:induction false} CopyExact(l: Layout, mem: Mem, i: nat)
    requires Fits(l, mem) && i % PAGE == 0 && i <= l.max
    ensures Copied(l, mem, RunOps(mem, CopyOps(l, mem, i)), i)
  {
    if i == 0 {
      CopyNone(l, mem);
    } else {
      var j := PageBefore(i, l.max);
      CopyExact(l, mem, j);
      CopyPageExact(l, mem, j, i);
    }
  }

  lemma CopyNone(l: Layout, mem: Mem)
    requires Fits(l, mem)
    ensures Copied(l, mem, RunOps(mem, CopyOps(l, mem, 0)), 0)
  {
  }

  lemma CopyPageExact(l: Layout, mem: Mem, j: nat, i: nat)
    requires Fits(l, mem) && j % PAGE == 0 && i == j + PAGE <= l.max && SectorOf(j) + SECTOR <= l.max
    requires Copied(l, mem, RunOps(mem, CopyOps(l, mem, j)), j)
    ensures i % PAGE == 0 && Copied(l, mem, RunOps(mem, CopyOps(l, mem, i)), i)
  {
    NextMultiple(j, i);
    CopyReady(l, mem, j);
    PageIsWritten(l, mem, j);
    CopyOneMore(l, mem, j, ReadyOps(l, mem, j));
  }

  lemma CopyOneMore(l: Layout, mem: Mem, j: nat, ops: seq<Op>)
    requires Copied(l, mem, RunOps(mem, ops), j) && j + PAGE <= l.max
    requires RunOps(mem, ops + [Write(l.load + j, Page(l, mem, j))])[l.load + j..l.load + j + PAGE] == Page(l, mem, j)
    ensures Copied(l, mem, RunOps(mem, ops + [Write(l.load + j, Page(l, mem, j))]), j + PAGE)
  {
    var ready, op := RunOps(mem, ops), Write(l.load + j, Page(l, mem, j));
    RunOpsNext(mem, ops, op);
    CopyFrame(l, mem, ready, j, op, Apply(ready, op));
    CopyVerified(l, mem, Apply(ready, op), j);
  }

  lemma CopyReady(l: Layout, mem: Mem, j: nat)
    requires Fits(l, mem) && j % PAGE == 0 && j < l.max
    requires Copied(l, mem, RunOps(mem, CopyOps(l, mem, j)), j)
    ensures Copied(l, mem, RunOps(mem, ReadyOps(l, mem, j)), j)
  {
    ReadyAt(l, mem, j);
    if j % SECTOR == 0 {
      SectorWithin(l.load, j, l.max);
      Aligned(l.load, j);
      CopyErased(l, mem, j, CopyOps(l, mem, j));
    }
  }

  lemma CopyErased(l: Layout, mem: Mem, j: nat, ops: seq<Op>)
    requires Copied(l, mem, RunOps(mem, ops), j) && (l.load + j) % SECTOR == 0 && j + SECTOR <= l.max
    ensures Copied(l, mem, RunOps(mem, ops + [Erase(l.load + j)]), j)
  {
    var m := RunOps(mem, ops);
    RunOpsNext(mem, ops, Erase(l.load + j));
    CopyFrame(l, mem, m, j, Erase(l.load + j), Apply(m, Erase(l.load + j)));
  }

  // ----- the flag and the erase

  /** Installed: the image's bytes in the application region, and its flag byte cleared. */
  ghost predicate Installed(l: Layout, m0: Mem, m: Mem, n: nat) {
    && |m| == |m0| && l.image + FLAG_OFFSET < |m|
    && InPlace(l, m0, m, n)
    && m[l.image + FLAG_OFFSET] in {0, 0xFF}
  }

  lemma FlagByte(mem: Mem, addr: nat)
    requires HasFlag(mem, addr)
    ensures mem[addr + FLAG_OFFSET] == 0x4b
  {
    assert mem[addr + FLAG_OFFSET..addr + FLAG_OFFSET + 4][0] == STARTUP[0];
  }

  lemma InstalledUnflagged(l: Layout, m0: Mem, m: Mem, n: nat)
    requires Installed(l, m0, m, n)
    ensures !HasFlag(m, l.image)
  {
    if HasFlag(m, l.image) {
      FlagByte(m, l.image);
      assert false;
    }
  }

  /** Run on this memory, the operations leave the install finished, completed or cut short. */
  ghost predicate StaysInstalled(l: Layout, m0: Mem, m: Mem, ops: seq<Op>, n: nat) {
    && Installed(l, m0, RunOps(m, ops), n)
    && forall m' :: CutIn(Steps(m, ops), m') ==> Installed(l, m0, m', n)
  }

  lemma EraseKeepsInstalled(l: Layout, m0: Mem, m: Mem, n: nat, a: nat, m': Mem)
    requires Installed(l, m0, m, n) && l.load + l.max <= l.image && l.image <= SectorOf(a) && Torn(m, Erase(a), m')
    ensures Installed(l, m0, m', n)
  {
    TornFrame(m, Erase(a), m');
    assert SameOutside(m, m', l.image, |m|);
    StaysInPlace(l, m0, m, m', n);
  }

  lemma {:induction false} ErasesKeepInstalled(l: Layout, m0: Mem, m: Mem, n: nat, s: nat)
    requires Fits(l, m0) && Installed(l, m0, m, n) && s * SECTOR <= l.max
    ensures StaysInstalled(l, m0, m, EraseOps(l, |m0|, s), n)
  {
    if s > 0 {
      ErasesKeepInstalled(l, m0, m, n, s - 1);
      var a := EraseLast(l, |m0|, s);
      EraseNext(l, m0, m, n, EraseOps(l, |m0|, s - 1), a);
    }
  }

  lemma EraseLast(l: Layout, size: nat, s: nat) returns (a: nat)
    requires 0 < s && l.image % SECTOR == 0 && l.image + s * SECTOR <= size
    ensures l.image <= a && a % SECTOR == 0 && EraseOps(l, size, s) == EraseOps(l, size, s - 1) + [Erase(a)]
  {
    NotReduced(l.image, s - 1, s, size);
    a := l.image + (s - 1) * SECTOR;
  }

  lemma EraseNext(l: Layout, m0: Mem, m: Mem, n: nat, ops: seq<Op>, a: nat)
    requires l.load + l.max <= l.image <= a && a % SECTOR == 0
    requires StaysInstalled(l, m0, m, ops, n)
    ensures StaysInstalled(l, m0, m, ops + [Erase(a)], n)
  {
    var before := RunOps(m, ops);
    RunOpsNext(m, ops, Erase(a));
    EraseKeepsInstalled(l, m0, before, n, a, Apply(before, Erase(a)));
    forall m' | CutIn(Steps(m, ops + [Erase(a)]), m') ensures Installed(l, m0, m', n) {
      CutAppend(Steps(m, ops), [Step(before, Erase(a))], m');
      if !CutIn(Steps(m, ops), m') {
        EraseKeepsInstalled(l, m0, before, n, a, m');
      }
    }
  }

  /** Where an interrupted install can be: the image untouched, or the install finished. */
  ghost predicate Recoverable(l: Layout, m0: Mem, m: Mem, n: nat) {
    SameOutside(m0, m, l.load, l.load + l.max) || Installed(l, m0, m, n)
  }

  /** Run on this memory, the operations finish the install, and cut short they leave it recoverable. */
  ghost predicate Installs(l: Layout, m0: Mem, m: Mem, ops: seq<Op>, n: nat) {
    && Installed(l, m0, RunOps(m, ops), n)
    && forall m' :: CutIn(Steps(m, ops), m') ==> Recoverable(l, m0, m', n)
  }

  /** From a complete copy: the flag is cleared in one byte, so a cut leaves it set or cleared. */
  lemma RetireRecoverable(l: Layout, m0: Mem, m: Mem, n: nat, s: nat)
    requires Fits(l, m0) && SameOutside(m0, m, l.load, l.load + l.max) && InPlace(l, m0, m, n)
    requires s * SECTOR <= l.max
    ensures Installs(l, m0, m, RetireOps(l, m0, s), n)
  {
    var m1 := FlagCleared(l, m0, m, n);
    ErasesKeepInstalled(l, m0, m1, n, s);
    RetireCuts(l, m0, m, n, m1, EraseOps(l, |m0|, s));
  }

  /** The flag is cleared first; a cut before the erases begin is a cut of that one byte. */
  lemma RetireCuts(l: Layout, m0: Mem, m: Mem, n: nat, m1: Mem, erases: seq<Op>)
    requires Fits(l, m0) && SameOutside(m0, m, l.load, l.load + l.max) && InPlace(l, m0, m, n)
    requires m1 == Apply(m, Write(l.image + FLAG_OFFSET, [0])) && StaysInstalled(l, m0, m1, erases, n)
    ensures Installs(l, m0, m, [Write(l.image + FLAG_OFFSET, [0])] + erases, n)
  {
    var flag := Write(l.image + FLAG_OFFSET, [0]);
    RetireSplit(m, flag, erases);
    forall m' | CutIn(Steps(m, [flag] + erases), m') ensures Recoverable(l, m0, m', n) {
      CutAppend([Step(m, flag)], Steps(m1, erases), m');
      if !CutIn(Steps(m1, erases), m') { FlagCut(l, m0, m, n, m'); }
    }
  }

  lemma RetireSplit(m: Mem, flag: Op, erases: seq<Op>)
    ensures RunOps(m, [flag] + erases) == RunOps(Apply(m, flag), erases)
    ensures Steps(m, [flag] + erases) == [Step(m, flag)] + Steps(Apply(m, flag), erases)
  {
    RunOpsNext(m, [], flag);
    assert [] + [flag] == [flag];
    RunOpsAppend(m, [flag], erases);
  }

  lemma FlagCleared(l: Layout, m0: Mem, m: Mem, n: nat) returns (m1: Mem)
    requires Fits(l, m0) && |m| == |m0| && InPlace(l, m0, m, n)
    ensures m1 == Apply(m, Write(l.image + FLAG_OFFSET, [0])) && Installed(l, m0, m1, n)
  {
    m1 := Apply(m, Write(l.image + FLAG_OFFSET, [0]));
    assert m1[l.image + FLAG_OFFSET] == m[l.image + FLAG_OFFSET] & 0 == 0;
    StaysInPlace(l, m0, m, m1, n);
  }

  lemma FlagCut(l: Layout, m0: Mem, m: Mem, n: nat, m': Mem)
    requires Fits(l, m0) && SameOutside(m0, m, l.load, l.load + l.max) && InPlace(l, m0, m, n)
    requires Torn(m, Write(l.image + FLAG_OFFSET, [0]), m')
    ensures Recoverable(l, m0, m', n)
  {
    TornFrame(m, Write(l.image + FLAG_OFFSET, [0]), m');
    assert m[l.image + FLAG_OFFSET] & 0 == 0;
    if m'[l.image + FLAG_OFFSET] == m[l.image + FLAG_OFFSET] {
      assert forall i :: 0 <= i < |m| ==> m'[i] == m[i];
      assert SameOutside(m0, m', l.load, l.load + l.max);
    } else {
      assert SameOutside(m, m', l.image, |m0|);
      StaysInPlace(l, m0, m, m', n);
    }
  }

  // ----- main results

  /** An image whose flag is set, whose checksum holds, and whose size covers the checksum: the bytes say so. */
  ghost predicate Pending(l: Layout, mem: Mem, step: Table) {
    && Fits(l, mem) && HasFlag(mem, l.image)
    && var n := Word(mem[l.image + 0x18..l.image + 0x1c]); 4 <= n <= l.max && SumsUp(mem, l.image, n, step)
  }

  lemma PendingIsOk(l: Layout, mem: Mem, step: Table)
    requires Fits(l, mem) && HasFlag(mem, l.image)
    ensures FwSize(l, mem) == Word(mem[l.image + 0x18..l.image + 0x1c])
    ensures var n := FwSize(l, mem); Pending(l, mem, step) <==> n >= 4 && ImageOk(mem, l.image, n, l.max, step)
  {
    OkExactly(mem, l.image, FwSize(l, mem), l.max, step);
  }

  /** Changes in the application region alone leave the plan of the boot as it was. */
  lemma SamePlan(l: Layout, m0: Mem, m: Mem, step: Table)
    requires Pending(l, m0, step) && SameOutside(m0, m, l.load, l.load + l.max)
    ensures Pending(l, m, step) && FwSize(l, m) == FwSize(l, m0)
  {
    PendingIsOk(l, m0, step);
    var n := FwSize(l, m0);
    assert m[l.image + FLAG_OFFSET..l.image + FLAG_OFFSET + 4] == m0[l.image + FLAG_OFFSET..l.image + FLAG_OFFSET + 4];
    assert m[l.image + SIZE_OFFSET..l.image + SIZE_OFFSET + 4] == m0[l.image + SIZE_OFFSET..l.image + SIZE_OFFSET + 4];
    assert m[l.image + n - 4..l.image + n] == m0[l.image + n - 4..l.image + n];
    assert Body(m, l.image, n) == Body(m0, l.image, n);
    PendingIsOk(l, m, step);
  }

  lemma CopiedInPlace(l: Layout, m0: Mem, m: Mem, m1: Mem, n: nat)
    requires SameOutside(m0, m, l.load, l.load + l.max) && Copied(l, m, m1, n)
    ensures SameOutside(m0, m1, l.load, l.load + l.max) && InPlace(l, m0, m1, n)
  {
    assert m0[l.image..l.image + n] == m[l.image..l.image + n];
  }

  /** A boot that starts with the image whole: completed it installs the image, cut anywhere it
      leaves the image whole or the install finished. */
  lemma BootFromWhole(l: Layout, m0: Mem, m: Mem, step: Table)
    requires Pending(l, m0, step) && SameOutside(m0, m, l.load, l.load + l.max)
    ensures Fits(l, m) && Installs(l, m0, m, BootOps(l, m, step), Extent(FwSize(l, m0)))
  {
    var n := FwSize(l, m0);
    var e, s := Extent(n), Sectors(n);
    SamePlan(l, m0, m, step);
    PendingIsOk(l, m0, step);
    PendingIsOk(l, m, step);
    ExtentFits(n, l.max);
    SectorsFit(n, l.max);
    var copy, retire := CopyOps(l, m, e), RetireOps(l, m, s);
    RunOpsAppend(m, copy, retire);
    CopyExact(l, m, e);
    CopyOpsWithin(l, m, e);
    RunWithin(m, copy, l.load, l.load + l.max);
    var m1 := RunOps(m, copy);
    CopiedInPlace(l, m0, m, m1, e);
    RetireRecoverable(l, m0, m1, e, s);
    forall m' | CutIn(Steps(m, BootOps(l, m, step)), m') ensures Recoverable(l, m0, m', e) {
      CutAppend(Steps(m, copy), Steps(m1, retire), m');
    }
  }

  /** Starting from any recoverable memory, a completed boot has the image installed and a cut
      one is recoverable again. */
  lemma BootRecovers(l: Layout, m0: Mem, m: Mem, step: Table)
    requires Pending(l, m0, step) && Recoverable(l, m0, m, Extent(FwSize(l, m0)))
    ensures Fits(l, m) && Installs(l, m0, m, BootOps(l, m, step), Extent(FwSize(l, m0)))
  {
    if SameOutside(m0, m, l.load, l.load + l.max) {
      BootFromWhole(l, m0, m, step);
    } else {
      InstalledUnflagged(l, m0, m, Extent(FwSize(l, m0)));
    }
  }

  /** A boot from memory m that a power cut ends with memory m'. */
  ghost predicate CutBoot(l: Layout, step: Table, m: Mem, m': Mem) {
    Fits(l, m) && CutIn(Steps(m, BootOps(l, m, step)), m')
  }

  /** Boots each cut short: every memory is left by a cut in the boot from the one before. */
  ghost predicate Cuts(l: Layout, step: Table, mems: seq<Mem>) {
    forall k {:trigger mems[k]} :: 0 <= k < |mems| - 1 ==> CutBoot(l, step, mems[k], mems[k + 1])
  }

  /** Install survives any number of power cuts: after them the next boot to complete has the
      image in the application region, its flag cleared, and starts it. */
  lemma {:induction false} InstallSurvivesCuts(l: Layout, step: Table, mems: seq<Mem>)
    requires |mems| > 0 && Pending(l, mems[0], step) && Cuts(l, step, mems)
    ensures Recoverable(l, mems[0], mems[|mems| - 1], Extent(FwSize(l, mems[0])))
    ensures Fits(l, mems[|mems| - 1])
    ensures var end := RunOps(mems[|mems| - 1], BootOps(l, mems[|mems| - 1], step));
      InPlace(l, mems[0], end, FwSize(l, mems[0])) && !HasFlag(end, l.image) && HasFlag(end, l.load)
  {
    var m0, e := mems[0], Extent(FwSize(l, mems[0]));
    CutsRecoverable(l, step, mems);
    var m := mems[|mems| - 1];
    BootRecovers(l, m0, m, step);
    BootEnds(l, step, m0, m, e);
  }

  lemma BootEnds(l: Layout, step: Table, m0: Mem, m: Mem, e: nat)
    requires Pending(l, m0, step) && e == Extent(FwSize(l, m0)) && Fits(l, m)
    requires Installs(l, m0, m, BootOps(l, m, step), e)
    ensures var end := RunOps(m, BootOps(l, m, step));
      InPlace(l, m0, end, FwSize(l, m0)) && !HasFlag(end, l.image) && HasFlag(end, l.load)
  {
    EndsPending(l, step, m0, RunOps(m, BootOps(l, m, step)), e, FwSize(l, m0));
  }

  lemma EndsPending(l: Layout, step: Table, m0: Mem, end: Mem, e: nat, n: nat)
    requires Pending(l, m0, step) && n == FwSize(l, m0) && e == Extent(n) && Installed(l, m0, end, e)
    ensures InPlace(l, m0, end, n) && !HasFlag(end, l.image) && HasFlag(end, l.load)
  {
    EndsInstalled(l, m0, end, e, n);
  }

  lemma EndsInstalled(l: Layout, m0: Mem, end: Mem, e: nat, n: nat)
    requires Installed(l, m0, end, e) && n <= e && e >= FLAG_OFFSET + 4 && HasFlag(m0, l.image)
    ensures InPlace(l, m0, end, n) && !HasFlag(end, l.image) && HasFlag(end, l.load)
  {
    InstalledUnflagged(l, m0, end, e);
    Prefix(l, m0, end, e, n);
  }

  /** In particular the first boot, if nothing interrupts it. */
  lemma OneBootInstalls(l: Layout, step: Table, mem: Mem)
    requires Pending(l, mem, step)
    ensures var end := RunOps(mem, BootOps(l, mem, step));
      InPlace(l, mem, end, FwSize(l, mem)) && !HasFlag(end, l.image) && HasFlag(end, l.load)
  {
    var mems := [mem];
    InstallSurvivesCuts(l, step, mems);
    assert mems[0] == mem && mems[|mems| - 1] == mem;
  }

  lemma {:induction false} CutsRecoverable(l: Layout, step: Table, mems: seq<Mem>)
    requires |mems| > 0 && Pending(l, mems[0], step) && Cuts(l, step, mems)
    ensures Recoverable(l, mems[0], mems[|mems| - 1], Extent(FwSize(l, mems[0])))
  {
    if |mems| > 1 {
      var k := |mems| - 1;
      CutsRecoverable(l, step, mems[..k]);
      BootRecovers(l, mems[0], mems[k - 1], step);
      assert CutBoot(l, step, mems[k - 1], mems[k]);
    }
  }

  lemma Prefix(l: Layout, m0: Mem, m: Mem, e: nat, n: nat)
    requires InPlace(l, m0, m, e) && n <= e && e >= FLAG_OFFSET + 4 && HasFlag(m0, l.image)
    ensures InPlace(l, m0, m, n) && HasFlag(m, l.load)
  {
    SubSlice(m, l.load, l.load + e, 0, n);
    SubSlice(m0, l.image, l.image + e, 0, n);
    SubSlice(m, l.load, l.load + e, FLAG_OFFSET, FLAG_OFFSET + 4);
    SubSlice(m0, l.image, l.image + e, FLAG_OFFSET, FLAG_OFFSET + 4);
  }

  // ----- a rejected image

  /** The whole application region keeps its content. */
  ghost predicate AppKept(l: Layout, mem: Mem, m: Mem) {
    && l.load + l.max <= |mem| && |m| == |mem|
    && m[l.load..l.load + l.max] == mem[l.load..l.load + l.max]
  }

  /** Sector j of the image, after the address wraps at the end of the chip, is below the
      application region. */
  lemma WrapsBelow(l: Layout, mem: Mem, j: nat, n: nat) returns (a: nat)
    requires Fits(l, mem) && j < n && l.image + n * SECTOR <= |mem| + l.load
    ensures EraseOps(l, |mem|, j + 1) == EraseOps(l, |mem|, j) + [Erase(a)]
    ensures SectorOf(a) == a && (a + SECTOR <= l.load || l.load + l.max <= a)
  {
    a := Decoded(l.image + j * SECTOR, |mem|);
    var raw := l.image + j * SECTOR;
    var x := l.image / SECTOR + j;
    if raw < |mem| {
      ModuloIs(raw, x, 0);
    } else {
      assert Decoded(raw, |mem|) == raw - |mem|;
      ModuloIs(raw - |mem|, x - |mem| / SECTOR, 0);
    }
  }

  /** An erase of a whole sector outside the application region. */
  predicate Clear(l: Layout, op: Op) {
    op.Erase? && SectorOf(op.addr) == op.addr && (op.addr + SECTOR <= l.load || l.load + l.max <= op.addr)
  }

  lemma {:induction false} ErasesClear(l: Layout, mem: Mem, s: nat, n: nat)
    requires Fits(l, mem) && s <= n && l.image + n * SECTOR <= |mem| + l.load
    ensures forall op :: op in EraseOps(l, |mem|, s) ==> Clear(l, op)
  {
    if s > 0 {
      ErasesClear(l, mem, s - 1, n);
      var a := WrapsBelow(l, mem, s - 1, n);
    }
  }

  lemma {:induction false} ClearKeepsApp(l: Layout, m: Mem, ops: seq<Op>)
    requires l.load + l.max <= |m| && forall op :: op in ops ==> Clear(l, op)
    ensures AppKept(l, m, RunOps(m, ops))
  {
    if ops != [] {
      var init, op := ops[..|ops| - 1], ops[|ops| - 1];
      assert op in ops && ops == init + [op];
      ClearKeepsApp(l, m, init);
      EraseKeepsApp(l, m, init, op.addr);
    }
  }

  lemma ErasesKeepApp(l: Layout, mem: Mem, m: Mem, n: nat)
    requires Fits(l, mem) && |m| == |mem| && l.image + n * SECTOR <= |mem| + l.load
    ensures AppKept(l, m, RunOps(m, EraseOps(l, |mem|, n)))
  {
    ErasesClear(l, mem, n, n);
    ClearKeepsApp(l, m, EraseOps(l, |mem|, n));
  }

  lemma EraseKeepsApp(l: Layout, m: Mem, ops: seq<Op>, a: nat)
    requires AppKept(l, m, RunOps(m, ops)) && SectorOf(a) == a && (a + SECTOR <= l.load || l.load + l.max <= a)
    ensures AppKept(l, m, RunOps(m, ops + [Erase(a)]))
  {
    RunOpsNext(m, ops, Erase(a));
    var before := RunOps(m, ops);
    assert EraseSector(before, a)[l.load..l.load + l.max] == before[l.load..l.load + l.max];
  }

  lemma EraseKeepsErased(m: Mem, ops: seq<Op>, a: nat, lo: nat, hi: nat)
    requires IsErased(RunOps(m, ops), lo, hi)
    ensures IsErased(RunOps(m, ops + [Erase(a)]), lo, hi)
  {
    RunOpsNext(m, ops, Erase(a));
  }

  /** Once the erase loop has wrapped round to the application region its first sector is gone. */
  lemma {:induction false} ErasesReachApp(l: Layout, mem: Mem, m: Mem, k: nat, n: nat)
    requires Fits(l, mem) && |m| == |mem| && k < n && l.image + k * SECTOR == |mem| + l.load
    ensures IsErased(RunOps(m, EraseOps(l, |mem|, n)), l.load, l.load + SECTOR)
    decreases n
  {
    var ops, a := EraseOps(l, |mem|, n - 1), Decoded(l.image + (n - 1) * SECTOR, |mem|);
    if n - 1 == k {
      assert Decoded(|mem| + l.load, |mem|) == l.load;
      FreshlyErased(m, ops, a);
    } else {
      ErasesReachApp(l, mem, m, k, n - 1);
      EraseKeepsErased(m, ops, a, l.load, l.load + SECTOR);
    }
  }

  /** The sector at which the wrapped addresses reach the application. */
  lemma Reach(l: Layout, mem: Mem, n: nat) returns (k: nat)
    requires Fits(l, mem) && l.image + n * SECTOR > |mem| + l.load
    ensures k < n && l.image + k * SECTOR == |mem| + l.load
  {
    k := (|mem| + l.load - l.image) / SECTOR;
  }

  lemma FlagKeepsApp(l: Layout, mem: Mem)
    requires Fits(l, mem)
    ensures AppKept(l, mem, Apply(mem, Write(l.image + FLAG_OFFSET, [0])))
  {
  }

  /** A flagged image whose size exceeds the limit or whose checksum, over the bytes as they stand, is not
      in its last word: the application survives exactly when the size word does not send the erase loop
      round the end of the chip; otherwise its first sector is erased. */
  lemma RejectedImage(l: Layout, mem: Mem, step: Table)
    requires Fits(l, mem) && HasFlag(mem, l.image)
    requires var n := Word(mem[l.image + 0x18..l.image + 0x1c]); n > l.max || !SumsUp(mem, l.image, n, step)
    ensures var n, end := Word(mem[l.image + 0x18..l.image + 0x1c]), RunOps(mem, BootOps(l, mem, step));
      if l.image + n <= |mem| + l.load || n > 0xffff_f000 then AppKept(l, mem, end)
      else IsErased(end, l.load, l.load + SECTOR)
  {
    var n := Word(mem[l.image + 0x18..l.image + 0x1c]);
    RejectedPlan(l, mem, n, step);
    if l.image + n <= |mem| + l.load || n > 0xffff_f000 {
      SectorsReach(l, mem, n);
      RejectedNear(l, mem, Sectors(n));
    } else {
      SectorsReach(l, mem, n);
      RejectedFar(l, mem, Sectors(n));
    }
  }

  lemma RejectedPlan(l: Layout, mem: Mem, n: nat, step: Table)
    requires Fits(l, mem) && HasFlag(mem, l.image) && n == Word(mem[l.image + 0x18..l.image + 0x1c])
    requires n > l.max || !SumsUp(mem, l.image, n, step)
    ensures n < 0x1_0000_0000 && BootOps(l, mem, step) == RetireOps(l, mem, Sectors(n))
  {
    OkExactly(mem, l.image, n, l.max, step);
  }

  /** How far the erase loop goes: to the end of the size's last sector, unless rounding up wraps in 32 bits. */
  lemma SectorsReach(l: Layout, mem: Mem, size: nat)
    requires Fits(l, mem) && size < 0x1_0000_0000
    ensures l.image + Sectors(size) * SECTOR <= |mem| + l.load
        <==> l.image + size <= |mem| + l.load || size > 0xffff_f000
  {
    var q, room := Sectors(size), (|mem| + l.load - l.image) / SECTOR;
    assert |mem| + l.load - l.image == SECTOR * room;
    if size > 0xffff_f000 {
      assert q == 0;
    } else {
      assert SECTOR * q - SECTOR < size <= SECTOR * q;
    }
  }

  lemma RejectedNear(l: Layout, mem: Mem, n: nat)
    requires Fits(l, mem) && l.image + n * SECTOR <= |mem| + l.load
    ensures AppKept(l, mem, RunOps(mem, RetireOps(l, mem, n)))
  {
    var m1 := FlagFirst(l, mem, n);
    ErasesKeepApp(l, mem, m1, n);
  }

  lemma RejectedFar(l: Layout, mem: Mem, n: nat)
    requires Fits(l, mem) && l.image + n * SECTOR > |mem| + l.load
    ensures IsErased(RunOps(mem, RetireOps(l, mem, n)), l.load, l.load + SECTOR)
  {
    var m1 := FlagFirst(l, mem, n);
    var k := Reach(l, mem, n);
    ErasesReachApp(l, mem, m1, k, n);
  }

  /** Clearing the flag leaves the application alone; the erases then run on the result. */
  lemma FlagFirst(l: Layout, mem: Mem, n: nat) returns (m1: Mem)
    requires Fits(l, mem)
    ensures AppKept(l, mem, m1) && RunOps(mem, RetireOps(l, mem, n)) == RunOps(m1, EraseOps(l, |mem|, n))
  {
    m1 := Apply(mem, Write(l.image + FLAG_OFFSET, [0]));
    RetireSplit(mem, Write(l.image + FLAG_OFFSET, [0]), EraseOps(l, |mem|, n));
    FlagKeepsApp(l, mem);
  }

  /** An image within the size limit never costs the application its content when its checksum is wrong. */
  lemma RejectedWithinLimit(l: Layout, mem: Mem, step: Table)
    requires Fits(l, mem) && HasFlag(mem, l.image) && Word(mem[l.image + 0x18..l.image + 0x1c]) <= l.max
    requires !SumsUp(mem, l.image, Word(mem[l.image + 0x18..l.image + 0x1c]), step)
    ensures AppKept(l, mem, RunOps(mem, BootOps(l, mem, step)))
  {
    RejectedImage(l, mem, step);
  }

  /** What one undisturbed boot does, decided by the bytes alone: without the start-up word nothing; with a
      checksum that is right the image is installed and its flag cleared; with a wrong one, or a size above
      the limit that does not send the erase loop round, the application stays. */
  lemma BootDecides(l: Layout, mem: Mem, step: Table)
    requires Fits(l, mem)
    ensures var n, end := Word(mem[l.image + 0x18..l.image + 0x1c]), RunOps(mem, BootOps(l, mem, step));
      if !HasFlag(mem, l.image) then end == mem
      else if n <= l.max && SumsUp(mem, l.image, n, step) then
        n >= 4 ==> InPlace(l, mem, end, n) && HasFlag(end, l.load) && !HasFlag(end, l.image)
      else l.image + n <= |mem| + l.load ==> AppKept(l, mem, end)
  {
    var n := Word(mem[l.image + 0x18..l.image + 0x1c]);
    if HasFlag(mem, l.image) {
      if n <= l.max && SumsUp(mem, l.image, n, step) {
        if n >= 4 { GoodInstalls(l, mem, n, step); }
      } else {
        RejectedImage(l, mem, step);
      }
    }
  }

  lemma GoodInstalls(l: Layout, mem: Mem, n: nat, step: Table)
    requires Pending(l, mem, step) && n == Word(mem[l.image + 0x18..l.image + 0x1c])
    ensures var end := RunOps(mem, BootOps(l, mem, step));
      InPlace(l, mem, end, n) && HasFlag(end, l.load) && !HasFlag(end, l.image)
  {
    PendingIsOk(l, mem, step);
    OneBootInstalls(l, step, mem);
  }
}
