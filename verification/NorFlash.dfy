/** The flash chip and the driver loop that splits a write at page boundaries
    (src/common/flash.c). Erasing sets a sector to 0xFF; programming can only clear bits. */
module NorFlash {

  type byte = bv8
  type Mem = seq<byte>

  const SECTOR := 4096
  const PAGE := 256

  function SectorOf(addr: nat): (base: nat)
    ensures base <= addr < base + SECTOR && base % SECTOR == 0
  {
    addr - addr % SECTOR
  }

  /** Erasing the sector that holds addr. */
  function EraseSector(mem: Mem, addr: nat): (m: Mem)
    ensures |m| == |mem|
  {
    seq(|mem|, i requires 0 <= i < |mem| => if SectorOf(addr) <= i < SectorOf(addr) + SECTOR then 0xFF else mem[i])
  }

  /** Programming data at addr: a bytewise AND. */
  function Program(mem: Mem, addr: nat, data: seq<byte>): (m: Mem)
    ensures |m| == |mem|
  {
    seq(|mem|, i requires 0 <= i < |mem| => if addr <= i < addr + |data| then mem[i] & data[i - addr] else mem[i])
  }

  predicate IsErased(mem: Mem, lo: nat, hi: nat) {
    hi <= |mem| && forall i :: lo <= i < hi ==> mem[i] == 0xFF
  }

  /** What is programmed on erased flash reads back as written. */
  lemma ProgramErased(mem: Mem, addr: nat, data: seq<byte>)
    requires IsErased(mem, addr, addr + |data|)
    ensures Program(mem, addr, data)[addr..addr + |data|] == data
    ensures Program(mem, addr, data)[..addr] == mem[..addr]
    ensures Program(mem, addr, data)[addr + |data|..] == mem[addr + |data|..]
  {
  }

  lemma ProgramByte(mem: Mem, addr: nat, b: byte)
    requires addr < |mem|
    ensures Program(mem, addr, [b]) == mem[addr := mem[addr] & b]
  {
  }

  lemma SubSlice<T>(s: seq<T>, a: nat, b: nat, i: nat, j: nat)
    requires a <= b <= |s| && i <= j <= b - a
    ensures s[a..b][i..j] == s[a + i..a + j]
  {
    forall k | 0 <= k < j - i ensures s[a..b][i..j][k] == s[a + i..a + j][k] {
    }
  }

  /** Two adjacent writes are one. */
  lemma ProgramAppend(mem: Mem, addr: nat, a: seq<byte>, b: seq<byte>)
    ensures Program(Program(mem, addr, a), addr + |a|, b) == Program(mem, addr, a + b)
  {
  }

  /** Memory with [lo, hi) erased. */
  function Blanked(mem: Mem, lo: nat, hi: nat): (m: Mem)
    ensures |m| == |mem|
  {
    seq(|mem|, i requires 0 <= i < |mem| => if lo <= i < hi then 0xFF else mem[i])
  }

  lemma BlankMore(mem: Mem, lo: nat, i: nat)
    requires lo % SECTOR == 0
    ensures EraseSector(Blanked(mem, lo, lo + i * SECTOR), lo + i * SECTOR) == Blanked(mem, lo, lo + (i + 1) * SECTOR)
  {
    assert SectorOf(lo + i * SECTOR) == lo + i * SECTOR;
  }

  /** c stands at the base address and the room behind it is erased. */
  ghost predicate Held(base: nat, mem: Mem, c: seq<byte>, room: nat) {
    && |c| <= room && base + room <= |mem|
    && mem[base..base + |c|] == c
    && IsErased(mem, base + |c|, base + room)
  }

  lemma HeldAppend(base: nat, mem: Mem, c: seq<byte>, d: seq<byte>, room: nat)
    requires Held(base, mem, c, room) && |c| + |d| <= room
    ensures Held(base, Program(mem, base + |c|, d), c + d, room)
  {
    var a := base + |c|;
    var m := Program(mem, a, d);
    ProgramErased(mem, a, d);
    assert m[base..a + |d|] == m[base..a] + m[a..a + |d|];
    assert m[base..a] == m[..a][base..] == mem[..a][base..] == mem[base..a];
  }

  // ----- single chip operations

  datatype Op = Erase(addr: nat) | Write(addr: nat, data: seq<byte>)

  function Apply(mem: Mem, op: Op): (m: Mem)
    ensures |m| == |mem|
  {
    match op
    case Erase(a) => EraseSector(mem, a)
    case Write(a, d) => Program(mem, a, d)
  }

  /** The addresses an operation can touch. */
  predicate Touches(op: Op, i: int) {
    match op
    case Erase(a) => SectorOf(a) <= i < SectorOf(a) + SECTOR
    case Write(a, d) => a <= i < a + |d|
  }

  /** An operation that a power cut or a fault interrupts: every byte it addresses holds either
      its old or its new value. */
  ghost predicate Torn(mem: Mem, op: Op, m: Mem) {
    && |m| == |mem|
    && forall i :: 0 <= i < |mem| ==> m[i] == mem[i] || m[i] == Apply(mem, op)[i]
  }

  lemma TornFrame(mem: Mem, op: Op, m: Mem)
    requires Torn(mem, op, m)
    ensures forall i :: 0 <= i < |mem| && !Touches(op, i) ==> m[i] == mem[i]
  {
  }

  /** A page-program command: within the chip the address wraps inside its page. */
  function WrapProgram(mem: Mem, addr: nat, data: seq<byte>): (m: Mem)
    requires |data| <= PAGE
    ensures |m| == |mem|
  {
    seq(|mem|, i requires 0 <= i < |mem| =>
      if i / PAGE == addr / PAGE && (i - addr) % PAGE < |data| then mem[i] & data[(i - addr) % PAGE] else mem[i])
  }

  /** Data that ends by the end of its page is programmed in place. */
  lemma NoWrap(mem: Mem, addr: nat, data: seq<byte>)
    requires addr % PAGE + |data| <= PAGE
    ensures WrapProgram(mem, addr, data) == Program(mem, addr, data)
  {
    var p := addr / PAGE;
    forall i | 0 <= i < |mem| ensures WrapProgram(mem, addr, data)[i] == Program(mem, addr, data)[i] {
      if i / PAGE == p {
        var d := i - addr;
        if d < 0 { assert d % PAGE == d + PAGE; } else { assert d % PAGE == d; }
      }
    }
  }

  /** Data that runs over the end of its page goes on at the start of that page. */
  lemma WrapsInPage(mem: Mem, page: nat, at: nat, addr: nat, data: seq<byte>, k: nat, i: nat)
    requires at < 256 && k < 256 && |data| <= 256 && 256 * page + 256 <= |mem|
    requires addr == 256 * page + at
    requires i == 256 * page + (if at + k < 256 then at + k else at + k - 256)
    ensures WrapProgram(mem, addr, data)[i] == if k < |data| then mem[i] & data[k] else mem[i]
  {
    PageIs(page, at);
    PageIs(page, i - 256 * page);
    OffsetIs(i - addr, k);
    WrappedByte(mem, addr, data, k, i);
  }

  lemma WrappedByte(mem: Mem, addr: nat, data: seq<byte>, k: nat, i: nat)
    requires |data| <= PAGE && i < |mem| && i / PAGE == addr / PAGE && (i - addr) % PAGE == k
    ensures WrapProgram(mem, addr, data)[i] == if k < |data| then mem[i] & data[k] else mem[i]
  {
  }

  /** No other page is touched. */
  lemma OtherPages(mem: Mem, page: nat, at: nat, data: seq<byte>)
    requires at < 256 && |data| <= 256 && 256 * page + 256 <= |mem|
    ensures forall i :: 0 <= i < |mem| && !(256 * page <= i < 256 * page + 256) ==>
              WrapProgram(mem, 256 * page + at, data)[i] == mem[i]
  {
    var addr := 256 * page + at;
    PageIs(page, at);
    forall j | 0 <= j < |mem| && !(256 * page <= j < 256 * page + 256)
      ensures WrapProgram(mem, addr, data)[j] == mem[j]
    {
      NotInPage(j, page);
    }
  }

  lemma PageIs(page: nat, at: nat)
    requires at < 256
    ensures (256 * page + at) / PAGE == page
  {
  }

  lemma OffsetIs(d: int, k: nat)
    requires k < 256 && (d == k || d == k - 256)
    ensures d % PAGE == k
  {
  }

  lemma NotInPage(j: nat, page: nat)
    requires !(256 * page <= j < 256 * page + 256)
    ensures j / PAGE != page
  {
  }

  /** The outcome of an operation that leaves some bytes unchanged. */
  function Mixed(before: Mem, after: Mem, stuck: nat -> bool): (m: Mem)
    requires |after| == |before|
    ensures |m| == |before|
  {
    seq(|before|, i requires 0 <= i < |before| => if stuck(i) then before[i] else after[i])
  }

  /** What faults can make of an operation is what a power cut can. */
  lemma FaultsTear(mem: Mem, op: Op, m: Mem)
    ensures Torn(mem, op, m) <==> exists stuck: nat -> bool :: Mixed(mem, Apply(mem, op), stuck) == m
  {
    if Torn(mem, op, m) {
      assert Mixed(mem, Apply(mem, op), (i: nat) => i < |mem| && m[i] == mem[i]) == m;
    }
  }

  /** One chip operation and the memory it found. */
  datatype Step = Step(before: Mem, op: Op)

  /** A memory that a power cut during one of the steps can leave behind. */
  ghost predicate CutIn(steps: seq<Step>, m: Mem) {
    exists k :: 0 <= k < |steps| && Torn(steps[k].before, steps[k].op, m)
  }

  /** The chip and its driver. On a faulty part what goes wrong is fixed in advance and
      arbitrary: at operation t the driver may refuse because the supply is low, or a byte may
      keep its old value. */
  class Flash {
    var mem: Mem
    var tick: nat
    const faulty: bool
    const refuse: nat -> bool
    const stuck: (nat, nat) -> bool
    ghost var trace: seq<Step>

    constructor (mem: Mem, faulty: bool, refuse: nat -> bool, stuck: (nat, nat) -> bool)
      ensures this.mem == mem && this.faulty == faulty && trace == []
      ensures this.refuse == refuse && this.stuck == stuck
    {
      this.mem, this.faulty, this.refuse, this.stuck := mem, faulty, refuse, stuck;
      tick, trace := 0, [];
    }

    method Read(addr: nat, len: nat) returns (data: seq<byte>)
      requires addr + len <= |mem|
      ensures data == mem[addr..addr + len]
    {
      data := mem[addr..addr + len];
    }

    /** app_flash_mspi_write_ram with the sector-erase command. */
    method Erase(addr: nat)
      modifies this
      ensures faulty ==> Torn(old(mem), Op.Erase(addr), mem)
      ensures !faulty ==> mem == EraseSector(old(mem), addr)
      ensures trace == old(trace) + [Step(old(mem), Op.Erase(addr))]
    {
      trace := trace + [Step(mem, Op.Erase(addr))];
      if !faulty || !refuse(tick) {
        var t: nat := tick;
        ghost var after := EraseSector(mem, addr);
        mem := Mixed(mem, EraseSector(mem, addr), (i: nat) => faulty && stuck(t, i));
        assert !faulty ==> mem == after;
      }
      tick := tick + 1;
    }

    /** app_flash_mspi_write_ram with the page-program command; false when the driver refuses. */
    method ProgramPage(addr: nat, data: seq<byte>) returns (ok: bool)
      requires addr % PAGE + |data| <= PAGE
      modifies this`mem, this`tick
      ensures faulty ==> Torn(old(mem), Write(addr, data), mem)
      ensures !faulty ==> ok && mem == Program(old(mem), addr, data)
      ensures !ok ==> mem == old(mem)
    {
      NoWrap(mem, addr, data);
      ok := !faulty || !refuse(tick);
      if ok {
        var t: nat := tick;
        ghost var after := Program(mem, addr, data);
        mem := Mixed(mem, WrapProgram(mem, addr, data), (i: nat) => faulty && stuck(t, i));
        assert !faulty ==> mem == after;
      }
      tick := tick + 1;
    }

    /** One page-program command of a longer write. */
    method SendPiece(addr0: nat, buf: seq<byte>, n: nat, nw: nat, ghost m0: Mem) returns (ok: bool)
      requires n + nw <= |buf| && (addr0 + n) % PAGE + nw <= PAGE
      requires Sent(m0, addr0, buf[..n], mem) && (!faulty ==> mem == Program(m0, addr0, buf[..n]))
      modifies this`mem, this`tick
      ensures if ok then Sent(m0, addr0, buf[..n + nw], mem) else faulty && mem == old(mem)
      ensures !faulty ==> mem == Program(m0, addr0, buf[..n + nw])
    {
      ghost var m1 := mem;
      ok := ProgramPage(addr0 + n, buf[n..n + nw]);
      if ok {
        if !faulty { Exact(m1, addr0 + n, buf[n..n + nw]); }
        SentMore(m0, addr0, buf, n, nw, m1, mem);
      }
    }

    /** app_flash_write_page: one page-program command for each page the data reaches, none of
        them wrapping inside its page. Returns how much of the data was sent before the driver
        refused. A power cut during any of the commands leaves the whole write torn, so the
        write counts as one step of the trace. */
    method WritePage(addr0: nat, buf: seq<byte>) returns (n: nat)
      modifies this
      ensures n <= |buf|
      ensures faulty ==> Torn(old(mem), Write(addr0, buf[..n]), mem)
      ensures !faulty ==> n == |buf| && mem == Program(old(mem), addr0, buf)
      ensures trace == old(trace) + [Step(old(mem), Write(addr0, buf))]
    {
      trace := trace + [Step(mem, Write(addr0, buf))];
      ghost var m0 := mem;
      var addr, len, ns := addr0, |buf|, PAGE - addr0 % PAGE;
      n := 0;
      var more := true;
      while more
        invariant n <= |buf| && len == |buf| - n && addr == addr0 + n
        invariant more ==> ns == PAGE - addr % PAGE
        invariant !more && !faulty ==> len == 0
        invariant Sent(m0, addr0, buf[..n], mem) && (!faulty ==> mem == Program(m0, addr0, buf[..n]))
        invariant trace == old(trace) + [Step(m0, Write(addr0, buf))]
        decreases more, len
      {
        var nw := if len > ns then ns else len;
        var ok := SendPiece(addr0, buf, n, nw, m0);
        if !ok { break; }
        ns := PAGE;
        addr, n, len := addr + nw, n + nw, len - nw;
        more := len > 0;
      }
      assert n == |buf| ==> buf[..n] == buf;
    }
  }

  /** A completed operation is a torn one that lost nothing. */
  lemma Exact(m: Mem, addr: nat, data: seq<byte>)
    ensures Torn(m, Write(addr, data), Program(m, addr, data))
  {
  }

  /** m0 with an arbitrary part of data programmed at addr. */
  ghost predicate Sent(m0: Mem, addr: nat, data: seq<byte>, m: Mem) {
    Torn(m0, Write(addr, data), m)
  }

  /** One more page command; a cut during it is a cut of the whole write. */
  lemma SentMore(m0: Mem, addr: nat, buf: seq<byte>, n: nat, k: nat, m1: Mem, m2: Mem)
    requires n + k <= |buf| && Sent(m0, addr, buf[..n], m1) && Torn(m1, Write(addr + n, buf[n..n + k]), m2)
    ensures Sent(m0, addr, buf[..n + k], m2) && Torn(m0, Write(addr, buf), m2)
    ensures Program(Program(m0, addr, buf[..n]), addr + n, buf[n..n + k]) == Program(m0, addr, buf[..n + k])
  {
    ProgramAppend(m0, addr, buf[..n], buf[n..n + k]);
    assert buf[..n] + buf[n..n + k] == buf[..n + k];
    TornFrame(m0, Write(addr, buf[..n]), m1);
    TornFrame(m1, Write(addr + n, buf[n..n + k]), m2);
    forall i | 0 <= i < |m0|
      ensures m2[i] == m0[i] || (m2[i] == Program(m0, addr, buf[..n + k])[i] && m2[i] == Program(m0, addr, buf)[i])
    {
      SentAt(m0, addr, buf, n, k, m1, m2, i);
    }
  }

  /** What programming more of the same data does at one address. */
  lemma ProgramPart(m: Mem, addr: nat, buf: seq<byte>, lo: nat, hi: nat, i: nat)
    requires lo <= hi <= |buf| && addr + lo <= i < addr + hi && i < |m|
    ensures Program(m, addr + lo, buf[lo..hi])[i] == m[i] & buf[i - addr]
  {
    assert buf[lo..hi][i - (addr + lo)] == buf[i - addr];
  }

  lemma SentAt(m0: Mem, addr: nat, buf: seq<byte>, n: nat, k: nat, m1: Mem, m2: Mem, i: nat)
    requires n + k <= |buf| && i < |m0|
    requires Torn(m0, Write(addr, buf[..n]), m1) && Torn(m1, Write(addr + n, buf[n..n + k]), m2)
    ensures m2[i] == m0[i] || (m2[i] == Program(m0, addr, buf[..n + k])[i] && m2[i] == Program(m0, addr, buf)[i])
  {
    if addr <= i < addr + n + k {
      ProgramPrefix(m0, addr, buf, n + k, i);
      ProgramPrefix(m0, addr, buf, |buf|, i);
      assert buf[..|buf|] == buf;
      SentByte(m0, addr, buf, n, k, m1, m2, i);
    } else {
      TornFrame(m0, Write(addr, buf[..n]), m1);
      TornFrame(m1, Write(addr + n, buf[n..n + k]), m2);
    }
  }

  lemma ProgramPrefix(m: Mem, addr: nat, buf: seq<byte>, hi: nat, i: nat)
    requires hi <= |buf| && addr <= i < addr + hi && i < |m|
    ensures Program(m, addr, buf[..hi])[i] == m[i] & buf[i - addr]
  {
  }

  lemma SentByte(m0: Mem, addr: nat, buf: seq<byte>, n: nat, k: nat, m1: Mem, m2: Mem, i: nat)
    requires n + k <= |buf| && i < |m0|
    requires Torn(m0, Write(addr, buf[..n]), m1) && Torn(m1, Write(addr + n, buf[n..n + k]), m2)
    requires addr <= i < addr + n + k
    ensures m2[i] == m0[i] || m2[i] == m0[i] & buf[i - addr]
  {
    if i < addr + n {
      ProgramPrefix(m0, addr, buf, n, i);
    } else {
      ProgramPart(m1, addr, buf, n, n + k, i);
    }
  }
}
