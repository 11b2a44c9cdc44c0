/** The in-place move of the application image to address 0 (src/common/main.c:55-99). The
    source image may overlap the destination from above; the copy runs upwards. */
module Relocation {
  import BootInstall
  import opened NorFlash
  import opened Crc32

  const LOW_IMAGE := 0x8000
  const HIGH_IMAGE := 0x20000
  const MAX_SIZE := 0x36000
  const MAC_512K := 0x76000
  const MAC_1M := 0xff000
  const BLOCK := 256

  /** 0x544c4e4b, least significant byte first. */
  const BOOTABLE: seq<byte> := BootInstall.STARTUP

  predicate IsBootable(mem: Mem, addr: nat) {
    addr + 12 <= |mem| && mem[addr + 8..addr + 12] == BOOTABLE
  }

  function ImageSize(mem: Mem, addr: nat): nat
    requires addr + 28 <= |mem|
  {
    Word(mem[addr + 24..addr + 28])
  }

  /** size += SECTOR - 1; size &= ~(SECTOR - 1). */
  function RoundUp(size: nat): (r: nat)
    ensures size <= r < size + SECTOR && r % SECTOR == 0
  {
    (size + SECTOR - 1) / SECTOR * SECTOR
  }

  /** Where the image to move starts: 0x8000 is looked at first. */
  function Source(mem: Mem): nat {
    if IsBootable(mem, LOW_IMAGE) then LOW_IMAGE else HIGH_IMAGE
  }

  /** The image found is moved only if its size is in range. */
  predicate Movable(mem: Mem)
    requires |mem| >= 0x80000
  {
    IsBootable(mem, Source(mem)) && SECTOR < ImageSize(mem, Source(mem)) < MAX_SIZE
  }

  /** w bytes moved: what is copied, what is erased ahead of the copy, and what is still untouched. */
  ghost predicate Moved(m0: Mem, m: Mem, src: nat, w: nat) {
    && |m| == |m0| && src + w <= |m0| && RoundUp(w) <= |m0|
    && m[..w] == m0[src..src + w]
    && IsErased(m, w, RoundUp(w))
    && m[RoundUp(w)..] == m0[RoundUp(w)..]
  }

  lemma RoundStep(w: nat)
    requires w % BLOCK == 0
    ensures if w % SECTOR == 0 then RoundUp(w) == w && RoundUp(w + BLOCK) == w + SECTOR && SectorOf(w) == w
            else w + BLOCK <= RoundUp(w) == RoundUp(w + BLOCK) <= w + SECTOR
  {
    var p := w / BLOCK;
    var q, j := p / 16, p % 16;
    assert w == SECTOR * q + BLOCK * j;
    if j == 0 {
      RoundUpIs(w, q);
    } else {
      RoundUpIs(w, q + 1);
    }
    RoundUpIs(w + BLOCK, q + 1);
  }

  lemma RoundUpIs(w: nat, q: nat)
    requires SECTOR * q - SECTOR < w <= SECTOR * q
    ensures RoundUp(w) == SECTOR * q
    ensures w == SECTOR * q <==> w % SECTOR == 0
  {
  }

  /** The flash made ready for the block at w: erased when the block opens a sector. The erase
      stays below the bytes still to be read because the source starts eight sectors up. */
  function Ready(m: Mem, w: nat): (e: Mem)
    ensures |e| == |m|
  {
    if w % SECTOR == 0 then EraseSector(m, w) else m
  }

  lemma MakeReady(m0: Mem, m: Mem, src: nat, w: nat)
    requires Moved(m0, m, src, w) && w % BLOCK == 0 && src >= LOW_IMAGE && src + w + SECTOR <= |m0|
    ensures var e, top := Ready(m, w), RoundUp(w + BLOCK);
            && w + BLOCK <= top <= w + SECTOR
            && e[..w] == m[..w] && IsErased(e, w, top) && e[top..] == m0[top..]
            && e[src + w..src + w + BLOCK] == m0[src + w..src + w + BLOCK]
  {
    RoundStep(w);
    var e, top := Ready(m, w), RoundUp(w + BLOCK);
    assert e[top..] == m0[top..] by {
      forall i | top <= i < |m0| ensures e[i] == m0[i] {
        assert e[i] == m[i] == m[RoundUp(w)..][i - RoundUp(w)];
      }
    }
    assert e[src + w..src + w + BLOCK] == e[top..][src + w - top..src + w - top + BLOCK];
  }

  /** Writing the block it just read advances the copy. */
  lemma MoveBlock(m0: Mem, m: Mem, src: nat, w: nat)
    requires Moved(m0, m, src, w) && w % BLOCK == 0 && src >= LOW_IMAGE && src + w + SECTOR <= |m0|
    ensures Ready(m, w)[src + w..src + w + BLOCK] == m0[src + w..src + w + BLOCK]
    ensures Moved(m0, Program(Ready(m, w), w, m0[src + w..src + w + BLOCK]), src, w + BLOCK)
  {
    MakeReady(m0, m, src, w);
    var e, top := Ready(m, w), RoundUp(w + BLOCK);
    var data := m0[src + w..src + w + BLOCK];
    ProgramErased(e, w, data);
    var r := Program(e, w, data);
    assert r[..w + BLOCK] == r[..w] + r[w..w + BLOCK];
    assert m0[src..src + w + BLOCK] == m0[src..src + w] + data;
    assert r[top..] == r[w + BLOCK..][top - w - BLOCK..];
    assert e[top..] == e[w + BLOCK..][top - w - BLOCK..];
    forall i | w + BLOCK <= i < top ensures r[i] == 0xFF {
      assert r[i] == r[w + BLOCK..][i - w - BLOCK] == e[w + BLOCK..][i - w - BLOCK];
    }
  }

  datatype Outcome = NoImage | Restarted

  /** After the copy: the final flag write changes nothing and the MAC sectors are erased. */
  lemma RewriteFlag(m: Mem)
    requires IsBootable(m, 0)
    ensures Program(m, 8, BOOTABLE) == m
  {
    forall i | 0 <= i < |m| ensures Program(m, 8, BOOTABLE)[i] == m[i] {
      if 8 <= i < 12 { assert m[i] == m[8..12][i - 8]; }
    }
  }

  /** The first bytes of the moved image are those of the source. */
  lemma MovedIsBootable(m0: Mem, m: Mem, src: nat, w: nat)
    requires Moved(m0, m, src, w) && w >= BLOCK && IsBootable(m0, src)
    ensures IsBootable(m, 0)
  {
    SubSlice(m, 0, w, 8, 12);
    SubSlice(m0, src, src + w, 8, 12);
    assert m[0..w] == m[..w];
  }

  // ----- a power cut during the move

  /** What a power cut in the step that moves the block at w can leave. */
  ghost predicate CutStep(m0: Mem, m: Mem, src: nat, w: nat, c: Mem)
    requires src + w + BLOCK <= |m0|
  {
    || (w % SECTOR == 0 && Torn(m, Erase(w), c))
    || Torn(Ready(m, w), Write(w, m0[src + w..src + w + BLOCK]), c)
  }

  /** What is copied and what is not yet reached stay. */
  lemma CutTouches(m0: Mem, m: Mem, src: nat, w: nat, c: Mem)
    requires Moved(m0, m, src, w) && w % BLOCK == 0 && src >= LOW_IMAGE && src + w + SECTOR <= |m0|
    requires CutStep(m0, m, src, w, c)
    ensures |c| == |m0| && w + BLOCK <= RoundUp(w + BLOCK) <= |m0|
    ensures c[..w] == m0[src..src + w] && c[RoundUp(w + BLOCK)..] == m0[RoundUp(w + BLOCK)..]
  {
    MakeReady(m0, m, src, w);
    var e, top := Ready(m, w), RoundUp(w + BLOCK);
    assert m[top..] == m0[top..] by {
      forall i | top <= i < |m0| ensures m[i] == m0[i] {
        RoundStep(w);
        assert m[i] == m[RoundUp(w)..][i - RoundUp(w)];
      }
    }
    if w % SECTOR == 0 && Torn(m, Erase(w), c) {
      RoundStep(w);
      EraseReaches(m, w, c, top);
    } else {
      TornFrame(e, Write(w, m0[src + w..src + w + BLOCK]), c);
    }
  }

  lemma EraseReaches(m: Mem, w: nat, c: Mem, top: nat)
    requires SectorOf(w) == w && w + SECTOR == top <= |m| && Torn(m, Erase(w), c)
    ensures c[..w] == m[..w] && c[top..] == m[top..]
  {
    TornFrame(m, Erase(w), c);
  }

  /** A cut of the move leaves a bootable image, or the semblance of one. From the second block on address
      0 is bootable although only w bytes have arrived there and the old content follows; until the copy
      reaches the source, that one is bootable too. */
  lemma CutBootable(m0: Mem, m: Mem, src: nat, w: nat, c: Mem)
    requires Moved(m0, m, src, w) && w % BLOCK == 0 && src >= LOW_IMAGE && src + w + SECTOR <= |m0|
    requires IsBootable(m0, src) && CutStep(m0, m, src, w, c)
    ensures w >= BLOCK ==> IsBootable(c, 0)
    ensures RoundUp(w + BLOCK) <= src ==> IsBootable(c, src)
    ensures IsBootable(c, 0) || IsBootable(c, src)
    ensures |c| == |m0| && RoundUp(w + BLOCK) <= |m0|
    ensures c[..w] == m0[src..src + w] && c[RoundUp(w + BLOCK)..] == m0[RoundUp(w + BLOCK)..]
  {
    CutTouches(m0, m, src, w, c);
    var top := RoundUp(w + BLOCK);
    if w >= BLOCK {
      SubSlice(c, 0, w, 8, 12);
      SubSlice(m0, src, src + w, 8, 12);
      assert c[0..w] == c[..w];
    } else {
      RoundUpIs(BLOCK, 1);
    }
    if top <= src {
      SubSlice(c, top, |c|, src + 8 - top, src + 12 - top);
      SubSlice(m0, top, |m0|, src + 8 - top, src + 12 - top);
      assert c[top..|c|] == c[top..] && m0[top..|m0|] == m0[top..];
    }
  }

  /** A cut in the first sector can cost address 0 its start-up word. */
  lemma FirstCutBreaks(m0: Mem, src: nat) returns (c: Mem)
    requires src + BLOCK <= |m0| && |m0| >= SECTOR
    ensures CutStep(m0, m0, src, 0, c) && !IsBootable(c, 0)
  {
    c := EraseSector(m0, 0);
    assert SectorOf(0) == 0;
    assert c[8..12][0] == 0xFF;
  }

  /** A cut after the move, in the last flag write or in one of the erases, no longer matters. */
  lemma LateCut(m: Mem, op: Op, c: Mem)
    requires IsBootable(m, 0) && Torn(m, op, c)
    requires op == Write(8, BOOTABLE) || (op.Erase? && SectorOf(op.addr) >= SECTOR)
    ensures IsBootable(c, 0)
  {
    if op.Erase? {
      TornFrame(m, op, c);
    } else {
      RewriteFlag(m);
    }
    assert c[8..12] == m[8..12];
  }

  /** The choice in the flash's own bytes: the image at 0x8000 goes before the one at 0x20000, whatever its
      size, and the size of the chosen one decides whether it is moved. */
  lemma ChosenByBytes(m: Mem)
    requires |m| >= 0x80000
    ensures var src := if m[0x8008..0x800c] == [0x4b, 0x4e, 0x4c, 0x54] then 0x8000 else 0x20000;
      && Source(m) == src && ImageSize(m, src) == Word(m[src + 24..src + 28])
      && (Movable(m) <==>
            m[src + 8..src + 12] == [0x4b, 0x4e, 0x4c, 0x54] && 0x1000 < Word(m[src + 24..src + 28]) < 0x36000)
  {
  }

  /** The relocation. When a movable image is found, at 0x8000 or, if there is none, at 0x20000, its size
      rounded up to whole sectors is copied to address 0 exactly as it was, overlapping or not, and apart
      from the copy only the two MAC address sectors change; otherwise the flash is left alone. */
  method TuyaZigbeeOta(flash: Flash) returns (outcome: Outcome)
    requires !flash.faulty && (|flash.mem| == 0x80000 || |flash.mem| == 0x100000)
    modifies flash
    ensures var m := old(flash.mem);
      var src := if m[0x8008..0x800c] == [0x4b, 0x4e, 0x4c, 0x54] then 0x8000 else 0x20000;
      outcome.Restarted? <==>
        m[src + 8..src + 12] == [0x4b, 0x4e, 0x4c, 0x54] && 0x1000 < Word(m[src + 24..src + 28]) < 0x36000
    ensures outcome.NoImage? ==> flash.mem == old(flash.mem)
    ensures outcome.Restarted? ==>
              var src := if old(flash.mem)[0x8008..0x800c] == [0x4b, 0x4e, 0x4c, 0x54] then 0x8000 else 0x20000;
              var top := RoundUp(Word(old(flash.mem)[src + 24..src + 28]));
              && |flash.mem| == |old(flash.mem)| && src + top <= |flash.mem|
              && flash.mem[..top] == old(flash.mem)[src..src + top]
              && IsBootable(flash.mem, 0)
              && flash.mem[top..]
                 == EraseSector(EraseSector(old(flash.mem), MAC_512K), MAC_1M % |flash.mem|)[top..]
  {
    ghost var m0 := flash.mem;
    ChosenByBytes(m0);
    var faddrr, found := FindSource(flash);
    if !found { return NoImage; }
    var block := flash.Read(faddrr, BLOCK);
    SubSlice(m0, faddrr, faddrr + BLOCK, 24, 28);
    var size := Word(block[24..28]);
    if !(SECTOR < size < MAX_SIZE) { return NoImage; }
    size := RoundUp(size);
    CopyImage(flash, faddrr, block, size);
    Finish(flash, m0, faddrr, size);
    outcome := Restarted;
  }

  /** The search for the image to move. */
  method FindSource(flash: Flash) returns (faddrr: nat, found: bool)
    requires |flash.mem| >= 0x80000
    ensures faddrr == Source(flash.mem) && (found <==> IsBootable(flash.mem, faddrr))
  {
    SubSlice(flash.mem, LOW_IMAGE, LOW_IMAGE + 16, 8, 12);
    SubSlice(flash.mem, HIGH_IMAGE, HIGH_IMAGE + 16, 8, 12);
    faddrr, found := LOW_IMAGE, true;
    var head := flash.Read(faddrr, 16);
    if head[8..12] != BOOTABLE {
      faddrr := HIGH_IMAGE;
      head := flash.Read(faddrr, 16);
      found := head[8..12] == BOOTABLE;
    }
  }

  lemma NextBlock(w: nat, size: nat)
    requires w % BLOCK == 0 && size % SECTOR == 0 && w < size
    ensures (w + BLOCK) % BLOCK == 0 && w + BLOCK <= size
  {
    var k, p := size / SECTOR, w / BLOCK;
    assert size == BLOCK * (16 * k);
  }

  /** The copy loop, its first block taken from the header already read. */
  method CopyImage(flash: Flash, src: nat, block0: seq<byte>, size: nat)
    requires !flash.faulty && src >= LOW_IMAGE && src + size + SECTOR <= |flash.mem|
    requires SECTOR <= size && size % SECTOR == 0
    requires block0 == flash.mem[src..src + BLOCK]
    modifies flash
    ensures Moved(old(flash.mem), flash.mem, src, size)
  {
    ghost var m0 := flash.mem;
    WriteHeader(flash, block0, src);
    var faddrr, faddrw := src + BLOCK, BLOCK;
    while faddrw < size
      invariant BLOCK <= faddrw <= size && faddrw % BLOCK == 0 && faddrr == src + faddrw
      invariant Moved(m0, flash.mem, src, faddrw)
    {
      NextBlock(faddrw, size);
      CopyBlock(flash, faddrr, faddrw, m0, src);
      faddrr, faddrw := faddrr + BLOCK, faddrw + BLOCK;
    }
  }

  method WriteHeader(flash: Flash, block: seq<byte>, ghost src: nat)
    requires !flash.faulty && src >= LOW_IMAGE && src + SECTOR <= |flash.mem|
    requires block == flash.mem[src..src + BLOCK]
    modifies flash
    ensures Moved(old(flash.mem), flash.mem, src, BLOCK)
  {
    MoveBlock(flash.mem, flash.mem, src, 0);
    flash.Erase(0);
    var n := flash.WritePage(0, block);
  }

  /** The loop body: erase at a sector start, read a block, write it. */
  method CopyBlock(flash: Flash, faddrr: nat, faddrw: nat, ghost m0: Mem, ghost src: nat)
    requires !flash.faulty && Moved(m0, flash.mem, src, faddrw) && faddrr == src + faddrw
    requires faddrw % BLOCK == 0 && src >= LOW_IMAGE && src + faddrw + SECTOR <= |m0|
    modifies flash
    ensures Moved(m0, flash.mem, src, faddrw + BLOCK)
  {
    MoveBlock(m0, flash.mem, src, faddrw);
    ghost var e := Ready(flash.mem, faddrw);
    if faddrw % SECTOR == 0 { flash.Erase(faddrw); }
    assert flash.mem == e;
    var block := flash.Read(faddrr, BLOCK);
    var n := flash.WritePage(faddrw, block);
  }

  /** The final flag write, which changes nothing, and the two MAC address sectors erased. */
  method Finish(flash: Flash, ghost m0: Mem, ghost src: nat, ghost size: nat)
    requires !flash.faulty && (|m0| == 0x80000 || |m0| == 0x100000)
    requires SECTOR <= size <= MAX_SIZE && size % SECTOR == 0
    requires Moved(m0, flash.mem, src, size) && IsBootable(m0, src)
    modifies flash
    ensures |flash.mem| == |m0| && flash.mem[..size] == m0[src..src + size]
    ensures IsBootable(flash.mem, 0)
    ensures flash.mem[size..] == EraseSector(EraseSector(m0, MAC_512K), MAC_1M % |flash.mem|)[size..]
  {
    ghost var moved := flash.mem;
    assert RoundUp(size) == size;
    MovedIsBootable(m0, moved, src, size);
    RewriteFlag(moved);
    var n := flash.WritePage(8, BOOTABLE);
    EraseAbove(m0, moved, size);
    flash.Erase(MAC_512K);
    // Address lines above the chip's capacity are not decoded.
    flash.Erase(MAC_1M % |flash.mem|);
    SubSlice(flash.mem, 0, size, 8, 12);
    SubSlice(moved, 0, size, 8, 12);
  }

  /** Erasing the MAC sectors does not reach the copied image. */
  lemma EraseAbove(m0: Mem, m: Mem, top: nat)
    requires |m| == |m0| && (|m0| == 0x80000 || |m0| == 0x100000)
    requires top <= MAX_SIZE && m[top..] == m0[top..]
    ensures var f := EraseSector(EraseSector(m, MAC_512K), MAC_1M % |m|);
            var f0 := EraseSector(EraseSector(m0, MAC_512K), MAC_1M % |m0|);
            f[..top] == m[..top] && f[top..] == f0[top..]
  {
    var f := EraseSector(EraseSector(m, MAC_512K), MAC_1M % |m|);
    var f0 := EraseSector(EraseSector(m0, MAC_512K), MAC_1M % |m0|);
    assert SectorOf(MAC_512K) == MAC_512K && SectorOf(MAC_1M % |m|) == MAC_1M % |m| > MAX_SIZE;
    forall i | top <= i < |m| ensures f[i] == f0[i] {
      assert m[i] == m[top..][i - top] == m0[top..][i - top];
    }
  }
}
