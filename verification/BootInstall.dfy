/** The bootloader's install of an uploaded image (tl_zigbee_sdk/apps/bootLoader/bootloader.c:121-224). */
module BootInstall {
  import opened NorFlash
  import opened Crc32

  const FLAG_OFFSET := 8
  const SIZE_OFFSET := 0x18

  /** FW_START_UP_FLAG_WHOLE, 0x544c4e4b, least significant byte first. */
  const STARTUP: seq<byte> := [0x4b, 0x4e, 0x4c, 0x54]

  /** FW_START_UP_FLAG and TL_IMAGE_START_FLAG: the low byte of the start-up word. */
  const START_FLAG: byte := 0x4b

  /** Where the application runs, where its new image is uploaded, and how large either may be. */
  datatype Layout = Layout(load: nat, image: nat, max: nat)

  predicate Fits(l: Layout, mem: Mem) {
    && l.load % SECTOR == 0 && l.image % SECTOR == 0 && l.max % SECTOR == 0 && l.max >= SECTOR
    && l.load + l.max <= l.image && l.image + l.max <= |mem| && |mem| % SECTOR == 0
  }

  predicate HasFlag(mem: Mem, addr: nat) {
    addr + FLAG_OFFSET + 4 <= |mem| && mem[addr + FLAG_OFFSET..addr + FLAG_OFFSET + 4] == STARTUP
  }

  /** The start-up word, byte by byte and as the number the source compares it with. */
  lemma FlagIs(mem: Mem, addr: nat)
    ensures HasFlag(mem, addr) <==> (addr + 12 <= |mem|
      && mem[addr + 8] == 0x4b && mem[addr + 9] == 0x4e && mem[addr + 10] == 0x4c && mem[addr + 11] == 0x54)
    ensures HasFlag(mem, addr) ==> Word(mem[addr + 8..addr + 12]) == 0x544c4e4b
  {
    if addr + 12 <= |mem| {
      var b := mem[addr + FLAG_OFFSET..addr + FLAG_OFFSET + 4];
      assert b == [mem[addr + 8], mem[addr + 9], mem[addr + 10], mem[addr + 11]];
      WordIsNumber(mem, addr + 8);
    }
  }

  function FwSize(l: Layout, mem: Mem): (n: nat)
    requires Fits(l, mem)
    ensures n < 0x1_0000_0000
  {
    Word(mem[l.image + SIZE_OFFSET..l.image + SIZE_OFFSET + 4])
  }

  /** The image's body, over which the checksum runs: everything but the last four bytes. */
  function Body(mem: Mem, image: nat, size: nat): seq<byte>
    requires image + size <= |mem|
  {
    if size < 4 then [] else mem[image..image + size - 4]
  }

  /** The install condition: size in range and the stored checksum right. */
  predicate ImageOk(mem: Mem, image: nat, size: nat, max: nat, step: Table)
    requires 4 <= image && image + max <= |mem|
  {
    size <= max && Crc(step, INIT, Body(mem, image, size)) == Word(mem[image + size - 4..image + size])
  }

  /** The checksum in the last word of an image of n bytes is that of the bytes before it. */
  predicate SumsUp(mem: Mem, image: nat, n: nat, step: Table)
    requires 4 <= image && image + n <= |mem|
  {
    Folded(step, 0xffff_ffff, if n < 4 then [] else mem[image..image + n - 4]) == Word(mem[image + n - 4..image + n])
  }

  lemma OkExactly(mem: Mem, image: nat, size: nat, max: nat, step: Table)
    requires 4 <= image && image + max <= |mem|
    ensures ImageOk(mem, image, size, max, step) <==> size <= max && SumsUp(mem, image, size, step)
  {
    if size <= max {
      CrcIsFolded(step, INIT, Body(mem, image, size));
    }
  }

  /** A size rounded up to whole pages: what the copy moves. */
  function Extent(size: nat): (e: nat)
    ensures size <= e < size + PAGE && e % PAGE == 0
  {
    WholePages((size + PAGE - 1) / PAGE);
    (size + PAGE - 1) / PAGE * PAGE
  }

  lemma WholePages(q: nat)
    ensures q * 256 % 256 == 0
  {
  }

  /** The number of sectors erased at the end; the sum wraps in 32 bits. */
  function Sectors(size: nat): (n: nat) {
    ((size + 4095) % 0x1_0000_0000) / SECTOR
  }

  // ----- the flash operations of one run

  function RunOps(mem: Mem, ops: seq<Op>): (m: Mem)
    ensures |m| == |mem|
  {
    if ops == [] then mem else Apply(RunOps(mem, ops[..|ops| - 1]), ops[|ops| - 1])
  }

  /** Each operation with the memory it finds. */
  function Steps(mem: Mem, ops: seq<Op>): (s: seq<Step>)
    ensures |s| == |ops|
  {
    if ops == [] then []
    else Steps(mem, ops[..|ops| - 1]) + [Step(RunOps(mem, ops[..|ops| - 1]), ops[|ops| - 1])]
  }

  lemma RunOpsNext(mem: Mem, ops: seq<Op>, op: Op)
    ensures RunOps(mem, ops + [op]) == Apply(RunOps(mem, ops), op)
    ensures Steps(mem, ops + [op]) == Steps(mem, ops) + [Step(RunOps(mem, ops), op)]
  {
    assert (ops + [op])[..|ops|] == ops;
  }

  /** The 256 bytes of the image at offset i. */
  function Page(l: Layout, mem: Mem, i: nat): (d: seq<byte>)
    requires l.image + i + PAGE <= |mem|
    ensures |d| == PAGE
  {
    mem[l.image + i..l.image + i + PAGE]
  }

  /** Copying the first i bytes, whole pages: a sector is erased when its first page comes up. */
  function CopyOps(l: Layout, mem: Mem, i: nat): seq<Op>
    requires i % PAGE == 0 && l.image + i <= |mem|
    decreases i, 0
  {
    if i == 0 then [] else ReadyOps(l, mem, i - PAGE) + [Write(l.load + i - PAGE, Page(l, mem, i - PAGE))]
  }

  /** The operations up to the point where the page at offset i is about to be written. */
  function ReadyOps(l: Layout, mem: Mem, i: nat): seq<Op>
    requires i % PAGE == 0 && l.image + i <= |mem|
    decreases i, 1
  {
    CopyOps(l, mem, i) + if i % SECTOR == 0 then [Erase(l.load + i)] else []
  }

  /** The address the chip decodes: lines above its capacity are ignored. */
  function Decoded(a: nat, size: nat): (d: nat)
    requires size > 0
    ensures d < size
  {
    if a < size then a else Decoded(a - size, size)
  }

  /** Erasing the first n sectors of the image. */
  function EraseOps(l: Layout, size: nat, n: nat): seq<Op>
    requires size > 0
  {
    if n == 0 then [] else EraseOps(l, size, n - 1) + [Erase(Decoded(l.image + (n - 1) * SECTOR, size))]
  }

  /** What follows the copy: the flag cleared, the image erased. */
  function RetireOps(l: Layout, mem: Mem, n: nat): seq<Op>
    requires |mem| > 0
  {
    [Write(l.image + FLAG_OFFSET, [0])] + EraseOps(l, |mem|, n)
  }

  lemma ExtentFits(size: nat, max: nat)
    requires size <= max && max % SECTOR == 0
    ensures Extent(size) <= max
  {
    Pages(Extent(size), size, (size + 255) / 256, max, max / 4096);
  }

  lemma Pages(e: nat, size: nat, q: nat, max: nat, k: nat)
    requires e == 256 * q && e < size + 256 && size <= max && max == 4096 * k
    ensures e <= max
  {
    NoFurther(q - 16 * k);
  }

  lemma NoFurther(t: int)
    requires 256 * t < 256
    ensures t <= 0
  {
  }

  /** The operations on a flagged image of this size, installed or rejected. */
  function InstallOps(l: Layout, mem: Mem, n: nat, valid: bool): seq<Op>
    requires Fits(l, mem) && (valid ==> n <= l.max)
  {
    if valid then
      ExtentFits(n, l.max);
      CopyOps(l, mem, Extent(n)) + RetireOps(l, mem, Sectors(n))
    else RetireOps(l, mem, Sectors(n))
  }

  /** All the operations of a run on a flash with this content. */
  function BootOps(l: Layout, mem: Mem, step: Table): seq<Op>
    requires Fits(l, mem)
  {
    var n := FwSize(l, mem);
    if !HasFlag(mem, l.image) then [] else InstallOps(l, mem, n, ImageOk(mem, l.image, n, l.max, step))
  }
}
