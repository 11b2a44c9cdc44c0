/** The host interface's image upload (tl_zigbee_sdk/zbhci/zbhciCmdProcess.c:1041-1280): what each
    message and timer event does to ota_info, the flash and the reply stream. */
module HciUpload {
  import opened NorFlash
  import opened Crc32
  import opened BootInstall

  const BLOCK_REQUEST := 40
  const RETRIES := 5

  /** FW_START_UP_FLAG_CHECK, 0x544c4eff: the start-up word with its first byte masked. */
  const CHECK_FLAG: seq<byte> := [0xff, 0x4e, 0x4c, 0x54]

  datatype Status =
    | Success | Timeout | InProgress | IncorrectOffset | Oversize | IncorrectData | MatchBootFlag | NoAddress

  datatype Msg =
    | StartRsp(status: Status, start: nat, total: nat, offset: nat)
    | BlockReq(offset: nat, len: nat)
    | End(total: nat, offset: nat, status: Status)

  /** g_hciOtaTimer: not scheduled, asking for the next block, or due to reboot into the image. */
  datatype Timer = Off | Retry | Reboot

  /** ota_info; local is binType == ZBHCI_OTA_LOCAL_BIN. */
  datatype Ota = Ota(started: bool, start: nat, total: nat, offset: nat, crc: nat, boot: seq<byte>, found: bool,
                     count: nat, local: bool)

  const CLEAR := Ota(false, 0, 0, 0, 0, [0, 0, 0, 0], false, 0, false)

  datatype State = State(ota: Ota, timer: Timer, mem: Mem, out: seq<Msg>)

  /** The device: whether it knows its boot address, where images go, and the checksum table. */
  datatype Device = Device(known: bool, area: nat, max: nat, step: Table)

  /** A start request, or a block response: its status byte, offset and data, and the byte that
      happens to lie behind the data in the receive buffer. */
  datatype Event = Start(size: nat, local: bool) | Block(status: nat, offset: nat, data: seq<byte>, behind: byte) | Tick

  /** Whole sectors covering n bytes and at least one more. */
  function Cover(n: nat): (r: nat)
    ensures n < r <= n + SECTOR && r % SECTOR == 0
  {
    (n / SECTOR + 1) * SECTOR
  }

  /** uart_send_ota_end: report, erase what was received unless it succeeded, forget the session. */
  function EndWith(s: State, status: Status): State {
    s.(ota := CLEAR, out := s.out + [End(s.ota.total, s.ota.offset, status)],
       mem := if status == Success then s.mem else Blanked(s.mem, s.ota.start, s.ota.start + Cover(s.ota.offset)))
  }

  /** A start request. An oversized one is refused only after its address and size are stored. */
  function OnStart(d: Device, s: State, size: nat, local: bool): State {
    if s.ota.started then Respond(s, InProgress)
    else if !d.known then Respond(s, NoAddress)
    else if size >= d.max then Respond(s.(ota := s.ota.(start := d.area, total := size)), Oversize)
    else
      Respond(s.(ota := Ota(true, d.area, size, 0, INIT, s.ota.boot, false, 0, local),
                 timer := Retry,
                 mem := Blanked(s.mem, d.area, d.area + Cover(size))), Success)
  }

  function Respond(s: State, status: Status): State {
    s.(out := s.out + [StartRsp(status, s.ota.start, s.ota.total, s.ota.offset)])
  }

  /** Unsigned 32-bit subtraction. */
  function Sub32(a: int, b: int): (r: int)
    ensures b <= a ==> r == a - b
  {
    if b <= a then a - b else a - b + 0x1_0000_0000
  }

  /** Unsigned 32-bit addition of two values in range. */
  function Add32(a: nat, b: nat): (r: nat)
    ensures a + b < 0x1_0000_0000 ==> r == a + b
    ensures a < 0x1_0000_0000 && b < 0x1_0000_0000 ==> r < 0x1_0000_0000
  {
    if a + b < 0x1_0000_0000 then a + b else a + b - 0x1_0000_0000
  }

  /** How much of a block the checksum takes: nothing of the last four bytes of the file. The
      subtraction is unsigned, so a block beyond the end of the file is taken whole. */
  function CrcLen(o: Ota, len: nat): (n: nat)
    requires len < 256 && o.offset < 0x1_0000_0000
    ensures n <= len
  {
    var left := Sub32(o.total, o.offset);
    if left < 4 then 0 else if Sub32(left, len) >= 4 then len else left - 4
  }

  /** The block reaches the byte at FLAG_OFFSET, or ends right before it. */
  predicate ReachesFlag(offset: nat, len: nat) {
    offset <= FLAG_OFFSET <= offset + len
  }

  /** The byte taken for the flag; the one behind the block when the block ends right before it. */
  function FlagByteOf(offset: nat, data: seq<byte>, behind: byte): byte
    requires ReachesFlag(offset, |data|)
  {
    if FLAG_OFFSET - offset < |data| then data[FLAG_OFFSET - offset] else behind
  }

  function Mask(offset: nat, data: seq<byte>): (r: seq<byte>)
    ensures |r| == |data|
  {
    if offset <= FLAG_OFFSET < offset + |data| then data[FLAG_OFFSET - offset := 0xff] else data
  }

  /** The bytes of the start-up word collected so far, with those of this block. */
  function Collect(boot: seq<byte>, offset: nat, data: seq<byte>): (r: seq<byte>)
    requires |boot| == 4
    ensures |r| == 4
  {
    seq(4, k requires 0 <= k < 4 =>
      if offset <= FLAG_OFFSET + k < offset + |data| then data[FLAG_OFFSET + k - offset] else boot[k])
  }

  /** The block holds the last byte of the start-up word. */
  predicate CompletesFlag(offset: nat, len: nat) {
    offset <= FLAG_OFFSET + 3 < offset + len
  }

  function OnBlock(d: Device, s: State, status: nat, offset: nat, data: seq<byte>, behind: byte): State
    requires s.ota.offset < 0x1_0000_0000 && |s.ota.boot| == 4 && |data| < 256
  {
    if status != 0 then EndWith(s.(timer := Off), IncorrectData)
    else if offset != s.ota.offset then s
    else if s.ota.local then LocalBlock(d, s.(timer := Off), data, behind)
    else RemoteBlock(s.(timer := Off), data)
  }

  /** A block of an image for this device: summed, its flag byte checked and masked. */
  function LocalBlock(d: Device, s: State, data: seq<byte>, behind: byte): State
    requires s.ota.offset < 0x1_0000_0000 && |data| < 256
  {
    var o := s.ota;
    var crc := Crc(d.step, o.crc, data[..CrcLen(o, |data|)]);
    if ReachesFlag(o.offset, |data|) && FlagByteOf(o.offset, data, behind) != START_FLAG then
      EndWith(s.(ota := o.(crc := crc)), IncorrectData)
    else
      Store(s.(ota := o.(crc := crc)), Mask(o.offset, data))
  }

  /** A block of a file for another device: one that starts like a bare firmware is refused. */
  function RemoteBlock(s: State, data: seq<byte>): State
    requires |s.ota.boot| == 4
  {
    var o := s.ota;
    if o.found then Store(s, data)
    else
      var o' := o.(boot := Collect(o.boot, o.offset, data), found := CompletesFlag(o.offset, |data|));
      if o'.found && o'.boot == STARTUP then EndWith(s.(ota := o'), MatchBootFlag) else Store(s.(ota := o'), data)
  }

  /** The block is written and the session continued, completed or given up. */
  function Store(s: State, data: seq<byte>): State {
    var o := s.ota.(offset := Add32(s.ota.offset, |data|));
    var s' := s.(ota := o, mem := Program(s.mem, s.ota.start + s.ota.offset, data));
    if o.offset < o.total then s'.(ota := o.(count := 0), timer := Retry)
    else if o.offset > o.total then EndWith(s', IncorrectOffset)
    else if !o.local then EndWith(s', Success)
    else if Checked(s'.mem, o) then EndWith(s'.(timer := Reboot), Success)
    else EndWith(s', IncorrectData)
  }

  /** The word that ends at address e. Below address 0 the chip, which ignores the address lines above its
      capacity, reads its last bytes and runs on at the first. */
  function WordEnding(mem: Mem, e: nat): (w: nat)
    requires 4 <= |mem| && e <= |mem|
    ensures e >= 4 ==> w == Word(mem[e - 4..e])
  {
    if e >= 4 then Word(mem[e - 4..e]) else Word(mem[|mem| + e - 4..] + mem[..e])
  }

  /** The stored checksum equals the running one and the masked start-up word is there. */
  predicate Checked(mem: Mem, o: Ota) {
    && 4 <= |mem| && o.start + o.total <= |mem| && WordEnding(mem, o.start + o.total) == o.crc
    && o.start + FLAG_OFFSET + 4 <= |mem| && mem[o.start + FLAG_OFFSET..o.start + FLAG_OFFSET + 4] == CHECK_FLAG
  }

  function Wanted(o: Ota): (n: nat)
    requires o.offset < 0x1_0000_0000
  {
    var left := Sub32(o.total, o.offset);
    if left >= BLOCK_REQUEST then BLOCK_REQUEST else left
  }

  /** recv_ota_block_response_cb. */
  function OnTick(s: State): State
    requires s.ota.offset < 0x1_0000_0000
  {
    if s.ota.count < RETRIES then
      s.(ota := s.ota.(count := s.ota.count + 1), out := s.out + [BlockReq(s.ota.offset, Wanted(s.ota))])
    else EndWith(s, Timeout).(timer := Off)
  }

  function Handle(d: Device, s: State, e: Event): State
    requires s.ota.offset < 0x1_0000_0000 && |s.ota.boot| == 4 && (e.Block? ==> |e.data| < 256)
  {
    match e
    case Start(size, local) => OnStart(d, s, size, local)
    case Block(status, offset, data, behind) => OnBlock(d, s, status, offset, data, behind)
    case Tick => OnTick(s)
  }

  // ----- the reboot after a local image

  /** The body as ota_newImageValid sums it: the flag byte unmasked. */
  function Unmasked(body: seq<byte>): (r: seq<byte>)
    ensures |r| == |body|
  {
    if |body| > FLAG_OFFSET then body[FLAG_OFFSET := START_FLAG] else body
  }

  /** The image's own size word. */
  function SizeAt(d: Device, mem: Mem): nat
    requires d.area + SECTOR <= |mem|
  {
    Word(mem[d.area + SIZE_OFFSET..d.area + SIZE_OFFSET + 4])
  }

  /** The image area is on the chip. */
  predicate Checkable(d: Device, mem: Mem) {
    d.area + d.max <= |mem| && d.max >= SECTOR
  }

  /** ota_newImageValid (tl_zigbee_sdk/zigbee/ota/ota.c:151-195). */
  predicate NewImageValid(d: Device, mem: Mem)
    requires Checkable(d, mem)
  {
    var n := SizeAt(d, mem);
    && n <= d.max
    && mem[d.area + FLAG_OFFSET + 1..d.area + FLAG_OFFSET + 4] == CHECK_FLAG[1..]
    && Crc(d.step, INIT, Unmasked(Body(mem, d.area, n))) == WordEnding(mem, d.area + n)
  }

  /** A build in which a bootloader installs the image, or one in which the chip boots an image where
      it is; then the running one is at this address. */
  datatype Build = Loader | Direct(running: nat)

  /** The image is valid and its flag byte can be set: it reads back as written. */
  predicate Reboots(d: Device, mem: Mem)
    requires Checkable(d, mem)
  {
    NewImageValid(d, mem) && mem[d.area + FLAG_OFFSET] & START_FLAG == START_FLAG
  }

  /** local_ota_reboot_delay: the flag byte is set in a valid image, and without a bootloader that of
      the running image cleared. */
  function OnReboot(d: Device, mem: Mem, build: Build): Mem
    requires Checkable(d, mem)
  {
    if !NewImageValid(d, mem) then mem
    else
      var m := Program(mem, d.area + FLAG_OFFSET, [START_FLAG]);
      if Reboots(d, mem) && build.Direct? then Program(m, build.running + FLAG_OFFSET, [0]) else m
  }

  /** mcuBootAddrGet without a bootloader (tl_zigbee_sdk/zigbee/ota/ota.c:134-147): -1 for none. */
  function BootAddr(mem: Mem, upper: nat): int {
    if HasFlag(mem, 0) then 0 else if HasFlag(mem, upper) then upper else -1
  }
}
