/** The bootloader's serial upload: what each message and timer event does to the session record,
    the flash and the reply stream (tl_zigbee_sdk/apps/bootLoader/bootloader.c:226-506). */
module BootUpload {
  import opened NorFlash
  import opened Crc32
  import opened BootInstall

  const BLOCK_MAX := 40
  const RETRY_MAX := 5

  datatype Status = Success | Timeout | InProgress | IncorrectOffset | Oversize | BadResponse

  /** Messages to the host. */
  datatype Msg =
    | StartRsp(start: nat, total: nat, offset: nat, status: Status)
    | BlockReq(offset: nat, len: nat)
    | Ack(status: Status)
    | End(total: nat, offset: nat, status: Status)

  /** upgradeInfo; timer says whether upgradeTimer is scheduled. */
  datatype Info = Info(timer: bool, start: nat, total: nat, offset: nat, retry: nat)

  const IDLE := Info(false, 0, 0, 0, 0)

  /** check says whether the delayed bootloader_with_ota_check is scheduled. */
  datatype State = State(info: Info, mem: Mem, check: bool, out: seq<Msg>)

  /** A start request, a block response (its status byte, its offset and its data), the retry
      timer, or the delayed boot check (with the table its checksum uses). */
  datatype Event =
    | Start(size: nat)
    | Block(status: nat, offset: nat, data: seq<byte>)
    | Tick
    | Check(step: Table)

  /** The room the erase makes: whole sectors. */
  function Room(size: nat): (r: nat)
    ensures size <= r < size + SECTOR && r % SECTOR == 0
  {
    (size + 4095) / 4096 * SECTOR
  }

  /** The first block has its byte at FLAG_OFFSET forced to 0xFF; in a shorter block the code
      overwrites a byte behind the data, which never reaches the flash. */
  function Masked(data: seq<byte>): (d: seq<byte>)
    ensures |d| == |data|
  {
    if |data| > FLAG_OFFSET then data[FLAG_OFFSET := 0xFF] else data
  }

  function OnStart(l: Layout, s: State, size: nat): State {
    if s.info.start != 0 then
      s.(out := s.out + [StartRsp(s.info.start, s.info.total, s.info.offset, InProgress)])
    else if size <= l.max then
      State(Info(true, l.image, size, 0, 0), Blanked(s.mem, l.image, l.image + Room(size)), false,
            s.out + [StartRsp(l.image, size, 0, Success)])
    else s.(out := s.out + [StartRsp(s.info.start, s.info.total, s.info.offset, Oversize)])
  }

  function OnBlock(s: State, status: nat, offset: nat, data: seq<byte>): State {
    var i := s.info;
    if status != 0 || i.total == 0 then
      s.(info := IDLE, out := s.out + [End(i.total, i.offset, BadResponse)])
    else if offset == i.offset && 0 < |data| <= BLOCK_MAX then
      Accept(s, data)
    else
      s.(info := i.(timer := false), out := s.out + [Ack(IncorrectOffset)])
  }

  /** A block at the expected offset: written, and the session continued, completed or given up. */
  function Accept(s: State, data: seq<byte>): State {
    var i := s.info;
    var mem := Program(s.mem, i.start + i.offset, if i.offset == 0 then Masked(data) else data);
    var offset := i.offset + |data|;
    if offset == i.total then
      State(IDLE, Program(mem, i.start + FLAG_OFFSET, [START_FLAG]), true, s.out + [End(i.total, offset, Success)])
    else if offset > i.total then
      s.(info := IDLE, mem := mem, out := s.out + [End(i.total, offset, IncorrectOffset)])
    else
      s.(info := Info(true, i.start, i.total, offset, 0), mem := mem, out := s.out + [Ack(Success)])
  }

  /** The length asked for next. */
  function Wanted(i: Info): (n: nat)
    requires i.offset <= i.total
  {
    if i.total - i.offset >= BLOCK_MAX then BLOCK_MAX else i.total - i.offset
  }

  function OnTick(s: State): State
    requires s.info.offset <= s.info.total
  {
    var i := s.info;
    if i.retry < RETRY_MAX then
      s.(info := i.(retry := i.retry + 1), out := s.out + [BlockReq(i.offset, Wanted(i))])
    else
      s.(info := IDLE, out := s.out + [End(i.total, i.offset, Timeout)])
  }

  /** otaChkDelayCb: a flagged image is installed or rejected. When an application stands there
      afterwards it is started; what the model says from then on is for a bootloader that runs again. */
  function OnCheck(l: Layout, s: State, step: Table): State
    requires Fits(l, s.mem)
  {
    s.(mem := RunOps(s.mem, BootOps(l, s.mem, step)), check := false)
  }

  /** A timer event is possible only while its timer is scheduled. */
  predicate Possible(s: State, e: Event) {
    && (e.Tick? ==> s.info.timer)
    && (e.Check? ==> s.check)
  }

  function Handle(l: Layout, s: State, e: Event): State
    requires e.Tick? ==> s.info.offset <= s.info.total
    requires e.Check? ==> Fits(l, s.mem)
  {
    match e
    case Start(size) => OnStart(l, s, size)
    case Block(status, offset, data) => OnBlock(s, status, offset, data)
    case Tick => OnTick(s)
    case Check(step) => OnCheck(l, s, step)
  }
}
