/** What the host interface's upload keeps over every run of messages and timer events. */
module HciUploadProofs {
  import opened NorFlash
  import opened Crc32
  import opened BootInstall
  import opened HciUpload
  import opened BootCopy
  import Boot = BootUploadProofs

  /** The image area as the device is laid out: whole sectors, with another block's length behind. */
  predicate Site(d: Device, mem: Mem) {
    && d.area % SECTOR == 0 && d.max % SECTOR == 0 && SECTOR <= d.max <= 0x1000_0000
    && d.area + d.max + SECTOR <= |mem|
  }

  /** The bytes received as they stand in the flash: a local image's flag byte is masked. */
  function Content(local: bool, got: seq<byte>): (c: seq<byte>)
    ensures |c| == |got|
  {
    if local && |got| > FLAG_OFFSET then got[FLAG_OFFSET := 0xff] else got
  }

  /** How many of the first n bytes of a file of this size are summed. */
  function Summed(total: nat, n: nat): (k: nat)
    ensures k <= n
  {
    if total < 4 then 0 else if n <= total - 4 then n else total - 4
  }

  ghost predicate LocalSoFar(d: Device, o: Ota, got: seq<byte>) {
    && o.crc == Crc(d.step, INIT, got[..Summed(o.total, |got|)])
    && (|got| > FLAG_OFFSET ==> got[FLAG_OFFSET] == START_FLAG)
  }

  ghost predicate RemoteSoFar(o: Ota, got: seq<byte>) {
    && |o.boot| == 4 && (o.found <==> |got| >= FLAG_OFFSET + 4)
    && (forall k :: 0 <= k < 4 && FLAG_OFFSET + k < |got| ==> o.boot[k] == got[FLAG_OFFSET + k])
    && (|got| >= FLAG_OFFSET + 4 ==> got[FLAG_OFFSET..FLAG_OFFSET + 4] != STARTUP)
  }

  /** The record of an open session fits the bytes received. */
  ghost predicate Fitting(d: Device, o: Ota, got: seq<byte>) {
    && |o.boot| == 4 && o.start == d.area && o.total < d.max && o.offset == |got|
    && |got| <= o.total && (o.total > 0 ==> |got| < o.total)
    && if o.local then LocalSoFar(d, o, got) else RemoteSoFar(o, got)
  }

  ghost predicate Open(d: Device, s: State, got: seq<byte>) {
    && s.timer == Retry && Fitting(d, s.ota, got)
    && Held(d.area, s.mem, Content(s.ota.local, got), Cover(s.ota.total))
  }

  ghost predicate Inv(d: Device, s: State, got: seq<byte>) {
    && Site(d, s.mem) && |s.ota.boot| == 4 && s.ota.offset < 0x1_0000_0000
    && (s.ota.started ==> Open(d, s, got))
  }

  /** The retry event happens only while its timer is scheduled; a block's length is a byte. */
  predicate Possible(s: State, e: Event) {
    match e
    case Tick => s.timer == Retry
    case Block(_, _, data, _) => |data| < 256
    case Start(_, _) => true
  }

  function Received(s: State, got: seq<byte>, e: Event): seq<byte> {
    match e
    case Start(_, _) => if s.ota.started then got else []
    case Block(status, offset, data, _) => if status == 0 && offset == s.ota.offset then got + data else got
    case Tick => got
  }

  // ----- the running checksum

  /** The block's share is what the summed prefix grows by, for a block within the file. */
  lemma CrcLenIsGrowth(o: Ota, len: nat)
    requires len < 256 && o.offset + len <= o.total < 0x1_0000_0000
    ensures CrcLen(o, len) == Summed(o.total, o.offset + len) - Summed(o.total, o.offset)
  {
  }

  lemma CrcGrows(step: Table, got: seq<byte>, data: seq<byte>, a: nat, n: nat)
    requires a <= |got| && n <= |data| && (n > 0 ==> a == |got|)
    ensures Crc(step, Crc(step, INIT, got[..a]), data[..n]) == Crc(step, INIT, (got + data)[..a + n])
  {
    CrcAppend(step, INIT, got[..a], data[..n]);
    assert (got + data)[..a + n] == got[..a] + data[..n];
  }

  /** After a local block the running value is the checksum of the longer prefix. */
  lemma LocalGrows(d: Device, o: Ota, got: seq<byte>, data: seq<byte>)
    requires LocalSoFar(d, o, got) && o.offset == |got| && |data| < 256 && |got| + |data| <= o.total < 0x1_0000_0000
    ensures Crc(d.step, o.crc, data[..CrcLen(o, |data|)])
         == Crc(d.step, INIT, (got + data)[..Summed(o.total, |got + data|)])
  {
    CrcLenIsGrowth(o, |data|);
    CrcGrows(d.step, got, data, Summed(o.total, |got|), CrcLen(o, |data|));
  }

  // ----- the stored bytes

  lemma ContentGrows(local: bool, got: seq<byte>, data: seq<byte>)
    ensures Content(local, got + data) == Content(local, got) + if local then Mask(|got|, data) else data
  {
  }

  lemma CoverFits(n: nat, max: nat)
    requires n < max && max % SECTOR == 0
    ensures Cover(n) <= max
  {
  }

  /** The memory with the block programmed. */
  function Written(s: State, data: seq<byte>): Mem {
    Program(s.mem, s.ota.start + s.ota.offset, if s.ota.local then Mask(s.ota.offset, data) else data)
  }

  lemma BlockHeld(d: Device, s: State, got: seq<byte>, data: seq<byte>)
    requires Open(d, s, got) && |got| + |data| <= s.ota.total
    ensures Held(d.area, Written(s, data), Content(s.ota.local, got + data), Cover(s.ota.total))
  {
    ContentGrows(s.ota.local, got, data);
    var r := if s.ota.local then Mask(|got|, data) else data;
    HeldAppend(d.area, s.mem, Content(s.ota.local, got), r, Cover(s.ota.total));
    assert Written(s, data) == Program(s.mem, d.area + |got|, r);
  }

  // ----- steps

  lemma StartKeeps(d: Device, s: State, size: nat, local: bool)
    requires Inv(d, s, []) && !s.ota.started
    ensures Inv(d, OnStart(d, s, size, local), [])
  {
    if d.known && size < d.max {
      CoverFits(size, d.max);
      var s' := OnStart(d, s, size, local);
      assert Held(d.area, s'.mem, [], Cover(size));
      var none: seq<byte> := [];
      assert none[..Summed(size, 0)] == [];
    }
  }

  /** A block that is stored keeps the invariant, whether it ends the session or not. */
  lemma StoreKeeps(d: Device, s: State, data: seq<byte>, f: seq<byte>)
    requires Site(d, s.mem) && s.ota.started && |s.ota.boot| == 4 && s.ota.start == d.area && s.ota.total < d.max
    requires s.ota.offset + |data| < 0x1_0000_0000
    requires s.ota.offset + |data| <= s.ota.total ==>
               && |f| == s.ota.offset + |data|
               && (if s.ota.local then LocalSoFar(d, s.ota, f) else RemoteSoFar(s.ota, f))
               && Held(d.area, Program(s.mem, d.area + s.ota.offset, data), Content(s.ota.local, f), Cover(s.ota.total))
    ensures Inv(d, Store(s, data), f)
  {
  }

  /** What a local block amounts to, its running checksum crc aside. */
  lemma LocalBlockIs(d: Device, s: State, data: seq<byte>, behind: byte) returns (crc: nat, s': State)
    requires s.ota.offset < 0x1_0000_0000 && |data| < 256
    ensures crc == Crc(d.step, s.ota.crc, data[..CrcLen(s.ota, |data|)]) && s' == s.(ota := s.ota.(crc := crc))
    ensures LocalBlock(d, s, data, behind)
         == if ReachesFlag(s.ota.offset, |data|) && FlagByteOf(s.ota.offset, data, behind) != START_FLAG
            then EndWith(s', IncorrectData) else Store(s', Mask(s.ota.offset, data))
  {
    crc := Crc(d.step, s.ota.crc, data[..CrcLen(s.ota, |data|)]);
    s' := s.(ota := s.ota.(crc := crc));
  }

  lemma LocalKeeps(d: Device, s: State, got: seq<byte>, data: seq<byte>, behind: byte)
    requires Site(d, s.mem) && Open(d, s, got) && s.ota.started && s.ota.local && |data| < 256
    ensures Inv(d, LocalBlock(d, s.(timer := Off), data, behind), got + data)
  {
    var crc, s' := LocalBlockIs(d, s.(timer := Off), data, behind);
    if ReachesFlag(|got|, |data|) && FlagByteOf(|got|, data, behind) != START_FLAG {
      EndKeeps(d, s', IncorrectData, got + data);
    } else {
      LocalStored(d, s, got, data, behind, crc, s', Mask(|got|, data), got + data);
    }
  }

  lemma EndKeeps(d: Device, s: State, status: Status, got: seq<byte>)
    requires Site(d, s.mem)
    ensures Inv(d, EndWith(s, status), got)
  {
  }

  lemma LocalStored(d: Device, s: State, got: seq<byte>, data: seq<byte>, behind: byte,
                    crc: nat, s': State, masked: seq<byte>, f: seq<byte>)
    requires Site(d, s.mem) && Open(d, s, got) && s.ota.started && s.ota.local && |data| < 256
    requires s' == s.(timer := Off, ota := s.ota.(crc := crc)) && masked == Mask(|got|, data) && f == got + data
    requires crc == Crc(d.step, s.ota.crc, data[..CrcLen(s.ota, |data|)])
    requires ReachesFlag(|got|, |data|) ==> FlagByteOf(|got|, data, behind) == START_FLAG
    ensures Inv(d, Store(s', masked), f)
  {
    if |got| + |data| <= s.ota.total {
      LocalGrown(d, s.ota, got, data, behind, crc);
      LocalHeld(d, s, got, data, masked, f);
    }
    StoreKeeps(d, s', masked, f);
  }

  lemma LocalHeld(d: Device, s: State, got: seq<byte>, data: seq<byte>, masked: seq<byte>, f: seq<byte>)
    requires Open(d, s, got) && s.ota.local && |got| + |data| <= s.ota.total
    requires masked == Mask(|got|, data) && f == got + data
    ensures Held(d.area, Program(s.mem, d.area + |got|, masked), Content(true, f), Cover(s.ota.total))
  {
    BlockHeld(d, s, got, data);
  }

  lemma LocalGrown(d: Device, o: Ota, got: seq<byte>, data: seq<byte>, behind: byte, crc: nat)
    requires LocalSoFar(d, o, got) && o.offset == |got| && |data| < 256 && |got| + |data| <= o.total < 0x1_0000_0000
    requires crc == Crc(d.step, o.crc, data[..CrcLen(o, |data|)])
    requires ReachesFlag(|got|, |data|) ==> FlagByteOf(|got|, data, behind) == START_FLAG
    ensures LocalSoFar(d, o.(crc := crc), got + data)
  {
    LocalGrows(d, o, got, data);
    FlagSeen(got, data, behind);
  }

  lemma FlagSeen(got: seq<byte>, data: seq<byte>, behind: byte)
    ensures |got| <= FLAG_OFFSET < |got| + |data| ==>
              ReachesFlag(|got|, |data|) && FlagByteOf(|got|, data, behind) == (got + data)[FLAG_OFFSET]
    ensures |got| > FLAG_OFFSET ==> (got + data)[FLAG_OFFSET] == got[FLAG_OFFSET]
  {
  }

  lemma Collected(o: Ota, got: seq<byte>, data: seq<byte>)
    requires RemoteSoFar(o, got) && !o.found
    ensures var boot := Collect(o.boot, |got|, data);
      && (forall k :: 0 <= k < 4 && FLAG_OFFSET + k < |got + data| ==> boot[k] == (got + data)[FLAG_OFFSET + k])
      && (CompletesFlag(|got|, |data|) <==> |got + data| >= FLAG_OFFSET + 4)
      && (|got + data| >= FLAG_OFFSET + 4 ==> (got + data)[FLAG_OFFSET..FLAG_OFFSET + 4] == boot)
  {
  }

  lemma FoundGrows(o: Ota, got: seq<byte>, data: seq<byte>)
    requires RemoteSoFar(o, got) && o.found
    ensures RemoteSoFar(o, got + data)
  {
    assert (got + data)[FLAG_OFFSET..FLAG_OFFSET + 4] == got[FLAG_OFFSET..FLAG_OFFSET + 4];
  }

  lemma CollectedGrows(o: Ota, got: seq<byte>, data: seq<byte>, o': Ota)
    requires RemoteSoFar(o, got) && !o.found
    requires o' == o.(boot := Collect(o.boot, |got|, data), found := CompletesFlag(|got|, |data|))
    ensures (o'.found && o'.boot == STARTUP) || RemoteSoFar(o', got + data)
  {
    Collected(o, got, data);
  }

  lemma RemoteStored(d: Device, s: State, got: seq<byte>, data: seq<byte>, o: Ota)
    requires Site(d, s.mem) && Open(d, s, got) && s.ota.started && !s.ota.local && |data| < 256
    requires o == s.ota.(boot := o.boot, found := o.found) && RemoteSoFar(o, got + data)
    ensures Inv(d, Store(s.(timer := Off, ota := o), data), got + data)
  {
    if |got| + |data| <= s.ota.total { BlockHeld(d, s, got, data); }
    StoreKeeps(d, s.(timer := Off, ota := o), data, got + data);
  }

  lemma RemoteKeeps(d: Device, s: State, got: seq<byte>, data: seq<byte>)
    requires Site(d, s.mem) && Open(d, s, got) && s.ota.started && !s.ota.local && |data| < 256
    ensures Inv(d, RemoteBlock(s.(timer := Off), data), got + data)
  {
    if s.ota.found {
      FoundGrows(s.ota, got, data);
      RemoteStored(d, s, got, data, s.ota);
    } else {
      var o := s.ota.(boot := Collect(s.ota.boot, |got|, data), found := CompletesFlag(|got|, |data|));
      CollectedGrows(s.ota, got, data, o);
      if !(o.found && o.boot == STARTUP) { RemoteStored(d, s, got, data, o); }
    }
  }

  /** The block that completes the start-up word of a remote file is refused exactly when that word
      is a bare firmware's. */
  lemma RemoteRefused(d: Device, s: State, got: seq<byte>, data: seq<byte>, behind: byte)
    requires Inv(d, s, got) && s.ota.started && !s.ota.local && |data| < 256
    requires |got| < FLAG_OFFSET + 4 <= |got| + |data|
    ensures var out := Handle(d, s, Block(0, |got|, data, behind)).out;
      (|out| > |s.out| && out[|s.out|].status == MatchBootFlag) <==>
      (got + data)[FLAG_OFFSET..FLAG_OFFSET + 4] == STARTUP
  {
    Collected(s.ota, got, data);
    RemoteOutcome(s.(timer := Off), data);
  }

  /** A file that goes on is never reported as a bare firmware. */
  lemma RemoteOutcome(s: State, data: seq<byte>)
    requires |s.ota.boot| == 4 && !s.ota.found
    ensures var out, boot := RemoteBlock(s, data).out, Collect(s.ota.boot, s.ota.offset, data);
      (|out| > |s.out| && out[|s.out|].status == MatchBootFlag) <==>
      (CompletesFlag(s.ota.offset, |data|) && boot == STARTUP)
  {
  }

  lemma StepKeeps(d: Device, s: State, got: seq<byte>, e: Event)
    requires Inv(d, s, got) && Possible(s, e)
    ensures Inv(d, Handle(d, s, e), Received(s, got, e))
  {
    match e
    case Start(size, local) => if !s.ota.started { StartKeeps(d, s, size, local); }
    case Block(status, offset, data, behind) => BlockKeeps(d, s, got, status, offset, data, behind);
    case Tick =>
  }

  lemma BlockKeeps(d: Device, s: State, got: seq<byte>, status: nat, offset: nat, data: seq<byte>, behind: byte)
    requires Inv(d, s, got) && |data| < 256
    ensures Inv(d, OnBlock(d, s, status, offset, data, behind), Received(s, got, Block(status, offset, data, behind)))
  {
    if status == 0 && offset == s.ota.offset {
      if !s.ota.started {
        StrayKeeps(d, s, data, behind, got + data);
      } else if s.ota.local {
        LocalKeeps(d, s, got, data, behind);
      } else {
        RemoteKeeps(d, s, got, data);
      }
    }
  }

  /** Without a session a block opens none. */
  lemma StrayKeeps(d: Device, s: State, data: seq<byte>, behind: byte, got: seq<byte>)
    requires Site(d, s.mem) && |s.ota.boot| == 4 && s.ota.offset < 0x1_0000_0000 && !s.ota.started && |data| < 256
    ensures Inv(d, LocalBlock(d, s.(timer := Off), data, behind), got)
    ensures Inv(d, RemoteBlock(s.(timer := Off), data), got)
  {
    var _, s' := LocalBlockIs(d, s.(timer := Off), data, behind);
    StrayStored(d, s', Mask(s.ota.offset, data), got);
    var o := s.ota.(boot := Collect(s.ota.boot, s.ota.offset, data), found := CompletesFlag(s.ota.offset, |data|));
    StrayStored(d, s.(timer := Off), data, got);
    StrayStored(d, s.(timer := Off, ota := o), data, got);
  }

  lemma StrayStored(d: Device, s: State, data: seq<byte>, got: seq<byte>)
    requires Site(d, s.mem) && |s.ota.boot| == 4 && s.ota.offset < 0x1_0000_0000 && !s.ota.started && |data| < 256
    ensures Inv(d, Store(s, data), got)
  {
  }

  // ----- what a session touches

  lemma CoverPast(n: nat, max: nat)
    requires max <= n < max + SECTOR && max % SECTOR == 0
    ensures Cover(n) == max + SECTOR
  {
  }

  lemma EndStaysInside(d: Device, m0: Mem, s: State, status: Status)
    requires d.max % SECTOR == 0 && s.ota.start == d.area && s.ota.offset < d.max
    requires SameOutside(m0, s.mem, d.area, d.area + d.max)
    ensures SameOutside(m0, EndWith(s, status).mem, d.area, d.area + d.max)
  {
    CoverFits(s.ota.offset, d.max);
  }

  lemma StoreStaysInside(d: Device, s: State, data: seq<byte>)
    requires Site(d, s.mem) && s.ota.start == d.area && s.ota.offset + |data| < d.max
    ensures SameOutside(s.mem, Store(s, data).mem, d.area, d.area + d.max)
  {
    var a, n := s.ota.start + s.ota.offset, s.ota.offset + |data|;
    var m := Program(s.mem, a, data);
    ProgramStaysInside(s.mem, a, data, d.area, d.area + d.max);
    EndStaysInside(d, s.mem, s.(ota := s.ota.(offset := n), mem := m), IncorrectOffset);
    StoreLeaves(s, data, n, m);
  }

  lemma StoreLeaves(s: State, data: seq<byte>, n: nat, m: Mem)
    requires n == s.ota.offset + |data| < 0x1_0000_0000 && m == Program(s.mem, s.ota.start + s.ota.offset, data)
    ensures Store(s, data).mem == m || Store(s, data).mem == Blanked(m, s.ota.start, s.ota.start + Cover(n))
  {
  }

  lemma ProgramStaysInside(mem: Mem, a: nat, data: seq<byte>, lo: nat, hi: nat)
    requires lo <= a && a + |data| <= hi
    ensures SameOutside(mem, Program(mem, a, data), lo, hi)
  {
  }

  lemma BlockStaysInside(d: Device, s: State, got: seq<byte>, data: seq<byte>, behind: byte)
    requires Site(d, s.mem) && Fitting(d, s.ota, got) && |got| + |data| < d.max && |data| < 256
    ensures s.ota.local ==> SameOutside(s.mem, LocalBlock(d, s, data, behind).mem, d.area, d.area + d.max)
    ensures !s.ota.local ==> SameOutside(s.mem, RemoteBlock(s, data).mem, d.area, d.area + d.max)
  {
    if s.ota.local {
      var s' := s.(ota := s.ota.(crc := Crc(d.step, s.ota.crc, data[..CrcLen(s.ota, |data|)])));
      EndStaysInside(d, s.mem, s', IncorrectData);
      StoreStaysInside(d, s', Mask(s.ota.offset, data));
    } else {
      var o := s.ota;
      var s' := s.(ota := o.(boot := Collect(o.boot, o.offset, data), found := CompletesFlag(o.offset, |data|)));
      EndStaysInside(d, s.mem, s', MatchBootFlag);
      StoreStaysInside(d, s', data);
      StoreStaysInside(d, s, data);
    }
  }

  lemma BlankedOver(mem: Mem, a: nat, data: seq<byte>, lo: nat, hi: nat)
    requires lo <= a && a + |data| <= hi
    ensures Blanked(Program(mem, a, data), lo, hi) == Blanked(mem, lo, hi)
  {
  }

  lemma StoreOverruns(d: Device, s: State, data: seq<byte>)
    requires Site(d, s.mem) && s.ota.start == d.area && s.ota.total < d.max && |data| < 256
    requires s.ota.offset < d.max <= s.ota.offset + |data|
    ensures Store(s, data).mem == Blanked(s.mem, d.area, d.area + d.max + SECTOR) && Store(s, data).ota == CLEAR
  {
    CoverPast(s.ota.offset + |data|, d.max);
    BlankedOver(s.mem, s.ota.start + s.ota.offset, data, d.area, d.area + d.max + SECTOR);
  }

  /** So far into the area, the checks at the start of the file are over. */
  lemma PastTheFlag(d: Device, s: State, got: seq<byte>, data: seq<byte>, behind: byte)
    requires Site(d, s.mem) && Fitting(d, s.ota, got) && |data| < 256 && d.max <= |got| + |data|
    ensures s.ota.local ==> LocalBlock(d, s, data, behind).mem == Store(s, data).mem
    ensures s.ota.local ==> LocalBlock(d, s, data, behind).ota == Store(s, data).ota
    ensures !s.ota.local ==> RemoteBlock(s, data) == Store(s, data)
  {
    StoreOverruns(d, s, data);
    StoreOverruns(d, s.(ota := s.ota.(crc := Crc(d.step, s.ota.crc, data[..CrcLen(s.ota, |data|)]))), data);
    assert !ReachesFlag(s.ota.offset, |data|) && Mask(s.ota.offset, data) == data;
  }

  /** A block that takes the session to the end of the area. */
  predicate Overruns(d: Device, o: Ota, e: Event) {
    e.Block? && e.status == 0 && e.offset == o.offset && o.offset + |e.data| >= d.max
  }

  /** What an open session changes outside the image area: nothing, unless a block takes it to the end of
      the area or beyond. Then all of the area is erased, and with it the sector behind it. */
  lemma StepStaysInside(d: Device, s: State, got: seq<byte>, e: Event)
    requires Inv(d, s, got) && Possible(s, e) && (s.ota.started || e.Start?)
    ensures if Overruns(d, s.ota, e)
      then Handle(d, s, e).mem == Blanked(s.mem, d.area, d.area + d.max + SECTOR) && Handle(d, s, e).ota == CLEAR
      else SameOutside(s.mem, Handle(d, s, e).mem, d.area, d.area + d.max)
  {
    match e
    case Start(size, local) => if size < d.max { CoverFits(size, d.max); }
    case Block(status, offset, data, behind) =>
      EndStaysInside(d, s.mem, s.(timer := Off), IncorrectData);
      if Overruns(d, s.ota, e) {
        PastTheFlag(d, s.(timer := Off), got, data, behind);
        StoreOverruns(d, s.(timer := Off), data);
      } else if status == 0 && offset == s.ota.offset {
        BlockStaysInside(d, s.(timer := Off), got, data, behind);
      }
    case Tick => EndStaysInside(d, s.mem, s, Timeout);
  }

  /** Without a session (nothing left over in ota_info either), a block response at offset 0 or
      with an error status costs the first sector of the flash its content: the end of the
      session that never was erases from address 0. All other block responses change nothing. */
  lemma StrayBlock(d: Device, s: State, status: nat, offset: nat, data: seq<byte>, behind: byte)
    requires s.ota == CLEAR && |data| < 256
    ensures Handle(d, s, Block(status, offset, data, behind)).mem
         == if status != 0 || (offset == 0 && data != []) then Blanked(s.mem, 0, SECTOR) else s.mem
  {
    var m := Handle(d, s, Block(status, offset, data, behind)).mem;
    if status == 0 && offset == 0 {
      if data == [] {
        assert Program(s.mem, 0, data) == s.mem;
      } else {
        assert Blanked(Program(s.mem, 0, data), 0, SECTOR) == Blanked(s.mem, 0, SECTOR);
      }
    }
  }

  /** From where the session has got to, the room is still erased. */
  ghost predicate Ahead(d: Device, s: State, room: nat) {
    && s.ota.start == d.area && d.area + room <= |s.mem|
    && forall i :: d.area + s.ota.offset <= i < d.area + room ==> s.mem[i] == 0xFF
  }

  lemma EndBlank(d: Device, s: State, room: nat, status: Status)
    requires Ahead(d, s, room) && status != Success
    ensures IsErased(EndWith(s, status).mem, d.area, d.area + room)
  {
  }

  /** The step reported success. */
  predicate Succeeded(s: State, s': State) {
    |s'.out| > |s.out| && s'.out[|s.out|].End? && s'.out[|s.out|].status == Success
  }

  lemma StoreBlank(d: Device, s: State, data: seq<byte>, room: nat)
    requires Ahead(d, s, room) && s.ota.started && s.ota.offset + |data| < 0x1_0000_0000
    requires !Store(s, data).ota.started && !Succeeded(s, Store(s, data))
    ensures IsErased(Store(s, data).mem, d.area, d.area + room)
  {
    var s' := s.(ota := s.ota.(offset := s.ota.offset + |data|),
                 mem := Program(s.mem, s.ota.start + s.ota.offset, data));
    assert Ahead(d, s', room);
    EndBlank(d, s', room, IncorrectOffset);
  }

  /** A session that ends in failure leaves its area erased: nothing it wrote stays behind. */
  lemma FailureLeavesBlank(d: Device, s: State, got: seq<byte>, e: Event)
    requires Inv(d, s, got) && s.ota.started && Possible(s, e)
    requires !Handle(d, s, e).ota.started && !Succeeded(s, Handle(d, s, e))
    ensures IsErased(Handle(d, s, e).mem, d.area, d.area + Cover(s.ota.total))
    ensures Handle(d, s, e).ota == CLEAR
  {
    var room := Cover(s.ota.total);
    assert Ahead(d, s, room);
    match e
    case Block(status, offset, data, behind) =>
      var s0 := s.(timer := Off);
      if status != 0 {
        EndBlank(d, s0, room, IncorrectData);
      } else if s.ota.local {
        LocalBlank(d, s0, data, behind, room);
      } else {
        RemoteBlank(d, s0, data, room);
      }
    case Tick => EndBlank(d, s, room, Timeout);
  }

  lemma LocalBlank(d: Device, s: State, data: seq<byte>, behind: byte, room: nat)
    requires Ahead(d, s, room) && s.ota.started && |data| < 256 && s.ota.offset < 0x1000_0000
    requires !LocalBlock(d, s, data, behind).ota.started && !Succeeded(s, LocalBlock(d, s, data, behind))
    ensures IsErased(LocalBlock(d, s, data, behind).mem, d.area, d.area + room)
    ensures LocalBlock(d, s, data, behind).ota == CLEAR
  {
    var s' := s.(ota := s.ota.(crc := Crc(d.step, s.ota.crc, data[..CrcLen(s.ota, |data|)])));
    if ReachesFlag(s.ota.offset, |data|) && FlagByteOf(s.ota.offset, data, behind) != START_FLAG {
      EndBlank(d, s', room, IncorrectData);
    } else {
      StoreBlank(d, s', Mask(s.ota.offset, data), room);
    }
  }

  lemma RemoteBlank(d: Device, s: State, data: seq<byte>, room: nat)
    requires Ahead(d, s, room) && s.ota.started && |data| < 256 && s.ota.offset < 0x1000_0000 && |s.ota.boot| == 4
    requires !RemoteBlock(s, data).ota.started && !Succeeded(s, RemoteBlock(s, data))
    ensures IsErased(RemoteBlock(s, data).mem, d.area, d.area + room) && RemoteBlock(s, data).ota == CLEAR
  {
    if s.ota.found {
      StoreBlank(d, s, data, room);
    } else {
      var o := s.ota;
      var s' := s.(ota := o.(boot := Collect(o.boot, o.offset, data), found := CompletesFlag(o.offset, |data|)));
      if s'.ota.found && s'.ota.boot == STARTUP {
        EndBlank(d, s', room, MatchBootFlag);
      } else {
        StoreBlank(d, s', data, room);
      }
    }
  }

  // ----- runs

  /** Every event can happen in the state it finds. */
  ghost predicate Feasible(d: Device, s: State, got: seq<byte>, evs: seq<Event>)
    requires Inv(d, s, got)
    decreases |evs|
  {
    evs == [] ||
    (Possible(s, evs[0])
     && (StepKeeps(d, s, got, evs[0]); Feasible(d, Handle(d, s, evs[0]), Received(s, got, evs[0]), evs[1..])))
  }

  /** The state after a run and what the session open at its end has received. */
  ghost function Run(d: Device, s: State, got: seq<byte>, evs: seq<Event>): (r: (State, seq<byte>))
    requires Inv(d, s, got) && Feasible(d, s, got, evs)
    ensures Inv(d, r.0, r.1)
    decreases |evs|
  {
    if evs == [] then (s, got)
    else
      StepKeeps(d, s, got, evs[0]);
      Run(d, Handle(d, s, evs[0]), Received(s, got, evs[0]), evs[1..])
  }

  /** Over every run, while a session for a local image is open the running value is the checksum of
      the unmasked file up to its last four bytes, the flash holds the file so far with its flag
      byte masked, and the retry timer is scheduled. */
  lemma RunSums(d: Device, s: State, got: seq<byte>, evs: seq<Event>)
    requires Inv(d, s, got) && Feasible(d, s, got, evs)
    ensures var (s', got') := Run(d, s, got, evs);
      s'.ota.started && s'.ota.local && s'.ota.total >= 4 ==>
        var n := if s'.ota.offset <= s'.ota.total - 4 then s'.ota.offset else s'.ota.total - 4;
        && s'.ota.offset == |got'| <= s'.ota.total && s'.timer == Retry
        && s'.ota.crc == Crc(d.step, INIT, got'[..n])
        && s'.mem[d.area..d.area + |got'|] == Content(true, got')
  {
    var (s', got') := Run(d, s, got, evs);
    if s'.ota.started && s'.ota.local && s'.ota.total >= 4 { OpenSums(d, s', got'); }
  }

  lemma OpenSums(d: Device, s: State, got: seq<byte>)
    requires Inv(d, s, got) && s.ota.started && s.ota.local && s.ota.total >= 4
    ensures s.ota.offset == |got| <= s.ota.total && s.timer == Retry
    ensures s.ota.crc == Crc(d.step, INIT, got[..if |got| <= s.ota.total - 4 then |got| else s.ota.total - 4])
    ensures s.mem[d.area..d.area + |got|] == Content(true, got)
  {
  }

  // ----- a local image

  /** What a local image must satisfy: its start-up word, and its checksum in the last word. */
  predicate Accepts(step: Table, f: seq<byte>) {
    && |f| >= FLAG_OFFSET + 4 && f[FLAG_OFFSET] == START_FLAG && f[FLAG_OFFSET + 1..FLAG_OFFSET + 4] == CHECK_FLAG[1..]
    && Word(Content(true, f)[|f| - 4..]) == Crc(step, INIT, f[..|f| - 4])
  }

  lemma MaskedFlag(f: seq<byte>)
    requires |f| >= FLAG_OFFSET + 4
    ensures Content(true, f)[FLAG_OFFSET..FLAG_OFFSET + 4] == CHECK_FLAG
        <==> f[FLAG_OFFSET + 1..FLAG_OFFSET + 4] == CHECK_FLAG[1..]
  {
    var c := Content(true, f)[FLAG_OFFSET..FLAG_OFFSET + 4];
    assert c == [0xff] + f[FLAG_OFFSET + 1..FLAG_OFFSET + 4];
    assert CHECK_FLAG == [0xff] + CHECK_FLAG[1..];
    assert c[1..] == f[FLAG_OFFSET + 1..FLAG_OFFSET + 4];
  }

  /** The final check on a stored file. */
  lemma CheckedMeans(d: Device, mem: Mem, o: Ota, f: seq<byte>)
    requires o.start == d.area && o.total == |f| && |f| >= 4 && Held(d.area, mem, Content(true, f), Cover(|f|))
    requires o.crc == Crc(d.step, INIT, f[..|f| - 4]) && (|f| > FLAG_OFFSET ==> f[FLAG_OFFSET] == START_FLAG)
    ensures Checked(mem, o) <==> Accepts(d.step, f)
  {
    var c, a := Content(true, f), d.area;
    SubSlice(mem, a, a + |f|, |f| - 4, |f|);
    assert c[|f| - 4..|f|] == c[|f| - 4..];
    if |f| >= FLAG_OFFSET + 4 {
      SubSlice(mem, a, a + |f|, FLAG_OFFSET, FLAG_OFFSET + 4);
      MaskedFlag(f);
    } else {
      assert mem[a + FLAG_OFFSET + 3] == 0xFF;
      assert mem[a + FLAG_OFFSET..a + FLAG_OFFSET + 4][3] == 0xFF;
    }
  }

  /** The session for file f is over: the reboot is scheduled exactly if f was taken as good, and
      then the flash holds it, its flag byte masked. */
  ghost predicate Judged(d: Device, s: State, f: seq<byte>, good: bool) {
    && s.ota == CLEAR && s.timer == (if good then Reboot else Off)
    && (good ==> |s.mem| >= d.area + |f| && s.mem[d.area..d.area + |f|] == Content(true, f))
  }

  /** The block that completes a local image: it succeeds, and the reboot is scheduled, exactly when
      the image is acceptable. */
  lemma LocalCompletion(d: Device, s: State, got: seq<byte>, data: seq<byte>, behind: byte)
    requires Inv(d, s, got) && s.ota.started && s.ota.local && 0 < |data| < 256
    requires |got| + |data| == s.ota.total >= 4
    ensures var s' := Handle(d, s, Block(0, |got|, data, behind));
      Judged(d, s', got + data, Accepts(d.step, got + data)) && (Succeeded(s, s') <==> Accepts(d.step, got + data))
  {
    var f := got + data;
    FlagSeen(got, data, behind);
    if |f| > FLAG_OFFSET && f[FLAG_OFFSET] != START_FLAG {
      assert ReachesFlag(|got|, |data|);
    } else if ReachesFlag(|got|, |data|) && FlagByteOf(|got|, data, behind) != START_FLAG {
      assert |f| == FLAG_OFFSET;
    } else {
      GoodFlag(d, s, got, data, behind);
    }
  }

  lemma GoodFlag(d: Device, s: State, got: seq<byte>, data: seq<byte>, behind: byte)
    requires Inv(d, s, got) && s.ota.started && s.ota.local && 0 < |data| < 256
    requires |got| + |data| == s.ota.total >= 4
    requires |got + data| > FLAG_OFFSET ==> (got + data)[FLAG_OFFSET] == START_FLAG
    requires ReachesFlag(|got|, |data|) ==> FlagByteOf(|got|, data, behind) == START_FLAG
    ensures var s' := LocalBlock(d, s.(timer := Off), data, behind);
      Judged(d, s', got + data, Accepts(d.step, got + data)) && (Succeeded(s, s') <==> Accepts(d.step, got + data))
  {
    var crc, s' := LocalBlockIs(d, s.(timer := Off), data, behind);
    LastStored(d, s, got, data, behind, crc, s', Mask(|got|, data), got + data);
  }

  lemma LastStored(d: Device, s: State, got: seq<byte>, data: seq<byte>, behind: byte,
                   crc: nat, s': State, masked: seq<byte>, f: seq<byte>)
    requires Inv(d, s, got) && s.ota.started && s.ota.local && |data| < 256 && |got| + |data| == s.ota.total >= 4
    requires s' == s.(timer := Off, ota := s.ota.(crc := crc)) && masked == Mask(|got|, data) && f == got + data
    requires crc == Crc(d.step, s.ota.crc, data[..CrcLen(s.ota, |data|)])
    requires ReachesFlag(|got|, |data|) ==> FlagByteOf(|got|, data, behind) == START_FLAG
    ensures Judged(d, Store(s', masked), f, Accepts(d.step, f))
    ensures Succeeded(s', Store(s', masked)) <==> Accepts(d.step, f)
  {
    var mem := LastMem(d, s, got, data, behind, crc, s', masked, f);
    LastStore(d, s', masked, f, mem, Accepts(d.step, f));
  }

  lemma LastMem(d: Device, s: State, got: seq<byte>, data: seq<byte>, behind: byte,
                crc: nat, s': State, masked: seq<byte>, f: seq<byte>) returns (mem: Mem)
    requires Inv(d, s, got) && s.ota.started && s.ota.local && |data| < 256 && |got| + |data| == s.ota.total >= 4
    requires s' == s.(timer := Off, ota := s.ota.(crc := crc)) && masked == Mask(|got|, data) && f == got + data
    requires crc == Crc(d.step, s.ota.crc, data[..CrcLen(s.ota, |data|)])
    requires ReachesFlag(|got|, |data|) ==> FlagByteOf(|got|, data, behind) == START_FLAG
    ensures mem == Program(s.mem, d.area + |got|, masked) && Held(d.area, mem, Content(true, f), Cover(|f|))
    ensures Checked(mem, s'.ota.(offset := |f|)) <==> Accepts(d.step, f)
  {
    mem := Program(s.mem, d.area + |got|, masked);
    LocalGrown(d, s.ota, got, data, behind, crc);
    LocalHeld(d, s, got, data, masked, f);
    LastChecked(d, s', mem, f);
  }

  lemma LastChecked(d: Device, s: State, mem: Mem, f: seq<byte>)
    requires s.ota.start == d.area && s.ota.total == |f| >= 4 && Held(d.area, mem, Content(true, f), Cover(|f|))
    requires LocalSoFar(d, s.ota, f)
    ensures Checked(mem, s.ota.(offset := |f|)) <==> Accepts(d.step, f)
  {
    CheckedMeans(d, mem, s.ota.(offset := |f|), f);
  }

  lemma LastStore(d: Device, s: State, data: seq<byte>, f: seq<byte>, mem: Mem, good: bool)
    requires s.ota.local && s.ota.offset + |data| == s.ota.total == |f| < 0x1_0000_0000 && s.timer == Off
    requires mem == Program(s.mem, s.ota.start + s.ota.offset, data)
    requires s.ota.start == d.area && Held(d.area, mem, Content(true, f), Cover(|f|))
    requires Checked(mem, s.ota.(offset := |f|)) <==> good
    ensures Judged(d, Store(s, data), f, good) && (Succeeded(s, Store(s, data)) <==> good)
  {
    var s' := s.(ota := s.ota.(offset := |f|), mem := mem);
    FullStore(s, data, s');
    assert |mem| >= d.area + |f| && mem[d.area..d.area + |f|] == Content(true, f);
  }

  /** What storing the block that fills a local file amounts to. */
  lemma FullStore(s: State, data: seq<byte>, s': State)
    requires s.ota.local && s.ota.offset + |data| == s.ota.total < 0x1_0000_0000
    requires s' == s.(ota := s.ota.(offset := s.ota.total), mem := Program(s.mem, s.ota.start + s.ota.offset, data))
    ensures Store(s, data) == if Checked(s'.mem, s'.ota) then EndWith(s'.(timer := Reboot), Success)
                              else EndWith(s', IncorrectData)
  {
  }

  // ----- a whole upload

  /** An event after which an open session still waits for the same block: a further start, a block
      at the wrong offset, or a retry that is not the last. */
  predicate Waits(o: Ota, e: Event) {
    match e
    case Start(_, _) => true
    case Block(status, offset, data, _) => status == 0 && offset != o.offset && |data| < 256
    case Tick => o.count < RETRIES
  }

  /** The next bytes of the file, at the offset asked for. */
  predicate Gives(o: Ota, got: seq<byte>, e: Event, f: seq<byte>) {
    e.Block? && e.status == 0 && e.offset == o.offset && |e.data| < 256 && got + e.data <= f
  }

  /** A block of the rest of a file whose session is over. */
  predicate Leftover(e: Event) {
    e.Block? && e.status == 0 && e.offset > 0 && |e.data| < 256
  }

  /** While the session is open the blocks accepted are those of the file, cut up in any way, with
      any waiting in between; once it is over only more of the file may follow. */
  ghost predicate Delivers(d: Device, s: State, got: seq<byte>, evs: seq<Event>, f: seq<byte>)
    requires Inv(d, s, got)
    decreases |evs|
  {
    if !s.ota.started then forall e :: e in evs ==> Leftover(e)
    else
      && evs != []
      && (Waits(s.ota, evs[0]) || Gives(s.ota, got, evs[0], f))
      && (StepKeeps(d, s, got, evs[0]); Delivers(d, Handle(d, s, evs[0]), Received(s, got, evs[0]), evs[1..], f))
  }

  /** Some block that comes at its offset ends right before the flag byte, and the byte that happens
      to lie behind it in the receive buffer is not the flag. */
  predicate Strays(offset: nat, evs: seq<Event>)
    decreases |evs|
  {
    evs != []
    && match evs[0]
       case Block(_, o, data, behind) =>
         if o != offset then Strays(offset, evs[1..])
         else (offset + |data| == FLAG_OFFSET && behind != START_FLAG) || Strays(offset + |data|, evs[1..])
       case _ => Strays(offset, evs[1..])
  }

  lemma {:induction false} NoStrays(offset: nat, evs: seq<Event>)
    requires offset > FLAG_OFFSET
    ensures !Strays(offset, evs)
    decreases |evs|
  {
    if evs != [] {
      NoStrays(offset, evs[1..]);
      if evs[0].Block? { NoStrays(offset + |evs[0].data|, evs[1..]); }
    }
  }

  /** The run can happen, and ends with file f judged. */
  ghost predicate Judges(d: Device, s: State, got: seq<byte>, evs: seq<Event>, f: seq<byte>, good: bool)
    requires Inv(d, s, got)
  {
    Feasible(d, s, got, evs) && Judged(d, Run(d, s, got, evs).0, f, good)
  }

  lemma JudgesFirst(d: Device, s: State, got: seq<byte>, e: Event, rest: seq<Event>, f: seq<byte>, good: bool)
    requires Inv(d, s, got) && Possible(s, e) && Inv(d, Handle(d, s, e), Received(s, got, e))
    requires Judges(d, Handle(d, s, e), Received(s, got, e), rest, f, good)
    ensures Judges(d, s, got, [e] + rest, f, good)
  {
    RunFirst(d, s, got, e, rest);
  }

  lemma RunFirst(d: Device, s: State, got: seq<byte>, e: Event, rest: seq<Event>)
    requires Inv(d, s, got) && Possible(s, e) && Inv(d, Handle(d, s, e), Received(s, got, e))
    requires Feasible(d, Handle(d, s, e), Received(s, got, e), rest)
    ensures Feasible(d, s, got, [e] + rest)
    ensures Run(d, s, got, [e] + rest) == Run(d, Handle(d, s, e), Received(s, got, e), rest)
  {
    assert ([e] + rest)[1..] == rest;
  }

  /** Once the session is gone, what is left of the file is ignored. */
  lemma {:induction false} LeftoversIgnored(d: Device, s: State, got: seq<byte>, evs: seq<Event>)
    requires Inv(d, s, got) && s.ota == CLEAR && forall e :: e in evs ==> Leftover(e)
    ensures Feasible(d, s, got, evs) && Run(d, s, got, evs).0 == s
    decreases |evs|
  {
    if evs != [] {
      var e, rest := evs[0], evs[1..];
      assert e in evs && forall e' :: e' in rest ==> e' in evs;
      assert Handle(d, s, e) == s && Received(s, got, e) == got;
      LeftoversIgnored(d, s, got, rest);
      RunFirst(d, s, got, e, rest);
      assert evs == [e] + rest;
    }
  }

  lemma JudgesNow(d: Device, s: State, got: seq<byte>, evs: seq<Event>, f: seq<byte>, good: bool)
    requires Inv(d, s, got) && Judged(d, s, f, good) && Delivers(d, s, got, evs, f)
    ensures Judges(d, s, got, evs, f, good)
  {
    LeftoversIgnored(d, s, got, evs);
  }

  /** A local image delivered in any way ends with the reboot scheduled exactly when the whole image
      is acceptable and no block that ended right before the flag byte was followed in the receive
      buffer by another byte than the flag: that byte is what such a block is judged by. */
  lemma {:induction false} LocalUpload(d: Device, s: State, got: seq<byte>, evs: seq<Event>, f: seq<byte>)
    requires Inv(d, s, got) && s.ota.started && s.ota.local && s.ota.total == |f| >= 4 && got <= f
    requires Delivers(d, s, got, evs, f)
    ensures Judges(d, s, got, evs, f, Accepts(d.step, f) && !Strays(|got|, evs))
    decreases |evs|
  {
    var good := Accepts(d.step, f) && !Strays(|got|, evs);
    var s', got', goesOn := FirstDelivered(d, s, got, evs, f, good);
    if goesOn { LocalUpload(d, s', got', evs[1..], f); } else { JudgesNow(d, s', got', evs[1..], f, good); }
  }

  /** The first event of a delivery: the session goes on with the rest, or the file is judged. */
  lemma FirstDelivered(d: Device, s: State, got: seq<byte>, evs: seq<Event>, f: seq<byte>, good: bool)
    returns (s': State, got': seq<byte>, goesOn: bool)
    requires Inv(d, s, got) && s.ota.started && s.ota.local && s.ota.total == |f| >= 4 && got <= f
    requires Delivers(d, s, got, evs, f) && good == (Accepts(d.step, f) && !Strays(|got|, evs))
    ensures evs != [] && Inv(d, s', got') && Delivers(d, s', got', evs[1..], f)
    ensures Judges(d, s', got', evs[1..], f, good) ==> Judges(d, s, got, evs, f, good)
    ensures if goesOn then s'.ota.started && s'.ota.local && s'.ota.total == |f| && got' <= f
                           && Strays(|got|, evs) == Strays(|got'|, evs[1..])
            else Judged(d, s', f, good)
  {
    s', got' := Onward(d, s, got, evs, f, good);
    goesOn := Outcome(d, s, got, evs, s', got', f);
  }

  /** Judging the rest from where the first event leads judges the whole. */
  lemma Onward(d: Device, s: State, got: seq<byte>, evs: seq<Event>, f: seq<byte>, good: bool)
    returns (s': State, got': seq<byte>)
    requires Inv(d, s, got) && s.ota.started && Delivers(d, s, got, evs, f)
    ensures evs != [] && Possible(s, evs[0]) && s' == Handle(d, s, evs[0]) && got' == Received(s, got, evs[0])
    ensures Waits(s.ota, evs[0]) || Gives(s.ota, got, evs[0], f)
    ensures Inv(d, s', got') && Delivers(d, s', got', evs[1..], f)
    ensures Judges(d, s', got', evs[1..], f, good) ==> Judges(d, s, got, evs, f, good)
  {
    var e, rest := evs[0], evs[1..];
    StepKeeps(d, s, got, e);
    s', got' := Handle(d, s, e), Received(s, got, e);
    assert evs == [e] + rest;
    if Judges(d, s', got', rest, f, good) { JudgesFirst(d, s, got, e, rest, f, good); }
  }

  lemma Outcome(d: Device, s: State, got: seq<byte>, evs: seq<Event>, s': State, got': seq<byte>, f: seq<byte>)
    returns (goesOn: bool)
    requires Inv(d, s, got) && s.ota.started && s.ota.local && s.ota.total == |f| >= 4 && got <= f
    requires evs != [] && Possible(s, evs[0]) && s' == Handle(d, s, evs[0]) && got' == Received(s, got, evs[0])
    requires Waits(s.ota, evs[0]) || Gives(s.ota, got, evs[0], f)
    ensures if goesOn then s'.ota.started && s'.ota.local && s'.ota.total == |f| && got' <= f
                           && Strays(|got|, evs) == Strays(|got'|, evs[1..])
            else Judged(d, s', f, Accepts(d.step, f) && !Strays(|got|, evs))
  {
    var e, rest := evs[0], evs[1..];
    assert evs == [e] + rest;
    if Waits(s.ota, e) {
      goesOn := true;
      Waited(d, s, got, e, rest);
    } else {
      goesOn := Given(d, s, got, e, rest, f);
    }
  }

  lemma Waited(d: Device, s: State, got: seq<byte>, e: Event, rest: seq<Event>)
    requires Inv(d, s, got) && s.ota.started && Waits(s.ota, e)
    ensures var s' := Handle(d, s, e);
      s'.ota.started && s'.ota.local == s.ota.local && s'.ota.total == s.ota.total && Received(s, got, e) == got
    ensures Strays(|got|, [e] + rest) == Strays(|got|, rest)
  {
    assert ([e] + rest)[1..] == rest;
  }

  /** A block of the file: the last one, one that halts, or one after which the session goes on. */
  lemma Given(d: Device, s: State, got: seq<byte>, e: Event, rest: seq<Event>, f: seq<byte>) returns (goesOn: bool)
    requires Inv(d, s, got) && s.ota.started && s.ota.local && s.ota.total == |f| >= 4 && Gives(s.ota, got, e, f)
    ensures var s' := Handle(d, s, e); var strays := Strays(|got|, [e] + rest);
      if goesOn then s'.ota.started && s'.ota.local && s'.ota.total == |f| && strays == Strays(|got| + |e.data|, rest)
      else Judged(d, s', f, Accepts(d.step, f) && !strays)
  {
    if |got| + |e.data| == |f| {
      goesOn := false;
      LastGiven(d, s, got, e, rest, f);
    } else {
      goesOn := !Halts(got, e.data, e.behind);
      LocalMiddle(d, s, got, e.data, e.behind);
      assert ([e] + rest)[1..] == rest;
      if |got| + |e.data| > FLAG_OFFSET { assert (got + e.data)[FLAG_OFFSET] == f[FLAG_OFFSET]; }
    }
  }

  lemma LastGiven(d: Device, s: State, got: seq<byte>, e: Event, rest: seq<Event>, f: seq<byte>)
    requires Inv(d, s, got) && s.ota.started && s.ota.local && s.ota.total == |f| >= 4
    requires Gives(s.ota, got, e, f) && |got| + |e.data| == |f|
    ensures Judged(d, Handle(d, s, e), f, Accepts(d.step, f) && !Strays(|got|, [e] + rest))
  {
    assert got + e.data == f;
    LocalCompletion(d, s, got, e.data, e.behind);
    if |f| > FLAG_OFFSET { LastStrays(|got|, e, rest, |f|); }
  }

  /** A last block behind the flag byte strays no more. */
  lemma LastStrays(offset: nat, e: Event, rest: seq<Event>, end: nat)
    requires e.Block? && e.offset == offset && end == offset + |e.data| > FLAG_OFFSET
    ensures !Strays(offset, [e] + rest)
  {
    assert ([e] + rest)[1..] == rest;
    NoStrays(end, rest);
  }

  /** The block shows a wrong flag byte, its own or the one behind it. */
  predicate Halts(got: seq<byte>, b: seq<byte>, behind: byte) {
    || (|got| + |b| == FLAG_OFFSET && behind != START_FLAG)
    || (|got| + |b| > FLAG_OFFSET && (got + b)[FLAG_OFFSET] != START_FLAG)
  }

  /** A block before the last: the session goes on unless it halts here. */
  lemma LocalMiddle(d: Device, s: State, got: seq<byte>, b: seq<byte>, behind: byte)
    requires Inv(d, s, got) && s.ota.started && s.ota.local && |b| < 256 && |got| + |b| < s.ota.total
    ensures var s' := Handle(d, s, Block(0, |got|, b, behind));
      if Halts(got, b, behind) then s'.ota == CLEAR && s'.timer == Off
      else s'.ota.started && s'.ota.local && s'.ota.total == s.ota.total
  {
    FlagSeen(got, b, behind);
  }

  // ----- offering a file without waiting

  function Flat(blocks: seq<seq<byte>>): seq<byte> {
    if blocks == [] then [] else blocks[0] + Flat(blocks[1..])
  }

  function Offers(blocks: seq<seq<byte>>, offset: nat, behind: byte): (e: seq<Event>) {
    if blocks == [] then []
    else [Block(0, offset, blocks[0], behind)] + Offers(blocks[1..], offset + |blocks[0]|, behind)
  }

  /** Blocks whose length is a nonzero byte. */
  predicate Sized(blocks: seq<seq<byte>>) {
    forall b :: b in blocks ==> 0 < |b| < 256
  }

  /** Some block ends right before the flag byte. */
  predicate EndsAtFlag(blocks: seq<seq<byte>>, offset: nat) {
    blocks != [] && (offset + |blocks[0]| == FLAG_OFFSET || EndsAtFlag(blocks[1..], offset + |blocks[0]|))
  }

  lemma {:induction false} OffersStray(blocks: seq<seq<byte>>, offset: nat, behind: byte)
    ensures Strays(offset, Offers(blocks, offset, behind)) <==> EndsAtFlag(blocks, offset) && behind != START_FLAG
  {
    if blocks != [] {
      var rest := Offers(blocks[1..], offset + |blocks[0]|, behind);
      OffersStray(blocks[1..], offset + |blocks[0]|, behind);
      assert Offers(blocks, offset, behind)[1..] == rest;
    }
  }

  lemma {:induction false} OffersLeftover(blocks: seq<seq<byte>>, offset: nat, behind: byte)
    requires offset > 0 && Sized(blocks)
    ensures forall e :: e in Offers(blocks, offset, behind) ==> Leftover(e)
  {
    if blocks != [] {
      assert blocks[0] in blocks;
      OffersLeftover(blocks[1..], offset + |blocks[0]|, behind);
    }
  }

  lemma {:induction false} OffersDeliver(d: Device, s: State, got: seq<byte>, blocks: seq<seq<byte>>, f: seq<byte>,
                                         behind: byte)
    requires Inv(d, s, got) && s.ota.started && s.ota.local && s.ota.total == |f| >= 4
    requires blocks != [] && Sized(blocks) && f == got + Flat(blocks)
    ensures Delivers(d, s, got, Offers(blocks, |got|, behind), f)
    decreases |blocks|
  {
    var b, rest, got' := Split(got, blocks, f);
    var offers := Offers(rest, |got'|, behind);
    var s' := OfferFirst(d, s, got, b, got', behind, offers, Offers(blocks, |got|, behind), f);
    if s'.ota.started { OffersDeliver(d, s', got', rest, f, behind); } else { OffersLeftover(rest, |got'|, behind); }
  }

  lemma Split(got: seq<byte>, blocks: seq<seq<byte>>, f: seq<byte>)
    returns (b: seq<byte>, rest: seq<seq<byte>>, got': seq<byte>)
    requires blocks != [] && Sized(blocks) && f == got + Flat(blocks)
    ensures b == blocks[0] && rest == blocks[1..] && got' == got + b && |got'| == |got| + |b|
    ensures 0 < |b| < 256 && Sized(rest) && f == got' + Flat(rest) && got' <= f
    ensures |got'| < |f| ==> rest != []
  {
    b, rest, got' := blocks[0], blocks[1..], got + blocks[0];
    assert blocks[0] in blocks && forall c :: c in rest ==> c in blocks;
    assert f == got' + Flat(rest);
  }

  /** The first block offered: delivering the rest from what it leads to delivers the file. */
  lemma OfferFirst(d: Device, s: State, got: seq<byte>, b: seq<byte>, got': seq<byte>, behind: byte,
                   rest: seq<Event>, evs: seq<Event>, f: seq<byte>) returns (s': State)
    requires evs == [Block(0, |got|, b, behind)] + rest && got' == got + b && got' <= f
    requires Inv(d, s, got) && s.ota.started && s.ota.local && s.ota.total == |f| >= 4 && 0 < |b| < 256
    ensures Inv(d, s', got')
    ensures s'.ota.started ==> s'.ota.local && s'.ota.total == |f| > |got'|
    ensures Delivers(d, s', got', rest, f) ==> Delivers(d, s, got, evs, f)
  {
    var e := Block(0, |got|, b, behind);
    StepKeeps(d, s, got, e);
    s' := Handle(d, s, e);
    var _ := Given(d, s, got, e, rest, f);
    assert evs[1..] == rest;
  }

  /** In particular a whole image offered straight through, the same byte behind every block. */
  lemma LocalOffer(d: Device, s: State, got: seq<byte>, blocks: seq<seq<byte>>, f: seq<byte>, behind: byte)
    requires Inv(d, s, got) && s.ota.started && s.ota.local && s.ota.total == |f| >= 4
    requires blocks != [] && Sized(blocks) && f == got + Flat(blocks)
    ensures Judges(d, s, got, Offers(blocks, |got|, behind), f,
                   Accepts(d.step, f) && (EndsAtFlag(blocks, |got|) ==> behind == START_FLAG))
  {
    OffersDeliver(d, s, got, blocks, f, behind);
    OffersStray(blocks, |got|, behind);
    LocalUpload(d, s, got, Offers(blocks, |got|, behind), f);
  }

  /** An acceptable image that carries its own size. */
  predicate Sound(step: Table, max: nat, f: seq<byte>) {
    SIZE_OFFSET + 4 <= |f| <= max && Word(f[SIZE_OFFSET..SIZE_OFFSET + 4]) == |f| && Accepts(step, f)
  }

  /** What success leaves in the flash passes the check made before the reboot, the reboot sets the
      flag byte, and the bootloader then installs the image byte for byte and starts it. */
  lemma SuccessBoots(d: Device, l: Layout, mem: Mem, f: seq<byte>)
    requires Boot.Placed(l, mem) && l.image == d.area && l.max == d.max && Sound(d.step, d.max, f)
    requires mem[d.area..d.area + |f|] == Content(true, f)
    ensures Checkable(d, mem) && Reboots(d, mem)
    ensures var m' := OnReboot(d, mem, Loader);
      m'[d.area..d.area + |f|] == f && Fits(l, m')
      && var end := RunOps(m', BootOps(l, m', d.step)); end[l.load..l.load + |f|] == f && HasFlag(end, l.load)
  {
    StoredIsValid(d, mem, f);
    FlagSet(d.area, mem, f);
    SoundWord(d.step, d.max, f);
    assert Content(true, f)[|f| - 4..] == f[|f| - 4..];
    Boot.PendingInstalls(l, OnReboot(d, mem, Loader), f, d.step);
  }

  /** Without a bootloader: the chip, which ran one of the two images, boots the other one, and that
      is the file byte for byte. */
  lemma SuccessSwitches(d: Device, mem: Mem, f: seq<byte>, upper: nat)
    requires Sound(d.step, d.max, f) && d.area + d.max <= |mem| && d.max >= SECTOR && upper >= d.max
    requires BootAddr(mem, upper) >= 0 && d.area == (if BootAddr(mem, upper) == 0 then upper else 0)
    requires mem[d.area..d.area + |f|] == Content(true, f)
    ensures Checkable(d, mem) && Reboots(d, mem)
    ensures var m' := OnReboot(d, mem, Direct(BootAddr(mem, upper)));
      m'[d.area..d.area + |f|] == f && BootAddr(m', upper) == d.area
  {
    StoredIsValid(d, mem, f);
    var running := BootAddr(mem, upper);
    var m' := Switched(d, mem, f, running);
    BootsOther(m', d.area, running, upper);
  }

  /** Power lost between the two flag writes of the switch-over, or in either of them: the chip still finds
      an image, the running one as it was but for the other's flag byte, or the file. */
  lemma SwitchSurvivesCut(d: Device, mem: Mem, f: seq<byte>, upper: nat, running: nat, c: Mem)
    requires Sound(d.step, d.max, f) && d.area + d.max <= |mem| && d.max >= SECTOR && upper >= d.max
    requires running == BootAddr(mem, upper) && d.area == (if running == 0 then upper else 0)
    requires mem[d.area..d.area + |f|] == Content(true, f)
    requires var m := Program(mem, d.area + FLAG_OFFSET, [START_FLAG]);
      || Torn(mem, Write(d.area + FLAG_OFFSET, [START_FLAG]), c)
      || Torn(m, Write(running + FLAG_OFFSET, [0]), c)
    ensures StartsEither(mem, d.area, f, upper, running, c)
  {
    var a, b := d.area + FLAG_OFFSET, running + FLAG_OFFSET;
    var m := Program(mem, a, [START_FLAG]);
    ByteTorn(mem, a, START_FLAG, c);
    ByteTorn(m, b, 0, c);
    SwitchStates(d, mem, f, upper, running, m, Program(m, b, [0]));
  }

  /** Before, between and after the two writes. */
  lemma SwitchStates(d: Device, mem: Mem, f: seq<byte>, upper: nat, running: nat, m: Mem, m': Mem)
    requires Sound(d.step, d.max, f) && d.area + d.max <= |mem| && d.max >= SECTOR && upper >= d.max
    requires running == BootAddr(mem, upper) && d.area == (if running == 0 then upper else 0)
    requires mem[d.area..d.area + |f|] == Content(true, f)
    requires m == Program(mem, d.area + FLAG_OFFSET, [START_FLAG]) && m' == Program(m, running + FLAG_OFFSET, [0])
    ensures StartsEither(mem, d.area, f, upper, running, mem) && StartsEither(mem, d.area, f, upper, running, m)
    ensures StartsEither(mem, d.area, f, upper, running, m')
  {
    FlagSet(d.area, mem, f);
    SoundWord(d.step, d.max, f);
    StoredFlag(m, d.area, f);
    BetweenWrites(mem, d.area, f, upper, running, m);
    AfterWrites(m, d.area, f, upper, running, m', mem);
  }

  /** The chip starts the running image, unchanged but for one byte elsewhere, or the file in the area. */
  ghost predicate StartsEither(mem: Mem, area: nat, f: seq<byte>, upper: nat, running: nat, c: Mem) {
    |c| == |mem| && area + |f| <= |mem| &&
    if BootAddr(c, upper) == running then forall i :: 0 <= i < |mem| && i != area + FLAG_OFFSET ==> c[i] == mem[i]
    else BootAddr(c, upper) == area && c[area..area + |f|] == f
  }

  lemma BetweenWrites(mem: Mem, area: nat, f: seq<byte>, upper: nat, running: nat, m: Mem)
    requires running == BootAddr(mem, upper) && area == (if running == 0 then upper else 0) && upper >= SECTOR
    requires m == Program(mem, area + FLAG_OFFSET, [START_FLAG]) && HasFlag(m, area)
    requires area + |f| <= |m| && m[area..area + |f|] == f
    ensures StartsEither(mem, area, f, upper, running, mem) && StartsEither(mem, area, f, upper, running, m)
  {
    StillRuns(mem, area, running, upper, m);
  }

  lemma AfterWrites(m: Mem, area: nat, f: seq<byte>, upper: nat, running: nat, c: Mem, mem: Mem)
    requires (running == 0 && area == upper) || (running == upper && area == 0)
    requires |f| >= FLAG_OFFSET + 4 && f[FLAG_OFFSET..FLAG_OFFSET + 4] == STARTUP && |mem| == |m|
    requires area + |f| <= |m| && m[area..area + |f|] == f && !(area <= running + FLAG_OFFSET < area + |f|)
    requires c == Program(m, running + FLAG_OFFSET, [0])
    ensures StartsEither(mem, area, f, upper, running, c)
  {
    SwitchedOver(m, area, running, f);
    BootsOther(c, area, running, upper);
  }

  lemma ByteTorn(m: Mem, a: nat, b: byte, c: Mem)
    ensures Torn(m, Write(a, [b]), c) ==> c == m || c == Program(m, a, [b])
  {
    if Torn(m, Write(a, [b]), c) {
      TornFrame(m, Write(a, [b]), c);
      if a >= |m| || c[a] == m[a] { assert c == m; } else { assert c == Program(m, a, [b]); }
    }
  }

  /** With both flags set the chip starts the image at address 0. */
  lemma StillRuns(mem: Mem, area: nat, running: nat, upper: nat, m: Mem)
    requires running == BootAddr(mem, upper) && area == (if running == 0 then upper else 0) && upper >= SECTOR
    requires m == Program(mem, area + FLAG_OFFSET, [START_FLAG]) && HasFlag(m, area)
    ensures BootAddr(m, upper) == 0
    ensures forall i :: 0 <= i < |mem| && i != area + FLAG_OFFSET ==> m[i] == mem[i]
  {
    if running == 0 {
      assert m[FLAG_OFFSET..FLAG_OFFSET + 4] == mem[FLAG_OFFSET..FLAG_OFFSET + 4];
    }
  }

  lemma BootsOther(m: Mem, area: nat, running: nat, upper: nat)
    requires (running == 0 && area == upper) || (running == upper && area == 0)
    requires HasFlag(m, area) && !HasFlag(m, running)
    ensures BootAddr(m, upper) == area
  {
  }

  lemma Switched(d: Device, mem: Mem, f: seq<byte>, running: nat) returns (m': Mem)
    requires Sound(d.step, d.max, f) && d.area + d.max <= |mem| && Checkable(d, mem) && Reboots(d, mem)
    requires mem[d.area..d.area + |f|] == Content(true, f) && !(d.area <= running + FLAG_OFFSET < d.area + |f|)
    ensures m' == OnReboot(d, mem, Direct(running)) && m'[d.area..d.area + |f|] == f
    ensures HasFlag(m', d.area) && !HasFlag(m', running)
  {
    FlagSet(d.area, mem, f);
    SoundWord(d.step, d.max, f);
    var m := Program(mem, d.area + FLAG_OFFSET, [START_FLAG]);
    SwitchedOver(m, d.area, running, f);
    m' := Program(m, running + FLAG_OFFSET, [0]);
  }

  lemma SwitchedOver(m: Mem, area: nat, running: nat, f: seq<byte>)
    requires |f| >= FLAG_OFFSET + 4 && f[FLAG_OFFSET..FLAG_OFFSET + 4] == STARTUP
    requires area + |f| <= |m| && m[area..area + |f|] == f && !(area <= running + FLAG_OFFSET < area + |f|)
    ensures var m' := Program(m, running + FLAG_OFFSET, [0]);
      m'[area..area + |f|] == f && HasFlag(m', area) && !HasFlag(m', running)
  {
    FlagAway(m, running);
    FarWrite(m, area, |f|, running + FLAG_OFFSET);
    StoredFlag(Program(m, running + FLAG_OFFSET, [0]), area, f);
  }

  lemma FlagAway(m: Mem, a: nat)
    ensures !HasFlag(Program(m, a + FLAG_OFFSET, [0]), a)
  {
    if HasFlag(Program(m, a + FLAG_OFFSET, [0]), a) { FirstFlagByte(Program(m, a + FLAG_OFFSET, [0]), a); }
  }

  lemma FirstFlagByte(m: Mem, a: nat)
    requires HasFlag(m, a)
    ensures m[a + FLAG_OFFSET] == START_FLAG
  {
    assert m[a + FLAG_OFFSET..a + FLAG_OFFSET + 4][0] == STARTUP[0];
  }

  lemma FarWrite(m: Mem, a: nat, n: nat, b: nat)
    requires a + n <= |m| && !(a <= b < a + n)
    ensures Program(m, b, [0])[a..a + n] == m[a..a + n]
  {
  }

  lemma StoredFlag(m: Mem, a: nat, f: seq<byte>)
    requires |f| >= FLAG_OFFSET + 4 && f[FLAG_OFFSET..FLAG_OFFSET + 4] == STARTUP
    requires a + |f| <= |m| && m[a..a + |f|] == f
    ensures HasFlag(m, a)
  {
    SubSlice(m, a, a + |f|, FLAG_OFFSET, FLAG_OFFSET + 4);
  }

  lemma SoundWord(step: Table, max: nat, f: seq<byte>)
    requires Sound(step, max, f)
    ensures f[FLAG_OFFSET..FLAG_OFFSET + 4] == STARTUP
  {
    assert f[FLAG_OFFSET..FLAG_OFFSET + 4] == [f[FLAG_OFFSET]] + f[FLAG_OFFSET + 1..FLAG_OFFSET + 4];
    assert STARTUP == [START_FLAG] + CHECK_FLAG[1..];
  }

  lemma FlagSet(area: nat, mem: Mem, f: seq<byte>)
    requires FLAG_OFFSET < |f| && area + |f| <= |mem| && mem[area..area + |f|] == Content(true, f)
    requires f[FLAG_OFFSET] == START_FLAG
    ensures Program(mem, area + FLAG_OFFSET, [START_FLAG])[area..area + |f|] == f
  {
    var m' := Program(mem, area + FLAG_OFFSET, [START_FLAG]);
    forall k | 0 <= k < |f| ensures m'[area..area + |f|][k] == f[k] {
      assert mem[area..area + |f|][k] == Content(true, f)[k];
      if k == FLAG_OFFSET { Boot.AllOnes(START_FLAG); }
    }
  }

  lemma StoredIsValid(d: Device, mem: Mem, f: seq<byte>)
    requires Sound(d.step, d.max, f) && d.area + d.max <= |mem| && d.max >= SECTOR
    requires mem[d.area..d.area + |f|] == Content(true, f)
    ensures Checkable(d, mem) && Reboots(d, mem)
  {
    StoredParts(d.area, mem, f);
    assert Unmasked(mem[d.area..d.area + |f| - 4]) == f[..|f| - 4];
    assert mem[d.area + FLAG_OFFSET] == mem[d.area..d.area + |f|][FLAG_OFFSET] == 0xff;
    Boot.AllOnes(START_FLAG);
  }

  lemma StoredParts(a: nat, mem: Mem, f: seq<byte>)
    requires SIZE_OFFSET + 4 <= |f| && a + |f| <= |mem| && f[FLAG_OFFSET] == START_FLAG
    requires mem[a..a + |f|] == Content(true, f)
    ensures mem[a + SIZE_OFFSET..a + SIZE_OFFSET + 4] == f[SIZE_OFFSET..SIZE_OFFSET + 4]
    ensures mem[a + FLAG_OFFSET + 1..a + FLAG_OFFSET + 4] == f[FLAG_OFFSET + 1..FLAG_OFFSET + 4]
    ensures mem[a + |f| - 4..a + |f|] == Content(true, f)[|f| - 4..]
    ensures Unmasked(mem[a..a + |f| - 4]) == f[..|f| - 4]
  {
    var c := Content(true, f);
    SubSlice(mem, a, a + |f|, SIZE_OFFSET, SIZE_OFFSET + 4);
    assert c[SIZE_OFFSET..SIZE_OFFSET + 4] == f[SIZE_OFFSET..SIZE_OFFSET + 4];
    SubSlice(mem, a, a + |f|, FLAG_OFFSET + 1, FLAG_OFFSET + 4);
    assert c[FLAG_OFFSET + 1..FLAG_OFFSET + 4] == f[FLAG_OFFSET + 1..FLAG_OFFSET + 4];
    SubSlice(mem, a, a + |f|, |f| - 4, |f|);
    assert c[|f| - 4..|f|] == c[|f| - 4..];
    SubSlice(mem, a, a + |f|, 0, |f| - 4);
    assert Unmasked(c[..|f| - 4]) == f[..|f| - 4];
  }

  // ----- a refused start

  /** Of the refused starts an oversized one alone leaves something behind: its address and size. */
  lemma RefusedStart(d: Device, s: State, size: nat, local: bool)
    requires Inv(d, s, []) && s.ota == CLEAR && !OnStart(d, s, size, local).ota.started
    ensures var s1 := OnStart(d, s, size, local);
      && s1.mem == s.mem && s1.timer == s.timer
      && (s1.ota == CLEAR <==> !(d.known && size >= d.max))
  {
  }

  /** What a refused start leaves behind is as good as a session: a block at offset 0 makes the device
      ask for the next one exactly when the start was refused for its size and the block does not show
      a bare firmware's start-up word; and then it stands in the image area, written without an erase. */
  lemma OversizeLeavesSession(d: Device, s: State, size: nat, local: bool, data: seq<byte>, behind: byte)
    requires Inv(d, s, []) && s.ota == CLEAR && !OnStart(d, s, size, local).ota.started && |data| < 256
    ensures var s2 := Handle(d, OnStart(d, s, size, local), Block(0, 0, data, behind));
      var bare := |data| >= FLAG_OFFSET + 4 && data[FLAG_OFFSET..FLAG_OFFSET + 4] == STARTUP;
      && (s2.timer == Retry <==> d.known && size >= d.max && !bare)
      && (s2.timer == Retry ==>
            !s2.ota.started && s2.ota.offset == |data| && s2.mem == Program(s.mem, d.area, data))
  {
    if d.known {
      var boot := Collect(CLEAR.boot, 0, data);
      assert |data| >= FLAG_OFFSET + 4 ==> boot == data[FLAG_OFFSET..FLAG_OFFSET + 4];
    }
  }
}
