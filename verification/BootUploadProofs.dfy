/** What the upload session keeps over every run of messages and timer events. */
module BootUploadProofs {
  import opened NorFlash
  import opened BootInstall
  import opened BootCopy
  import opened BootSafety
  import opened Crc32
  import opened BootUpload

  /** What the session has accepted so far: the bytes in order, and whether the first block
      reached the flag byte so that it was masked. */
  datatype Track = Track(got: seq<byte>, masked: bool)

  /** A block the session takes. */
  predicate Takes(s: State, e: Event) {
    e.Block? && e.status == 0 && s.info.total != 0 && e.offset == s.info.offset && 0 < |e.data| <= BLOCK_MAX
  }

  function Accepted(s: State, t: Track, e: Event): Track {
    match e
    case Start(_) => if s.info.start == 0 then Track([], false) else t
    case Tick => t
    case Check(_) => t
    case Block(_, _, data) =>
      if !Takes(s, e) then t
      else if s.info.offset == 0 then Track(data, |data| > FLAG_OFFSET)
      else Track(t.got + data, t.masked)
  }

  /** The bytes as they stand in the flash during the session. */
  function Content(t: Track): (c: seq<byte>)
    ensures |c| == |t.got|
  {
    if t.masked && |t.got| > FLAG_OFFSET then t.got[FLAG_OFFSET := 0xFF] else t.got
  }

  /** The image area is followed by at least another block's length of flash (the NV area). */
  predicate Placed(l: Layout, mem: Mem) {
    Fits(l, mem) && l.image > 0 && l.image + l.max + BLOCK_MAX <= |mem|
  }

  /** The record of an open session fits what has been accepted. */
  predicate Fitting(l: Layout, i: Info, t: Track) {
    && i.start == l.image && i.total <= l.max && i.offset == |t.got| && i.retry <= RETRY_MAX
    && |t.got| <= i.total && (i.total > 0 ==> |t.got| < i.total)
    && (t.got == [] ==> !t.masked) && (t.masked ==> |t.got| > FLAG_OFFSET)
  }

  ghost predicate Inv(l: Layout, s: State, t: Track) {
    && Placed(l, s.mem)
    && if s.info.start == 0 then s.info == IDLE
       else !s.check && Fitting(l, s.info, t) && Held(l.image, s.mem, Content(t), Room(s.info.total))
  }

  // ----- steps

  lemma BlankedHeld(l: Layout, mem: Mem, size: nat)
    requires Placed(l, mem) && size <= l.max
    ensures Placed(l, Blanked(mem, l.image, l.image + Room(size)))
    ensures Held(l.image, Blanked(mem, l.image, l.image + Room(size)), [], Room(size))
    ensures SameOutside(mem, Blanked(mem, l.image, l.image + Room(size)), l.image, l.image + l.max)
  {
    RoomFits(size, l.max);
  }

  lemma RoomFits(size: nat, max: nat)
    requires size <= max && max % SECTOR == 0
    ensures Room(size) <= max
  {
  }

  lemma ContentNext(t: Track, data: seq<byte>)
    requires t.masked ==> |t.got| > FLAG_OFFSET
    ensures Content(Track(t.got + data, t.masked)) == Content(t) + data
  {
  }

  /** Every step keeps the invariant. Until the boot check fires, everything outside the image area
      stays as it was, except that a last block longer than what was left may reach the bytes just
      behind it. */
  lemma StepKeeps(l: Layout, s: State, t: Track, e: Event)
    requires Inv(l, s, t) && Possible(s, e)
    ensures Inv(l, Handle(l, s, e), Accepted(s, t, e))
    ensures !e.Check? ==> SameOutside(s.mem, Handle(l, s, e).mem, l.image, l.image + l.max + BLOCK_MAX)
  {
    match e
    case Start(size) =>
      if s.info.start == 0 && size <= l.max { BlankedHeld(l, s.mem, size); }
    case Block(_, _, data) =>
      if Takes(s, e) { AcceptKeeps(l, s, t, data); }
    case Tick =>
    case Check(_) =>
  }

  lemma AcceptKeeps(l: Layout, s: State, t: Track, data: seq<byte>)
    requires Inv(l, s, t) && s.info.total != 0 && 0 < |data| <= BLOCK_MAX
    ensures Inv(l, Accept(s, data), Accepted(s, t, Block(0, s.info.offset, data)))
    ensures SameOutside(s.mem, Accept(s, data).mem, l.image, l.image + l.max + BLOCK_MAX)
  {
    AcceptReach(l, s, data);
    if s.info.offset + |data| < s.info.total { Continues(l, s, t, data); }
  }

  lemma Continues(l: Layout, s: State, t: Track, data: seq<byte>)
    requires Inv(l, s, t) && 0 < |data| <= BLOCK_MAX && s.info.offset + |data| < s.info.total
    ensures Inv(l, Accept(s, data), Accepted(s, t, Block(0, s.info.offset, data)))
  {
    BlockHeld(l, s, t, data);
  }

  lemma AcceptReach(l: Layout, s: State, data: seq<byte>)
    requires Fits(l, s.mem) && s.info.start == l.image && s.info.offset <= l.max && |data| <= BLOCK_MAX
    ensures SameOutside(s.mem, Accept(s, data).mem, l.image, l.image + l.max + BLOCK_MAX)
  {
  }

  lemma FirstBlock(l: Layout, mem: Mem, data: seq<byte>, room: nat)
    requires Held(l.image, mem, [], room) && |data| <= room
    ensures Held(l.image, Program(mem, l.image, Masked(data)), Content(Track(data, |data| > FLAG_OFFSET)), room)
  {
    HeldAppend(l.image, mem, [], Masked(data), room);
    assert [] + Masked(data) == Masked(data);
  }

  lemma LaterBlock(l: Layout, mem: Mem, t: Track, data: seq<byte>, room: nat)
    requires Held(l.image, mem, Content(t), room) && |t.got| + |data| <= room && (t.masked ==> |t.got| > FLAG_OFFSET)
    ensures Held(l.image, Program(mem, l.image + |t.got|, data), Content(Track(t.got + data, t.masked)), room)
  {
    HeldAppend(l.image, mem, Content(t), data, room);
    ContentNext(t, data);
  }

  /** The memory once the block is written, before any flag. */
  function Written(s: State, data: seq<byte>): Mem {
    Program(s.mem, s.info.start + s.info.offset, if s.info.offset == 0 then Masked(data) else data)
  }

  lemma BlockHeld(l: Layout, s: State, t: Track, data: seq<byte>)
    requires Inv(l, s, t) && s.info.start != 0 && 0 < |data| <= BLOCK_MAX && s.info.offset + |data| <= s.info.total
    ensures Held(l.image, Written(s, data), Content(Accepted(s, t, Block(0, s.info.offset, data))), Room(s.info.total))
  {
    if s.info.offset == 0 { FirstHeld(l, s, t, data); } else { LaterHeld(l, s, t, data); }
  }

  lemma FirstHeld(l: Layout, s: State, t: Track, data: seq<byte>)
    requires Inv(l, s, t) && s.info.start != 0 && 0 < |data| <= s.info.total && s.info.offset == 0
    ensures Held(l.image, Written(s, data), Content(Track(data, |data| > FLAG_OFFSET)), Room(s.info.total))
  {
    assert Content(t) == [];
    FirstBlock(l, s.mem, data, Room(s.info.total));
  }

  lemma LaterHeld(l: Layout, s: State, t: Track, data: seq<byte>)
    requires Inv(l, s, t) && s.info.start != 0 && s.info.offset > 0 && s.info.offset + |data| <= s.info.total
    ensures Held(l.image, Written(s, data), Content(Track(t.got + data, t.masked)), Room(s.info.total))
  {
    var room := Room(s.info.total);
    LaterBlock(l, s.mem, t, data, room);
    assert Written(s, data) == Program(s.mem, l.image + |t.got|, data);
  }

  // ----- runs

  /** Every event can happen in the state it finds. */
  ghost predicate Feasible(l: Layout, s: State, t: Track, evs: seq<Event>)
    requires Inv(l, s, t)
    decreases |evs|
  {
    evs == [] ||
    (Possible(s, evs[0])
     && (StepKeeps(l, s, t, evs[0]); Feasible(l, Handle(l, s, evs[0]), Accepted(s, t, evs[0]), evs[1..])))
  }

  /** The state after a run and what the session open at its end has accepted. */
  ghost function Run(l: Layout, s: State, t: Track, evs: seq<Event>): (r: (State, Track))
    requires Inv(l, s, t) && Feasible(l, s, t, evs)
    ensures Inv(l, r.0, r.1)
    decreases |evs|
  {
    if evs == [] then (s, t)
    else
      StepKeeps(l, s, t, evs[0]);
      Run(l, Handle(l, s, evs[0]), Accepted(s, t, evs[0]), evs[1..])
  }

  /** The run ends with no session, the boot check scheduled, and the file it received in place. */
  ghost predicate Completes(l: Layout, s: State, t: Track, evs: seq<Event>, f: seq<byte>)
    requires Inv(l, s, t)
  {
    && Feasible(l, s, t, evs)
    && var (s', t') := Run(l, s, t, evs);
       s'.info == IDLE && s'.check && t'.got == f && |s'.mem| >= l.image + |f|
       && s'.mem[l.image..l.image + |f|] == Finished(f, t'.masked)
  }

  lemma CompletesFirst(l: Layout, s: State, t: Track, e: Event, rest: seq<Event>, f: seq<byte>)
    requires Inv(l, s, t) && Possible(s, e) && Inv(l, Handle(l, s, e), Accepted(s, t, e))
    requires Completes(l, Handle(l, s, e), Accepted(s, t, e), rest, f)
    ensures Completes(l, s, t, [e] + rest, f)
  {
    RunFirst(l, s, t, e, rest);
  }

  lemma RunFirst(l: Layout, s: State, t: Track, e: Event, rest: seq<Event>)
    requires Inv(l, s, t) && Possible(s, e) && Inv(l, Handle(l, s, e), Accepted(s, t, e))
    requires Feasible(l, Handle(l, s, e), Accepted(s, t, e), rest)
    ensures Feasible(l, s, t, [e] + rest)
    ensures Run(l, s, t, [e] + rest) == Run(l, Handle(l, s, e), Accepted(s, t, e), rest)
  {
    assert ([e] + rest)[1..] == rest;
  }

  lemma OpenHolds(l: Layout, s: State, t: Track)
    requires Inv(l, s, t) && s.info.start != 0
    ensures !s.check && s.info.offset == |t.got| && s.mem[l.image..l.image + |t.got|] == Content(t)
    ensures IsErased(s.mem, l.image + |t.got|, l.image + Room(s.info.total))
  {
  }

  /** The first step of a run, and of the same run with more behind it. */
  lemma FirstStep(l: Layout, s: State, t: Track, a: seq<Event>, b: seq<Event>) returns (s1: State, t1: Track)
    requires Inv(l, s, t) && a != [] && Feasible(l, s, t, a)
    ensures Inv(l, s1, t1) && Feasible(l, s1, t1, a[1..]) && Run(l, s, t, a) == Run(l, s1, t1, a[1..])
    ensures !a[0].Check? ==> SameOutside(s.mem, s1.mem, l.image, l.image + l.max + BLOCK_MAX)
    ensures Feasible(l, s1, t1, a[1..] + b) ==>
              Feasible(l, s, t, a + b) && Run(l, s, t, a + b) == Run(l, s1, t1, a[1..] + b)
  {
    StepKeeps(l, s, t, a[0]);
    s1, t1 := Handle(l, s, a[0]), Accepted(s, t, a[0]);
    if Feasible(l, s1, t1, a[1..] + b) {
      RunFirst(l, s, t, a[0], a[1..] + b);
      assert a + b == [a[0]] + (a[1..] + b);
    }
  }

  /** Over every run of messages, timer events and boot checks, however ill-formed: while a session
      is open the image area holds the accepted blocks in order with the flag byte masked, the rest
      of the room is still erased and the boot check is not scheduled; and without a boot check the
      running application and everything below the image are untouched. */
  lemma RunHolds(l: Layout, s: State, t: Track, evs: seq<Event>)
    requires Inv(l, s, t) && Feasible(l, s, t, evs)
    ensures var (s', t') := Run(l, s, t, evs);
      && ((forall e :: e in evs ==> !e.Check?) ==> SameOutside(s.mem, s'.mem, l.image, l.image + l.max + BLOCK_MAX))
      && (s'.info.start != 0 ==>
            && !s'.check && s'.info.offset == |t'.got|
            && s'.mem[l.image..l.image + |t'.got|] == Content(t')
            && IsErased(s'.mem, l.image + |t'.got|, l.image + Room(s'.info.total)))
  {
    var (s', t') := Run(l, s, t, evs);
    if s'.info.start != 0 { OpenHolds(l, s', t'); }
    if forall e :: e in evs ==> !e.Check? { RunFrame(l, s, t, evs); }
  }

  lemma {:induction false} RunFrame(l: Layout, s: State, t: Track, evs: seq<Event>)
    requires Inv(l, s, t) && Feasible(l, s, t, evs) && forall e :: e in evs ==> !e.Check?
    ensures SameOutside(s.mem, Run(l, s, t, evs).0.mem, l.image, l.image + l.max + BLOCK_MAX)
    decreases |evs|
  {
    if evs != [] {
      var s1, t1 := FirstStep(l, s, t, evs, []);
      assert evs[0] in evs && forall e :: e in evs[1..] ==> e in evs;
      RunFrame(l, s1, t1, evs[1..]);
    }
  }

  /** While a session for a file is open the image area is not bootable, unless the first block
      was too short to reach the flag byte and the start-up word has already arrived. */
  lemma OpenNotBootable(l: Layout, s: State, t: Track)
    requires Inv(l, s, t) && s.info.start != 0 && s.info.total > 0
    ensures HasFlag(s.mem, l.image) <==>
      !t.masked && |t.got| >= FLAG_OFFSET + 4 && t.got[FLAG_OFFSET..FLAG_OFFSET + 4] == STARTUP
  {
    var c := Content(t);
    RoomFits(s.info.total, l.max);
    assert s.info.total > 0 ==> Room(s.info.total) >= SECTOR;
    if |c| >= FLAG_OFFSET + 4 {
      SubSlice(s.mem, l.image, l.image + |c|, FLAG_OFFSET, FLAG_OFFSET + 4);
      if t.masked { assert c[FLAG_OFFSET..FLAG_OFFSET + 4][0] == 0xFF; }
    } else {
      assert s.mem[l.image + FLAG_OFFSET + 3] == 0xFF;
      if HasFlag(s.mem, l.image) { LastFlagByte(s.mem, l.image); }
    }
  }

  lemma LastFlagByte(mem: Mem, addr: nat)
    requires HasFlag(mem, addr)
    ensures mem[addr + FLAG_OFFSET + 3] == 0x54
  {
    assert mem[addr + FLAG_OFFSET..addr + FLAG_OFFSET + 4][3] == STARTUP[3];
  }

  /** What a completed file reads as: its flag byte has been through two programs. */
  function Finished(f: seq<byte>, masked: bool): (c: seq<byte>)
    ensures |c| == |f|
  {
    if |f| <= FLAG_OFFSET then f
    else f[FLAG_OFFSET := if masked then START_FLAG else f[FLAG_OFFSET] & START_FLAG]
  }

  /** A file whose flag byte is right is stored exactly. */
  lemma FinishedExact(f: seq<byte>, masked: bool)
    requires |f| <= FLAG_OFFSET || f[FLAG_OFFSET] == START_FLAG
    ensures Finished(f, masked) == f
  {
  }

  /** The block that completes the file: success is reported, the boot check scheduled, and the
      image area holds the whole file. */
  lemma CompletionHolds(l: Layout, s: State, t: Track, data: seq<byte>)
    requires Inv(l, s, t) && 0 < |data| <= BLOCK_MAX && s.info.start != 0 && s.info.offset + |data| == s.info.total
    ensures var s', t' := Accept(s, data), Accepted(s, t, Block(0, s.info.offset, data));
      && s'.info == IDLE && s'.check && s'.out == s.out + [End(s.info.total, s.info.total, Success)]
      && l.image + |t'.got| <= |s'.mem| && |t'.got| == s.info.total
      && s'.mem[l.image..l.image + |t'.got|] == Finished(t'.got, t'.masked)
  {
    var room := Room(s.info.total);
    RoomFits(s.info.total, l.max);
    var t' := Accepted(s, t, Block(0, s.info.offset, data));
    BlockHeld(l, s, t, data);
    FlagProgrammed(l, Written(s, data), t', room);
  }

  lemma FlagProgrammed(l: Layout, m: Mem, t: Track, room: nat)
    requires Held(l.image, m, Content(t), room)
    ensures var m' := Program(m, l.image + FLAG_OFFSET, [START_FLAG]);
      m'[l.image..l.image + |t.got|] == Finished(t.got, t.masked)
  {
    var c := Content(t);
    var m' := Program(m, l.image + FLAG_OFFSET, [START_FLAG]);
    forall k | 0 <= k < |c| ensures m'[l.image..l.image + |c|][k] == Finished(t.got, t.masked)[k] {
      assert m[l.image + k] == m[l.image..l.image + |c|][k] == c[k];
      if k == FLAG_OFFSET {
        ProgramByte(m, l.image + FLAG_OFFSET, START_FLAG);
        AllOnes(START_FLAG);
      } else {
        OtherByte(m, l.image + FLAG_OFFSET, START_FLAG, l.image + k);
      }
    }
  }

  lemma OtherByte(m: Mem, a: nat, b: byte, k: nat)
    requires k < |m| && k != a
    ensures Program(m, a, [b])[k] == m[k]
  {
  }

  lemma AllOnes(b: byte)
    ensures 0xFF & b == b
  {
  }

  // ----- what a step can write

  /** A block no longer than what was left stays within the image area. */
  lemma BlockStaysInside(l: Layout, s: State, t: Track, data: seq<byte>)
    requires Inv(l, s, t) && s.info.total > 0 && 0 < |data| <= BLOCK_MAX && s.info.offset + |data| <= l.max
    ensures SameOutside(s.mem, Accept(s, data).mem, l.image, l.image + l.max)
  {
  }

  /** A longer one ends the session, but only after it has programmed the bytes behind the area. */
  lemma BlockOverruns(l: Layout, s: State, t: Track, data: seq<byte>, k: nat)
    requires Inv(l, s, t) && s.info.total > 0 && 0 < |data| <= BLOCK_MAX && l.max <= k < s.info.offset + |data|
    ensures Accept(s, data).mem[l.image + k] == s.mem[l.image + k] & data[k - s.info.offset]
    ensures Accept(s, data).info == IDLE && Accept(s, data).out[|s.out|].status == IncorrectOffset
  {
  }

  // ----- the retry timer

  /** An event an open session gets nothing from. */
  predicate Useless(i: Info, e: Event) {
    match e
    case Start(_) => true
    case Block(status, offset, data) => status == 0 && (offset != i.offset || |data| == 0 || |data| > BLOCK_MAX)
    case Tick => i.timer
    case Check(_) => true
  }

  /** A session that is still open after a step has lost its timer exactly when the step was a
      successful response at the wrong offset, or one with an empty or over-long block. */
  lemma StallsExactly(l: Layout, s: State, t: Track, e: Event)
    requires Inv(l, s, t) && Possible(s, e) && s.info.timer && s.info.total > 0
    requires Handle(l, s, e).info.start != 0
    ensures Handle(l, s, e).info.timer <==> !(e.Block? && Useless(s.info, e))
  {
  }

  /** What the host has last been told about a block of this session: it came at the wrong offset. */
  predicate ToldWrong(out: seq<Msg>) {
    out != []
    && match out[|out| - 1]
       case Ack(status) => status == IncorrectOffset
       case BlockReq(_, _) => ToldWrong(out[..|out| - 1])
       case StartRsp(_, _, _, status) => status != Success && ToldWrong(out[..|out| - 1])
       case End(_, _, _) => false
  }

  /** An open session has its retry timer exactly while that is not so. */
  predicate Armed(s: State) {
    s.info.start != 0 ==> (s.info.timer <==> !ToldWrong(s.out))
  }

  lemma ToldNext(out: seq<Msg>, m: Msg)
    ensures ToldWrong(out + [m]) <==>
      match m
      case Ack(status) => status == IncorrectOffset
      case BlockReq(_, _) => ToldWrong(out)
      case StartRsp(_, _, _, status) => status != Success && ToldWrong(out)
      case End(_, _, _) => false
  {
    assert (out + [m])[..|out|] == out;
  }

  lemma ArmedStep(l: Layout, s: State, t: Track, e: Event)
    requires Inv(l, s, t) && Possible(s, e) && Armed(s)
    ensures Armed(Handle(l, s, e))
  {
    var s' := Handle(l, s, e);
    if !e.Check? {
      var m := Reply(l, s, t, e, s');
      SaysNext(s, s', m);
    }
  }

  /** What a reply says about the timer of a session that is open after it. */
  predicate Says(i: Info, i': Info, m: Msg) {
    i'.start != 0 ==>
      match m
      case Ack(status) => i'.timer <==> status != IncorrectOffset
      case BlockReq(_, _) => i.start != 0 && i'.timer == i.timer
      case StartRsp(_, _, _, status) => if status == Success then i'.timer else i.start != 0 && i'.timer == i.timer
      case End(_, _, _) => false
  }

  lemma SaysNext(s: State, s': State, m: Msg)
    requires Armed(s) && s'.out == s.out + [m] && Says(s.info, s'.info, m)
    ensures Armed(s')
  {
    ToldNext(s.out, m);
  }

  /** Every message and retry is replied to once. */
  lemma Reply(l: Layout, s: State, t: Track, e: Event, s': State) returns (m: Msg)
    requires Inv(l, s, t) && Possible(s, e) && !e.Check? && s' == Handle(l, s, e)
    ensures s'.out == s.out + [m] && Says(s.info, s'.info, m)
  {
    m := s'.out[|s.out|];
  }

  /** Over every run, whatever sessions it opens: an open session has its timer exactly when the last
      block reply of the session was not one about a wrong offset. */
  lemma {:induction false} ArmedExactly(l: Layout, s: State, t: Track, evs: seq<Event>)
    requires Inv(l, s, t) && Feasible(l, s, t, evs) && Armed(s)
    ensures Armed(Run(l, s, t, evs).0)
    decreases |evs|
  {
    if evs != [] {
      StepKeeps(l, s, t, evs[0]);
      ArmedStep(l, s, t, evs[0]);
      ArmedExactly(l, Handle(l, s, evs[0]), Accepted(s, t, evs[0]), evs[1..]);
    }
  }

  /** A session that has lost its timer: whatever starts and further wrong offsets follow, it stays
      open, unchanged and without a timer. */
  lemma {:induction false} StalledForever(l: Layout, s: State, t: Track, evs: seq<Event>)
    requires Inv(l, s, t) && s.info.start != 0 && s.info.total > 0 && !s.info.timer
    requires Feasible(l, s, t, evs) && forall e :: e in evs ==> Useless(s.info, e)
    ensures var s' := Run(l, s, t, evs).0; s'.info == s.info && s'.mem == s.mem && s'.check == s.check
    decreases |evs|
  {
    if evs != [] {
      assert evs[0] in evs && !evs[0].Tick?;
      var s' := Handle(l, s, evs[0]);
      assert s'.info == s.info && s'.mem == s.mem;
      StalledForever(l, s', t, evs[1..]);
    }
  }

  function Ticks(n: nat): (e: seq<Event>)
    ensures |e| == n
  {
    if n == 0 then [] else [Tick] + Ticks(n - 1)
  }

  function Requests(i: Info, n: nat): seq<Msg>
    requires i.offset <= i.total
  {
    if n == 0 then [] else [BlockReq(i.offset, Wanted(i))] + Requests(i, n - 1)
  }

  /** Left without an answer, the session asks RETRY_MAX - retry more times for the block it wants
      and then gives up. */
  lemma {:induction false} GivesUp(l: Layout, s: State, t: Track)
    requires Inv(l, s, t) && s.info.timer
    ensures var n := RETRY_MAX - s.info.retry;
      && Feasible(l, s, t, Ticks(n + 1))
      && Run(l, s, t, Ticks(n + 1)).0
         == State(IDLE, s.mem, s.check, s.out + Requests(s.info, n) + [End(s.info.total, s.info.offset, Timeout)])
    decreases RETRY_MAX - s.info.retry
  {
    var n := RETRY_MAX - s.info.retry;
    StepKeeps(l, s, t, Tick);
    var s' := OneTick(l, s, t);
    if n > 0 {
      GivesUp(l, s', t);
      SameRequests(s.info, n - 1);
      assert s'.out + Requests(s'.info, n - 1) == s.out + Requests(s.info, n);
    } else {
      assert s.out + Requests(s.info, 0) == s.out;
    }
    RunFirst(l, s, t, Tick, Ticks(n));
  }

  lemma OneTick(l: Layout, s: State, t: Track) returns (s': State)
    requires Inv(l, s, t) && s.info.timer
    ensures s' == Handle(l, s, Tick) && Accepted(s, t, Tick) == t
    ensures s' == if s.info.retry < RETRY_MAX then
                    s.(info := s.info.(retry := s.info.retry + 1),
                       out := s.out + [BlockReq(s.info.offset, Wanted(s.info))])
                  else State(IDLE, s.mem, s.check, s.out + [End(s.info.total, s.info.offset, Timeout)])
  {
    s' := Handle(l, s, Tick);
  }

  lemma {:induction false} SameRequests(i: Info, n: nat)
    requires i.offset <= i.total
    ensures Requests(i.(retry := i.retry + 1), n) == Requests(i, n)
  {
    if n > 0 { SameRequests(i, n - 1); }
  }

  // ----- a whole upload, and the install after it

  /** An event after which an open session still waits for the same block: a further start, a block
      at the wrong offset, or a retry that is not the last. */
  predicate Waits(i: Info, e: Event) {
    match e
    case Start(_) => true
    case Block(_, _, _) => Useless(i, e)
    case Tick => i.timer && i.retry < RETRY_MAX
    case Check(_) => false
  }

  /** The run goes on until the session is over, and the blocks accepted on the way are those of the
      file, cut up in any way, with any waiting in between. */
  ghost predicate Delivers(l: Layout, s: State, t: Track, evs: seq<Event>, f: seq<byte>)
    requires Inv(l, s, t)
    decreases |evs|
  {
    if s.info.start == 0 then evs == []
    else
      && evs != []
      && (Waits(s.info, evs[0]) || (Takes(s, evs[0]) && Accepted(s, t, evs[0]).got <= f))
      && (StepKeeps(l, s, t, evs[0]); Delivers(l, Handle(l, s, evs[0]), Accepted(s, t, evs[0]), evs[1..], f))
  }

  /** The session that is open at the start is open until the last event. */
  ghost predicate Lasts(l: Layout, s: State, t: Track, evs: seq<Event>)
    requires Inv(l, s, t) && Feasible(l, s, t, evs)
    decreases |evs|
  {
    evs == []
    || (s.info.start != 0
        && (StepKeeps(l, s, t, evs[0]); Lasts(l, Handle(l, s, evs[0]), Accepted(s, t, evs[0]), evs[1..])))
  }

  /** The file an open session is for ends up stored, and its boot check scheduled, in exactly those
      runs of the session that deliver it. */
  lemma UploadCompletes(l: Layout, s: State, t: Track, evs: seq<Event>, f: seq<byte>)
    requires Inv(l, s, t) && s.info.start != 0 && s.info.total == |f| > 0 && t.got <= f
    ensures Delivers(l, s, t, evs, f) <==> Completes(l, s, t, evs, f) && Lasts(l, s, t, evs)
  {
    if Delivers(l, s, t, evs, f) { DeliveryCompletes(l, s, t, evs, f); }
    if Completes(l, s, t, evs, f) && Lasts(l, s, t, evs) { CompletionDelivers(l, s, t, evs, f); }
  }

  lemma {:induction false} DeliveryCompletes(l: Layout, s: State, t: Track, evs: seq<Event>, f: seq<byte>)
    requires Inv(l, s, t) && s.info.start != 0 && s.info.total == |f| > 0 && t.got <= f && Delivers(l, s, t, evs, f)
    ensures Completes(l, s, t, evs, f) && Lasts(l, s, t, evs)
    decreases |evs|
  {
    var e, rest := evs[0], evs[1..];
    StepKeeps(l, s, t, e);
    var s', t' := Handle(l, s, e), Accepted(s, t, e);
    if Takes(s, e) && s.info.offset + |e.data| == s.info.total {
      WholeFile(l, s, t, e, f);
    } else {
      GoesOn(l, s, t, e, f);
      DeliveryCompletes(l, s', t', rest, f);
    }
    CompletesFirst(l, s, t, e, rest, f);
    assert evs == [e] + rest;
  }

  /** The last block of the file. */
  lemma WholeFile(l: Layout, s: State, t: Track, e: Event, f: seq<byte>)
    requires Inv(l, s, t) && s.info.start != 0 && Takes(s, e) && s.info.offset + |e.data| == s.info.total == |f|
    requires Inv(l, Handle(l, s, e), Accepted(s, t, e)) && Accepted(s, t, e).got <= f
    ensures Handle(l, s, e).info.start == 0 && Completes(l, Handle(l, s, e), Accepted(s, t, e), [], f)
  {
    CompletionHolds(l, s, t, e.data);
  }

  /** Any other event of a delivery leaves the session open. */
  lemma GoesOn(l: Layout, s: State, t: Track, e: Event, f: seq<byte>)
    requires Inv(l, s, t) && s.info.start != 0 && s.info.total == |f| > 0 && t.got <= f
    requires Waits(s.info, e) || (Takes(s, e) && Accepted(s, t, e).got <= f && s.info.offset + |e.data| != |f|)
    ensures Handle(l, s, e).info.start != 0 && Handle(l, s, e).info.total == |f| && Accepted(s, t, e).got <= f
  {
    if Takes(s, e) { GotGrows(l, s, t, e.data); }
  }

  lemma {:induction false} CompletionDelivers(l: Layout, s: State, t: Track, evs: seq<Event>, f: seq<byte>)
    requires Inv(l, s, t) && s.info.start != 0 && s.info.total == |f| > 0
    requires Completes(l, s, t, evs, f) && Lasts(l, s, t, evs)
    ensures Delivers(l, s, t, evs, f) && t.got <= f
    decreases |evs|
  {
    var e, rest := evs[0], evs[1..];
    StepKeeps(l, s, t, e);
    var s', t' := Handle(l, s, e), Accepted(s, t, e);
    StepKinds(l, s, t, e);
    if s'.info.start == 0 {
      assert rest == [] && Run(l, s, t, evs) == (s', t');
    } else {
      CompletionDelivers(l, s', t', rest, f);
    }
    if Takes(s, e) { GotGrows(l, s, t, e.data); }
  }

  /** An event of an open session waits, is taken, or ends it without a boot check. */
  lemma StepKinds(l: Layout, s: State, t: Track, e: Event)
    requires Inv(l, s, t) && s.info.start != 0 && s.info.total > 0 && Possible(s, e)
    ensures var s' := Handle(l, s, e);
      || Takes(s, e)
      || (Waits(s.info, e) && s'.info.start != 0 && s'.info.total == s.info.total && Accepted(s, t, e) == t)
      || (s'.info == IDLE && !s'.check)
    ensures Takes(s, e) && Handle(l, s, e).info.start != 0 ==> Handle(l, s, e).info.total == s.info.total
  {
  }

  /** A host that answers each request with the bytes asked for delivers the file. */
  function Answers(f: seq<byte>, n: nat): seq<Event>
    requires n <= |f|
    decreases |f| - n
  {
    if n == |f| then []
    else
      var k := if |f| - n >= BLOCK_MAX then BLOCK_MAX else |f| - n;
      [Tick, Block(0, n, f[n..n + k])] + Answers(f, n + k)
  }

  lemma {:induction false} AnswersDeliver(l: Layout, s: State, t: Track, f: seq<byte>)
    requires Inv(l, s, t) && s.info.start != 0 && s.info.total == |f| > 0 && s.info.timer && s.info.retry == 0
    requires t.got == f[..s.info.offset]
    ensures Delivers(l, s, t, Answers(f, s.info.offset), f)
    decreases |f| - s.info.offset
  {
    var n := s.info.offset;
    var k := Wanted(s.info);
    var e, rest := Block(0, n, f[n..n + k]), Answers(f, n + k);
    var s2, t2 := AnswerFirst(l, s, t, f, k, e, rest);
    if n + k < |f| { AnswersDeliver(l, s2, t2, f); }
    AnswersAre(f, n, k);
  }

  lemma AnswersAre(f: seq<byte>, n: nat, k: nat)
    requires n < |f| && k == if |f| - n >= BLOCK_MAX then BLOCK_MAX else |f| - n
    ensures Answers(f, n) == [Tick] + ([Block(0, n, f[n..n + k])] + Answers(f, n + k))
  {
    var e, rest := Block(0, n, f[n..n + k]), Answers(f, n + k);
    assert [Tick, e] + rest == [Tick] + ([e] + rest);
  }

  lemma AnswerFirst(l: Layout, s: State, t: Track, f: seq<byte>, k: nat, e: Event, rest: seq<Event>)
    returns (s2: State, t2: Track)
    requires Inv(l, s, t) && s.info.start != 0 && s.info.total == |f| > 0 && s.info.timer && s.info.retry == 0
    requires t.got == f[..s.info.offset] && k == Wanted(s.info)
    requires e == Block(0, s.info.offset, f[s.info.offset..s.info.offset + k])
    ensures Inv(l, s2, t2) && t2.got == f[..s.info.offset + k]
    ensures if s.info.offset + k == |f| then s2.info.start == 0
            else s2.info == s.info.(offset := s.info.offset + k, retry := 0)
    ensures Delivers(l, s2, t2, rest, f) ==> Delivers(l, s, t, [Tick] + ([e] + rest), f)
  {
    var s1;
    s1, s2, t2 := Answered(l, s, t, f, k, e);
    if Delivers(l, s2, t2, rest, f) {
      DeliversFirst(l, s1, t, e, rest, f);
      DeliversFirst(l, s, t, Tick, [e] + rest, f);
    }
  }

  /** One request and its answer. */
  lemma Answered(l: Layout, s: State, t: Track, f: seq<byte>, k: nat, e: Event)
    returns (s1: State, s2: State, t2: Track)
    requires Inv(l, s, t) && s.info.start != 0 && s.info.total == |f| > 0 && s.info.timer && s.info.retry == 0
    requires t.got == f[..s.info.offset] && k == Wanted(s.info)
    requires e == Block(0, s.info.offset, f[s.info.offset..s.info.offset + k])
    ensures s1 == Handle(l, s, Tick) && Accepted(s, t, Tick) == t && Inv(l, s1, t) && s1.info.start != 0
    ensures Takes(s1, e) && s2 == Handle(l, s1, e) && t2 == Accepted(s1, t, e) && Inv(l, s2, t2)
    ensures t2.got == f[..s.info.offset + k]
    ensures if s.info.offset + k == |f| then s2.info.start == 0
            else s2.info == s.info.(offset := s.info.offset + k, retry := 0)
  {
    StepKeeps(l, s, t, Tick);
    s1 := OneTick(l, s, t);
    s2, t2 := Taken(l, s1, t, f, k, e);
  }

  lemma Taken(l: Layout, s: State, t: Track, f: seq<byte>, k: nat, e: Event) returns (s2: State, t2: Track)
    requires Inv(l, s, t) && s.info.start != 0 && s.info.total == |f| > 0 && s.info.timer
    requires t.got == f[..s.info.offset] && k == Wanted(s.info)
    requires e == Block(0, s.info.offset, f[s.info.offset..s.info.offset + k])
    ensures Takes(s, e) && s2 == Handle(l, s, e) && t2 == Accepted(s, t, e) && Inv(l, s2, t2)
    ensures t2.got == f[..s.info.offset + k]
    ensures if s.info.offset + k == |f| then s2.info.start == 0
            else s2.info == s.info.(offset := s.info.offset + k, retry := 0)
  {
    var n := s.info.offset;
    StepKeeps(l, s, t, e);
    GotGrows(l, s, t, f[n..n + k]);
    TakeMore(f, n, k);
    s2, t2 := Handle(l, s, e), Accepted(s, t, e);
  }

  lemma TakeMore(f: seq<byte>, n: nat, k: nat)
    requires n + k <= |f|
    ensures f[..n] + f[n..n + k] == f[..n + k]
  {
  }

  lemma DeliversFirst(l: Layout, s: State, t: Track, e: Event, rest: seq<Event>, f: seq<byte>)
    requires Inv(l, s, t) && s.info.start != 0 && Possible(s, e) && Inv(l, Handle(l, s, e), Accepted(s, t, e))
    requires Waits(s.info, e) || (Takes(s, e) && Accepted(s, t, e).got <= f)
    requires Delivers(l, Handle(l, s, e), Accepted(s, t, e), rest, f)
    ensures Delivers(l, s, t, [e] + rest, f)
  {
    assert ([e] + rest)[1..] == rest;
  }

  lemma GotGrows(l: Layout, s: State, t: Track, b: seq<byte>)
    requires Inv(l, s, t) && s.info.start != 0 && s.info.total > 0 && 0 < |b| <= BLOCK_MAX
    ensures Accepted(s, t, Block(0, s.info.offset, b)).got == t.got + b
  {
    if s.info.offset == 0 {
      assert t.got == [];
      assert [] + b == b;
    }
  }

  /** A well-formed image: the start-up word, its own size, and its checksum in the last word. */
  predicate Image(file: seq<byte>, step: Table) {
    && SIZE_OFFSET + 4 <= |file| && |file| >= 4
    && file[FLAG_OFFSET..FLAG_OFFSET + 4] == STARTUP
    && Word(file[SIZE_OFFSET..SIZE_OFFSET + 4]) == |file|
    && Crc(step, INIT, file[..|file| - 4]) == Word(file[|file| - 4..])
  }

  /** An uploaded image is pending for the next boot. */
  lemma UploadedIsPending(l: Layout, mem: Mem, file: seq<byte>, step: Table)
    requires Placed(l, mem) && Image(file, step) && |file| <= l.max && mem[l.image..l.image + |file|] == file
    ensures Pending(l, mem, step) && FwSize(l, mem) == |file|
  {
    ImageSlices(l, mem, file);
    assert FwSize(l, mem) == |file|;
    CrcIsFolded(step, INIT, file[..|file| - 4]);
  }

  lemma ImageSlices(l: Layout, mem: Mem, file: seq<byte>)
    requires l.image + |file| <= |mem| && SIZE_OFFSET + 4 <= |file| && mem[l.image..l.image + |file|] == file
    ensures mem[l.image + FLAG_OFFSET..l.image + FLAG_OFFSET + 4] == file[FLAG_OFFSET..FLAG_OFFSET + 4]
    ensures mem[l.image + SIZE_OFFSET..l.image + SIZE_OFFSET + 4] == file[SIZE_OFFSET..SIZE_OFFSET + 4]
    ensures mem[l.image..l.image + |file| - 4] == file[..|file| - 4]
    ensures mem[l.image + |file| - 4..l.image + |file|] == file[|file| - 4..]
  {
    var n := |file|;
    SubSlice(mem, l.image, l.image + n, FLAG_OFFSET, FLAG_OFFSET + 4);
    SubSlice(mem, l.image, l.image + n, SIZE_OFFSET, SIZE_OFFSET + 4);
    SubSlice(mem, l.image, l.image + n, 0, n - 4);
    SubSlice(mem, l.image, l.image + n, n - 4, n);
  }

  /** An upload from the start request on: with no session open, the start of a file that fits, and
      then a run that delivers it. */
  ghost predicate Uploads(l: Layout, s: State, t: Track, evs: seq<Event>, f: seq<byte>) {
    && Inv(l, s, t) && s.info == IDLE && |f| <= l.max
    && (StepKeeps(l, s, t, Start(|f|)); Delivers(l, Handle(l, s, Start(|f|)), Accepted(s, t, Start(|f|)), evs, f))
  }

  /** End to end: a well-formed image, uploaded in blocks of any permitted sizes with retries, further
      starts and misplaced blocks in between, is installed by the boot check that follows and is then
      the application that starts. */
  lemma UploadInstalls(l: Layout, s: State, t: Track, file: seq<byte>, evs: seq<Event>, step: Table)
    requires Uploads(l, s, t, evs, file) && Image(file, step)
    ensures var all := [Start(|file|)] + evs + [Check(step)];
      && Feasible(l, s, t, all)
      && var end := Run(l, s, t, all).0.mem;
         l.load + |file| <= |end| && end[l.load..l.load + |file|] == file
         && HasFlag(end, l.load) && !HasFlag(end, l.image)
  {
    assert file[FLAG_OFFSET..FLAG_OFFSET + 4][0] == START_FLAG;
    var s', t' := UploadRuns(l, s, t, file, evs);
    PendingInstalls(l, s'.mem, file, step);
    StepKeeps(l, s', t', Check(step));
    RunAppend(l, s, t, [Start(|file|)] + evs, [Check(step)]);
    RunOne(l, s', t', Check(step));
  }

  lemma PendingInstalls(l: Layout, mem: Mem, file: seq<byte>, step: Table)
    requires Placed(l, mem) && Image(file, step) && |file| <= l.max && mem[l.image..l.image + |file|] == file
    ensures var end := RunOps(mem, BootOps(l, mem, step));
      end[l.load..l.load + |file|] == file && HasFlag(end, l.load) && !HasFlag(end, l.image)
  {
    UploadedIsPending(l, mem, file, step);
    PendingBoots(l, mem, file, step);
  }

  lemma PendingBoots(l: Layout, mem: Mem, file: seq<byte>, step: Table)
    requires Pending(l, mem, step) && FwSize(l, mem) == |file|
    requires l.image + |file| <= |mem| && mem[l.image..l.image + |file|] == file
    ensures var end := RunOps(mem, BootOps(l, mem, step));
      l.load + |file| <= |end| && end[l.load..l.load + |file|] == file && HasFlag(end, l.load) && !HasFlag(end, l.image)
  {
    OneBootInstalls(l, step, mem);
    PlacedSlices(l, mem, RunOps(mem, BootOps(l, mem, step)), file);
  }

  lemma PlacedSlices(l: Layout, mem: Mem, end: Mem, file: seq<byte>)
    requires InPlace(l, mem, end, |file|) && mem[l.image..l.image + |file|] == file
    ensures l.load + |file| <= |end| && end[l.load..l.load + |file|] == file
  {
  }

  lemma UploadRuns(l: Layout, s: State, t: Track, file: seq<byte>, evs: seq<Event>) returns (s': State, t': Track)
    requires Uploads(l, s, t, evs, file) && FLAG_OFFSET < |file| && file[FLAG_OFFSET] == START_FLAG
    ensures Feasible(l, s, t, [Start(|file|)] + evs) && Run(l, s, t, [Start(|file|)] + evs) == (s', t')
    ensures s'.check && Placed(l, s'.mem) && s'.mem[l.image..l.image + |file|] == file
  {
    var e := Start(|file|);
    StepKeeps(l, s, t, e);
    var s1, t1 := Handle(l, s, e), Accepted(s, t, e);
    UploadCompletes(l, s1, t1, evs, file);
    RunFirst(l, s, t, e, evs);
    var (a, b) := Run(l, s1, t1, evs);
    FinishedExact(file, b.masked);
    s', t' := a, b;
  }

  lemma RunOne(l: Layout, s: State, t: Track, e: Event)
    requires Inv(l, s, t) && Possible(s, e) && Inv(l, Handle(l, s, e), Accepted(s, t, e))
    ensures Feasible(l, s, t, [e]) && Run(l, s, t, [e]) == (Handle(l, s, e), Accepted(s, t, e))
  {
    RunFirst(l, s, t, e, []);
    assert [e] + [] == [e];
  }

  lemma {:induction false} RunAppend(l: Layout, s: State, t: Track, a: seq<Event>, b: seq<Event>)
    requires Inv(l, s, t) && Feasible(l, s, t, a)
    requires Feasible(l, Run(l, s, t, a).0, Run(l, s, t, a).1, b)
    ensures Feasible(l, s, t, a + b)
    ensures Run(l, s, t, a + b) == Run(l, Run(l, s, t, a).0, Run(l, s, t, a).1, b)
    decreases |a|
  {
    if a == [] {
      assert a + b == b;
    } else {
      var s1, t1 := FirstStep(l, s, t, a, b);
      RunAppend(l, s1, t1, a[1..], b);
    }
  }
}
