/** The host interface's upload from the host's side: what it is asked for, what silence leads to, what
    becomes of a file for another device, and when the reboot after an upload takes place. */
module HciUploadAnswers {
  import opened NorFlash
  import opened Crc32
  import opened BootInstall
  import opened HciUpload
  import opened HciUploadProofs

  /** The request for the bytes at the offset that has been reached: what is still missing, at most 40. */
  function Request(o: Ota): Msg
    requires o.offset <= o.total
  {
    BlockReq(o.offset, if o.total - o.offset < 40 then o.total - o.offset else 40)
  }

  function Times(m: Msg, n: nat): (r: seq<Msg>)
    ensures |r| == n && forall i :: 0 <= i < n ==> r[i] == m
  {
    seq(n, i => m)
  }

  function Ticks(n: nat): (e: seq<Event>)
    ensures |e| == n && forall i :: 0 <= i < n ==> e[i] == Tick
  {
    if n == 0 then [] else [Tick] + Ticks(n - 1)
  }

  /** One run of the timer in an open session: a request, or the end after five of them. */
  lemma OneTick(d: Device, s: State, got: seq<byte>) returns (s': State)
    requires Inv(d, s, got) && s.ota.started
    ensures s' == Handle(d, s, Tick) && Received(s, got, Tick) == got && Inv(d, s', got)
    ensures s' == if s.ota.count < 5 then s.(ota := s.ota.(count := s.ota.count + 1), out := s.out + [Request(s.ota)])
                  else State(CLEAR, Off, Blanked(s.mem, d.area, d.area + Cover(s.ota.offset)),
                             s.out + [End(s.ota.total, s.ota.offset, Timeout)])
  {
    StepKeeps(d, s, got, Tick);
    s' := Handle(d, s, Tick);
  }

  /** How many requests are left to a session. */
  function Left(o: Ota): nat {
    if o.count < 5 then 5 - o.count else 0
  }

  /** The session has asked so often for the same bytes, reported the timeout and gone, leaving its area erased. */
  predicate GaveUp(d: Device, s: State, requests: nat, end: State)
    requires s.ota.offset <= s.ota.total
  {
    && end.ota == CLEAR && end.timer == Off
    && end.out == s.out + Times(Request(s.ota), requests) + [End(s.ota.total, s.ota.offset, Timeout)]
    && d.area + Cover(s.ota.total) <= |end.mem| && IsErased(end.mem, d.area, d.area + Cover(s.ota.total))
  }

  /** Left without an answer, an open session asks for the same bytes until it has asked five times, and then
      gives up: it reports the timeout, is forgotten, its timer is off and its area is erased. */
  lemma {:induction false} GivesUp(d: Device, s: State, got: seq<byte>)
    requires Inv(d, s, got) && s.ota.started
    ensures Feasible(d, s, got, Ticks(Left(s.ota) + 1))
    ensures GaveUp(d, s, Left(s.ota), Run(d, s, got, Ticks(Left(s.ota) + 1)).0)
    decreases Left(s.ota)
  {
    var n := Left(s.ota);
    var s' := OneTick(d, s, got);
    if n > 0 {
      GivesUp(d, s', got);
      RunFirst(d, s, got, Tick, Ticks(n));
      OneMoreTime(s.out, Request(s.ota), n, [End(s.ota.total, s.ota.offset, Timeout)]);
    } else {
      FailureLeavesBlank(d, s, got, Tick);
      RunFirst(d, s, got, Tick, []);
    }
  }

  lemma OneMoreTime(out: seq<Msg>, m: Msg, n: nat, last: seq<Msg>)
    requires n > 0
    ensures out + [m] + Times(m, n - 1) + last == out + Times(m, n) + last
  {
    assert Times(m, n) == [m] + Times(m, n - 1);
  }

  // ----- a host that answers

  /** Each event is the timer's, and the next one the answer to the request it sent: the bytes of f that were
      asked for, whatever lies behind them. So on until the session is over. */
  ghost predicate Answers(d: Device, s: State, got: seq<byte>, evs: seq<Event>, f: seq<byte>)
    requires Inv(d, s, got)
    decreases |evs|
  {
    if !s.ota.started then evs == []
    else
      && |evs| >= 2 && evs[0] == Tick && s.ota.count < 5
      && (var s1 := Handle(d, s, Tick);
          StepKeeps(d, s, got, Tick);
          && AnswerTo(s1.out[|s1.out| - 1], evs[1], f)
          && (StepKeeps(d, s1, got, evs[1]); Answers(d, Handle(d, s1, evs[1]), Received(s1, got, evs[1]), evs[2..], f)))
  }

  predicate AnswerTo(m: Msg, e: Event, f: seq<byte>) {
    && m.BlockReq? && m.offset + m.len <= |f| && m.len < 256
    && e.Block? && e.status == 0 && e.offset == m.offset && e.data == f[m.offset..m.offset + m.len]
  }

  /** Such a host delivers the file. */
  lemma {:induction false} AnswersDeliver(d: Device, s: State, got: seq<byte>, evs: seq<Event>, f: seq<byte>)
    requires Inv(d, s, got) && Answers(d, s, got, evs, f)
    requires s.ota.started ==> s.ota.total == |f| && got <= f
    ensures Delivers(d, s, got, evs, f)
    decreases |evs|
  {
    if s.ota.started {
      var s1 := OneTick(d, s, got);
      var s2, got' := AnswerTaken(d, s1, got, evs[1], f);
      AnswersDeliver(d, s2, got', evs[2..], f);
      DeliversFirst(d, s1, got, evs[1], evs[2..], f);
      DeliversFirst(d, s, got, Tick, [evs[1]] + evs[2..], f);
      assert evs == [Tick] + ([evs[1]] + evs[2..]);
    }
  }

  lemma DeliversFirst(d: Device, s: State, got: seq<byte>, e: Event, rest: seq<Event>, f: seq<byte>)
    requires Inv(d, s, got) && s.ota.started && Possible(s, e) && Inv(d, Handle(d, s, e), Received(s, got, e))
    requires Waits(s.ota, e) || Gives(s.ota, got, e, f)
    requires Delivers(d, Handle(d, s, e), Received(s, got, e), rest, f)
    ensures Delivers(d, s, got, [e] + rest, f)
  {
    assert ([e] + rest)[1..] == rest;
  }

  /** The answer to a request is taken, and the session then goes on with the longer prefix or is over. */
  lemma AnswerTaken(d: Device, s: State, got: seq<byte>, e: Event, f: seq<byte>) returns (s': State, got': seq<byte>)
    requires Inv(d, s, got) && s.ota.started && s.ota.total == |f| && got <= f
    requires AnswerTo(Request(s.ota), e, f)
    ensures Gives(s.ota, got, e, f) && s' == Handle(d, s, e) && got' == Received(s, got, e) && Inv(d, s', got')
    ensures s'.ota.started ==> s'.ota.total == |f| && got' <= f && s'.ota.count == 0 && |got'| > |got|
  {
    StepKeeps(d, s, got, e);
    s', got' := Handle(d, s, e), Received(s, got, e);
    assert got + e.data == f[..|got| + |e.data|];
    Advances(d, s, e);
  }

  lemma Advances(d: Device, s: State, e: Event)
    requires e.Block? && e.status == 0 && e.offset == s.ota.offset && |e.data| < 256 && |s.ota.boot| == 4
    requires s.ota.offset + |e.data| < 0x1_0000_0000
    ensures var o := Handle(d, s, e).ota;
      o.started ==> o.total == s.ota.total && o.count == 0 && o.offset == s.ota.offset + |e.data| < o.total
  {
  }

  /** And answering is always possible. */
  lemma {:induction false} AnswersExist(d: Device, s: State, got: seq<byte>, f: seq<byte>, behind: byte)
    returns (evs: seq<Event>)
    requires Inv(d, s, got)
    requires s.ota.started ==> s.ota.total == |f| && got <= f && s.ota.count < 5
    ensures Answers(d, s, got, evs, f)
    decreases if s.ota.started then |f| - |got| + 1 else 0
  {
    evs := [];
    if s.ota.started {
      var n, k := |got|, Request(s.ota).len;
      var e := Block(0, n, f[n..n + k], behind);
      var s1 := OneTick(d, s, got);
      var s2, got' := AnswerTaken(d, s1, got, e, f);
      var rest := AnswersExist(d, s2, got', f, behind);
      evs := [Tick, e] + rest;
      assert evs[2..] == rest;
    }
  }

  // ----- a file for another device

  /** A bare firmware for this chip: its start-up word. */
  predicate Bare(f: seq<byte>) {
    |f| >= 12 && f[8..12] == [0x4b, 0x4e, 0x4c, 0x54]
  }

  /** The session is over with file f stored and reported so, or refused and its area erased. */
  ghost predicate Settled(d: Device, s: State, f: seq<byte>, good: bool) {
    && s.ota == CLEAR && s.timer == Off && s.out != [] && d.area + |f| <= |s.mem|
    && if good then s.out[|s.out| - 1] == End(|f|, |f|, Success) && s.mem[d.area..d.area + |f|] == f
       else s.out[|s.out| - 1].End? && s.out[|s.out| - 1].status == MatchBootFlag
            && IsErased(s.mem, d.area, d.area + Cover(|f|))
  }

  /** The block completes a bare firmware's start-up word. */
  predicate Shows(got: seq<byte>, data: seq<byte>) {
    |got| < 12 && Bare(got + data)
  }

  lemma RemoteBlockIs(d: Device, s: State, got: seq<byte>, data: seq<byte>, behind: byte) returns (s': State)
    requires Inv(d, s, got) && s.ota.started && !s.ota.local && |data| < 256 && |got| + |data| <= s.ota.total
    ensures s' == Handle(d, s, Block(0, |got|, data, behind))
    ensures if Shows(got, data) then s'.ota == CLEAR && s'.timer == Off
                                     && s'.out == s.out + [End(s.ota.total, |got|, MatchBootFlag)]
            else if |got| + |data| < s.ota.total then s'.ota.started && !s'.ota.local && s'.ota.total == s.ota.total
            else s'.ota == CLEAR && s'.timer == Off && s'.mem == Program(s.mem, d.area + |got|, data)
                 && s'.out == s.out + [End(s.ota.total, s.ota.total, Success)]
  {
    s' := Handle(d, s, Block(0, |got|, data, behind));
    if !s.ota.found { Collected(s.ota, got, data); }
  }

  /** The last block, or the one that shows a bare firmware. */
  lemma RemoteEnds(d: Device, s: State, got: seq<byte>, e: Event, f: seq<byte>)
    requires Inv(d, s, got) && s.ota.started && !s.ota.local && s.ota.total == |f| && Gives(s.ota, got, e, f)
    requires Shows(got, e.data) || |got| + |e.data| == |f|
    ensures Settled(d, Handle(d, s, e), f, !Shows(got, e.data))
  {
    var s' := RemoteBlockIs(d, s, got, e.data, e.behind);
    if Shows(got, e.data) {
      FailureLeavesBlank(d, s, got, e);
    } else {
      assert got + e.data == f;
      BlockHeld(d, s, got, e.data);
    }
  }

  /** A remote file delivered in any way ends up stored, and is reported so, exactly when it is not a bare
      firmware for this chip; otherwise it is refused and nothing of it stays. */
  lemma {:induction false} RemoteUpload(d: Device, s: State, got: seq<byte>, evs: seq<Event>, f: seq<byte>)
    requires Inv(d, s, got) && s.ota.started && !s.ota.local && s.ota.total == |f| && got <= f
    requires Delivers(d, s, got, evs, f)
    ensures Feasible(d, s, got, evs) && Settled(d, Run(d, s, got, evs).0, f, !Bare(f))
    decreases |evs|
  {
    var e, rest := evs[0], evs[1..];
    StepKeeps(d, s, got, e);
    var s', got' := Handle(d, s, e), Received(s, got, e);
    if Waits(s.ota, e) {
      Waited(d, s, got, e, rest);
      RemoteUpload(d, s', got', rest, f);
    } else {
      var _ := RemoteBlockIs(d, s, got, e.data, e.behind);
      BareShows(got, e.data, f, s.ota);
      if Shows(got, e.data) || |got| + |e.data| == |f| {
        RemoteEnds(d, s, got, e, f);
        LeftoversIgnored(d, s', got', rest);
      } else {
        RemoteUpload(d, s', got', rest, f);
      }
    }
    RunFirst(d, s, got, e, rest);
    assert evs == [e] + rest;
  }

  /** What an open session has received does not show it yet. */
  lemma BareShows(got: seq<byte>, data: seq<byte>, f: seq<byte>, o: Ota)
    requires got + data <= f && RemoteSoFar(o, got)
    ensures Shows(got, data) ==> Bare(f)
    ensures |got| + |data| == |f| ==> (Shows(got, data) <==> Bare(f))
  {
    if |got| + |data| >= 12 { assert (got + data)[8..12] == f[8..12]; }
    if |got| >= 12 { assert (got + data)[8..12] == got[8..12]; }
  }

  // ----- what the host is told

  /** The one reply to a start request. */
  lemma StartTold(d: Device, s: State, got: seq<byte>, size: nat, local: bool)
    requires Inv(d, s, got)
    ensures Handle(d, s, Start(size, local)).out == s.out + [
      if s.ota.started then StartRsp(InProgress, d.area, s.ota.total, |got|)
      else if !d.known then StartRsp(NoAddress, s.ota.start, s.ota.total, s.ota.offset)
      else if size >= d.max then StartRsp(Oversize, d.area, size, s.ota.offset)
      else StartRsp(Success, d.area, size, 0)]
  {
  }

  /** The block shows or is followed by a byte other than the flag where the flag byte belongs. */
  predicate WrongFlag(got: seq<byte>, data: seq<byte>, behind: byte) {
    || (|got| <= 8 && |got| + |data| == 8 && behind != 0x4b)
    || (|got| <= 8 < |got| + |data| && (got + data)[8] != 0x4b)
  }

  /** What a session tells of a block: nothing as long as it goes on or waits, and once, at its end, how many
      bytes there were and how it came out. */
  lemma BlockTold(d: Device, s: State, got: seq<byte>, status: nat, offset: nat, data: seq<byte>, behind: byte)
    requires Inv(d, s, got) && s.ota.started && |data| < 256 && (s.ota.local ==> s.ota.total >= 4)
    ensures var n, m := |got| + |data|, s.ota.total;
      Handle(d, s, Block(status, offset, data, behind)).out == s.out +
      if status != 0 then [End(m, |got|, IncorrectData)]
      else if offset != |got| then []
      else if s.ota.local && WrongFlag(got, data, behind) then [End(m, |got|, IncorrectData)]
      else if !s.ota.local && Shows(got, data) then [End(m, |got|, MatchBootFlag)]
      else if n < m then []
      else if n > m then [End(m, n, IncorrectOffset)]
      else [End(m, m, if !s.ota.local || Accepts(d.step, got + data) then Success else IncorrectData)]
  {
    if status == 0 && offset == |got| {
      if s.ota.local { LocalTold(d, s, got, data, behind); } else { RemoteTold(d, s, got, data, behind); }
    } else if status == 0 {
      assert s.out + [] == s.out;
    }
  }

  lemma RemoteTold(d: Device, s: State, got: seq<byte>, data: seq<byte>, behind: byte)
    requires Inv(d, s, got) && s.ota.started && !s.ota.local && |data| < 256
    ensures var n, m := |got| + |data|, s.ota.total;
      Handle(d, s, Block(0, |got|, data, behind)).out == s.out +
      if Shows(got, data) then [End(m, |got|, MatchBootFlag)]
      else if n < m then [] else if n > m then [End(m, n, IncorrectOffset)] else [End(m, m, Success)]
  {
    assert s.out + [] == s.out;
    if !s.ota.found { Collected(s.ota, got, data); }
  }

  lemma LocalTold(d: Device, s: State, got: seq<byte>, data: seq<byte>, behind: byte)
    requires Inv(d, s, got) && s.ota.started && s.ota.local && |data| < 256 && s.ota.total >= 4
    ensures var n, m := |got| + |data|, s.ota.total;
      Handle(d, s, Block(0, |got|, data, behind)).out == s.out +
      if WrongFlag(got, data, behind) then [End(m, |got|, IncorrectData)]
      else if n < m then [] else if n > m then [End(m, n, IncorrectOffset)]
      else [End(m, m, if Accepts(d.step, got + data) then Success else IncorrectData)]
  {
    FlagSeen(got, data, behind);
    var crc, s' := LocalBlockIs(d, s.(timer := Off), data, behind);
    assert s.out + [] == s.out;
    if !WrongFlag(got, data, behind) {
      StoreTold(s', Mask(|got|, data));
      if |got| + |data| == s.ota.total { GoodFlag(d, s, got, data, behind); }
    }
  }

  lemma StoreTold(s: State, data: seq<byte>)
    requires s.ota.offset + |data| < 0x1_0000_0000
    ensures var n, m := s.ota.offset + |data|, s.ota.total;
      if n < m then Store(s, data).out == s.out
      else if n > m then Store(s, data).out == s.out + [End(m, n, IncorrectOffset)]
      else Store(s, data).out == s.out + [End(m, m, if Succeeded(s, Store(s, data)) then Success else IncorrectData)]
  {
  }

  /** An accepted start opens a session for its file, with nothing received and all five requests to come. */
  lemma StartOpens(d: Device, s: State, size: nat, local: bool)
    requires Inv(d, s, []) && !s.ota.started && d.known && size < d.max
    ensures var s' := Handle(d, s, Start(size, local));
      && Inv(d, s', []) && s'.ota.started && s'.ota.local == local && s'.ota.total == size && Left(s'.ota) == 5
      && s'.timer == Retry && IsErased(s'.mem, d.area, d.area + Cover(size))
  {
    StepKeeps(d, s, [], Start(size, local));
  }

  /** The timer of a session runs exactly as long as the session; after it only the reboot into a local image
      that succeeded is due. */
  lemma TimerFollows(d: Device, s: State, got: seq<byte>, e: Event)
    requires Inv(d, s, got) && s.ota.started && Possible(s, e) && (s.ota.local ==> s.ota.total >= 4)
    ensures var s' := Handle(d, s, e);
      if s'.ota.started then s'.timer == Retry
      else s'.ota == CLEAR && s'.timer == if s.ota.local && Succeeded(s, s') then Reboot else Off
  {
    StepKeeps(d, s, got, e);
    match e
    case Start(_, _) =>
    case Tick =>
    case Block(status, offset, data, behind) =>
      if status == 0 && offset == |got| {
        if s.ota.local { LocalTimer(d, s, got, data, behind); } else { RemoteTimer(d, s, got, data, behind); }
      }
  }

  lemma LocalTimer(d: Device, s: State, got: seq<byte>, data: seq<byte>, behind: byte)
    requires Inv(d, s, got) && s.ota.started && s.ota.local && |data| < 256 && s.ota.total >= 4
    ensures var s' := Handle(d, s, Block(0, |got|, data, behind));
      !s'.ota.started ==> s'.ota == CLEAR && s'.timer == if Succeeded(s, s') then Reboot else Off
  {
    var crc, s' := LocalBlockIs(d, s.(timer := Off), data, behind);
    StoreTimer(s', Mask(|got|, data));
  }

  lemma RemoteTimer(d: Device, s: State, got: seq<byte>, data: seq<byte>, behind: byte)
    requires Inv(d, s, got) && s.ota.started && !s.ota.local && |data| < 256
    ensures var s' := Handle(d, s, Block(0, |got|, data, behind));
      !s'.ota.started ==> s'.ota == CLEAR && s'.timer == Off
  {
  }

  lemma StoreTimer(s: State, data: seq<byte>)
    requires s.ota.started && s.ota.local && s.timer == Off && s.ota.offset + |data| < 0x1_0000_0000
    ensures var s' := Store(s, data);
      !s'.ota.started ==> s'.ota == CLEAR && s'.timer == if Succeeded(s, s') then Reboot else Off
  {
  }

  // ----- the reboot

  /** The checksum of an image whose flag byte counts as set, whatever it holds. */
  predicate SumsUnmasked(d: Device, mem: Mem, n: nat)
    requires 4 <= |mem| && d.area + n <= |mem|
  {
    var body := if n < 4 then [] else mem[d.area..d.area + n - 4];
    Folded(d.step, 0xffff_ffff, if |body| > 8 then body[8 := 0x4b] else body) == WordEnding(mem, d.area + n)
  }

  /** Below address 4 the last word goes on at the end of the chip. */
  lemma WordEndsAt(mem: Mem, e: nat)
    requires 4 <= |mem| && e <= |mem|
    ensures WordEnding(mem, e) == Word((mem + mem)[|mem| + e - 4..|mem| + e])
  {
    if e >= 4 {
      assert (mem + mem)[|mem| + e - 4..|mem| + e] == mem[e - 4..e];
    } else {
      assert (mem + mem)[|mem| + e - 4..|mem| + e] == mem[|mem| + e - 4..] + mem[..e];
    }
  }

  /** The reboot, decided by the flash's own bytes. The flag byte is set in an image whose size is in range,
      whose start-up word is there but for that byte, and whose checksum is right; the device resets if all bits
      of the flag could be set; and then a build without a bootloader clears the running image's flag. Nothing
      else changes. */
  lemma RebootDecides(d: Device, mem: Mem, build: Build)
    requires Checkable(d, mem)
    ensures var a, n := d.area, Word(mem[d.area + 0x18..d.area + 0x1c]);
      var good := n <= d.max && mem[a + 9..a + 12] == [0x4e, 0x4c, 0x54] && SumsUnmasked(d, mem, n);
      var goes := good && mem[a + 8] & 0x4b == 0x4b;
      && (Reboots(d, mem) <==> goes)
      && |OnReboot(d, mem, build)| == |mem|
      && forall i :: 0 <= i < |mem| ==>
           OnReboot(d, mem, build)[i] == if goes && build.Direct? && i == build.running + 8 then 0
                                         else if good && i == a + 8 then mem[i] & 0x4b else mem[i]
  {
    ValidExactly(d, mem);
    FlagsSet(d, mem, build);
  }

  lemma ValidExactly(d: Device, mem: Mem)
    requires Checkable(d, mem)
    ensures var a, n := d.area, Word(mem[d.area + 0x18..d.area + 0x1c]);
      NewImageValid(d, mem) <==> n <= d.max && mem[a + 9..a + 12] == [0x4e, 0x4c, 0x54] && SumsUnmasked(d, mem, n)
  {
    var n := SizeAt(d, mem);
    if n <= d.max { CrcIsFolded(d.step, INIT, Unmasked(Body(mem, d.area, n))); }
  }

  lemma FlagsSet(d: Device, mem: Mem, build: Build)
    requires Checkable(d, mem)
    ensures var good := NewImageValid(d, mem); var goes := good && mem[d.area + 8] & 0x4b == 0x4b;
      && (Reboots(d, mem) <==> goes)
      && |OnReboot(d, mem, build)| == |mem|
      && forall i :: 0 <= i < |mem| ==>
           OnReboot(d, mem, build)[i] == if goes && build.Direct? && i == build.running + 8 then 0
                                         else if good && i == d.area + 8 then mem[i] & 0x4b else mem[i]
  {
  }

  /** Without a bootloader the chip boots the lower image if its start-up word is there, the upper one if only
      that one's is, and else none. */
  lemma BootsFrom(mem: Mem, upper: nat)
    requires upper + 12 <= |mem|
    ensures var lower, higher := mem[8..12] == [0x4b, 0x4e, 0x4c, 0x54],
                                 mem[upper + 8..upper + 12] == [0x4b, 0x4e, 0x4c, 0x54];
      && (BootAddr(mem, upper) == 0 <==> lower || (upper == 0 && higher))
      && (upper != 0 ==> (BootAddr(mem, upper) == upper <==> higher && !lower))
      && (BootAddr(mem, upper) == -1 <==> !lower && !higher)
  {
  }
}
