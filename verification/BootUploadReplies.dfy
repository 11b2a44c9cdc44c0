/** The serial upload as the host sees it: a session of which only its size, the number of bytes taken and the
    number of unanswered requests are known. Every reply of the bootloader is that of this simple protocol. */
module BootUploadReplies {
  import opened NorFlash
  import opened BootInstall
  import opened BootUpload
  import opened BootUploadProofs

  datatype Session = Closed | Open(size: nat, got: nat, asked: nat)

  predicate Sane(v: Session) {
    v.Open? ==> v.got <= v.size
  }

  /** What the record of the bootloader stands for. */
  function View(s: State): Session {
    if s.info.start == 0 then Closed else Open(s.info.total, s.info.offset, s.info.retry)
  }

  /** The session after an event and the reply to it, if there is one. */
  function Protocol(image: nat, max: nat, v: Session, e: Event): (r: (Session, seq<Msg>))
    requires Sane(v)
    ensures Sane(r.0)
  {
    match e
    case Start(size) =>
      if v.Open? then (v, [StartRsp(image, v.size, v.got, InProgress)])
      else if size > max then (v, [StartRsp(0, 0, 0, Oversize)])
      else (Open(size, 0, 0), [StartRsp(image, size, 0, Success)])
    case Block(status, offset, data) =>
      if v.Closed? then (v, [End(0, 0, BadResponse)])
      else if status != 0 || v.size == 0 then (Closed, [End(v.size, v.got, BadResponse)])
      else if offset != v.got || data == [] || |data| > 40 then (v, [Ack(IncorrectOffset)])
      else if v.got + |data| < v.size then (Open(v.size, v.got + |data|, 0), [Ack(Success)])
      else (Closed, [End(v.size, v.got + |data|, if v.got + |data| == v.size then Success else IncorrectOffset)])
    case Tick =>
      if v.Closed? then (v, [])
      else if v.asked == 5 then (Closed, [End(v.size, v.got, Timeout)])
      else (v.(asked := v.asked + 1), [BlockReq(v.got, if v.size - v.got < 40 then v.size - v.got else 40)])
    case Check(_) => (v, [])
  }

  function ProtocolRun(image: nat, max: nat, v: Session, evs: seq<Event>): (r: (Session, seq<Msg>))
    requires Sane(v)
    decreases |evs|
  {
    if evs == [] then (v, [])
    else
      var (v1, out) := Protocol(image, max, v, evs[0]);
      var (v2, rest) := ProtocolRun(image, max, v1, evs[1..]);
      (v2, out + rest)
  }

  lemma StepFollows(l: Layout, s: State, t: Track, e: Event)
    requires Inv(l, s, t) && Possible(s, e)
    ensures Sane(View(s))
    ensures var (v, out) := Protocol(l.image, l.max, View(s), e);
      View(Handle(l, s, e)) == v && Handle(l, s, e).out == s.out + out
  {
    match e
    case Start(_) =>
    case Block(_, _, data) => if Takes(s, e) { BlockFollows(l, s, t, data); }
    case Tick =>
    case Check(_) => assert s.out + [] == s.out;
  }

  lemma BlockFollows(l: Layout, s: State, t: Track, data: seq<byte>)
    requires Inv(l, s, t) && s.info.total != 0 && 0 < |data| <= BLOCK_MAX
    ensures Sane(View(s))
    ensures var (v, out) := Protocol(l.image, l.max, View(s), Block(0, s.info.offset, data));
      View(Accept(s, data)) == v && Accept(s, data).out == s.out + out
  {
  }

  /** Over every run the bootloader answers as the protocol says, message by message. */
  lemma {:induction false} RunFollows(l: Layout, s: State, t: Track, evs: seq<Event>)
    requires Inv(l, s, t) && Feasible(l, s, t, evs)
    ensures Sane(View(s))
    ensures var (v, out) := ProtocolRun(l.image, l.max, View(s), evs); var (s', _) := Run(l, s, t, evs);
      View(s') == v && s'.out == s.out + out
    decreases |evs|
  {
    if evs == [] {
      assert s.out + [] == s.out;
    } else {
      StepKeeps(l, s, t, evs[0]);
      StepFollows(l, s, t, evs[0]);
      RunFollows(l, Handle(l, s, evs[0]), Accepted(s, t, evs[0]), evs[1..]);
      var (v1, out) := Protocol(l.image, l.max, View(s), evs[0]);
      Behind(s.out, out, ProtocolRun(l.image, l.max, v1, evs[1..]).1);
    }
  }

  lemma Behind(a: seq<Msg>, b: seq<Msg>, c: seq<Msg>)
    ensures a + b + c == a + (b + c)
  {
  }

  /** The boot check is scheduled exactly by the block that completes the file, and stays so until it runs or
      another upload begins. */
  lemma CheckFollows(l: Layout, s: State, t: Track, e: Event)
    requires Inv(l, s, t) && Possible(s, e)
    ensures Handle(l, s, e).check <==>
      (Takes(s, e) && s.info.offset + |e.data| == s.info.total)
      || (s.check && !e.Check? && !(e.Start? && s.info.start == 0 && e.size <= l.max))
  {
  }
}
