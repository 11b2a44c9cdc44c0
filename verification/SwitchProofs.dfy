/** What the switch keeps over every sequence of polls. */
module SwitchProofs {
  import opened Switch

  // ----- toggle mode

  datatype Input = Input(poll: Poll, mode: Mode)

  function RunToggle(s: Sw, ins: seq<Input>): (Sw, seq<Cmd>)
    decreases |ins|
  {
    if ins == [] then (s, [])
    else
      var (s1, out) := PollToggle(s, ins[0].poll, ins[0].mode);
      var (s2, rest) := RunToggle(s1, ins[1..]);
      (s2, out + rest)
  }

  /** The debounce counter stays in range and says what it must about the status. */
  predicate ToggleInv(s: Sw) {
    && 1 <= s.debounce <= DEBOUNCE
    && (s.released ==> s.pressed)
    && (!s.status.Closed? ==> s.debounce < DEBOUNCE)
    && (s.status.Closed? && s.pressed ==> s.debounce > 1)
    && (s.status.Float? ==> !s.pressed)
    && (!s.pressed ==> s.counter == 0)
  }

  lemma ToggleStepKeeps(s: Sw, p: Poll, m: Mode)
    requires ToggleInv(s)
    ensures ToggleInv(PollToggle(s, p, m).0)
  {
  }

  lemma {:induction false} ToggleKeeps(s: Sw, ins: seq<Input>)
    requires ToggleInv(s)
    ensures ToggleInv(RunToggle(s, ins).0)
    decreases |ins|
  {
    if ins != [] {
      ToggleStepKeeps(s, ins[0].poll, ins[0].mode);
      ToggleKeeps(PollToggle(s, ins[0].poll, ins[0].mode).0, ins[1..]);
    }
  }

  lemma {:induction false} RunToggleSplit(s: Sw, a: seq<Input>, b: seq<Input>)
    ensures RunToggle(s, a + b).0 == RunToggle(RunToggle(s, a).0, b).0
    decreases |a|
  {
    if a == [] {
      assert a + b == b;
    } else {
      assert (a + b)[1..] == a[1..] + b;
      RunToggleSplit(PollToggle(s, a[0].poll, a[0].mode).0, a[1..], b);
    }
  }

  /** Hysteresis: as far from the opposite end of the counter as n polls, the status stands for n
      polls whatever they find. */
  lemma {:induction false} ClosedStands(s: Sw, ins: seq<Input>)
    requires s.status.Closed? && s.debounce <= DEBOUNCE && |ins| < s.debounce - 1
    ensures RunToggle(s, ins).0.status.Closed?
    decreases |ins|
  {
    if ins != [] {
      ClosedStands(PollToggle(s, ins[0].poll, ins[0].mode).0, ins[1..]);
    }
  }

  lemma {:induction false} OpenStands(s: Sw, ins: seq<Input>)
    requires s.status.Open? && s.debounce >= 1 && s.debounce + |ins| < DEBOUNCE
    ensures RunToggle(s, ins).0.status.Open?
    decreases |ins|
  {
    if ins != [] {
      OpenStands(PollToggle(s, ins[0].poll, ins[0].mode).0, ins[1..]);
    }
  }

  /** A change of status happens at the end of the counter. */
  lemma ChangesAtTheEnds(s: Sw, p: Poll, m: Mode)
    requires ToggleInv(s) && !s.status.Float? && PollToggle(s, p, m).0.status != s.status
    ensures var s' := PollToggle(s, p, m).0;
      !s'.status.Float? && s'.debounce == if s'.status.Closed? then DEBOUNCE else 1
  {
  }

  /** This poll of a run changes a status that is known. */
  predicate ChangesAt(s: Sw, ins: seq<Input>, k: nat)
    requires k < |ins|
  {
    var before := RunToggle(s, ins[..k]).0;
    !before.status.Float? && PollToggle(before, ins[k].poll, ins[k].mode).0.status != before.status
  }

  /** Over every run: two polls that change the status are at least 127 polls apart, whatever the contact
      does in between. */
  lemma ChangesFarApart(s: Sw, ins: seq<Input>, i: nat, j: nat)
    requires ToggleInv(s) && i < j < |ins| && ChangesAt(s, ins, i) && ChangesAt(s, ins, j)
    ensures j - i >= DEBOUNCE - 1
  {
    var before := RunToggle(s, ins[..i]).0;
    var after := PollToggle(before, ins[i].poll, ins[i].mode).0;
    ToggleKeeps(s, ins[..i]);
    ChangesAtTheEnds(before, ins[i].poll, ins[i].mode);
    RunAfter(s, ins, i, i + 1);
    RunAfter(s, ins, i, j);
    RunAfter(s, ins, i, j + 1);
    RunAfter(s, ins, j, j + 1);
    if j - i < DEBOUNCE - 1 {
      StatusStands(after, ins[i + 1..j]);
      StatusStands(after, ins[i + 1..j + 1]);
    }
  }

  /** The state after the first j polls, from that after poll i. */
  lemma RunAfter(s: Sw, ins: seq<Input>, i: nat, j: nat)
    requires i < j <= |ins|
    ensures var after := PollToggle(RunToggle(s, ins[..i]).0, ins[i].poll, ins[i].mode).0;
      RunToggle(s, ins[..j]).0 == RunToggle(after, ins[i + 1..j]).0
  {
    assert ins[..j] == ins[..i] + ins[i..j] && ins[i..j][1..] == ins[i + 1..j] && ins[i..j][0] == ins[i];
    RunToggleSplit(s, ins[..i], ins[i..j]);
  }

  lemma StatusStands(s: Sw, ins: seq<Input>)
    requires !s.status.Float? && s.debounce == (if s.status.Closed? then DEBOUNCE else 1) && |ins| < DEBOUNCE - 1
    ensures RunToggle(s, ins).0.status == s.status
  {
    if s.status.Closed? { ClosedStands(s, ins); } else { OpenStands(s, ins); }
  }

  predicate AllClosed(ins: seq<Input>) {
    forall i :: i in ins ==> i.poll.closed
  }

  predicate AllOpen(ins: seq<Input>) {
    forall i :: i in ins ==> !i.poll.closed
  }

  /** Progress: an open switch that is closed and stays closed is seen as closed after exactly
      DEBOUNCE - debounce polls, and not before. */
  lemma {:induction false} ClosesInTime(s: Sw, ins: seq<Input>)
    requires ToggleInv(s) && s.status.Open? && AllClosed(ins) && |ins| <= DEBOUNCE - s.debounce
    ensures RunToggle(s, ins).0.status == if |ins| == DEBOUNCE - s.debounce then Closed else Open
    decreases |ins|
  {
    if ins != [] {
      assert ins[0] in ins;
      ToggleStepKeeps(s, ins[0].poll, ins[0].mode);
      var s1 := PollToggle(s, ins[0].poll, ins[0].mode).0;
      if s1.status.Open? {
        assert AllClosed(ins[1..]);
        ClosesInTime(s1, ins[1..]);
      } else {
        assert ins[1..] == [];
      }
    }
  }

  /** The press on record survives the polls but the last: none of them ends an earlier burst. */
  predicate Stays(s: Sw, ins: seq<Input>) {
    s.pressed && (s.released ==> forall i :: 0 <= i < |ins| - 1 ==> !ins[i].poll.late)
  }

  lemma StaysNext(s: Sw, s1: Sw, ins: seq<Input>)
    requires |ins| > 1 && s.pressed && s1.released == (s.released && !ins[0].poll.late)
    requires s1.pressed == !(s.released && ins[0].poll.late)
    ensures Stays(s1, ins[1..]) <==> Stays(s, ins)
  {
    if Stays(s1, ins[1..]) && s.released {
      forall i | 0 <= i < |ins| - 1 ensures !ins[i].poll.late {
        if i > 0 { assert ins[1..][i - 1] == ins[i]; }
      }
    }
  }

  /** A switch seen as closed that is opened and stays open is seen as open after exactly debounce - 1
      polls, and not before, if its press is on record and stays there; otherwise it stays closed. */
  lemma {:induction false} OpensExactly(s: Sw, ins: seq<Input>)
    requires ToggleInv(s) && s.status.Closed? && AllOpen(ins) && |ins| <= s.debounce - 1
    ensures RunToggle(s, ins).0.status == if |ins| == s.debounce - 1 && Stays(s, ins) then Open else Closed
    decreases |ins|
  {
    if ins != [] {
      assert ins[0] in ins;
      ToggleStepKeeps(s, ins[0].poll, ins[0].mode);
      var s1 := PollToggle(s, ins[0].poll, ins[0].mode).0;
      if s1.status.Open? {
        assert ins[1..] == [];
      } else {
        assert AllOpen(ins[1..]);
        OpensExactly(s1, ins[1..]);
        if s.pressed && |ins| > 1 { StaysNext(s, s1, ins); }
      }
    }
  }

  // ----- the dead state

  /** Seen as closed with no press on record. */
  predicate Dead(s: Sw) {
    s.status.Closed? && !s.pressed && !s.released
  }

  /** It is never left in toggle mode, and from it the switch commands nothing: neither the relay
      nor a bound device nor a reset. */
  lemma {:induction false} DeadForever(s: Sw, ins: seq<Input>)
    requires Dead(s)
    ensures Dead(RunToggle(s, ins).0)
    ensures forall c :: c in RunToggle(s, ins).1 ==> c == Rejoin
    decreases |ins|
  {
    if ins != [] {
      DeadForever(PollToggle(s, ins[0].poll, ins[0].mode).0, ins[1..]);
    }
  }

  /** The polls that lead there: the first one after a boot if it finds the contact closed, and one
      that ends a burst while the switch is, or is just being, seen as closed again. */
  predicate Dies(s: Sw, p: Poll) {
    if s.status.Float? then p.closed
    else s.released && p.late && (if s.status.Closed? then p.closed || s.debounce > 2
                                  else p.closed && s.debounce == DEBOUNCE - 1)
  }

  lemma DiesExactly(s: Sw, p: Poll, m: Mode)
    requires ToggleInv(s) && !Dead(s)
    ensures Dead(PollToggle(s, p, m).0) <==> Dies(s, p)
  {
  }

  lemma RunPrefix(s: Sw, s1: Sw, ins: seq<Input>, k: nat)
    requires k < |ins| && s1 == PollToggle(s, ins[0].poll, ins[0].mode).0
    ensures RunToggle(s, ins[..k + 1]).0 == RunToggle(s1, ins[1..][..k]).0
  {
    assert ins[..k + 1][1..] == ins[1..][..k];
  }

  /** Over every run: the dead state is reached exactly if some poll of the run is one of these. */
  lemma {:induction false} DeadExactly(s: Sw, ins: seq<Input>)
    requires ToggleInv(s) && !Dead(s)
    ensures Dead(RunToggle(s, ins).0)
        <==> exists k :: 0 <= k < |ins| && Dies(RunToggle(s, ins[..k]).0, ins[k].poll)
    decreases |ins|
  {
    if ins != [] {
      var s1 := PollToggle(s, ins[0].poll, ins[0].mode).0;
      ToggleStepKeeps(s, ins[0].poll, ins[0].mode);
      DiesExactly(s, ins[0].poll, ins[0].mode);
      if Dead(s1) {
        DeadForever(s1, ins[1..]);
        assert ins[..0] == [] && Dies(RunToggle(s, ins[..0]).0, ins[0].poll);
      } else {
        DeadExactly(s1, ins[1..]);
        DeathLater(s, s1, ins);
      }
    }
  }

  lemma DeathLater(s: Sw, s1: Sw, ins: seq<Input>)
    requires ins != [] && s1 == PollToggle(s, ins[0].poll, ins[0].mode).0 && !Dies(s, ins[0].poll)
    ensures (exists k :: 0 <= k < |ins| && Dies(RunToggle(s, ins[..k]).0, ins[k].poll))
        <==> exists k :: 0 <= k < |ins[1..]| && Dies(RunToggle(s1, ins[1..][..k]).0, ins[1..][k].poll)
  {
    var rest := ins[1..];
    if k :| 0 <= k < |ins| && Dies(RunToggle(s, ins[..k]).0, ins[k].poll) {
      assert ins[..0] == [];
      if k > 0 {
        RunPrefix(s, s1, ins, k - 1);
        assert Dies(RunToggle(s1, rest[..k - 1]).0, rest[k - 1].poll);
      }
    }
    if k :| 0 <= k < |rest| && Dies(RunToggle(s1, rest[..k]).0, rest[k].poll) {
      RunPrefix(s, s1, ins, k);
      assert Dies(RunToggle(s, ins[..k + 1]).0, ins[k + 1].poll);
    }
  }

  /** Closing the contact again before the burst is over and keeping it closed until it is leads there. */
  lemma {:induction false} SecondPressIsDead(s: Sw, ins: seq<Input>, last: Input)
    requires ToggleInv(s) && s.status.Open? && s.released
    requires AllClosed(ins) && |ins| == DEBOUNCE - s.debounce && forall i :: i in ins ==> !i.poll.late
    requires last.poll.closed && last.poll.late
    ensures Dead(PollToggle(RunToggle(s, ins).0, last.poll, last.mode).0)
    decreases |ins|
  {
    assert ins[0] in ins;
    ToggleStepKeeps(s, ins[0].poll, ins[0].mode);
    var s1 := PollToggle(s, ins[0].poll, ins[0].mode).0;
    if s1.status.Open? {
      assert AllClosed(ins[1..]) && forall i :: i in ins[1..] ==> !i.poll.late;
      SecondPressIsDead(s1, ins[1..], last);
    } else {
      assert ins[1..] == [];
      assert RunToggle(s, ins).0 == s1;
    }
  }

  // ----- multifunction mode

  function RunMulti(s: Sw, polls: seq<Poll>): (Sw, seq<Cmd>)
    decreases |polls|
  {
    if polls == [] then (s, [])
    else
      var (s1, out) := RunMulti(s, polls[..|polls| - 1]);
      var (s2, last) := PollMulti(s1, polls[|polls| - 1]);
      (s2, out + last)
  }

  function RunLight(s: Sw, polls: seq<Poll>): (Sw, seq<Cmd>)
    decreases |polls|
  {
    if polls == [] then (s, [])
    else
      var (s1, out) := RunLight(s, polls[..|polls| - 1]);
      var (s2, last) := PollLight(s1, polls[|polls| - 1]);
      (s2, out + last)
  }

  /** What a command means for a bracketing: it opens, closes, must come outside, or is neutral. */
  datatype Role = Begin | End | Outside | Neutral

  function MultiRole(c: Cmd): Role {
    if c.Hold? then Begin else if c.Release? then End else if c.Click? || c.Empty? then Outside else Neutral
  }

  function LightRole(c: Cmd): Role {
    if c.Move? then Begin else if c.Stop? then End else if c.RemoteToggle? then Outside else Neutral
  }

  /** How many commands of a trace have a role. */
  function Count(t: seq<Cmd>, role: Cmd -> Role, r: Role): (n: nat) {
    if t == [] then 0 else Count(t[..|t| - 1], role, r) + if role(t[|t| - 1]) == r then 1 else 0
  }

  /** Openings and closings strictly alternate, an opening first, and what belongs outside comes only
      when everything opened is closed. */
  ghost predicate Bracketed(t: seq<Cmd>, role: Cmd -> Role) {
    forall n :: 0 <= n <= |t| ==> BracketedAt(t, role, n)
  }

  ghost predicate BracketedAt(t: seq<Cmd>, role: Cmd -> Role, n: nat)
    requires n <= |t|
  {
    && 0 <= Count(t[..n], role, Begin) - Count(t[..n], role, End) <= 1
    && (n < |t| && role(t[n]) == Outside ==> Count(t[..n], role, Begin) == Count(t[..n], role, End))
  }

  /** One more command that keeps to the brackets. */
  lemma BracketedNext(t: seq<Cmd>, role: Cmd -> Role, c: Cmd)
    requires Bracketed(t, role)
    requires var open := Count(t, role, Begin) - Count(t, role, End);
      match role(c) case Begin => open == 0 case End => open == 1 case Outside => open == 0 case Neutral => true
    ensures Bracketed(t + [c], role)
    ensures Count(t + [c], role, Begin) == Count(t, role, Begin) + if role(c) == Begin then 1 else 0
    ensures Count(t + [c], role, End) == Count(t, role, End) + if role(c) == End then 1 else 0
  {
    var u := t + [c];
    CountNext(t, role, c, Begin);
    CountNext(t, role, c, End);
    assert BracketedAt(t, role, |t|) && t[..|t|] == t;
    forall n | 0 <= n <= |u| ensures BracketedAt(u, role, n) {
      if n <= |t| {
        assert u[..n] == t[..n];
        assert BracketedAt(t, role, n);
      } else {
        assert u[..n] == u;
      }
    }
  }

  lemma CountNext(t: seq<Cmd>, role: Cmd -> Role, c: Cmd, r: Role)
    ensures Count(t + [c], role, r) == Count(t, role, r) + if role(c) == r then 1 else 0
  {
    assert (t + [c])[..|t|] == t;
  }

  /** Commands a poll may add when a bracket is open or not. */
  predicate Fits(open: bool, out: seq<Cmd>, role: Cmd -> Role, after: bool)
    decreases |out|
  {
    if out == [] then open == after
    else match role(out[0])
      case Begin => !open && Fits(true, out[1..], role, after)
      case End => open && Fits(false, out[1..], role, after)
      case Outside => !open && Fits(open, out[1..], role, after)
      case Neutral => Fits(open, out[1..], role, after)
  }

  lemma {:induction false} BracketedMore(t: seq<Cmd>, out: seq<Cmd>, role: Cmd -> Role, open: bool, after: bool)
    requires Bracketed(t, role) && Count(t, role, Begin) - Count(t, role, End) == (if open then 1 else 0)
    requires Fits(open, out, role, after)
    ensures Bracketed(t + out, role)
    ensures Count(t + out, role, Begin) - Count(t + out, role, End) == if after then 1 else 0
    decreases |out|
  {
    if out == [] {
      assert t + out == t;
    } else {
      BracketedNext(t, role, out[0]);
      var next := match role(out[0]) case Begin => true case End => false case _ => open;
      BracketedMore(t + [out[0]], out[1..], role, next, after);
      assert t + [out[0]] + out[1..] == t + out;
    }
  }

  lemma {:induction false} FitsAppend(open: bool, a: seq<Cmd>, mid: bool, b: seq<Cmd>, role: Cmd -> Role, after: bool)
    requires Fits(open, a, role, mid) && Fits(mid, b, role, after)
    ensures Fits(open, a + b, role, after)
    decreases |a|
  {
    if a == [] {
      assert a + b == b;
    } else {
      var next := match role(a[0]) case Begin => true case End => false case _ => open;
      FitsAppend(next, a[1..], mid, b, role, after);
      assert (a + b)[1..] == a[1..] + b;
    }
  }

  predicate PressInv(s: Sw) {
    1 <= s.debounce <= DEBOUNCE && (s.released ==> s.pressed) && (s.hold ==> s.pressed)
  }

  lemma MultiStep(s: Sw, p: Poll)
    requires PressInv(s)
    ensures PressInv(PollMulti(s, p).0)
    ensures Fits(s.hold, PollMulti(s, p).1, MultiRole, PollMulti(s, p).0.hold)
  {
    var (s0, hold) := if StartsHold(s, p) then (s.(hold := true), [Hold]) else (s, []);
    var (s1, rejoin) := Debounced(s0, p);
    assert s1.hold == s0.hold && Fits(s.hold, hold, MultiRole, s0.hold) && Fits(s0.hold, rejoin, MultiRole, s0.hold);
    FitsAppend(s.hold, hold, s0.hold, rejoin, MultiRole, s0.hold);
    if s1.released && p.late {
      assert Fits(s1.hold, Clicked(s1), MultiRole, false);
      FitsAppend(s.hold, hold + rejoin, s0.hold, Clicked(s1), MultiRole, false);
    }
  }

  lemma LightStep(s: Sw, p: Poll)
    requires PressInv(s)
    ensures PressInv(PollLight(s, p).0)
    ensures Fits(s.hold, PollLight(s, p).1, LightRole, PollLight(s, p).0.hold)
  {
    var (s0, move) := if StartsHold(s, p) then (s.(hold := true, levelDir := !s.levelDir), [Move(!s.levelDir)])
                      else (s, []);
    var (s1, rejoin) := Debounced(s0, p);
    assert s1.hold == s0.hold && Fits(s.hold, move, LightRole, s0.hold) && Fits(s0.hold, rejoin, LightRole, s0.hold);
    FitsAppend(s.hold, move, s0.hold, rejoin, LightRole, s0.hold);
    if s1.released && p.late {
      assert Fits(s1.hold, LightDone(s1), LightRole, false);
      FitsAppend(s.hold, move + rejoin, s0.hold, LightDone(s1), LightRole, false);
    }
  }

  /** From switch_init on, whatever the polls find: HOLD and RELEASE strictly alternate, HOLD first,
      and clicks are reported only outside a hold. */
  lemma {:induction false} HoldsAreBracketed(polls: seq<Poll>)
    ensures PressInv(RunMulti(Init(false), polls).0)
    ensures Bracketed(RunMulti(Init(false), polls).1, MultiRole)
    ensures var (s, t) := RunMulti(Init(false), polls);
      Count(t, MultiRole, Begin) - Count(t, MultiRole, End) == if s.hold then 1 else 0
    decreases |polls|
  {
    if polls != [] {
      var init, p := polls[..|polls| - 1], polls[|polls| - 1];
      HoldsAreBracketed(init);
      var (s1, out) := RunMulti(Init(false), init);
      MultiStep(s1, p);
      BracketedMore(out, PollMulti(s1, p).1, MultiRole, s1.hold, PollMulti(s1, p).0.hold);
    }
  }

  /** In light control every level move is followed by exactly one stop before the next move, and the
      remote toggle comes only between them. */
  lemma {:induction false} MovesAreBracketed(polls: seq<Poll>)
    ensures PressInv(RunLight(Init(false), polls).0)
    ensures Bracketed(RunLight(Init(false), polls).1, LightRole)
    ensures var (s, t) := RunLight(Init(false), polls);
      Count(t, LightRole, Begin) - Count(t, LightRole, End) == if s.hold then 1 else 0
    decreases |polls|
  {
    if polls != [] {
      var init, p := polls[..|polls| - 1], polls[|polls| - 1];
      MovesAreBracketed(init);
      var (s1, out) := RunLight(Init(false), init);
      LightStep(s1, p);
      BracketedMore(out, PollLight(s1, p).1, LightRole, s1.hold, PollLight(s1, p).0.hold);
    }
  }

  /** The directions of the moves of a trace, in order. */
  function Directions(t: seq<Cmd>): (d: seq<bool>) {
    if t == [] then []
    else Directions(t[..|t| - 1]) + if t[|t| - 1].Move? then [t[|t| - 1].up] else []
  }

  lemma {:induction false} DirectionsAppend(a: seq<Cmd>, b: seq<Cmd>)
    ensures Directions(a + b) == Directions(a) + Directions(b)
  {
    if b == [] {
      assert a + b == a;
    } else {
      assert (a + b)[..|a + b| - 1] == a + b[..|b| - 1];
      DirectionsAppend(a, b[..|b| - 1]);
    }
  }

  /** Up, down, up and so on. */
  predicate Alternating(d: seq<bool>) {
    forall k :: 0 <= k < |d| ==> d[k] == (k % 2 == 0)
  }

  lemma AlternatingNext(d: seq<bool>)
    requires Alternating(d)
    ensures Alternating(d + [|d| % 2 == 0]) && (|d| % 2 == 0 <==> |d + [true]| % 2 == 1)
  {
  }

  /** What a poll puts out: the start of a move, a rejoin request, the end of a burst. */
  lemma LightParts(s: Sw, p: Poll) returns (move: seq<Cmd>, rejoin: seq<Cmd>, done: seq<Cmd>)
    ensures PollLight(s, p).1 == move + rejoin + done
    ensures move == if StartsHold(s, p) then [Move(!s.levelDir)] else []
    ensures |rejoin| <= 1 && |done| <= 1 && (forall c :: c in rejoin + done ==> !c.Move?)
    ensures PollLight(s, p).0.levelDir == if StartsHold(s, p) then !s.levelDir else s.levelDir
  {
    var s0 := if StartsHold(s, p) then s.(hold := true, levelDir := !s.levelDir) else s;
    move := if StartsHold(s, p) then [Move(!s.levelDir)] else [];
    var s1;
    s1, rejoin := Debounced(s0, p).0, Debounced(s0, p).1;
    done := if s1.released && p.late then LightDone(s1) else [];
    assert move + rejoin + [] == move + rejoin;
  }

  lemma LightDirections(s: Sw, p: Poll)
    ensures Directions(PollLight(s, p).1) == if StartsHold(s, p) then [!s.levelDir] else []
    ensures PollLight(s, p).0.levelDir == if StartsHold(s, p) then !s.levelDir else s.levelDir
  {
    var move, rejoin, done := LightParts(s, p);
    assert forall c :: c in rejoin ==> c in rejoin + done;
    assert forall c :: c in done ==> c in rejoin + done;
    NoDirection(rejoin);
    NoDirection(done);
    MoveOnly(move, rejoin, done, !s.levelDir);
  }

  lemma MoveOnly(move: seq<Cmd>, rejoin: seq<Cmd>, done: seq<Cmd>, up: bool)
    requires move == [] || move == [Move(up)]
    requires Directions(rejoin) == [] && Directions(done) == []
    ensures Directions(move + rejoin + done) == if move == [] then [] else [up]
  {
    DirectionsAppend(move, rejoin);
    DirectionsAppend(move + rejoin, done);
    if move != [] { OneDirection(Move(up)); }
  }

  lemma OneDirection(c: Cmd)
    requires c.Move?
    ensures Directions([c]) == [c.up]
  {
    assert [c][..0] == [];
  }

  lemma NoDirection(t: seq<Cmd>)
    requires |t| <= 1 && forall c :: c in t ==> !c.Move?
    ensures Directions(t) == []
  {
    if t != [] {
      assert t[0] in t && t[..0] == [];
    }
  }

  /** The directions of the level moves alternate, the first one up. */
  lemma {:induction false} DirectionsAlternate(polls: seq<Poll>)
    ensures var (s, t) := RunLight(Init(false), polls);
      Alternating(Directions(t)) && s.levelDir == (|Directions(t)| % 2 == 1)
    decreases |polls|
  {
    if polls != [] {
      var init, p := polls[..|polls| - 1], polls[|polls| - 1];
      DirectionsAlternate(init);
      var (s1, out) := RunLight(Init(false), init);
      AlternateStep(Directions(out), s1, p);
      DirectionsAppend(out, PollLight(s1, p).1);
    }
  }

  lemma AlternateStep(d: seq<bool>, s: Sw, p: Poll)
    requires Alternating(d) && s.levelDir == (|d| % 2 == 1)
    ensures var d' := d + Directions(PollLight(s, p).1);
      Alternating(d') && PollLight(s, p).0.levelDir == (|d'| % 2 == 1)
  {
    LightDirections(s, p);
    AlternatingNext(d);
  }

  // ----- a stray poll

  /** These two modes have no hysteresis: one poll that finds the contact open and one that finds it
      closed again leave the press counter as it was exactly when the debounce counter had not yet
      arrived at its upper end; there they count as another press. If the burst ends meanwhile, the
      counter starts again. */
  lemma GlitchCountsExactly(s: Sw, open: Poll, closed: Poll)
    requires PressInv(s) && !open.closed && closed.closed
    ensures var n := GlitchCount(s, open, closed);
      && PollMulti(PollMulti(s, open).0, closed).0.counter == n
      && PollLight(PollLight(s, open).0, closed).0.counter == n
      && (!BurstEnds(s, open, closed) && !closed.slow ==> (n == s.counter <==> s.debounce != DEBOUNCE))
  {
    MultiGlitch(s, open, closed);
    LightGlitch(s, open, closed);
  }

  /** A release is waiting or is seen at the first of the two polls, and one of them finds the burst over. */
  predicate BurstEnds(s: Sw, open: Poll, closed: Poll) {
    (s.released || (s.pressed && s.debounce == 2)) && (open.late || closed.late)
  }

  /** The counter after the two polls. */
  function GlitchCount(s: Sw, open: Poll, closed: Poll): nat {
    if BurstEnds(s, open, closed) then (if open.late && s.debounce == DEBOUNCE then 1 else 0)
    else if s.debounce != DEBOUNCE then s.counter
    else if closed.slow then 1 else Up8(s.counter)
  }

  lemma MultiGlitch(s: Sw, open: Poll, closed: Poll)
    requires PressInv(s) && !open.closed && closed.closed
    ensures PollMulti(PollMulti(s, open).0, closed).0.counter == GlitchCount(s, open, closed)
  {
  }

  lemma LightGlitch(s: Sw, open: Poll, closed: Poll)
    requires PressInv(s) && !open.closed && closed.closed
    ensures PollLight(PollLight(s, open).0, closed).0.counter == GlitchCount(s, open, closed)
  {
  }

  // ----- a change of switch type

  /** switch_handler looks up the switch type at every poll; the record stays as it is. */
  datatype Kind = AsToggle(mode: Mode) | AsMulti | AsLight

  function PollAs(s: Sw, k: Kind, p: Poll): (Sw, seq<Cmd>) {
    match k
    case AsToggle(m) => PollToggle(s, p, m)
    case AsMulti => PollMulti(s, p)
    case AsLight => PollLight(s, p)
  }

  datatype Turn = Turn(kind: Kind, poll: Poll)

  function RunAs(s: Sw, turns: seq<Turn>): (Sw, seq<Cmd>)
    decreases |turns|
  {
    if turns == [] then (s, [])
    else
      var (s1, out) := RunAs(s, turns[..|turns| - 1]);
      var (s2, last) := PollAs(s1, turns[|turns| - 1].kind, turns[|turns| - 1].poll);
      (s2, out + last)
  }

  /** A hold or a move is ended by a release or a stop, whichever fits the type at the end. */
  function AnyRole(c: Cmd): Role {
    if c.Hold? || c.Move? then Begin else if c.Release? || c.Stop? then End
    else if c.Click? || c.Empty? then Outside else Neutral
  }

  /** A poll in toggle mode ends the burst of a press that was being held. */
  predicate Drops(s: Sw, k: Kind, p: Poll) {
    k.AsToggle? && s.hold && !PollAs(s, k, p).0.hold
  }

  lemma ToggleQuiet(s: Sw, p: Poll, m: Mode)
    requires PressInv(s)
    ensures PressInv(PollToggle(s, p, m).0) && (PollToggle(s, p, m).0.hold ==> s.hold)
    ensures forall c :: c in PollToggle(s, p, m).1 ==> AnyRole(c) == Neutral
  {
    if p.closed { ClosedQuiet(s, p, m); } else { OpenQuiet(s, p, m); }
  }

  lemma ClosedQuiet(s: Sw, p: Poll, m: Mode)
    requires PressInv(s)
    ensures PressInv(ToggleClosed(s, p, m).0) && ToggleClosed(s, p, m).0.hold == s.hold
    ensures forall c :: c in ToggleClosed(s, p, m).1 ==> AnyRole(c) == Neutral
  {
  }

  lemma OpenQuiet(s: Sw, p: Poll, m: Mode)
    requires PressInv(s)
    ensures PressInv(ToggleOpen(s, p, m).0) && ToggleOpen(s, p, m).0.hold == s.hold
    ensures forall c :: c in ToggleOpen(s, p, m).1 ==> AnyRole(c) == Neutral
  {
  }

  lemma {:induction false} NeutralFits(open: bool, out: seq<Cmd>, role: Cmd -> Role)
    requires forall c :: c in out ==> role(c) == Neutral
    ensures Fits(open, out, role, open)
    decreases |out|
  {
    if out != [] {
      assert out[0] in out && forall c :: c in out[1..] ==> c in out;
      NeutralFits(open, out[1..], role);
    }
  }

  lemma TurnStep(s: Sw, k: Kind, p: Poll)
    requires PressInv(s)
    ensures PressInv(PollAs(s, k, p).0)
    ensures !Drops(s, k, p) ==> Fits(s.hold, PollAs(s, k, p).1, AnyRole, PollAs(s, k, p).0.hold)
  {
    match k {
      case AsToggle(m) => ToggleQuiet(s, p, m); NeutralFits(s.hold, PollToggle(s, p, m).1, AnyRole);
      case AsMulti => MultiTurn(s, p);
      case AsLight => LightTurn(s, p);
    }
  }

  lemma MultiTurn(s: Sw, p: Poll)
    requires PressInv(s)
    ensures PressInv(PollMulti(s, p).0) && Fits(s.hold, PollMulti(s, p).1, AnyRole, PollMulti(s, p).0.hold)
  {
    var (s0, hold) := if StartsHold(s, p) then (s.(hold := true), [Hold]) else (s, []);
    var (s1, rejoin) := Debounced(s0, p);
    assert s1.hold == s0.hold && Fits(s.hold, hold, AnyRole, s0.hold) && Fits(s0.hold, rejoin, AnyRole, s0.hold);
    FitsAppend(s.hold, hold, s0.hold, rejoin, AnyRole, s0.hold);
    if s1.released && p.late {
      assert Fits(s1.hold, Clicked(s1), AnyRole, false);
      FitsAppend(s.hold, hold + rejoin, s0.hold, Clicked(s1), AnyRole, false);
    }
  }

  lemma LightTurn(s: Sw, p: Poll)
    requires PressInv(s)
    ensures PressInv(PollLight(s, p).0) && Fits(s.hold, PollLight(s, p).1, AnyRole, PollLight(s, p).0.hold)
  {
    var (s0, move) := if StartsHold(s, p) then (s.(hold := true, levelDir := !s.levelDir), [Move(!s.levelDir)])
                      else (s, []);
    var (s1, rejoin) := Debounced(s0, p);
    assert s1.hold == s0.hold && Fits(s.hold, move, AnyRole, s0.hold) && Fits(s0.hold, rejoin, AnyRole, s0.hold);
    FitsAppend(s.hold, move, s0.hold, rejoin, AnyRole, s0.hold);
    if s1.released && p.late {
      assert Fits(s1.hold, LightDone(s1), AnyRole, false);
      FitsAppend(s.hold, move + rejoin, s0.hold, LightDone(s1), AnyRole, false);
    }
  }

  /** No poll of the run drops a hold. */
  predicate NoneDropped(s: Sw, turns: seq<Turn>)
    decreases |turns|
  {
    turns == []
    || (NoneDropped(s, turns[..|turns| - 1])
        && !Drops(RunAs(s, turns[..|turns| - 1]).0, turns[|turns| - 1].kind, turns[|turns| - 1].poll))
  }

  /** Over every run in which the switch type changes at any time: as long as no poll in toggle mode
      ends a burst that was being held, every hold and every move is followed by one release or stop
      before the next, and clicks come only between them. */
  lemma {:induction false} TypesMayChange(toggle: bool, turns: seq<Turn>)
    ensures PressInv(RunAs(Init(toggle), turns).0)
    ensures NoneDropped(Init(toggle), turns) ==>
      var (s, t) := RunAs(Init(toggle), turns);
      Bracketed(t, AnyRole) && Count(t, AnyRole, Begin) - Count(t, AnyRole, End) == if s.hold then 1 else 0
    decreases |turns|
  {
    if turns != [] {
      var init, last := turns[..|turns| - 1], turns[|turns| - 1];
      TypesMayChange(toggle, init);
      var (s1, out) := RunAs(Init(toggle), init);
      TurnStep(s1, last.kind, last.poll);
      if NoneDropped(Init(toggle), turns) {
        var (s2, more) := PollAs(s1, last.kind, last.poll);
        BracketedMore(out, more, AnyRole, s1.hold, s2.hold);
      }
    }
  }

  /** The poll that ends a held burst reports a release exactly in multifunction mode and a stop exactly
      in light control, whatever the type was when the hold began: a HOLD loses its RELEASE, and a move
      its stop, exactly when the type has changed by then. */
  lemma HoldEndsAs(s: Sw, k: Kind, p: Poll)
    requires PressInv(s) && s.hold && !PollAs(s, k, p).0.hold
    ensures Release in PollAs(s, k, p).1 <==> k.AsMulti?
    ensures Stop in PollAs(s, k, p).1 <==> k.AsLight?
  {
    match k {
      case AsToggle(m) => ToggleQuiet(s, p, m);
      case AsMulti => assert Clicked(Debounced(s, p).0) == [Release];
      case AsLight => assert LightDone(Debounced(s, p).0) == [Stop];
    }
  }
}
