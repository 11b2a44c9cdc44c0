/** What a burst of presses is reported as, from what the polls found alone. */
module SwitchBursts {
  import opened Switch
  import opened SwitchProofs

  // ----- counting presses without the switch

  /** Where the contact is between open (1) and closed (128): it moves one step with each poll. */
  function Level(d: nat, polls: seq<Poll>): int {
    if polls == [] then d
    else
      var before := Level(d, polls[..|polls| - 1]);
      if polls[|polls| - 1].closed then (if before == 128 then 128 else before + 1)
      else if before == 1 then 1 else before - 1
  }

  /** The presses in quick succession: each arrival at the closed end, counted from the last one that came
      more than half a second after the one before. */
  function Quick(d: nat, polls: seq<Poll>): nat {
    if polls == [] then 0
    else
      var before, last := polls[..|polls| - 1], polls[|polls| - 1];
      if last.closed && Level(d, before) == 127 then (if last.slow then 1 else Quick(d, before) + 1)
      else Quick(d, before)
  }

  /** The contact has been seen open again since the first press. */
  predicate Reopened(d: nat, polls: seq<Poll>) {
    polls != []
    && (Reopened(d, polls[..|polls| - 1])
        || (!polls[|polls| - 1].closed && Level(d, polls[..|polls| - 1]) == 2 && Quick(d, polls[..|polls| - 1]) > 0))
  }

  /** Behind a press, a poll has found the contact closed for long enough to be held. */
  predicate Held(d: nat, polls: seq<Poll>) {
    polls != []
    && (Held(d, polls[..|polls| - 1])
        || (polls[|polls| - 1].closed && polls[|polls| - 1].held && Quick(d, polls[..|polls| - 1]) > 0))
  }

  /** The last poll ends the burst: open again, and more than half a second after the last press. */
  predicate Over(d: nat, polls: seq<Poll>) {
    polls != [] && polls[|polls| - 1].late && Reopened(d, polls)
  }

  /** No poll ends it. */
  predicate Goes(d: nat, polls: seq<Poll>) {
    polls == [] || (!Over(d, polls) && Goes(d, polls[..|polls| - 1]))
  }

  // ----- the two modes that report bursts

  /** A contact between bursts. */
  predicate AtRest(s: Sw) {
    1 <= s.debounce <= 128 && s.counter == 0 && !s.pressed && !s.released && !s.hold
  }

  /** All commands but requests to rejoin. */
  function Reports(t: seq<Cmd>): seq<Cmd> {
    if t == [] then [] else Reports(t[..|t| - 1]) + if t[|t| - 1].Rejoin? then [] else [t[|t| - 1]]
  }

  lemma {:induction false} ReportsJoin(a: seq<Cmd>, b: seq<Cmd>)
    ensures Reports(a + b) == Reports(a) + Reports(b)
  {
    if b == [] {
      assert a + b == a;
    } else {
      assert (a + b)[..|a + b| - 1] == a + b[..|b| - 1];
      ReportsJoin(a, b[..|b| - 1]);
    }
  }

  lemma ReportsOne(t: seq<Cmd>)
    requires |t| <= 1
    ensures Reports(t) == if t != [] && t[0].Rejoin? then [] else t
  {
    if t != [] { assert t[..0] == [] && t == [t[0]]; }
  }

  /** What a multifunction switch reports of n presses, and a light switch. */
  function ClickReport(n: nat, held: bool): seq<Cmd> {
    if held then [Release]
    else if n == 1 || n == 2 || n == 3 then [Click(n)]
    else if n == 250 then [Empty]
    else if n >= 10 then [FactoryReset]
    else []
  }

  function LightReport(n: nat, held: bool): seq<Cmd> {
    if held then [Stop]
    else if n == 1 then [RemoteToggle]
    else if n >= 10 then [FactoryReset]
    else []
  }

  /** The switch's record is that of the polls of a burst so far. */
  predicate Keeps(s: Sw, d: nat, polls: seq<Poll>) {
    && 1 <= s.debounce <= 128 && s.debounce == Level(d, polls) && s.counter == Quick(d, polls) % 256
    && s.pressed == (Quick(d, polls) > 0) && s.released == Reopened(d, polls) && s.hold == Held(d, polls)
  }

  /** One more poll, as far as both modes go together: s0 is the record with the hold taken note of. */
  lemma DebouncedKeeps(s: Sw, s0: Sw, d: nat, polls: seq<Poll>, p: Poll)
    requires Keeps(s, d, polls) && s0 == s.(hold := s0.hold, levelDir := s0.levelDir)
    requires s0.hold == (s.hold || (p.closed && p.held && s.pressed))
    ensures Keeps(Debounced(s0, p).0, d, polls + [p])
    ensures Debounced(s0, p).0.levelDir == s0.levelDir && Debounced(s0, p).0.hold == s0.hold
    ensures Reports(Debounced(s0, p).1) == []
  {
    Unfolds(d, polls, p);
    DebouncedAt(s0, p, Quick(d, polls));
    ReportsOne(Debounced(s0, p).1);
  }

  lemma Unfolds(d: nat, polls: seq<Poll>, p: Poll)
    ensures var all, at, n := polls + [p], Level(d, polls), Quick(d, polls);
      && Level(d, all) == (if p.closed then (if at == 128 then 128 else at + 1) else if at == 1 then 1 else at - 1)
      && Quick(d, all) == (if p.closed && at == 127 then (if p.slow then 1 else n + 1) else n)
      && Reopened(d, all) == (Reopened(d, polls) || (!p.closed && at == 2 && n > 0))
      && Held(d, all) == (Held(d, polls) || (p.closed && p.held && n > 0))
  {
    assert (polls + [p])[..|polls|] == polls;
  }

  lemma DebouncedAt(s: Sw, p: Poll, n: nat)
    requires 1 <= s.debounce <= 128 && s.counter == n % 256 && s.pressed == (n > 0)
    ensures var r, n' := Debounced(s, p).0, if p.closed && s.debounce == 127 then (if p.slow then 1 else n + 1) else n;
      && r.debounce == (if p.closed then (if s.debounce == 128 then 128 else s.debounce + 1)
                        else if s.debounce == 1 then 1 else s.debounce - 1)
      && r.counter == n' % 256 && r.pressed == (n' > 0)
      && r.released == (s.released || (!p.closed && s.debounce == 2 && n > 0))
      && r.hold == s.hold && r.levelDir == s.levelDir && r.status == s.status
  {
    NextCount(n, n + 1);
  }

  lemma NextCount(n: nat, n': nat)
    requires n' == n + 1
    ensures Up8(n % 256) == n' % 256
  {
  }

  /** The record tells when the burst is over. */
  lemma EndIs(s: Sw, d: nat, polls: seq<Poll>, p: Poll)
    requires Keeps(s, d, polls + [p])
    ensures Over(d, polls + [p]) == (s.released && p.late)
  {
  }

  /** Reports around a request to rejoin. */
  lemma ReportsAround(first: seq<Cmd>, rejoin: seq<Cmd>, last: seq<Cmd>)
    requires |first| <= 1 && |last| <= 1 && Rejoin !in first && Rejoin !in last && Reports(rejoin) == []
    ensures Reports(first + rejoin) == first && Reports(first + rejoin + last) == first + last
  {
    ReportsJoin(first, rejoin);
    ReportsJoin(first + rejoin, last);
    ReportsOne(first);
    ReportsOne(last);
  }

  lemma MultiPoll(s: Sw, d: nat, polls: seq<Poll>, p: Poll)
    requires Keeps(s, d, polls)
    ensures var (s', out) := PollMulti(s, p); var all := polls + [p];
      var begun := if Held(d, all) && !Held(d, polls) then [Hold] else [];
      if Over(d, all) then AtRest(s') && Reports(out) == begun + ClickReport(Quick(d, all) % 256, Held(d, all))
      else Keeps(s', d, all) && Reports(out) == begun
  {
    var s0 := if StartsHold(s, p) then s.(hold := true) else s;
    var (s1, rejoin) := Debounced(s0, p);
    DebouncedKeeps(s, s0, d, polls, p);
    EndIs(s1, d, polls, p);
    MultiOut(s, p, s0, s1, rejoin);
  }

  lemma MultiOut(s: Sw, p: Poll, s0: Sw, s1: Sw, rejoin: seq<Cmd>)
    requires s0 == (if StartsHold(s, p) then s.(hold := true) else s)
    requires (s1, rejoin) == Debounced(s0, p) && Reports(rejoin) == []
    ensures var (s', out) := PollMulti(s, p); var begun := if s0.hold && !s.hold then [Hold] else [];
      if s1.released && p.late then s' == Cleared(s1) && Reports(out) == begun + ClickReport(s1.counter, s1.hold)
      else s' == s1 && Reports(out) == begun
  {
    MultiIs(s, p, s0, s1, rejoin);
    ReportsAround(if s0.hold && !s.hold then [Hold] else [], rejoin, ClickReport(s1.counter, s1.hold));
  }

  lemma MultiIs(s: Sw, p: Poll, s0: Sw, s1: Sw, rejoin: seq<Cmd>)
    requires s0 == (if StartsHold(s, p) then s.(hold := true) else s) && (s1, rejoin) == Debounced(s0, p)
    ensures var begun := if s0.hold && !s.hold then [Hold] else [];
      PollMulti(s, p) == if s1.released && p.late then (Cleared(s1), begun + rejoin + ClickReport(s1.counter, s1.hold))
                         else (s1, begun + rejoin)
  {
  }

  lemma LightPoll(s: Sw, d: nat, polls: seq<Poll>, p: Poll)
    requires Keeps(s, d, polls)
    ensures var (s', out) := PollLight(s, p); var all := polls + [p];
      var begun := if Held(d, all) && !Held(d, polls) then [Move(!s.levelDir)] else [];
      && s'.levelDir == (s.levelDir != (begun != []))
      && if Over(d, all) then AtRest(s') && Reports(out) == begun + LightReport(Quick(d, all) % 256, Held(d, all))
         else Keeps(s', d, all) && Reports(out) == begun
  {
    var s0 := if StartsHold(s, p) then s.(hold := true, levelDir := !s.levelDir) else s;
    var (s1, rejoin) := Debounced(s0, p);
    DebouncedKeeps(s, s0, d, polls, p);
    EndIs(s1, d, polls, p);
    LightOut(s, p, s0, s1, rejoin);
  }

  lemma LightOut(s: Sw, p: Poll, s0: Sw, s1: Sw, rejoin: seq<Cmd>)
    requires s0 == (if StartsHold(s, p) then s.(hold := true, levelDir := !s.levelDir) else s)
    requires (s1, rejoin) == Debounced(s0, p) && Reports(rejoin) == []
    ensures var (s', out) := PollLight(s, p); var begun := if s0.hold && !s.hold then [Move(!s.levelDir)] else [];
      if s1.released && p.late then s' == Cleared(s1) && Reports(out) == begun + LightReport(s1.counter, s1.hold)
      else s' == s1 && Reports(out) == begun
  {
    LightIs(s, p, s0, s1, rejoin);
    ReportsAround(if s0.hold && !s.hold then [Move(!s.levelDir)] else [], rejoin, LightReport(s1.counter, s1.hold));
  }

  lemma LightIs(s: Sw, p: Poll, s0: Sw, s1: Sw, rejoin: seq<Cmd>)
    requires s0 == (if StartsHold(s, p) then s.(hold := true, levelDir := !s.levelDir) else s)
    requires (s1, rejoin) == Debounced(s0, p)
    ensures var begun := if s0.hold && !s.hold then [Move(!s.levelDir)] else [];
      PollLight(s, p) == if s1.released && p.late then (Cleared(s1), begun + rejoin + LightReport(s1.counter, s1.hold))
                         else (s1, begun + rejoin)
  {
  }

  lemma {:induction false} MultiKeeps(s: Sw, polls: seq<Poll>)
    requires AtRest(s) && Goes(s.debounce, polls)
    ensures Keeps(RunMulti(s, polls).0, s.debounce, polls)
    ensures Reports(RunMulti(s, polls).1) == if Held(s.debounce, polls) then [Hold] else []
  {
    if polls != [] {
      var before, p := polls[..|polls| - 1], polls[|polls| - 1];
      MultiKeeps(s, before);
      assert before + [p] == polls;
      MultiPoll(RunMulti(s, before).0, s.debounce, before, p);
      ReportsJoin(RunMulti(s, before).1, PollMulti(RunMulti(s, before).0, p).1);
    }
  }

  /** A burst in multifunction mode, from a contact at rest to the poll that ends it. All that is put out,
      rejoining aside, is HOLD if it was held, and at its end RELEASE or, if it was not held, a click of one,
      two or three presses, an empty action for 250, a reset for ten or more: counted as a byte in quick
      succession. Both the end and the count are those of the polls alone. */
  lemma BurstReports(s: Sw, polls: seq<Poll>, p: Poll)
    requires AtRest(s) && Goes(s.debounce, polls) && Over(s.debounce, polls + [p])
    ensures var all := polls + [p]; var held := Held(s.debounce, all);
      && Reports(RunMulti(s, all).1) == (if held then [Hold] else []) + ClickReport(Quick(s.debounce, all) % 256, held)
      && AtRest(RunMulti(s, all).0)
  {
    assert (polls + [p])[..|polls|] == polls;
    MultiKeeps(s, polls);
    MultiPoll(RunMulti(s, polls).0, s.debounce, polls, p);
    ReportsJoin(RunMulti(s, polls).1, PollMulti(RunMulti(s, polls).0, p).1);
  }

  lemma {:induction false} LightKeeps(s: Sw, polls: seq<Poll>)
    requires AtRest(s) && Goes(s.debounce, polls)
    ensures Keeps(RunLight(s, polls).0, s.debounce, polls)
    ensures RunLight(s, polls).0.levelDir == (s.levelDir != Held(s.debounce, polls))
    ensures Reports(RunLight(s, polls).1) == if Held(s.debounce, polls) then [Move(!s.levelDir)] else []
  {
    if polls != [] {
      var before, p := polls[..|polls| - 1], polls[|polls| - 1];
      LightKeeps(s, before);
      assert before + [p] == polls;
      LightPoll(RunLight(s, before).0, s.debounce, before, p);
      ReportsJoin(RunLight(s, before).1, PollLight(RunLight(s, before).0, p).1);
    }
  }

  /** The same in light control: a held contact moves the level, up and down in turn, and stops; one press
      toggles a bound device, ten or more reset. */
  lemma LightBurstReports(s: Sw, polls: seq<Poll>, p: Poll)
    requires AtRest(s) && Goes(s.debounce, polls) && Over(s.debounce, polls + [p])
    ensures var all := polls + [p]; var held := Held(s.debounce, all);
      && Reports(RunLight(s, all).1)
         == (if held then [Move(!s.levelDir)] else []) + LightReport(Quick(s.debounce, all) % 256, held)
      && AtRest(RunLight(s, all).0) && RunLight(s, all).0.levelDir == (s.levelDir != held)
  {
    assert (polls + [p])[..|polls|] == polls;
    LightKeeps(s, polls);
    LightPoll(RunLight(s, polls).0, s.debounce, polls, p);
    ReportsJoin(RunLight(s, polls).1, PollLight(RunLight(s, polls).0, p).1);
  }

  // ----- bursts in toggle mode

  /** The press on record is taken off it: the burst is over. */
  predicate Ended(s: Sw, s': Sw) {
    s.pressed && !s'.pressed
  }

  /** The contact has been seen open again since the first press of the burst. */
  predicate SeenOpen(s: Sw, ins: seq<Input>)
  {
    ins != []
    && var b, b' := RunToggle(s, ins[..|ins| - 1]).0, RunToggle(s, ins).0;
       !Ended(b, b') && (SeenOpen(s, ins[..|ins| - 1]) || (b.status.Closed? && b'.status.Open?))
  }

  lemma {:induction false} ReleasedIsSeen(s: Sw, ins: seq<Input>)
    requires OpenAtRest(s)
    ensures var b := RunToggle(s, ins).0; ToggleInv(b) && !b.status.Float? && b.released == SeenOpen(s, ins)
  {
    if ins != [] {
      var before, i := ins[..|ins| - 1], ins[|ins| - 1];
      ReleasedIsSeen(s, before);
      RunToggleLast(s, before, i);
      assert before + [i] == ins;
      EndsAt(RunToggle(s, before).0, i.poll, i.mode);
    }
  }

  lemma EndsAt(s: Sw, p: Poll, m: Mode)
    requires ToggleInv(s) && !s.status.Float?
    ensures var s' := PollToggle(s, p, m).0; var opens := s.status.Closed? && s'.status.Open?;
      && ToggleInv(s') && !s'.status.Float?
      && (Ended(s, s') <==> p.late && (s.released || opens))
      && (!Ended(s, s') ==> s'.released == (s.released || opens)) && (Ended(s, s') ==> !s'.released && s'.counter == 0)
  {
  }

  /** Over every run from an open contact at rest: a poll ends the burst exactly if it comes more than half a
      second after the last press and the contact has been seen open again since the first. The counter then
      starts from zero, so that the next press acts again. */
  lemma BurstEndsExactly(s: Sw, ins: seq<Input>, i: Input)
    requires OpenAtRest(s)
    ensures var b, b' := RunToggle(s, ins).0, RunToggle(s, ins + [i]).0;
      && (Ended(b, b') <==> i.poll.late && (SeenOpen(s, ins) || (b.status.Closed? && b'.status.Open?)))
      && (Ended(b, b') ==> b'.counter == 0)
  {
    ReleasedIsSeen(s, ins);
    RunToggleLast(s, ins, i);
    EndsAt(RunToggle(s, ins).0, i.poll, i.mode);
  }

  /** The presses of a burst in toggle mode: each time the contact is seen as closed, unless more than half a
      second after the one before. */
  function Closings(s: Sw, ins: seq<Input>): nat {
    if ins == [] then 0
    else
      var k := |ins| - 1;
      var b := RunToggle(s, ins[..k]).0;
      Closings(s, ins[..k])
      + if b.status.Open? && RunToggle(s, ins).0.status.Closed? && (Closings(s, ins[..k]) == 0 || !ins[k].poll.slow)
        then 1 else 0
  }

  predicate UnbrokenToggle(s: Sw, ins: seq<Input>) {
    forall k :: 0 <= k < |ins| ==> !Ended(RunToggle(s, ins[..k]).0, RunToggle(s, ins[..k + 1]).0)
  }

  /** An open contact between bursts. */
  predicate OpenAtRest(s: Sw) {
    ToggleInv(s) && s.status.Open? && !s.pressed && !s.released
  }

  lemma {:induction false} ToggleCounts(s: Sw, ins: seq<Input>)
    requires OpenAtRest(s) && UnbrokenToggle(s, ins) && Closings(s, ins) < 256
    ensures var b := RunToggle(s, ins).0;
      ToggleInv(b) && !b.status.Float? && b.counter == Closings(s, ins) && (b.pressed <==> Closings(s, ins) > 0)
    ensures FactoryReset !in RunToggle(s, ins).1
  {
    if ins != [] {
      var k := |ins| - 1;
      var before := ins[..k];
      forall j | 0 <= j < k ensures !Ended(RunToggle(s, before[..j]).0, RunToggle(s, before[..j + 1]).0) {
        assert before[..j] == ins[..j] && before[..j + 1] == ins[..j + 1];
      }
      ToggleCounts(s, before);
      RunToggleLast(s, before, ins[k]);
      assert ins[..k + 1] == ins && before + [ins[k]] == ins;
      TogglePoll(RunToggle(s, before).0, ins[k].poll, ins[k].mode);
    }
  }

  lemma {:induction false} RunToggleLast(s: Sw, ins: seq<Input>, i: Input)
    ensures var b := RunToggle(s, ins);
      RunToggle(s, ins + [i]) == (PollToggle(b.0, i.poll, i.mode).0, b.1 + PollToggle(b.0, i.poll, i.mode).1)
    decreases |ins|
  {
    if ins == [] {
      assert [i][1..] == [];
      assert ins + [i] == [i];
      var (s1, out) := PollToggle(s, i.poll, i.mode);
      assert RunToggle(s1, [i][1..]) == (s1, []);
      assert out + [] == out && [] + out == out;
    } else {
      assert (ins + [i])[1..] == ins[1..] + [i];
      var (s1, out) := PollToggle(s, ins[0].poll, ins[0].mode);
      RunToggleLast(s1, ins[1..], i);
      var b := RunToggle(s1, ins[1..]);
      assert out + (b.1 + PollToggle(b.0, i.poll, i.mode).1) == (out + b.1) + PollToggle(b.0, i.poll, i.mode).1;
    }
  }

  lemma TogglePoll(s: Sw, p: Poll, m: Mode)
    requires ToggleInv(s) && !s.status.Float? && s.counter < 256 && (s.pressed <==> s.counter > 0)
    ensures var (s', out) := PollToggle(s, p, m);
      && ToggleInv(s') && !s'.status.Float?
      && var n := s.counter + if s.status.Open? && s'.status.Closed? && (s.counter == 0 || !p.slow) then 1 else 0;
         if Ended(s, s') then s'.counter == 0 && (n < 256 ==> (FactoryReset in out <==> n >= 10))
         else (n < 256 ==> s'.counter == n && (s'.pressed <==> n > 0)) && FactoryReset !in out
  {
  }

  /** A burst in toggle mode ends with a reset exactly if it had ten presses or more. */
  lemma ToggleBurstResets(s: Sw, ins: seq<Input>, i: Input)
    requires OpenAtRest(s) && UnbrokenToggle(s, ins) && Closings(s, ins + [i]) < 256
    requires Ended(RunToggle(s, ins).0, RunToggle(s, ins + [i]).0)
    ensures FactoryReset in RunToggle(s, ins + [i]).1 <==> Closings(s, ins + [i]) >= 10
  {
    assert (ins + [i])[..|ins|] == ins;
    ToggleCounts(s, ins);
    RunToggleLast(s, ins, i);
    TogglePoll(RunToggle(s, ins).0, i.poll, i.mode);
  }

  // ----- rejoining, and the start

  /** A device that has been in a network and has lost it asks to rejoin in every mode exactly when the contact
      has moved four steps away from one of its ends, closing or opening. */
  predicate AsksToRejoin(s: Sw, p: Poll) {
    !p.joined && !p.factoryNew && if p.closed then s.debounce == 4 else s.debounce == 124
  }

  lemma RejoinsExactly(s: Sw, p: Poll, m: Mode)
    requires 1 <= s.debounce <= 128
    ensures Rejoin in PollMulti(s, p).1 <==> AsksToRejoin(s, p)
    ensures Rejoin in PollLight(s, p).1 <==> AsksToRejoin(s, p)
    ensures ToggleInv(s) ==> (Rejoin in PollToggle(s, p, m).1 <==> !s.status.Float? && AsksToRejoin(s, p))
  {
    DebouncedRejoins(s, p);
    DebouncedRejoins(s.(hold := true), p);
    DebouncedRejoins(s.(hold := true, levelDir := !s.levelDir), p);
    if ToggleInv(s) { ToggleRejoins(s, p, m); }
  }

  lemma DebouncedRejoins(s: Sw, p: Poll)
    requires 1 <= s.debounce <= 128
    ensures Rejoin in Debounced(s, p).1 <==> AsksToRejoin(s, p)
  {
  }

  lemma ToggleRejoins(s: Sw, p: Poll, m: Mode)
    requires ToggleInv(s)
    ensures Rejoin in PollToggle(s, p, m).1 <==> !s.status.Float? && AsksToRejoin(s, p)
  {
  }

  /** What a power-on starts from: with a toggle or momentary switch its first poll applies the start-up rule,
      and then knows the contact; with the other two the contact is at rest and open. */
  lemma StartsSo(p: Poll, m: Mode)
    ensures ToggleInv(Init(true)) && PollToggle(Init(true), p, m).1 == [FirstStart]
    ensures PollToggle(Init(true), p, m).0 == Init(true).(status := if p.closed then Closed else Open)
    ensures AtRest(Init(false)) && Init(false).status == Open && !Init(false).levelDir && Init(false).debounce == 64
    ensures Init(true) == Init(false).(status := Float)
  {
  }
}
