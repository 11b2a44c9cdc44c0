/** What presses do: which command a press or a release gives, and what it does to the relay. */
module SwitchPresses {
  import opened NorFlash
  import opened OnOffLog
  import opened Switch
  import opened SwitchProofs
  import App = RelayApp

  // ----- the effect of a command

  /** What a command makes of the relay's value. */
  function Here(c: Cmd, v: bool): bool {
    match c case On => true case Off => false case Toggle => !v case _ => v
  }

  /** What it makes of the value of a bound device. */
  function There(c: Cmd, v: bool): bool {
    match c case RemoteOn => true case RemoteOff => false case RemoteToggle => !v case _ => v
  }

  function AllHere(t: seq<Cmd>, v: bool): bool {
    if t == [] then v else Here(t[|t| - 1], AllHere(t[..|t| - 1], v))
  }

  function AllThere(t: seq<Cmd>, v: bool): bool {
    if t == [] then v else There(t[|t| - 1], AllThere(t[..|t| - 1], v))
  }

  predicate IsHere(c: Cmd) {
    c.On? || c.Off? || c.Toggle?
  }

  predicate IsThere(c: Cmd) {
    c.RemoteOn? || c.RemoteOff? || c.RemoteToggle?
  }

  /** How many commands of a trace go to the relay. */
  function CountHere(t: seq<Cmd>): nat {
    if t == [] then 0 else CountHere(t[..|t| - 1]) + if IsHere(t[|t| - 1]) then 1 else 0
  }

  /** How many go to bound devices. */
  function CountThere(t: seq<Cmd>): nat {
    if t == [] then 0 else CountThere(t[..|t| - 1]) + if IsThere(t[|t| - 1]) then 1 else 0
  }

  // ----- one poll

  /** The poll puts a new press on record: the contact is seen as closed, the first time in a burst. */
  predicate NewPress(s: Sw, p: Poll, m: Mode) {
    s.status.Open? && PollToggle(s, p, m).0.status.Closed? && s.counter == 0
  }

  /** The poll sees the contact as open again after the only press of a burst, in a network. */
  predicate SingleRelease(s: Sw, p: Poll, m: Mode) {
    s.status.Closed? && PollToggle(s, p, m).0.status.Open? && s.counter == 1 && p.joined
  }

  /** What the poll makes of a value: a press inverts it, or sets it as the switch action says if the switch
      is momentary; the release of a momentary switch does the opposite. */
  function Acted(s: Sw, p: Poll, m: Mode, v: bool): bool {
    if NewPress(s, p, m) then (if m.momentary then m.offOn else !v)
    else if SingleRelease(s, p, m) && m.momentary then !m.offOn
    else v
  }

  /** This trace does so much to the value, on the side the mode says, and nothing on the other. */
  predicate Does(t: seq<Cmd>, m: Mode, v: bool, acted: bool, n: nat) {
    && AllHere(t, v) == (if m.decoupled then v else acted) && AllThere(t, v) == (if m.decoupled then acted else v)
    && CountHere(t) == (if m.decoupled then 0 else n) && CountThere(t) == (if m.decoupled then n else 0)
  }

  /** Every poll acts on the relay of a coupled switch, and on the devices bound to a decoupled one, as a new
      press or the release of a single one asks, with one command; on the other side it does nothing. */
  lemma PollActs(s: Sw, p: Poll, m: Mode, v: bool)
    requires ToggleInv(s)
    ensures Does(PollToggle(s, p, m).1, m, v, Acted(s, p, m, v),
                 if NewPress(s, p, m) || (SingleRelease(s, p, m) && m.momentary) then 1 else 0)
  {
    var (s1, out) := if p.closed then ToggleClosed(s, p, m) else ToggleOpen(s, p, m);
    var n := if NewPress(s, p, m) || (SingleRelease(s, p, m) && m.momentary) then 1 else 0;
    if p.closed { ClosedActs(s, p, m, v, n); } else { OpenActs(s, p, m, v, n); }
    if s1.released && p.late {
      if s1.counter >= RESET_PRESSES { Behind(out, FactoryReset, v); } else { assert out + [] == out; }
    }
  }

  lemma Behind(t: seq<Cmd>, c: Cmd, v: bool)
    ensures AllHere(t + [c], v) == Here(c, AllHere(t, v)) && AllThere(t + [c], v) == There(c, AllThere(t, v))
    ensures CountHere(t + [c]) == CountHere(t) + if IsHere(c) then 1 else 0
    ensures CountThere(t + [c]) == CountThere(t) + if IsThere(c) then 1 else 0
  {
    assert (t + [c])[..|t|] == t;
  }

  lemma One(c: Cmd, v: bool)
    ensures AllHere([c], v) == Here(c, v) && AllThere([c], v) == There(c, v)
    ensures CountHere([c]) == (if IsHere(c) then 1 else 0) && CountThere([c]) == if IsThere(c) then 1 else 0
  {
    Behind([], c, v);
    assert [] + [c] == [c];
  }

  /** A command behind at most a rejoin request. */
  lemma BehindRejoin(r: seq<Cmd>, c: Cmd, v: bool)
    requires r == [] || r == [Rejoin]
    ensures AllHere(r + [c], v) == Here(c, v) && AllThere(r + [c], v) == There(c, v)
    ensures CountHere(r + [c]) == (if IsHere(c) then 1 else 0) && CountThere(r + [c]) == if IsThere(c) then 1 else 0
  {
    if r == [Rejoin] { One(Rejoin, v); }
    Behind(r, c, v);
  }

  lemma OnlyRejoin(r: seq<Cmd>, m: Mode, v: bool)
    requires r == [] || r == [Rejoin]
    ensures Does(r, m, v, v, 0)
  {
    if r == [Rejoin] { One(Rejoin, v); }
  }

  lemma ClosedActs(s: Sw, p: Poll, m: Mode, v: bool, n: nat)
    requires ToggleInv(s) && p.closed
    requires n == if NewPress(s, p, m) || (SingleRelease(s, p, m) && m.momentary) then 1 else 0
    ensures Does(ToggleClosed(s, p, m).1, m, v, Acted(s, p, m, v), n)
  {
    if s.status.Float? {
      One(FirstStart, v);
    } else if s.debounce == DEBOUNCE {
      OnlyRejoin([], m, v);
    } else {
      var rejoin := RejoinAt(s.debounce + 1, 5, p);
      if s.debounce == DEBOUNCE - 1 && s.counter == 0 && s.status.Open? {
        BehindRejoin(rejoin, PressCmd(m), v);
      } else {
        OnlyRejoin(rejoin, m, v);
      }
    }
  }

  lemma OpenActs(s: Sw, p: Poll, m: Mode, v: bool, n: nat)
    requires ToggleInv(s) && !p.closed
    requires n == if NewPress(s, p, m) || (SingleRelease(s, p, m) && m.momentary) then 1 else 0
    ensures Does(ToggleOpen(s, p, m).1, m, v, Acted(s, p, m, v), n)
  {
    if s.status.Float? {
      One(FirstStart, v);
    } else if s.debounce == 1 {
      OnlyRejoin([], m, v);
    } else {
      var rejoin := RejoinAt(s.debounce - 1, DEBOUNCE - 5, p);
      if s.debounce == 2 && s.pressed && s.status.Closed? && s.counter == 1 && p.joined && m.momentary {
        BehindRejoin(rejoin, ReleaseCmd(m)[0], v);
      } else {
        assert rejoin + [] == rejoin;
        OnlyRejoin(rejoin, m, v);
      }
    }
  }

  // ----- runs

  lemma {:induction false} Joined(a: seq<Cmd>, b: seq<Cmd>, v: bool)
    ensures AllHere(a + b, v) == AllHere(b, AllHere(a, v)) && AllThere(a + b, v) == AllThere(b, AllThere(a, v))
    ensures CountHere(a + b) == CountHere(a) + CountHere(b) && CountThere(a + b) == CountThere(a) + CountThere(b)
  {
    if b == [] {
      assert a + b == a;
    } else {
      var b', c := b[..|b| - 1], b[|b| - 1];
      assert b' + [c] == b && a + b == (a + b') + [c];
      Joined(a, b', v);
      Behind(a + b', c, v);
      Behind(b', c, AllHere(a, v));
      Behind(b', c, AllThere(a, v));
    }
  }

  /** What the polls of a run make of a value: each acts, if its mode is the one asked for. */
  function ActedOver(s: Sw, ins: seq<Input>, v: bool, decoupled: bool): bool
    decreases |ins|
  {
    if ins == [] then v
    else
      var i := ins[0];
      ActedOver(PollToggle(s, i.poll, i.mode).0, ins[1..],
                if i.mode.decoupled == decoupled then Acted(s, i.poll, i.mode, v) else v, decoupled)
  }

  /** Over every run, whatever the settings are at each poll: the relay follows the presses made while the
      switch was coupled, the bound devices those made while it was decoupled. */
  lemma {:induction false} RunActs(s: Sw, ins: seq<Input>, v: bool, w: bool)
    requires ToggleInv(s)
    ensures AllHere(RunToggle(s, ins).1, v) == ActedOver(s, ins, v, false)
    ensures AllThere(RunToggle(s, ins).1, w) == ActedOver(s, ins, w, true)
    decreases |ins|
  {
    if ins != [] {
      var i := ins[0];
      var (s1, out) := PollToggle(s, i.poll, i.mode);
      ToggleStepKeeps(s, i.poll, i.mode);
      PollActs(s, i.poll, i.mode, v);
      PollActs(s, i.poll, i.mode, w);
      RunActs(s1, ins[1..], AllHere(out, v), AllThere(out, w));
      Joined(out, RunToggle(s1, ins[1..]).1, v);
      Joined(out, RunToggle(s1, ins[1..]).1, w);
    }
  }

  /** A switch that is decoupled throughout never commands its relay, a coupled one never a bound device. */
  lemma {:induction false} SidesKept(s: Sw, ins: seq<Input>, decoupled: bool)
    requires ToggleInv(s) && forall i :: i in ins ==> i.mode.decoupled == decoupled
    ensures decoupled ==> CountHere(RunToggle(s, ins).1) == 0
    ensures !decoupled ==> CountThere(RunToggle(s, ins).1) == 0
    decreases |ins|
  {
    if ins != [] {
      var i := ins[0];
      assert i in ins;
      ToggleStepKeeps(s, i.poll, i.mode);
      PollActs(s, i.poll, i.mode, true);
      SidesKept(PollToggle(s, i.poll, i.mode).0, ins[1..], decoupled);
      Joined(PollToggle(s, i.poll, i.mode).1, RunToggle(PollToggle(s, i.poll, i.mode).0, ins[1..]).1, true);
    }
  }

  /** The new presses of a run. */
  function Presses(s: Sw, ins: seq<Input>): nat
    decreases |ins|
  {
    if ins == [] then 0
    else (if NewPress(s, ins[0].poll, ins[0].mode) then 1 else 0)
         + Presses(PollToggle(s, ins[0].poll, ins[0].mode).0, ins[1..])
  }

  /** So a coupled toggle switch has inverted its relay once for each of them. */
  lemma {:induction false} PressesInvert(s: Sw, ins: seq<Input>, v: bool)
    requires ToggleInv(s) && forall i :: i in ins ==> !i.mode.decoupled && !i.mode.momentary
    ensures AllHere(RunToggle(s, ins).1, v) == (v == (Presses(s, ins) % 2 == 0))
    decreases |ins|
  {
    if ins != [] {
      var i := ins[0];
      assert i in ins;
      var (s1, out) := PollToggle(s, i.poll, i.mode);
      ToggleStepKeeps(s, i.poll, i.mode);
      PollActs(s, i.poll, i.mode, v);
      PressesInvert(s1, ins[1..], AllHere(out, v));
      Joined(out, RunToggle(s1, ins[1..]).1, v);
      OneMore(Presses(s1, ins[1..]), Presses(s, ins), v, AllHere(out, v));
    }
  }

  lemma OneMore(n: nat, n': nat, v: bool, w: bool)
    requires if n' == n then w == v else n' == n + 1 && w == !v
    ensures (w == (n % 2 == 0)) == (v == (n' % 2 == 0))
  {
  }

  // ----- on the relay

  /** The commands as the relay application carries them out. */
  function Do(a: App.App, c: Cmd, on: bool, off: bool): (r: App.App)
    requires App.Fits(a)
    ensures App.Fits(r)
  {
    match c
    case On => App.CmdOn(a, on)
    case Off => App.CmdOff(a, off)
    case Toggle => App.CmdToggle(a, on, off)
    case FirstStart => App.FirstStart(a, on, off)
    case _ => a
  }

  function DoAll(a: App.App, t: seq<Cmd>, on: bool, off: bool): (r: App.App)
    requires App.Fits(a)
    ensures App.Fits(r)
  {
    if t == [] then a else Do(DoAll(a, t[..|t| - 1], on, off), t[|t| - 1], on, off)
  }

  /** Live status, attribute and pin all say this. */
  predicate Stands(a: App.App, v: bool, on: bool, off: bool) {
    a.status == (if v then 1 else 0) && a.onOff == v && a.level == if v then on else off
  }

  lemma {:induction false} DoTracks(a: App.App, t: seq<Cmd>, on: bool, off: bool)
    requires App.Fits(a) && (a.status == 0 || a.status == 1) && FirstStart !in t
    ensures var r := DoAll(a, t, on, off); var v := AllHere(t, a.status == 1);
      r.status == (if v then 1 else 0) && if CountHere(t) == 0 then r == a else Stands(r, v, on, off)
  {
    if t != [] {
      var t', c := t[..|t| - 1], t[|t| - 1];
      assert t == t' + [c];
      DoTracks(a, t', on, off);
      DoNext(DoAll(a, t', on, off), c, AllHere(t', a.status == 1), on, off);
    }
  }

  lemma DoNext(a: App.App, c: Cmd, v: bool, on: bool, off: bool)
    requires App.Fits(a) && a.status == (if v then 1 else 0) && !c.FirstStart?
    ensures var r := Do(a, c, on, off);
      if IsHere(c) then Stands(r, Here(c, v), on, off) else r == a && Here(c, v) == v
  {
  }

  /** The mode that settings stand for. */
  function ModeOf(cfg: App.Settings): Mode {
    Mode(cfg.switchType == 1, cfg.action == 1, cfg.decoupled != 0)
  }

  /** A poll and what the relay makes of it. A press inverts the live status, or sets it as the action says
      for a momentary switch, whose release does the opposite; a decoupled switch leaves the relay alone. */
  lemma PollSwitches(s: Sw, p: Poll, a: App.App, on: bool, off: bool)
    requires ToggleInv(s) && !s.status.Float? && App.Fits(a) && (a.status == 0 || a.status == 1)
    ensures var m := ModeOf(a.cfg); var r := DoAll(a, PollToggle(s, p, m).1, on, off);
      if a.cfg.decoupled != 0 then r == a
      else if NewPress(s, p, m) then
        Stands(r, if a.cfg.switchType == 1 then a.cfg.action == 1 else a.status == 0, on, off)
      else if SingleRelease(s, p, m) && a.cfg.switchType == 1 then Stands(r, a.cfg.action != 1, on, off)
      else r == a
  {
    var m := ModeOf(a.cfg);
    PollActs(s, p, m, a.status == 1);
    NoFirstStart(s, p, m);
    DoTracks(a, PollToggle(s, p, m).1, on, off);
  }

  lemma NoFirstStart(s: Sw, p: Poll, m: Mode)
    requires !s.status.Float?
    ensures FirstStart !in PollToggle(s, p, m).1
  {
  }

  /** The first poll after a power-on applies the start-up rule, whatever it finds. */
  lemma FirstPollSwitches(s: Sw, p: Poll, m: Mode, a: App.App, on: bool, off: bool)
    requires ToggleInv(s) && s.status.Float? && App.Fits(a)
    ensures DoAll(a, PollToggle(s, p, m).1, on, off) == App.FirstStart(a, on, off)
    ensures PollToggle(s, p, m).0.status == if p.closed then Closed else Open
  {
    assert [FirstStart][..0] == [];
  }
}
