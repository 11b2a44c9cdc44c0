/** The wall-switch state machine: one poll of one input in each of its modes (src/app_switch.c).
    Every question the code puts to the clock is an arbitrary answer of the poll. */
module Switch {

  /** DEBOUNCE_SWITCH (src/app_switch.c:3-5). */
  const DEBOUNCE := 128
  const RESET_PRESSES := 10

  datatype Status = Open | Closed | Float

  /** app_switch_t without its time stamps. */
  datatype Sw = Sw(status: Status, released: bool, pressed: bool, hold: bool, levelDir: bool,
                   counter: nat, debounce: nat)

  /** What a poll finds: the contact; whether hold_time and pressed_time are more than 500 ms ago,
      the latter asked when a press is counted and again at the end; and the network's state. */
  datatype Poll = Poll(closed: bool, held: bool, slow: bool, late: bool, joined: bool, factoryNew: bool)

  /** The settings read_switch_toggle looks at. */
  datatype Mode = Mode(momentary: bool, offOn: bool, decoupled: bool)

  datatype Cmd =
    | FirstStart | Rejoin | FactoryReset
    | On | Off | Toggle | RemoteOn | RemoteOff | RemoteToggle
    | Hold | Release | Click(n: nat) | Empty
    | Move(up: bool) | Stop

  /** switch_init. */
  function Init(toggle: bool): Sw {
    Sw(if toggle then Float else Open, false, false, false, false, 0, DEBOUNCE / 2)
  }

  function Up8(n: nat): nat { if n == 255 then 0 else n + 1 }

  function Down8(n: nat): nat { if n == 0 then 255 else n - 1 }

  function RejoinAt(d: nat, at: nat, p: Poll): seq<Cmd> {
    if d == at && !p.joined && !p.factoryNew then [Rejoin] else []
  }

  /** The state after the closing burst has been dealt with. */
  function Cleared(s: Sw): Sw {
    s.(counter := 0, pressed := false, released := false, hold := false)
  }

  // ----- toggle and momentary

  function PressCmd(m: Mode): Cmd {
    if !m.momentary then (if m.decoupled then RemoteToggle else Toggle)
    else if m.offOn then (if m.decoupled then RemoteOn else On)
    else (if m.decoupled then RemoteOff else Off)
  }

  function ReleaseCmd(m: Mode): seq<Cmd> {
    if !m.momentary then []
    else if m.offOn then [if m.decoupled then RemoteOff else Off]
    else [if m.decoupled then RemoteOn else On]
  }

  /** Polled closed. */
  function ToggleClosed(s: Sw, p: Poll, m: Mode): (Sw, seq<Cmd>) {
    if s.status.Float? then (s.(status := Closed), [FirstStart])
    else if s.debounce == DEBOUNCE then (s, [])
    else
      var d := Up8(s.debounce);
      var rejoin := RejoinAt(d, 5, p);
      if d == DEBOUNCE && !s.status.Closed? then
        var s' := s.(debounce := d, status := Closed);
        if s.counter == 0 then (s'.(counter := 1, pressed := true), rejoin + [PressCmd(m)])
        else if s.pressed && !p.slow then (s'.(counter := Up8(s.counter)), rejoin)
        else (s', rejoin)
      else (s.(debounce := d), rejoin)
  }

  /** Polled open. */
  function ToggleOpen(s: Sw, p: Poll, m: Mode): (Sw, seq<Cmd>) {
    if s.status.Float? then (s.(status := Open), [FirstStart])
    else if s.debounce == 1 then (s, [])
    else
      var d := Down8(s.debounce);
      var rejoin := RejoinAt(d, DEBOUNCE - 5, p);
      if d == 1 && s.pressed && !s.status.Open? then
        (s.(debounce := d, status := Open, released := true),
         rejoin + if s.counter == 1 && p.joined then ReleaseCmd(m) else [])
      else (s.(debounce := d), rejoin)
  }

  /** read_switch_toggle. */
  function PollToggle(s: Sw, p: Poll, m: Mode): (Sw, seq<Cmd>) {
    var (s1, out) := if p.closed then ToggleClosed(s, p, m) else ToggleOpen(s, p, m);
    if s1.released && p.late then (Cleared(s1), out + if s1.counter >= RESET_PRESSES then [FactoryReset] else [])
    else (s1, out)
  }

  // ----- multifunction and light control

  /** The debouncing the two share: every arrival at the upper end counts a press. */
  function Debounced(s: Sw, p: Poll): (Sw, seq<Cmd>) {
    if p.closed then
      if s.debounce == DEBOUNCE then (s, [])
      else
        var d := Up8(s.debounce);
        var s' := s.(debounce := d);
        (if d == DEBOUNCE then s'.(pressed := true, counter := if p.slow then 1 else Up8(s.counter)) else s',
         RejoinAt(d, 5, p))
    else if s.debounce == 1 then (s, [])
    else
      var d := Down8(s.debounce);
      (s.(debounce := d, released := s.released || (d == 1 && s.pressed)), RejoinAt(d, DEBOUNCE - 5, p))
  }

  /** A closed contact that has been pressed for long enough. */
  predicate StartsHold(s: Sw, p: Poll) {
    p.closed && s.pressed && p.held && !s.hold
  }

  /** read_switch_multifunction. */
  function PollMulti(s: Sw, p: Poll): (Sw, seq<Cmd>) {
    var (s0, hold) := if StartsHold(s, p) then (s.(hold := true), [Hold]) else (s, []);
    var (s1, rejoin) := Debounced(s0, p);
    if s1.released && p.late then (Cleared(s1), hold + rejoin + Clicked(s1)) else (s1, hold + rejoin)
  }

  /** What the end of a burst reports. */
  function Clicked(s: Sw): seq<Cmd> {
    if s.hold then [Release]
    else if 1 <= s.counter <= 3 then [Click(s.counter)]
    else if s.counter == 250 then [Empty]
    else if s.counter >= RESET_PRESSES then [FactoryReset]
    else []
  }

  /** read_switch_light_control. */
  function PollLight(s: Sw, p: Poll): (Sw, seq<Cmd>) {
    var (s0, move) := if StartsHold(s, p) then (s.(hold := true, levelDir := !s.levelDir), [Move(!s.levelDir)])
                      else (s, []);
    var (s1, rejoin) := Debounced(s0, p);
    if s1.released && p.late then (Cleared(s1), move + rejoin + LightDone(s1)) else (s1, move + rejoin)
  }

  function LightDone(s: Sw): seq<Cmd> {
    if s.hold then [Stop]
    else if s.counter == 1 then [RemoteToggle]
    else if s.counter >= RESET_PRESSES then [FactoryReset]
    else []
  }
}
