/** The poll routines as the firmware runs them: the fields of app_switch_t updated in place, each
    routine tied to its function in Switch. */
module SwitchDevice {
  import opened Switch

  class Contact {
    var status: Status
    var released: bool
    var pressed: bool
    var hold: bool
    var levelDir: bool
    var counter: nat
    var debounce: nat
    var out: seq<Cmd>

    ghost function Now(): Sw
      reads this
    {
      Sw(status, released, pressed, hold, levelDir, counter, debounce)
    }

    /** switch_init: the three mode values below multifunction start afloat. */
    constructor (toggle: bool)
      ensures Now() == Init(toggle) && out == []
    {
      debounce, hold, counter, pressed, released, levelDir := DEBOUNCE / 2, false, 0, false, false, false;
      status := if toggle then Float else Open;
      out := [];
    }

    method Send(c: Cmd)
      modifies this`out
      ensures out == old(out) + [c]
    {
      out := out + [c];
    }

    /** switch_first_start: the start-up command, then the status. */
    method FirstStartAs(to: Status)
      modifies this`status, this`out
      ensures status == to && out == old(out) + [FirstStart]
    {
      Send(FirstStart);
      status := to;
    }

    method Rejoining(at: nat, p: Poll)
      modifies this`out
      ensures out == old(out) + RejoinAt(debounce, at, p)
    {
      if debounce == at && !p.joined && !p.factoryNew { Send(Rejoin); }
    }

    /** The command for a press, on the relay or on the bound devices. */
    method SendPress(m: Mode)
      modifies this`out
      ensures out == old(out) + [PressCmd(m)]
    {
      if m.momentary {
        if m.offOn {
          if !m.decoupled { Send(On); } else { Send(RemoteOn); }
        } else {
          if !m.decoupled { Send(Off); } else { Send(RemoteOff); }
        }
      } else {
        if !m.decoupled { Send(Toggle); } else { Send(RemoteToggle); }
      }
    }

    /** The command for a release; a toggle switch sends none. */
    method SendRelease(m: Mode)
      modifies this`out
      ensures out == old(out) + ReleaseCmd(m)
    {
      if m.momentary {
        if m.offOn {
          if !m.decoupled { Send(Off); } else { Send(RemoteOff); }
        } else {
          if !m.decoupled { Send(On); } else { Send(RemoteOn); }
        }
      }
    }

    /** The debounce counter one up, as a byte. */
    method CountUp()
      modifies this`debounce
      ensures debounce == Up8(old(debounce))
    {
      debounce := if debounce == 255 then 0 else debounce + 1;
    }

    method CountDown()
      modifies this`debounce
      ensures debounce == Down8(old(debounce))
    {
      debounce := if debounce == 0 then 255 else debounce - 1;
    }

    method ClearBurst()
      modifies this`counter, this`pressed, this`released, this`hold
      ensures Now() == Cleared(old(Now()))
    {
      counter := 0;
      pressed := false;
      released := false;
      hold := false;
    }

    /** read_switch_toggle. */
    method ReadToggle(p: Poll, m: Mode)
      modifies this
      ensures Now() == PollToggle(old(Now()), p, m).0
      ensures out == old(out) + PollToggle(old(Now()), p, m).1
    {
      if p.closed { ReadToggleClosed(p, m); } else { ReadToggleOpen(p, m); }
      if released && p.late {
        if counter >= RESET_PRESSES { Send(FactoryReset); }
        ClearBurst();
      }
    }

    method ReadToggleClosed(p: Poll, m: Mode)
      modifies this
      ensures Now() == ToggleClosed(old(Now()), p, m).0
      ensures out == old(out) + ToggleClosed(old(Now()), p, m).1
    {
      if status == Float {
        FirstStartAs(Closed);
      } else if debounce != DEBOUNCE {
        CountUp();
        Rejoining(5, p);
        if debounce == DEBOUNCE && status != Closed {
          status := Closed;
          if counter == 0 {
            counter := counter + 1;
            pressed := true;
            SendPress(m);
          } else if pressed && !p.slow {
            counter := Up8(counter);
          }
        }
      }
    }

    method ReadToggleOpen(p: Poll, m: Mode)
      modifies this
      ensures Now() == ToggleOpen(old(Now()), p, m).0
      ensures out == old(out) + ToggleOpen(old(Now()), p, m).1
    {
      if status == Float {
        FirstStartAs(Open);
      } else if debounce != 1 {
        CountDown();
        Rejoining(DEBOUNCE - 5, p);
        if debounce == 1 && pressed && status != Open {
          status := Open;
          released := true;
          if counter == 1 && p.joined { SendRelease(m); }
        }
      }
    }

    /** The part read_switch_multifunction and read_switch_light_control have in common. */
    method Debounce(p: Poll)
      modifies this
      ensures Now() == Debounced(old(Now()), p).0
      ensures out == old(out) + Debounced(old(Now()), p).1
    {
      if p.closed {
        if debounce != DEBOUNCE {
          CountUp();
          Rejoining(5, p);
          if debounce == DEBOUNCE {
            pressed := true;
            if !p.slow { counter := Up8(counter); } else { counter := 1; }
          }
        }
      } else {
        if debounce != 1 {
          CountDown();
          Rejoining(DEBOUNCE - 5, p);
          if debounce == 1 && pressed { released := true; }
        }
      }
    }

    /** read_switch_multifunction. */
    method ReadMulti(p: Poll)
      modifies this
      ensures Now() == PollMulti(old(Now()), p).0
      ensures out == old(out) + PollMulti(old(Now()), p).1
    {
      if p.closed && pressed && p.held && hold == false {
        hold := true;
        Send(Hold);
      }
      Debounce(p);
      if released && p.late { EndMulti(); }
    }

    /** The end of a burst of presses. */
    method EndMulti()
      modifies this
      ensures Now() == Cleared(old(Now())) && out == old(out) + Clicked(old(Now()))
    {
      if hold {
        Send(Release);
      } else {
        if 1 <= counter <= 3 {
          Send(Click(counter));
        } else if counter == 250 {
          Send(Empty);
        } else if counter >= RESET_PRESSES {
          Send(FactoryReset);
        }
      }
      ClearBurst();
    }

    /** read_switch_light_control. */
    method ReadLight(p: Poll)
      modifies this
      ensures Now() == PollLight(old(Now()), p).0
      ensures out == old(out) + PollLight(old(Now()), p).1
    {
      CheckMove(p);
      Debounce(p);
      if released && p.late { EndLight(); }
    }

    /** A contact pressed for long enough. */
    method CheckMove(p: Poll)
      modifies this`hold, this`levelDir, this`out
      ensures var s := old(Now());
        && Now() == (if StartsHold(s, p) then s.(hold := true, levelDir := !s.levelDir) else s)
        && out == old(out) + if StartsHold(s, p) then [Move(!s.levelDir)] else []
    {
      if p.closed && pressed && p.held && hold == false { StartMove(); }
    }

    /** A hold starts a level move, up and down in turn. */
    method StartMove()
      modifies this`hold, this`levelDir, this`out
      ensures hold && levelDir == !old(levelDir) && out == old(out) + [Move(!old(levelDir))]
    {
      hold := true;
      if !levelDir {
        levelDir := true;
        Send(Move(true));
      } else {
        levelDir := false;
        Send(Move(false));
      }
    }

    method EndLight()
      modifies this
      ensures Now() == Cleared(old(Now())) && out == old(out) + LightDone(old(Now()))
    {
      if hold {
        Send(Stop);
      } else {
        if counter == 1 {
          Send(RemoteToggle);
        } else if counter >= RESET_PRESSES {
          Send(FactoryReset);
        }
      }
      ClearBurst();
    }
  }
}
