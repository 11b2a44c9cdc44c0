/** Persistence agreement: over every run of commands, attribute writes and power-ons the log
    holds the live status whenever the start-up mode needs it, and the relay follows the status. */
module RelayAppProofs {
  import opened NorFlash
  import opened OnOffLog
  import opened RelayApp
  import Log = OnOffLogProofs

  function LoggedStatus(a: App): byte
    requires Fits(a)
  {
    Slot(a.mem, a.slot)[1]
  }

  function Loaded(a: App): Settings {
    match a.nv case Some(s) => s case None => DEFAULTS
  }

  /** The log holds the live status whenever the start-up mode needs it, and a switch type that
      has no relay of its own stays decoupled. */
  ghost predicate Core(a: App) {
    && Fits(a) && |a.mem| % SECTOR == 0
    && WellFormed(a.mem, a.slot, LoggedStatus(a)) && Log.IsStatus(LoggedStatus(a))
    && Log.IsStatus(a.status)
    && (a.cfg.startUp > TO_ON ==> LoggedStatus(a) == a.status)
    && (a.cfg.switchType >= MULTIFUNCTION ==> a.cfg.decoupled != COUPLED)
  }

  /** What holds between events: also the attribute and the saved copy match the settings. */
  ghost predicate Persistent(a: App) {
    Core(a) && a.startUp == a.cfg.startUp && Loaded(a) == a.cfg
  }

  /** The attribute, the live status and the pin say the same. */
  predicate Consistent(a: App, on: bool, off: bool) {
    && Log.IsStatus(a.status)
    && a.onOff == (a.status == ON)
    && a.level == if a.status == ON then on else off
  }

  /** What the other settings say does not matter to the log. */
  lemma CoreWith(a: App, cfg: Settings, attr: byte)
    requires Core(a) && (cfg.startUp > TO_ON ==> LoggedStatus(a) == a.status)
    requires cfg.switchType >= MULTIFUNCTION ==> cfg.decoupled != COUPLED
    ensures Core(a.(cfg := cfg, decoupledAttr := attr))
  {
  }

  lemma LoggedKeeps(a: App)
    requires Fits(a) && |a.mem| % SECTOR == 0 && WellFormed(a.mem, a.slot, LoggedStatus(a))
    ensures var b := Logged(a);
            && WellFormed(b.mem, b.slot, a.status) && LoggedStatus(b) == a.status && |b.mem| == |a.mem|
  {
    Log.SaveStep(a.mem, a.slot, LoggedStatus(a), a.status);
  }

  lemma OnKeeps(a: App, on: bool)
    requires Core(a) && a.startUp == a.cfg.startUp
    ensures Core(CmdOn(a, on)) && CmdOn(a, on).startUp == a.startUp && CmdOn(a, on).status == ON
    ensures CmdOn(a, on).onOff && CmdOn(a, on).level == on
    ensures CmdOn(a, on).cfg == a.cfg && CmdOn(a, on).nv == a.nv
  {
    LoggedKeeps(a.(onOff := true, status := ON));
  }

  lemma OffKeeps(a: App, off: bool)
    requires Core(a) && a.startUp == a.cfg.startUp
    ensures Core(CmdOff(a, off)) && CmdOff(a, off).startUp == a.startUp && CmdOff(a, off).status == OFF
    ensures !CmdOff(a, off).onOff && CmdOff(a, off).level == off
    ensures CmdOff(a, off).cfg == a.cfg && CmdOff(a, off).nv == a.nv
  {
    LoggedKeeps(a.(onOff := false, status := OFF));
  }

  lemma ToggleKeeps(a: App, on: bool, off: bool)
    requires Core(a) && a.startUp == a.cfg.startUp
    ensures Core(CmdToggle(a, on, off)) && CmdToggle(a, on, off).startUp == a.startUp
    ensures Consistent(CmdToggle(a, on, off), on, off)
    ensures CmdToggle(a, on, off).status == if a.status == OFF then ON else OFF
    ensures CmdToggle(a, on, off).cfg == a.cfg && CmdToggle(a, on, off).nv == a.nv
  {
    var s := if a.status == OFF then ON else OFF;
    LoggedKeeps(a.(status := s, onOff := s != OFF));
  }

  // ----- attribute writes

  /** The start-up mode a list of records leaves behind. */
  function LastStartUp(recs: seq<Rec>, initial: byte): byte {
    if recs == [] then initial
    else match recs[|recs| - 1]
         case StartUpRec(v) => v
         case _ => LastStartUp(recs[..|recs| - 1], initial)
  }

  lemma {:induction false} StoredStartUp(a: App, cluster: Cluster, recs: seq<Rec>)
    ensures var s := Stored(a, cluster, recs);
            s == if cluster.OnOffCluster? then a.(startUp := LastStartUp(recs, a.startUp))
                 else a.(decoupledAttr := s.decoupledAttr)
  {
    if recs != [] { StoredStartUp(a, cluster, recs[..|recs| - 1]); }
  }

  lemma LoggedCore(a: App, v: byte)
    requires Core(a)
    ensures Core(Logged(a.(cfg := a.cfg.(startUp := v))))
  {
    LoggedKeeps(a.(cfg := a.cfg.(startUp := v)));
  }

  lemma StartUpKeeps(a: App, v: byte)
    requires Core(a)
    ensures var b := StartUpWritten(a, StartUpRec(v));
            && Core(b) && b == a.(mem := b.mem, slot := b.slot, cfg := b.cfg) && b.cfg.startUp == v
            && (a.cfg.startUp == v ==> b.cfg == a.cfg)
  {
    if a.cfg.startUp != v {
      if v > TO_ON { LoggedCore(a, v); } else { CoreWith(a, a.cfg.(startUp := v), a.decoupledAttr); }
    }
  }

  /** The start-up records: each change to a mode that needs the log is logged at once. */
  lemma {:induction false} StartUpsKeep(a: App, recs: seq<Rec>, off: bool)
    requires Core(a)
    ensures var b := AllWritten(a, OnOffCluster, recs, off);
            && Core(b) && b == a.(mem := b.mem, slot := b.slot, cfg := b.cfg)
            && b.cfg.startUp == LastStartUp(recs, a.cfg.startUp)
            && (!Changes(a, OnOffCluster, recs, off) ==> b.cfg == a.cfg)
  {
    if recs != [] {
      StartUpsKeep(a, recs[..|recs| - 1], off);
      match recs[|recs| - 1] {
        case StartUpRec(v) => StartUpKeeps(AllWritten(a, OnOffCluster, recs[..|recs| - 1], off), v);
        case _ =>
      }
    }
  }

  /** The off command does not look at the settings. */
  lemma OffWith(a: App, cfg: Settings, off: bool)
    requires Fits(a)
    ensures CmdOff(a.(cfg := cfg), off) == CmdOff(a, off).(cfg := cfg)
  {
    LoggedWith(a.(onOff := false, status := OFF), cfg);
  }

  lemma LoggedWith(a: App, cfg: Settings)
    requires Fits(a)
    ensures LoggedIfKept(a.(cfg := cfg)) == LoggedIfKept(a).(cfg := cfg)
  {
  }

  lemma SwitchTypeKeeps(a: App, v: byte, off: bool)
    requires Core(a) && a.startUp == a.cfg.startUp && v < TYPE_MAXNUM && a.cfg.switchType != v
    ensures var b := ConfigWritten(a, SwitchTypeRec(v), off);
            Core(b) && b.startUp == b.cfg.startUp && b.nv == a.nv
  {
    var cfg := a.cfg.(switchType := v);
    if v >= MULTIFUNCTION {
      OffKeeps(a, off);
      OffWith(a, cfg, off);
      CoreWith(CmdOff(a, off), cfg.(decoupled := DECOUPLED), DECOUPLED);
    } else {
      CoreWith(a, cfg, a.decoupledAttr);
    }
  }

  lemma DecoupledKeeps(a: App, v: byte, off: bool)
    requires Core(a) && a.startUp == a.cfg.startUp && a.cfg.decoupled != v
    ensures var b := ConfigWritten(a, DecoupledRec(v), off);
            Core(b) && b.startUp == b.cfg.startUp && b.nv == a.nv
  {
    OffKeeps(a, off);
    var b := CmdOff(a, off);
    if v == COUPLED && a.cfg.switchType >= MULTIFUNCTION {
      CoreWith(b, b.cfg.(decoupled := DECOUPLED), DECOUPLED);
    } else {
      CoreWith(b, b.cfg.(decoupled := v), b.decoupledAttr);
    }
  }

  lemma ConfigKeeps(a: App, rec: Rec, off: bool)
    requires Core(a) && a.startUp == a.cfg.startUp
    ensures var b := ConfigWritten(a, rec, off);
            && Core(b) && b.startUp == b.cfg.startUp && b.nv == a.nv
            && (!RelayApp.Touches(a, SwitchConfigCluster, rec) ==> b.cfg == a.cfg)
  {
    match rec {
      case SwitchTypeRec(v) => if v < TYPE_MAXNUM && a.cfg.switchType != v { SwitchTypeKeeps(a, v, off); }
      case DecoupledRec(v) => if a.cfg.decoupled != v { DecoupledKeeps(a, v, off); }
      case ActionRec(v) => CoreWith(a, a.cfg.(action := v), a.decoupledAttr);
      case _ =>
    }
  }

  lemma {:induction false} ConfigsKeep(a: App, recs: seq<Rec>, off: bool)
    requires Core(a) && a.startUp == a.cfg.startUp
    ensures var b := AllWritten(a, SwitchConfigCluster, recs, off);
            && Core(b) && b.startUp == b.cfg.startUp && b.nv == a.nv
            && (!Changes(a, SwitchConfigCluster, recs, off) ==> b.cfg == a.cfg)
  {
    if recs != [] {
      ConfigsKeep(a, recs[..|recs| - 1], off);
      ConfigKeeps(AllWritten(a, SwitchConfigCluster, recs[..|recs| - 1], off), recs[|recs| - 1], off);
    }
  }

  lemma WriteKeeps(a: App, cluster: Cluster, recs: seq<Rec>, off: bool)
    requires Persistent(a)
    ensures Persistent(WriteReq(a, cluster, recs, off))
    ensures cluster.OnOffCluster? ==>
              var b := WriteReq(a, cluster, recs, off);
              b.status == a.status && b.onOff == a.onOff && b.level == a.level
  {
    StoredStartUp(a, cluster, recs);
    var s := Stored(a, cluster, recs);
    if cluster.OnOffCluster? { StartUpsWritten(a, s, recs, off); } else { ConfigsWritten(a, s, recs, off); }
  }

  /** What a write request leaves of the stored state s. */
  function Finished(s: App, cluster: Cluster, recs: seq<Rec>, off: bool): (r: App)
    requires Fits(s)
  {
    var b := AllWritten(s, cluster, recs, off);
    if Changes(s, cluster, recs, off) then b.(nv := Some(b.cfg)) else b
  }

  lemma StartUpsWritten(a: App, s: App, recs: seq<Rec>, off: bool)
    requires Persistent(a) && Fits(s) && s == a.(startUp := LastStartUp(recs, a.startUp))
    ensures var b := Finished(s, OnOffCluster, recs, off);
      Persistent(b) && b.status == a.status && b.onOff == a.onOff && b.level == a.level
  {
    StartUpsKeep(s, recs, off);
  }

  lemma ConfigsWritten(a: App, s: App, recs: seq<Rec>, off: bool)
    requires Persistent(a) && Fits(s) && s == a.(decoupledAttr := s.decoupledAttr)
    ensures Persistent(Finished(s, SwitchConfigCluster, recs, off))
  {
    ConfigsKeep(s, recs, off);
  }

  // ----- power-on

  lemma BootKeeps(a: App, off: bool)
    requires Persistent(a)
    ensures Persistent(Boot(a, off)) && Boot(a, off).cfg == a.cfg
    ensures Boot(a, off).status == LoggedStatus(a)
  {
    Log.WellFormedNewest(a.mem, a.slot, LoggedStatus(a));
  }

  /** A device that finds no record in its log and no saved settings starts in agreement: OFF, with
      the default settings, and an OFF record in the log. */
  lemma FirstPowerOn(a: App, on: bool, off: bool)
    requires Fits(a) && |a.mem| % SECTOR == 0 && Newest(a.mem) == None && a.nv == None
    ensures Persistent(Boot(a, off)) && Boot(a, off).status == OFF && Boot(a, off).cfg == DEFAULTS
    ensures Consistent(Boot(a, off), on, off)
  {
    Log.DefaultStep(a.mem);
    assert Record(OFF)[1] == OFF;
  }

  /** A power-on leaves the pin off. Attribute, status and pin agree right after it exactly when
      the logged status is OFF and the stack does not switch the attribute on by itself; with any
      other combination they disagree until a command or the switch's first poll. */
  lemma BootConsistent(a: App, on: bool, off: bool)
    requires Persistent(a) && on != off
    ensures Consistent(Boot(a, off), on, off) <==>
            LoggedStatus(a) == OFF && a.cfg.startUp != TO_ON && a.cfg.startUp != TOGGLE
  {
    BootKeeps(a, off);
  }

  /** The relay after a power-on and the start-up rule. */
  function PowerOnStatus(mode: byte, logged: byte): byte {
    if mode == TO_ON then ON
    else if mode == TOGGLE then (if logged == OFF then ON else OFF)
    else if mode == PREVIOUS then logged
    else OFF
  }

  lemma FirstStartKeeps(a: App, on: bool, off: bool)
    requires Persistent(a)
    ensures Persistent(FirstStart(a, on, off)) && Consistent(FirstStart(a, on, off), on, off)
    ensures FirstStart(a, on, off).cfg == a.cfg
    ensures FirstStart(a, on, off).status == PowerOnStatus(a.cfg.startUp, a.status)
  {
    if a.cfg.startUp == TO_ON || (a.cfg.startUp == PREVIOUS && a.status != OFF) {
      OnKeeps(a, on);
    } else if a.cfg.startUp == TOGGLE {
      ToggleKeeps(a, on, off);
    } else {
      OffKeeps(a, off);
    }
  }

  // ----- runs

  datatype Event = On | Off | Toggle | Write(cluster: Cluster, recs: seq<Rec>) | PowerOn | FirstPoll

  function Handle(a: App, e: Event, on: bool, off: bool): (r: App)
    requires Fits(a)
    ensures Fits(r)
  {
    match e
    case On => CmdOn(a, on)
    case Off => CmdOff(a, off)
    case Toggle => CmdToggle(a, on, off)
    case Write(c, recs) => WriteReq(a, c, recs, off)
    case PowerOn => Boot(a, off)
    case FirstPoll => FirstPolled(a, on, off)
  }

  function Run(a: App, events: seq<Event>, on: bool, off: bool): (r: App)
    requires Fits(a)
    ensures Fits(r)
  {
    if events == [] then a else Handle(Run(a, events[..|events| - 1], on, off), events[|events| - 1], on, off)
  }

  lemma HandleKeeps(a: App, e: Event, on: bool, off: bool)
    requires Persistent(a)
    ensures Persistent(Handle(a, e, on, off))
    ensures e.On? || e.Off? || e.Toggle? || (e.FirstPoll? && a.cfg.switchType < MULTIFUNCTION) ==>
              Consistent(Handle(a, e, on, off), on, off)
  {
    match e {
      case On => OnKeeps(a, on);
      case Off => OffKeeps(a, off);
      case Toggle => ToggleKeeps(a, on, off);
      case Write(c, recs) => WriteKeeps(a, c, recs, off);
      case PowerOn => BootKeeps(a, off);
      case FirstPoll => if a.cfg.switchType < MULTIFUNCTION { FirstStartKeeps(a, on, off); }
    }
  }

  /** Over every run the log holds the live status whenever StartUpOnOff is above TO_ON, and after
      every command attribute, status and pin agree. */
  lemma {:induction false} RunKeeps(a: App, events: seq<Event>, on: bool, off: bool)
    requires Persistent(a)
    ensures Persistent(Run(a, events, on, off))
    ensures events != [] ==>
              var e := events[|events| - 1];
              e.On? || e.Off? || e.Toggle? ==> Consistent(Run(a, events, on, off), on, off)
  {
    if events != [] {
      RunKeeps(a, events[..|events| - 1], on, off);
      HandleKeeps(Run(a, events[..|events| - 1], on, off), events[|events| - 1], on, off);
    }
  }

  /** What a power-on and the first poll make of the state r. A toggle or momentary switch brings
      attribute, status and pin back in step: with StartUpOnOff PREVIOUS nothing is lost, with TOGGLE
      the live status comes back inverted, and the fixed modes need no memory. With the other two
      switch types nothing moves the pin: it stays off whatever the mode says. */
  ghost predicate Cycled(r: App, r': App, on: bool, off: bool)
    requires Fits(r)
  {
    && Persistent(r') && r'.cfg == r.cfg
    && if r.cfg.switchType < MULTIFUNCTION then
         r'.status == PowerOnStatus(r.cfg.startUp, r.status) && Consistent(r', on, off)
       else
         && r'.status == LoggedStatus(r) && r'.level == off
         && r'.onOff == StartUpAttribute(LoggedStatus(r) != OFF, r.cfg.startUp)
  }

  /** What a power cycle after any run costs. */
  lemma PowerCycle(a: App, events: seq<Event>, on: bool, off: bool)
    requires Persistent(a)
    ensures Cycled(Run(a, events, on, off), Run(a, events + [PowerOn, FirstPoll], on, off), on, off)
  {
    RunKeeps(a, events, on, off);
    var r := Run(a, events, on, off);
    HandlePowered(r, on, off);
    RunNextTwo(a, events, PowerOn, FirstPoll, on, off);
    CycleKeeps(Run(a, events, on, off), on, off);
  }

  /** After a power cycle attribute, status and pin agree exactly when the switch type applies the
      start-up rule, or when there is nothing to do: OFF was logged and the mode does not switch
      the attribute on by itself. */
  lemma CycleConsistent(a: App, events: seq<Event>, on: bool, off: bool)
    requires Persistent(a) && on != off
    ensures var r := Run(a, events, on, off);
            Consistent(Run(a, events + [PowerOn, FirstPoll], on, off), on, off) <==>
            || r.cfg.switchType < MULTIFUNCTION
            || (LoggedStatus(r) == OFF && r.cfg.startUp != TO_ON && r.cfg.startUp != TOGGLE)
  {
    RunKeeps(a, events, on, off);
    PowerCycle(a, events, on, off);
  }

  lemma HandlePowered(r: App, on: bool, off: bool)
    requires Fits(r)
    ensures Handle(Handle(r, PowerOn, on, off), FirstPoll, on, off) == FirstPolled(Boot(r, off), on, off)
  {
  }

  lemma RunNextTwo(a: App, events: seq<Event>, e: Event, e2: Event, on: bool, off: bool)
    requires Fits(a)
    ensures Run(a, events + [e, e2], on, off) == Handle(Handle(Run(a, events, on, off), e, on, off), e2, on, off)
  {
    assert events + [e] + [e2] == events + [e, e2];
    RunNext(a, events, e, on, off);
    RunNext(a, events + [e], e2, on, off);
  }

  lemma RunNext(a: App, events: seq<Event>, e: Event, on: bool, off: bool)
    requires Fits(a)
    ensures Run(a, events + [e], on, off) == Handle(Run(a, events, on, off), e, on, off)
  {
    assert (events + [e])[..|events|] == events;
  }

  lemma CycleKeeps(r: App, on: bool, off: bool)
    requires Persistent(r)
    ensures Cycled(r, FirstPolled(Boot(r, off), on, off), on, off)
  {
    BootKeeps(r, off);
    if r.cfg.switchType < MULTIFUNCTION { FirstStartKeeps(Boot(r, off), on, off); }
  }
}
