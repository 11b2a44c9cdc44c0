/** The relay application as the firmware runs it: globals updated in place, each handler tied to
    its function in RelayApp. */
module RelayDevice {
  import opened NorFlash
  import opened OnOffLog
  import opened RelayApp

  class Relay {
    const log: StatusLog
    const relayOn: bool
    const relayOff: bool
    var onOff: bool
    var startUp: byte
    var decoupledAttr: byte
    var cfg: Settings
    var nv: Option<Settings>
    var level: bool

    ghost predicate Ready()
      reads this, log, log.flash
    {
      log.Valid()
    }

    /** The log's live record has been loaded. */
    ghost predicate Valid()
      reads this, log, log.flash
    {
      Ready() && log.id == ID
    }

    ghost function State(): (a: App)
      requires Ready()
      reads this, log, log.flash
      ensures Fits(a)
    {
      NextAddress(log.addr, log.Index());
      App(log.flash.mem, log.Index(), log.status, onOff, startUp, decoupledAttr, cfg, nv, level)
    }

    constructor (log: StatusLog, relayOn: bool, relayOff: bool, nv: Option<Settings>)
      requires log.Valid()
      ensures Ready() && this.log == log && this.nv == nv
    {
      this.log, this.relayOn, this.relayOff, this.nv := log, relayOn, relayOff, nv;
      onOff, startUp, decoupledAttr, level := false, TO_OFF, COUPLED, false;
      cfg := Settings(0, 0, 0, 0);
    }

    /** set_relay_status on an enabled device. */
    method SetRelay(pin: bool)
      modifies this`level
      ensures level == pin
    {
      level := pin;
    }

    method SaveStatus()
      requires Valid()
      modifies this, log, log.flash
      ensures Valid() && State() == Logged(old(State()))
      ensures cfg == old(cfg)
    {
      NextAddress(log.addr, log.Index());
      log.Save();
    }

    method CmdOnOffOn()
      requires Valid()
      modifies this, log, log.flash
      ensures Valid() && State() == CmdOn(old(State()), relayOn)
    {
      if !onOff || log.status != ON {
        log.status := ON;
        onOff := true;
        if startUp > TO_ON { SaveStatus(); }
      }
      SetRelay(relayOn);
    }

    method CmdOnOffOff()
      requires Ready() && (log.id == ID || (!onOff && log.status == OFF))
      modifies this, log, log.flash
      ensures Ready() && log.id == old(log.id) && State() == CmdOff(old(State()), relayOff)
    {
      if onOff || log.status != OFF {
        log.status := OFF;
        onOff := false;
        if startUp > TO_ON { SaveStatus(); }
      }
      SetRelay(relayOff);
    }

    method CmdOnOffToggle()
      requires Valid()
      modifies this, log, log.flash
      ensures Valid() && State() == CmdToggle(old(State()), relayOn, relayOff)
    {
      log.status := if log.status == 0 then 1 else 0;
      onOff := log.status != 0;
      if startUp > TO_ON { SaveStatus(); }
      var pin := relayOff;
      if onOff { pin := relayOn; }
      SetRelay(pin);
    }

    /** The stack's part of a write request. */
    method StoreAttributes(cluster: Cluster, recs: seq<Rec>)
      requires Valid()
      modifies this
      ensures Valid() && State() == Stored(old(State()), cluster, recs)
    {
      assert recs[..0] == [];
      for i := 0 to |recs|
        invariant Valid() && State() == Stored(old(State()), cluster, recs[..i])
      {
        assert recs[..i + 1][..i] == recs[..i];
        match recs[i] {
          case StartUpRec(v) => if cluster.OnOffCluster? { startUp := v; }
          case DecoupledRec(v) => if !cluster.OnOffCluster? { decoupledAttr := v; }
          case _ =>
        }
      }
      assert recs[..|recs|] == recs;
    }

    /** One pass of the handler's loop for the On/Off cluster; true when it sets the save flag. */
    method HandleStartUp(rec: Rec) returns (save: bool)
      requires Valid()
      modifies this, log, log.flash
      ensures Valid() && State() == StartUpWritten(old(State()), rec)
      ensures save == RelayApp.Touches(old(State()), OnOffCluster, rec)
    {
      save := false;
      if rec.StartUpRec? {
        var startup := rec.value;
        if cfg.startUp != startup {
          cfg := cfg.(startUp := startup);
          if startup > TO_ON { SaveStatus(); }
          save := true;
        }
      }
    }

    /** One pass of the handler's loop for the switch configuration cluster. */
    method HandleConfig(rec: Rec) returns (save: bool)
      requires Valid()
      modifies this, log, log.flash
      ensures Valid() && State() == ConfigWritten(old(State()), rec, relayOff)
      ensures save == RelayApp.Touches(old(State()), SwitchConfigCluster, rec)
    {
      save := false;
      match rec {
        case SwitchTypeRec(v) => save := HandleSwitchType(v);
        case ActionRec(v) =>
          if cfg.action != v {
            cfg := cfg.(action := v);
            save := true;
          }
        case DecoupledRec(v) => save := HandleDecoupled(v);
        case _ =>
      }
    }

    method HandleSwitchType(v: byte) returns (save: bool)
      requires Valid()
      modifies this, log, log.flash
      ensures Valid() && State() == ConfigWritten(old(State()), SwitchTypeRec(v), relayOff)
      ensures save <==> v < TYPE_MAXNUM && old(cfg).switchType != v
    {
      save := v < TYPE_MAXNUM && cfg.switchType != v;
      if save {
        cfg := cfg.(switchType := v);
        if v >= MULTIFUNCTION { Decouple(); }
      }
    }

    /** A type without a relay: it is switched off and decoupled. */
    method Decouple()
      requires Valid()
      modifies this, log, log.flash
      ensures Valid()
      ensures var c := CmdOff(old(State()), relayOff);
        State() == c.(cfg := c.cfg.(decoupled := DECOUPLED), decoupledAttr := DECOUPLED)
    {
      CmdOnOffOff();
      cfg := cfg.(decoupled := DECOUPLED);
      decoupledAttr := DECOUPLED;
    }

    method HandleDecoupled(v: byte) returns (save: bool)
      requires Valid()
      modifies this, log, log.flash
      ensures Valid() && State() == ConfigWritten(old(State()), DecoupledRec(v), relayOff)
      ensures save <==> old(cfg).decoupled != v
    {
      save := cfg.decoupled != v;
      if save {
        var decoupled := v;
        CmdOnOffOff();
        if decoupled == COUPLED && cfg.switchType >= MULTIFUNCTION {
          decoupled := DECOUPLED;
          decoupledAttr := decoupled;
        }
        cfg := cfg.(decoupled := decoupled);
      }
    }

    /** app_zclWriteReqCmd, after the stack has stored the attributes. */
    method WriteRequest(cluster: Cluster, recs: seq<Rec>)
      requires Valid()
      modifies this, log, log.flash
      ensures Valid() && State() == WriteReq(old(State()), cluster, recs, relayOff)
    {
      StoreAttributes(cluster, recs);
      ghost var s := State();
      var save := false;
      assert recs[..0] == [];
      for i := 0 to |recs|
        invariant Valid() && State() == AllWritten(s, cluster, recs[..i], relayOff)
        invariant save == Changes(s, cluster, recs[..i], relayOff)
      {
        assert recs[..i + 1][..i] == recs[..i];
        var changed;
        if cluster.OnOffCluster? { changed := HandleStartUp(recs[i]); } else { changed := HandleConfig(recs[i]); }
        save := save || changed;
      }
      assert recs[..|recs|] == recs;
      if save { nv := Some(cfg); }
    }

    /** switch_first_start, and the same switch in check_first_start. */
    method SwitchFirstStart()
      requires Valid()
      modifies this, log, log.flash
      ensures Valid() && State() == FirstStart(old(State()), relayOn, relayOff)
    {
      if cfg.startUp == PREVIOUS {
        if log.status != 0 { CmdOnOffOn(); } else { CmdOnOffOff(); }
      } else if cfg.startUp == TOGGLE {
        CmdOnOffToggle();
      } else if cfg.startUp == TO_ON {
        CmdOnOffOn();
      } else {
        CmdOnOffOff();
      }
    }

    /** dev_relay_init. */
    method DevRelayInit()
      requires Ready() && (log.id == ID || (!onOff && log.status == OFF && cfg.switchType != MULTIFUNCTION))
      modifies this, log, log.flash
      ensures Ready() && log.id == old(log.id)
      ensures var b := CmdOff(old(State()), relayOff);
              State() == if b.cfg.switchType == MULTIFUNCTION then FirstStart(b, relayOn, relayOff) else b
    {
      CmdOnOffOff();
      if cfg.switchType == MULTIFUNCTION { SwitchFirstStart(); }
    }

    /** status_onoff_restore, called by relay_settings_restore. */
    method RestoreLog()
      requires Ready()
      modifies this, log, log.flash
      ensures Valid() && State() == LogRestored(old(State())) && nv == old(nv)
    {
      NextAddress(log.addr, log.Index());
      log.Restore();
      NextAddress(log.addr, log.Index());
    }

    /** relay_settings_restore. */
    method SettingsRestore()
      requires Ready()
      modifies this, log, log.flash
      ensures Valid()
      ensures State() == Restored(old(State()))
    {
      RestoreLog();
      cfg := match nv case Some(s) => s case None => DEFAULTS;
      onOff := log.status != 0;
      startUp := cfg.startUp;
      decoupledAttr := cfg.decoupled;
    }

    /** The globals as the loader leaves them. */
    method ResetGlobals()
      requires Ready()
      modifies this, log
      ensures Ready() && State() == Reset(old(State()))
    {
      log.addr, log.id, log.status, log.crc := BEGIN, 0, OFF, 0;
      onOff, startUp, decoupledAttr := false, TO_OFF, COUPLED;
      cfg := Settings(0, 0, 0, 0);
    }

    /** A power-on, in the order of app_main.c: the globals have their initial values, device_init
        runs dev_relay_init, then the settings are restored and the stack registers the cluster. */
    method PowerOn()
      requires Ready()
      modifies this, log, log.flash
      ensures Valid() && State() == Boot(old(State()), relayOff)
    {
      ResetGlobals();
      BootIs(old(State()), relayOff);
      DevRelayInit();
      SettingsRestore();
      onOff := StartUpAttribute(onOff, startUp);
    }
  }

  function Reset(a: App): (r: App)
    requires Fits(a)
    ensures Fits(r)
  {
    a.(slot := 0, status := OFF, onOff := false, startUp := TO_OFF, decoupledAttr := COUPLED,
       cfg := Settings(0, 0, 0, 0))
  }

  /** The power-on sequence adds up to Boot: dev_relay_init still sees the initial globals. */
  lemma BootIs(a: App, off: bool)
    requires Fits(a)
    ensures var b := CmdOff(Reset(a), off); var r := Restored(b);
      b.cfg.switchType != MULTIFUNCTION && Boot(a, off) == r.(onOff := StartUpAttribute(r.onOff, r.startUp))
  {
  }

  /** relay_settings_restore as a function. */
  function Restored(a: App): (r: App)
    requires Fits(a)
    ensures Fits(r)
  {
    var b := LogRestored(a);
    var cfg := match a.nv case Some(s) => s case None => DEFAULTS;
    b.(cfg := cfg, startUp := cfg.startUp, decoupledAttr := cfg.decoupled, onOff := b.status != OFF)
  }

  function LogRestored(a: App): (r: App)
    requires Fits(a)
    ensures Fits(r)
  {
    match Newest(a.mem)
    case None => a.(mem := Defaulted(a.mem), slot := 0, status := OFF)
    case Some(k) => a.(slot := k, status := Slot(a.mem, k)[1])
  }
}
