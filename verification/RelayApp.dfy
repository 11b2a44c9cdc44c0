/** The relay application: on/off commands (src/app_onoff.c:10-80), attribute writes
    (src/zcl_appCb.c:178-307), and what a restart restores (src/app_relay.c, src/app_switch.c:55-76),
    over the on/off log. */
module RelayApp {
  import opened NorFlash
  import opened OnOffLog
  import Log = OnOffLogProofs

  // ZCL_START_UP_ONOFF_SET_ONOFF_*
  const TO_OFF: byte := 0x00
  const TO_ON: byte := 0x01
  const TOGGLE: byte := 0x02
  const PREVIOUS: byte := 0xFF

  // switch types and decoupling
  const MOMENTARY: byte := 1
  const MULTIFUNCTION: byte := 2
  const TYPE_MAXNUM: byte := 4
  const ACTION_OFF_ON: byte := 1
  const COUPLED: byte := 0
  const DECOUPLED: byte := 1

  /** The part of relay_settings_t that the commands depend on. */
  datatype Settings = Settings(startUp: byte, switchType: byte, action: byte, decoupled: byte)

  const DEFAULTS := Settings(TO_OFF, MOMENTARY, ACTION_OFF_ON, COUPLED)

  /** Everything the handlers read and write: the log and live status, the ZCL attributes, the
      settings and their copy in non-volatile memory, and the level driven on the relay pin. */
  datatype App = App(mem: Mem, slot: nat, status: byte,
                     onOff: bool, startUp: byte, decoupledAttr: byte,
                     cfg: Settings, nv: Option<Settings>, level: bool)

  predicate Fits(a: App) {
    LogFits(a.mem) && a.slot < SLOTS
  }

  // ----- commands; on and off are the pin levels of the device

  function Logged(a: App): (r: App)
    requires Fits(a)
    ensures Fits(r)
  {
    a.(mem := Saved(a.mem, a.slot, a.status), slot := Next(a.slot))
  }

  function LoggedIfKept(a: App): (r: App)
    requires Fits(a)
    ensures Fits(r)
  {
    if a.startUp > TO_ON then Logged(a) else a
  }

  function CmdOn(a: App, on: bool): (r: App)
    requires Fits(a)
    ensures Fits(r)
  {
    var b := if !a.onOff || a.status != ON then LoggedIfKept(a.(onOff := true, status := ON)) else a;
    b.(level := on)
  }

  function CmdOff(a: App, off: bool): (r: App)
    requires Fits(a)
    ensures Fits(r)
  {
    var b := if a.onOff || a.status != OFF then LoggedIfKept(a.(onOff := false, status := OFF)) else a;
    b.(level := off)
  }

  function CmdToggle(a: App, on: bool, off: bool): (r: App)
    requires Fits(a)
    ensures Fits(r)
  {
    var s := if a.status == OFF then ON else OFF;
    var b := LoggedIfKept(a.(status := s, onOff := s != OFF));
    b.(level := if b.onOff then on else off)
  }

  // ----- attribute writes

  datatype Rec = StartUpRec(value: byte) | SwitchTypeRec(value: byte) | ActionRec(value: byte)
               | DecoupledRec(value: byte) | OtherRec

  datatype Cluster = OnOffCluster | SwitchConfigCluster

  /** What the stack does with the records before the handler sees them: it stores them. */
  function Stored(a: App, cluster: Cluster, recs: seq<Rec>): (r: App)
    ensures r.mem == a.mem && r.slot == a.slot
  {
    if recs == [] then a
    else
      var b := Stored(a, cluster, recs[..|recs| - 1]);
      match recs[|recs| - 1]
      case StartUpRec(v) => if cluster.OnOffCluster? then b.(startUp := v) else b
      case DecoupledRec(v) => if cluster.OnOffCluster? then b else b.(decoupledAttr := v)
      case _ => b
  }

  /** One record of a write to the On/Off cluster. */
  function StartUpWritten(a: App, rec: Rec): (r: App)
    requires Fits(a)
    ensures Fits(r)
  {
    match rec
    case StartUpRec(v) =>
      if a.cfg.startUp != v then
        var b := a.(cfg := a.cfg.(startUp := v));
        if v > TO_ON then Logged(b) else b
      else a
    case _ => a
  }

  /** One record of a write to the On/Off Switch Configuration cluster. */
  function ConfigWritten(a: App, rec: Rec, off: bool): (r: App)
    requires Fits(a)
    ensures Fits(r)
  {
    match rec
    case SwitchTypeRec(v) =>
      if v < TYPE_MAXNUM && a.cfg.switchType != v then
        var b := a.(cfg := a.cfg.(switchType := v));
        if v >= MULTIFUNCTION then
          var c := CmdOff(b, off);
          c.(cfg := c.cfg.(decoupled := DECOUPLED), decoupledAttr := DECOUPLED)
        else b
      else a
    case ActionRec(v) =>
      if a.cfg.action != v then a.(cfg := a.cfg.(action := v)) else a
    case DecoupledRec(v) =>
      if a.cfg.decoupled != v then
        var b := CmdOff(a, off);
        if v == COUPLED && a.cfg.switchType >= MULTIFUNCTION then
          b.(cfg := b.cfg.(decoupled := DECOUPLED), decoupledAttr := DECOUPLED)
        else b.(cfg := b.cfg.(decoupled := v))
      else a
    case _ => a
  }

  function Written(a: App, cluster: Cluster, rec: Rec, off: bool): (r: App)
    requires Fits(a)
    ensures Fits(r)
  {
    if cluster.OnOffCluster? then StartUpWritten(a, rec) else ConfigWritten(a, rec, off)
  }

  function AllWritten(a: App, cluster: Cluster, recs: seq<Rec>, off: bool): (r: App)
    requires Fits(a)
    ensures Fits(r)
  {
    if recs == [] then a
    else Written(AllWritten(a, cluster, recs[..|recs| - 1], off), cluster, recs[|recs| - 1], off)
  }

  /** The settings are saved if any record changed them. The handler's flag is set by a changed
      value only, so comparing the value before and after each record is what it records. */
  function Changes(a: App, cluster: Cluster, recs: seq<Rec>, off: bool): bool
    requires Fits(a)
  {
    recs != [] && (Changes(a, cluster, recs[..|recs| - 1], off)
                   || Touches(AllWritten(a, cluster, recs[..|recs| - 1], off), cluster, recs[|recs| - 1]))
  }

  /** Whether a record sets the handler's save flag. */
  predicate Touches(a: App, cluster: Cluster, rec: Rec) {
    match rec
    case StartUpRec(v) => cluster.OnOffCluster? && a.cfg.startUp != v
    case SwitchTypeRec(v) => cluster.SwitchConfigCluster? && v < TYPE_MAXNUM && a.cfg.switchType != v
    case ActionRec(v) => cluster.SwitchConfigCluster? && a.cfg.action != v
    case DecoupledRec(v) => cluster.SwitchConfigCluster? && a.cfg.decoupled != v
    case OtherRec => false
  }

  /** A whole write request. */
  function WriteReq(a: App, cluster: Cluster, recs: seq<Rec>, off: bool): (r: App)
    requires Fits(a)
    ensures Fits(r)
  {
    var s := Stored(a, cluster, recs);
    var b := AllWritten(s, cluster, recs, off);
    if Changes(s, cluster, recs, off) then b.(nv := Some(b.cfg)) else b
  }

  // ----- restart

  /** What the stack makes of the OnOff attribute when the cluster is registered
      (zcl_onOff_startUpOnOff). */
  function StartUpAttribute(onOff: bool, startUp: byte): bool {
    if startUp == TO_ON then true
    else if startUp == TOGGLE then !onOff
    else if startUp == PREVIOUS then onOff
    else false
  }

  /** A power-on: the pin is switched off first, then log and settings are restored into the
      status and the attributes, then the stack applies StartUpOnOff to the attribute. */
  function Boot(a: App, off: bool): (r: App)
    requires Fits(a)
    ensures Fits(r)
  {
    var b := match Newest(a.mem)
             case None => a.(mem := Defaulted(a.mem), slot := 0, status := OFF)
             case Some(k) => a.(slot := k, status := Slot(a.mem, k)[1]);
    var cfg := match a.nv case Some(s) => s case None => DEFAULTS;
    b.(level := off, cfg := cfg, startUp := cfg.startUp, decoupledAttr := cfg.decoupled,
       onOff := StartUpAttribute(b.status != OFF, cfg.startUp))
  }

  /** The start-up rule of the switch (switch_first_start). */
  function FirstStart(a: App, on: bool, off: bool): (r: App)
    requires Fits(a)
    ensures Fits(r)
  {
    if a.cfg.startUp == PREVIOUS then (if a.status != OFF then CmdOn(a, on) else CmdOff(a, off))
    else if a.cfg.startUp == TOGGLE then CmdToggle(a, on, off)
    else if a.cfg.startUp == TO_ON then CmdOn(a, on)
    else CmdOff(a, off)
  }

  /** The first poll of the switch after a power-on. Only the poll routine of a toggle or momentary
      switch applies the start-up rule (switch_handler). */
  function FirstPolled(a: App, on: bool, off: bool): (r: App)
    requires Fits(a)
    ensures Fits(r)
  {
    if a.cfg.switchType < MULTIFUNCTION then FirstStart(a, on, off) else a
  }
}
