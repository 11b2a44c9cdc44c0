/** What a write request leaves in the settings, from its records alone. */
module RelaySettings {
  import opened NorFlash
  import opened OnOffLog
  import opened RelayApp
  import opened RelayAppProofs
  import Log = OnOffLogProofs

  /** The last switch type written that is one of the four. */
  function LastType(recs: seq<Rec>, initial: byte): byte {
    if recs == [] then initial
    else match recs[|recs| - 1]
         case SwitchTypeRec(v) => if v < 4 then v else LastType(recs[..|recs| - 1], initial)
         case _ => LastType(recs[..|recs| - 1], initial)
  }

  /** The last switch action written. */
  function LastAction(recs: seq<Rec>, initial: byte): byte {
    if recs == [] then initial
    else match recs[|recs| - 1]
         case ActionRec(v) => v
         case _ => LastAction(recs[..|recs| - 1], initial)
  }

  /** The last record turns the switch into one without a relay: another of the last two types. */
  predicate Detaches(recs: seq<Rec>, t: byte)
    requires recs != []
  {
    var last := recs[|recs| - 1];
    last.SwitchTypeRec? && 2 <= last.value < 4 && last.value != LastType(recs[..|recs| - 1], t)
  }

  /** The last record asks to couple a switch without a relay. */
  predicate Refused(recs: seq<Rec>, t: byte)
    requires recs != []
  {
    recs[|recs| - 1] == DecoupledRec(0) && LastType(recs[..|recs| - 1], t) >= 2
  }

  /** The decoupling the records leave: the last value written, or 1 since a type without a relay was chosen;
      with such a type 0 is taken for 1. */
  function LastDecoupled(recs: seq<Rec>, t: byte, initial: byte): byte {
    if recs == [] then initial
    else if Detaches(recs, t) || Refused(recs, t) then DECOUPLED
    else match recs[|recs| - 1]
         case DecoupledRec(v) => v
         case _ => LastDecoupled(recs[..|recs| - 1], t, initial)
  }

  /** The decoupling attribute, which the stack has stored first: the last value written, or 1 if one of the
      records overrules it. */
  function LastAttr(recs: seq<Rec>, initial: byte): byte {
    if recs == [] then initial
    else match recs[|recs| - 1]
         case DecoupledRec(v) => v
         case _ => LastAttr(recs[..|recs| - 1], initial)
  }

  predicate Overrules(recs: seq<Rec>, t: byte) {
    recs != [] && (Overrules(recs[..|recs| - 1], t) || Detaches(recs, t) || Refused(recs, t))
  }

  /** Some record switches the relay off: a type without one, or another decoupling than before. */
  predicate TurnsOff(recs: seq<Rec>, t: byte, initial: byte) {
    recs != []
    && (TurnsOff(recs[..|recs| - 1], t, initial) || Detaches(recs, t)
        || (recs[|recs| - 1].DecoupledRec? && recs[|recs| - 1].value != LastDecoupled(recs[..|recs| - 1], t, initial)))
  }

  /** The relay is off, or as it was. */
  predicate OffOrKept(a: App, b: App, turned: bool, off: bool) {
    if turned then b.status == 0 && !b.onOff && b.level == off
    else b.status == a.status && b.onOff == a.onOff && b.level == a.level
  }

  /** Some record changes the value of a setting. */
  predicate Alters(recs: seq<Rec>, t: byte, action: byte, initial: byte) {
    recs != []
    && (Alters(recs[..|recs| - 1], t, action, initial)
        || match recs[|recs| - 1]
           case SwitchTypeRec(v) => v < 4 && v != LastType(recs[..|recs| - 1], t)
           case ActionRec(v) => v != LastAction(recs[..|recs| - 1], action)
           case DecoupledRec(v) => v != LastDecoupled(recs[..|recs| - 1], t, initial)
           case _ => false)
  }

  /** b differs from a in these settings, this attribute, and what the relay was commanded. */
  predicate Leaves(a: App, b: App, t: byte, action: byte, c: byte, attr: byte, turned: bool, off: bool) {
    && b.cfg == Settings(a.cfg.startUp, t, action, c) && b.decoupledAttr == attr
    && b.startUp == a.startUp && b.nv == a.nv && OffOrKept(a, b, turned, off)
  }

  /** The records one by one, on what the stack has stored. */
  lemma {:induction false} AllSettled(a: App, recs: seq<Rec>, off: bool)
    requires Fits(a) && (a.cfg.switchType >= 2 ==> a.cfg.decoupled != 0)
    ensures var t, c := a.cfg.switchType, a.cfg.decoupled;
      && Leaves(a, AllWritten(a, SwitchConfigCluster, recs, off), LastType(recs, t), LastAction(recs, a.cfg.action),
                LastDecoupled(recs, t, c), if Overrules(recs, t) then 1 else a.decoupledAttr, TurnsOff(recs, t, c), off)
      && (LastType(recs, t) >= 2 ==> LastDecoupled(recs, t, c) != 0)
  {
    if recs != [] {
      var before, last := recs[..|recs| - 1], recs[|recs| - 1];
      AllSettled(a, before, off);
      var b := AllWritten(a, SwitchConfigCluster, before, off);
      Unfolds(recs, before, last, a.cfg.switchType, a.cfg.action, a.cfg.decoupled);
      LastSettled(a, b, last, ConfigWritten(b, last, off), off, LastType(before, a.cfg.switchType),
                  LastDecoupled(before, a.cfg.switchType, a.cfg.decoupled), Overrules(before, a.cfg.switchType),
                  TurnsOff(before, a.cfg.switchType, a.cfg.decoupled));
    }
  }

  /** A further record, with what the ones before it have left. */
  lemma Unfolds(recs: seq<Rec>, before: seq<Rec>, last: Rec, t: byte, action: byte, c: byte)
    requires recs != [] && before == recs[..|recs| - 1] && last == recs[|recs| - 1]
    ensures var t1, c1 := LastType(before, t), LastDecoupled(before, t, c);
      var detaches := last.SwitchTypeRec? && 2 <= last.value < 4 && last.value != t1;
      var refused := last.DecoupledRec? && last.value == 0 && t1 >= 2;
      && LastType(recs, t) == (if last.SwitchTypeRec? && last.value < 4 then last.value else t1)
      && LastAction(recs, action) == (if last.ActionRec? then last.value else LastAction(before, action))
      && LastDecoupled(recs, t, c) == (if detaches || refused then 1 else if last.DecoupledRec? then last.value else c1)
      && Overrules(recs, t) == (Overrules(before, t) || detaches || refused)
      && TurnsOff(recs, t, c) == (TurnsOff(before, t, c) || detaches || (last.DecoupledRec? && last.value != c1))
  {
  }

  lemma LastSettled(a: App, b: App, last: Rec, r: App, off: bool, t1: byte, c1: byte, o1: bool, turned: bool)
    requires Fits(b) && r == ConfigWritten(b, last, off) && (t1 >= 2 ==> c1 != 0)
    requires Leaves(a, b, t1, b.cfg.action, c1, if o1 then 1 else a.decoupledAttr, turned, off)
    ensures var detaches := last.SwitchTypeRec? && 2 <= last.value < 4 && last.value != t1;
      var refused := last.DecoupledRec? && last.value == 0 && t1 >= 2;
      Leaves(a, r, if last.SwitchTypeRec? && last.value < 4 then last.value else t1,
             if last.ActionRec? then last.value else b.cfg.action,
             if detaches || refused then 1 else if last.DecoupledRec? then last.value else c1,
             if o1 || detaches || refused then 1 else a.decoupledAttr,
             turned || detaches || (last.DecoupledRec? && last.value != c1), off)
  {
    OneSettled(b, last, r, off, t1, c1);
    SettledOn(a, b, last, r, off, t1, c1, o1, turned);
  }

  lemma SettledOn(a: App, b: App, last: Rec, r: App, off: bool, t1: byte, c1: byte, o1: bool, turned: bool)
    requires Leaves(a, b, t1, b.cfg.action, c1, if o1 then 1 else a.decoupledAttr, turned, off)
    requires Settles(b, last, r, off, t1, c1)
    ensures var detaches := last.SwitchTypeRec? && 2 <= last.value < 4 && last.value != t1;
      var refused := last.DecoupledRec? && last.value == 0 && t1 >= 2;
      Leaves(a, r, if last.SwitchTypeRec? && last.value < 4 then last.value else t1,
             if last.ActionRec? then last.value else b.cfg.action,
             if detaches || refused then 1 else if last.DecoupledRec? then last.value else c1,
             if o1 || detaches || refused then 1 else a.decoupledAttr,
             turned || detaches || (last.DecoupledRec? && last.value != c1), off)
  {
    var detaches := last.SwitchTypeRec? && 2 <= last.value < 4 && last.value != t1;
    var refused := last.DecoupledRec? && last.value == 0 && t1 >= 2;
    var turns := detaches || (last.DecoupledRec? && last.value != c1);
    var t := if last.SwitchTypeRec? && last.value < 4 then last.value else t1;
    var action := if last.ActionRec? then last.value else b.cfg.action;
    var c := if detaches || refused then 1 else if last.DecoupledRec? then last.value else c1;
    var attr := if detaches || refused then 1 else b.decoupledAttr;
    assert attr == if o1 || detaches || refused then 1 else a.decoupledAttr;
    Chained(a, b, r, t, action, c, attr, turned, turns, off);
  }

  /** What one record leaves, written with this type and decoupling in force. */
  predicate Settles(a: App, rec: Rec, r: App, off: bool, t: byte, c: byte) {
    var detaches := rec.SwitchTypeRec? && 2 <= rec.value < 4 && rec.value != t;
    var refused := rec.DecoupledRec? && rec.value == 0 && t >= 2;
    Leaves(a, r, if rec.SwitchTypeRec? && rec.value < 4 then rec.value else t,
           if rec.ActionRec? then rec.value else a.cfg.action,
           if detaches || refused then 1 else if rec.DecoupledRec? then rec.value else c,
           if detaches || refused then 1 else a.decoupledAttr,
           detaches || (rec.DecoupledRec? && rec.value != c), off)
  }

  /** One record. */
  lemma OneSettled(a: App, rec: Rec, r: App, off: bool, t: byte, c: byte)
    requires Fits(a) && r == ConfigWritten(a, rec, off) && a.cfg.switchType == t && a.cfg.decoupled == c
    requires t >= 2 ==> c != 0
    ensures Settles(a, rec, r, off, t, c)
  {
    match rec {
      case SwitchTypeRec(v) => TypeSettled(a, v, r, off);
      case DecoupledRec(v) => DecoupledSettled(a, v, r, off);
      case ActionRec(v) => assert r == a.(cfg := a.cfg.(action := v));
      case _ => assert r == a;
    }
  }

  lemma Chained(a: App, b: App, r: App, t: byte, action: byte, c: byte, attr: byte, turned: bool, turns: bool,
                off: bool)
    requires Leaves(a, b, b.cfg.switchType, b.cfg.action, b.cfg.decoupled, b.decoupledAttr, turned, off)
    requires Leaves(b, r, t, action, c, attr, turns, off)
    ensures Leaves(a, r, t, action, c, attr, turned || turns, off)
  {
  }

  lemma OffIs(a: App, off: bool)
    requires Fits(a)
    ensures var b := CmdOff(a, off);
      && b.cfg == a.cfg && b.decoupledAttr == a.decoupledAttr && b.startUp == a.startUp && b.nv == a.nv
      && OffOrKept(a, b, true, off)
  {
    LogLeaves(a.(onOff := false, status := OFF));
  }

  lemma LogLeaves(a: App)
    requires Fits(a)
    ensures var b := LoggedIfKept(a); b == a.(mem := b.mem, slot := b.slot)
  {
  }

  lemma TypeSettled(a: App, v: byte, r: App, off: bool)
    requires Fits(a) && r == ConfigWritten(a, SwitchTypeRec(v), off)
    ensures var detaches := 2 <= v < 4 && v != a.cfg.switchType;
      Leaves(a, r, if v < 4 then v else a.cfg.switchType, a.cfg.action, if detaches then 1 else a.cfg.decoupled,
             if detaches then 1 else a.decoupledAttr, detaches, off)
  {
    if v < 4 && v != a.cfg.switchType { OffIs(a.(cfg := a.cfg.(switchType := v)), off); }
  }

  lemma DecoupledSettled(a: App, v: byte, r: App, off: bool)
    requires Fits(a) && (a.cfg.switchType >= 2 ==> a.cfg.decoupled != 0) && r == ConfigWritten(a, DecoupledRec(v), off)
    ensures var refused := v == 0 && a.cfg.switchType >= 2;
      Leaves(a, r, a.cfg.switchType, a.cfg.action, if refused then 1 else v,
             if refused then 1 else a.decoupledAttr, v != a.cfg.decoupled, off)
  {
    OffIs(a, off);
  }

  lemma {:induction false} StoredAttr(a: App, recs: seq<Rec>)
    ensures Stored(a, SwitchConfigCluster, recs) == a.(decoupledAttr := LastAttr(recs, a.decoupledAttr))
  {
    if recs != [] { StoredAttr(a, recs[..|recs| - 1]); }
  }

  /** A write of any switch configuration records. The type is the last valid one written, the action the last
      one written, the decoupling as above, and what is not mentioned keeps its value; the saved copy says the
      same; the attribute follows the stack; and the relay is switched off by what detaches it. */
  lemma ConfigSettles(a: App, recs: seq<Rec>, off: bool)
    requires Persistent(a)
    ensures var b, t, c := WriteReq(a, SwitchConfigCluster, recs, off), a.cfg.switchType, a.cfg.decoupled;
      && b.cfg == Settings(a.cfg.startUp, LastType(recs, t), LastAction(recs, a.cfg.action), LastDecoupled(recs, t, c))
      && b.nv == (if Alters(recs, t, a.cfg.action, c) then Some(b.cfg) else a.nv) && Loaded(b) == b.cfg
      && b.startUp == a.startUp
      && b.decoupledAttr == (if Overrules(recs, t) then 1 else LastAttr(recs, a.decoupledAttr))
      && OffOrKept(a, b, TurnsOff(recs, t, c), off)
  {
    StoredAttr(a, recs);
    WriteKeeps(a, SwitchConfigCluster, recs, off);
    ChangesAre(Stored(a, SwitchConfigCluster, recs), recs, off);
    var s, b := Stored(a, SwitchConfigCluster, recs), WriteReq(a, SwitchConfigCluster, recs, off);
    WriteLeaves(a, s, recs, AllWritten(s, SwitchConfigCluster, recs, off), b, off);
    AllSettled(s, recs, off);
    WriteSaves(a, s, recs, AllWritten(s, SwitchConfigCluster, recs, off), b, off);
  }

  /** The handler's save flag is set exactly by such a record. */
  lemma {:induction false} ChangesAre(a: App, recs: seq<Rec>, off: bool)
    requires Fits(a) && (a.cfg.switchType >= 2 ==> a.cfg.decoupled != 0)
    ensures Changes(a, SwitchConfigCluster, recs, off)
        <==> Alters(recs, a.cfg.switchType, a.cfg.action, a.cfg.decoupled)
  {
    if recs != [] {
      ChangesAre(a, recs[..|recs| - 1], off);
      AllSettled(a, recs[..|recs| - 1], off);
    }
  }

  lemma WriteLeaves(a: App, s: App, recs: seq<Rec>, w: App, b: App, off: bool)
    requires Fits(a) && (a.cfg.switchType >= 2 ==> a.cfg.decoupled != 0)
    requires s == a.(decoupledAttr := LastAttr(recs, a.decoupledAttr))
    requires w == AllWritten(s, SwitchConfigCluster, recs, off) && (b == w || b == w.(nv := b.nv))
    ensures var t, c := a.cfg.switchType, a.cfg.decoupled;
      Leaves(a, b.(nv := a.nv), LastType(recs, t), LastAction(recs, a.cfg.action), LastDecoupled(recs, t, c),
             if Overrules(recs, t) then 1 else LastAttr(recs, a.decoupledAttr), TurnsOff(recs, t, c), off)
  {
    AllSettled(s, recs, off);
    var t, c := a.cfg.switchType, a.cfg.decoupled;
    SameButSaved(a, s, w, b, LastType(recs, t),
                 LastAction(recs, a.cfg.action), LastDecoupled(recs, t, c),
                 if Overrules(recs, t) then 1 else s.decoupledAttr, TurnsOff(recs, t, c), off);
  }

  lemma WriteSaves(a: App, s: App, recs: seq<Rec>, w: App, b: App, off: bool)
    requires Fits(s) && w == AllWritten(s, SwitchConfigCluster, recs, off) && w.nv == s.nv == a.nv
    requires b == if Changes(s, SwitchConfigCluster, recs, off) then w.(nv := Some(w.cfg)) else w
    ensures b.nv == if Changes(s, SwitchConfigCluster, recs, off) then Some(b.cfg) else a.nv
  {
  }

  lemma SameButSaved(a: App, s: App, w: App, b: App, t: byte, action: byte, c: byte, attr: byte, turned: bool,
                     off: bool)
    requires s == a.(decoupledAttr := s.decoupledAttr) && (b == w || b == w.(nv := b.nv))
    requires Leaves(s, w, t, action, c, attr, turned, off)
    ensures Leaves(a, b.(nv := a.nv), t, action, c, attr, turned, off)
  {
  }

  /** A write of start-up records: the last mode written, in the settings, their saved copy and the attribute. */
  lemma StartUpSettles(a: App, recs: seq<Rec>, off: bool)
    requires Persistent(a)
    ensures var b := WriteReq(a, OnOffCluster, recs, off);
      && b.cfg == a.cfg.(startUp := LastStartUp(recs, a.cfg.startUp)) && Loaded(b) == b.cfg
      && b.nv == (if AltersStartUp(recs, a.cfg.startUp) then Some(b.cfg) else a.nv)
      && b.startUp == LastStartUp(recs, a.startUp) && b.decoupledAttr == a.decoupledAttr
      && OffOrKept(a, b, false, off)
  {
    StoredStartUp(a, OnOffCluster, recs);
    StartUpOnly(Stored(a, OnOffCluster, recs), recs, off);
    WriteKeeps(a, OnOffCluster, recs, off);
  }

  predicate AltersStartUp(recs: seq<Rec>, initial: byte) {
    recs != []
    && (AltersStartUp(recs[..|recs| - 1], initial)
        || (recs[|recs| - 1].StartUpRec? && recs[|recs| - 1].value != LastStartUp(recs[..|recs| - 1], initial)))
  }

  lemma {:induction false} StartUpOnly(a: App, recs: seq<Rec>, off: bool)
    requires Fits(a)
    ensures var b := AllWritten(a, OnOffCluster, recs, off);
      && b.cfg == a.cfg.(startUp := LastStartUp(recs, a.cfg.startUp))
      && b.startUp == a.startUp && b.decoupledAttr == a.decoupledAttr && OffOrKept(a, b, false, off) && b.nv == a.nv
    ensures Changes(a, OnOffCluster, recs, off) <==> AltersStartUp(recs, a.cfg.startUp)
  {
    if recs != [] { StartUpOnly(a, recs[..|recs| - 1], off); }
  }

  /** A command is logged exactly when the start-up mode needs the log and the command is not for what attribute
      and status say already; a toggle always is one. */
  lemma CommandLogs(a: App, on: bool, off: bool)
    requires Fits(a)
    ensures var r, saves := CmdOn(a, on), a.startUp > 1 && !(a.onOff && a.status == 1);
      r.mem == (if saves then Saved(a.mem, a.slot, 1) else a.mem) && r.slot == if saves then Next(a.slot) else a.slot
    ensures var r, saves := CmdOff(a, off), a.startUp > 1 && (a.onOff || a.status != 0);
      r.mem == (if saves then Saved(a.mem, a.slot, 0) else a.mem) && r.slot == if saves then Next(a.slot) else a.slot
    ensures var r, saves := CmdToggle(a, on, off), a.startUp > 1; var s: byte := if a.status == 0 then 1 else 0;
      r.mem == (if saves then Saved(a.mem, a.slot, s) else a.mem) && r.slot == if saves then Next(a.slot) else a.slot
  {
  }

  /** A power-on: the pin is off, the settings are those saved, status and attribute are restored from the log,
      and the attribute then follows the start-up mode: on for 1, inverted for 2, kept for 0xff, else off. */
  lemma BootSettles(a: App, off: bool)
    requires Persistent(a)
    ensures var b, mode, logged := Boot(a, off), a.cfg.startUp, LoggedStatus(a) != 0;
      && b.level == off && b.cfg == a.cfg && b.nv == a.nv && b.mem == a.mem && b.slot == a.slot
      && b.status == LoggedStatus(a) && b.startUp == mode && b.decoupledAttr == a.cfg.decoupled
      && b.onOff == (mode == 1 || (mode == 2 && !logged) || (mode == 0xff && logged))
  {
    Log.WellFormedNewest(a.mem, a.slot, LoggedStatus(a));
  }
}
