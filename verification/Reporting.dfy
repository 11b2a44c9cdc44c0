/** Attribute reporting: the table, the per-entry timers and the shared flush timer, and what each
    event does to them (src/zcl/zcl_reporting.c). */
module Reporting {
  import opened NorFlash
  import opened Crc32

  /** ZCL_REPORTING_TABLE_NUM (src/include/stack_cfg.h:58). */
  const TABLE := 24
  const NEVER := 0xFFFF
  const MAX_ANALOG := 8

  /** The attribute types reportableChangeValueChk tells apart. */
  datatype Type = U8 | U16 | U24 | U32 | S8 | S16 | S24 | S32 | OtherAnalog | Discrete

  datatype Attr = Attr(id: nat, kind: Type, data: seq<byte>)

  /** The group a report command can carry together. */
  datatype Key = Key(cluster: nat, profile: nat, endpoint: nat)

  /** reportCfgInfo_t. */
  datatype Entry = Entry(
    used: bool, key: Key, attr: nat,
    minDft: nat, maxDft: nat, minInterval: nat, maxInterval: nat, minCnt: nat, maxCnt: nat,
    change: seq<byte>, prev: seq<byte>)

  /** zcl_reportTimerEvt_t; the event timer runs exactly while the entry pointer is set. */
  datatype Timer = Idle | Armed(entry: nat, seconds: nat, max: bool)

  /** The stack: the binding table by cluster and endpoint, and the attribute table. */
  datatype Env = Env(bound: set<(nat, nat)>, attrs: map<(nat, nat, nat), Attr>)

  // ----- entries

  predicate Bound(e: Entry, env: Env) {
    (e.key.cluster, e.key.endpoint) in env.bound
  }

  predicate HasAttr(e: Entry, env: Env) {
    (e.key.endpoint, e.key.cluster, e.attr) in env.attrs
  }

  /** zcl_findAttribute for the entry. */
  function AttrOf(e: Entry, env: Env): (a: Attr)
    requires HasAttr(e, env)
  {
    env.attrs[(e.key.endpoint, e.key.cluster, e.attr)]
  }

  /** In use, not switched off, and bound. */
  predicate Active(e: Entry, env: Env) {
    e.used && e.maxInterval != NEVER && Bound(e, env)
  }

  /** What reportAttrs reports: an interval has run out. */
  predicate Due(e: Entry, env: Env) {
    Active(e, env) && HasAttr(e, env) && ((e.maxCnt == 0 && e.maxInterval != 0) || e.minCnt == 0)
  }

  function DataLen(a: Attr): (n: nat)
    ensures n <= |a.data| && n <= MAX_ANALOG
  {
    if |a.data| > MAX_ANALOG then MAX_ANALOG else |a.data|
  }

  /** prevData with the attribute's bytes copied over it. */
  function Remembered(prev: seq<byte>, a: Attr): (p: seq<byte>)
    requires |prev| == MAX_ANALOG
    ensures |p| == MAX_ANALOG
  {
    a.data[..DataLen(a)] + prev[DataLen(a)..]
  }

  function Reload(interval: nat): (n: nat)
    ensures n != 0
  {
    if interval != 0 then interval else NEVER
  }

  predicate WellFormed(e: Entry) {
    |e.prev| == MAX_ANALOG && |e.change| == MAX_ANALOG
  }

  /** An entry after it has been put into a report. */
  function Reported(e: Entry, env: Env): (r: Entry)
    requires WellFormed(e) && HasAttr(e, env)
    ensures WellFormed(r) && !Due(r, env)
  {
    e.(prev := Remembered(e.prev, AttrOf(e, env)), minCnt := Reload(e.minInterval), maxCnt := Reload(e.maxInterval))
  }

  // ----- detecting a change

  /** The width in bytes of a type that is compared by value. */
  function Width(t: Type): nat {
    match t
    case U8 => 1 case S8 => 1 case U16 => 2 case S16 => 2 case U24 => 3 case S24 => 3 case U32 => 4 case S32 => 4
    case OtherAnalog => 0 case Discrete => 0
  }

  function Modulus(t: Type): int {
    match t
    case U8 => 0x100 case S8 => 0x100 case U16 => 0x1_0000 case S16 => 0x1_0000
    case U24 => 0x100_0000 case S24 => 0x100_0000 case U32 => 0x1_0000_0000 case S32 => 0x1_0000_0000
    case OtherAnalog => 1 case Discrete => 1
  }

  /** The value read from a type's bytes, least significant first, two's complement for signed types;
      BUILD_S24 leaves out the sign. */
  function Value(t: Type, b: seq<byte>): int
    requires Width(t) <= |b|
  {
    var u := Little(b[..Width(t)]);
    if (t.S8? || t.S16? || t.S32?) && u + u >= Modulus(t) then u - Modulus(t) else u
  }

  /** Conversion to a signed 32-bit value of a difference of two of them. */
  function Wrap32(d: int): int {
    if d >= 0x8000_0000 then d - 0x1_0000_0000 else d
  }

  /** reportableChangeValueChk on decoded values; the difference is computed in 32 bits. */
  predicate NeedReport(t: Type, cur: int, prev: int, change: int) {
    && !t.OtherAnalog? && !t.Discrete? && prev != cur
    && (var d := if prev > cur then prev - cur else cur - prev; (if t.S32? then Wrap32(d) else d) >= change)
  }

  predicate Changed(e: Entry, a: Attr)
    requires WellFormed(e) && Width(a.kind) <= |a.data|
  {
    if a.kind.Discrete? then e.prev[..DataLen(a)] != a.data[..DataLen(a)]
    else NeedReport(a.kind, Value(a.kind, a.data), Value(a.kind, e.prev), Value(a.kind, e.change))
  }

  // ----- the timers

  /** One entry and its timer, and whether the flush timer must run. */
  datatype Slot = Slot(entry: Entry, timer: Timer, flush: bool)

  /** The attribute of every active entry exists and is long enough for its type. */
  predicate Known(e: Entry, env: Env) {
    WellFormed(e) && (Active(e, env) ==> HasAttr(e, env) && Width(AttrOf(e, env).kind) <= |AttrOf(e, env).data|)
  }

  predicate Detects(e: Entry, env: Env)
    requires Known(e, env)
  {
    Active(e, env) && Changed(e, AttrOf(e, env))
  }

  /** reportAttrTimerStart for entry i. */
  function Scan(i: nat, s: Slot, env: Env): (r: Slot)
    requires Known(s.entry, env)
    ensures WellFormed(r.entry)
  {
    var e := s.entry;
    if !Active(e, env) then s.(timer := Idle)
    else if Changed(e, AttrOf(e, env)) then
      var e' := e.(prev := Remembered(e.prev, AttrOf(e, env)));
      if e.minInterval == 0 || (e.minInterval != NEVER && e.maxInterval == 0) then Slot(e'.(minCnt := 0), Idle, true)
      else Slot(e', if s.timer.Armed? && !s.timer.max then s.timer else Armed(i, e.minInterval, false), s.flush)
    else if e.maxInterval != 0 then
      s.(timer := if s.timer.Armed? && !(s.timer.max && s.timer.seconds != e.maxInterval) then s.timer
                  else Armed(i, e.maxInterval, true))
    else s.(timer := if s.timer.Armed? && s.timer.max then Idle else s.timer)
  }

  function Less(n: nat, seconds: nat): nat {
    if n >= seconds then n - seconds else 0
  }

  /** reportAttrTimerCb for the entry its timer points at: the counters run down. */
  function Elapsed(e: Entry, seconds: nat, env: Env): Entry {
    if Active(e, env) then e.(minCnt := Less(e.minCnt, seconds), maxCnt := Less(e.maxCnt, seconds)) else e
  }

  /** A reporting configuration record from the network. */
  datatype Config = Config(key: Key, attr: nat, min: nat, max: nat, analog: bool, change: seq<byte>)

  /** zcl_reportCfgInfoEntryUpdate. */
  function Updated(e: Entry, c: Config): (r: Entry)
    requires WellFormed(e) && |c.change| <= MAX_ANALOG
    ensures WellFormed(r)
  {
    var change := if c.analog then c.change + e.change[|c.change|..] else e.change;
    var e' := e.(minInterval := c.min, maxInterval := c.max, minCnt := c.min, maxCnt := c.max, change := change);
    if e.used then e' else e'.(used := true, key := c.key, attr := c.attr, minDft := c.min, maxDft := c.max)
  }

  /** The entry part of zcl_reportCfgInfoEntryRst. */
  function Reverted(e: Entry): (r: Entry)
    requires WellFormed(e)
    ensures WellFormed(r)
  {
    e.(minInterval := e.minDft, maxInterval := e.maxDft, minCnt := e.minDft, maxCnt := e.maxDft,
       change := seq(MAX_ANALOG, _ => 0))
  }

  // ----- the whole engine

  datatype World = World(tab: seq<Entry>, timers: seq<Timer>, flush: bool, env: Env)

  ghost predicate Ready(w: World) {
    && |w.tab| == TABLE && |w.timers| == TABLE
    && forall i :: 0 <= i < TABLE ==> Known(w.tab[i], w.env)
  }

  function SlotOf(w: World, i: nat): Slot
    requires i < |w.tab| && i < |w.timers|
  {
    Slot(w.tab[i], w.timers[i], false)
  }

  /** reportAttrTimerStart. */
  ghost function ScanAll(w: World): (r: World)
    requires Ready(w)
    ensures |r.tab| == TABLE && |r.timers| == TABLE && r.env == w.env
  {
    World(seq(TABLE, i requires 0 <= i < TABLE => Scan(i, SlotOf(w, i), w.env).entry),
          seq(TABLE, i requires 0 <= i < TABLE => Scan(i, SlotOf(w, i), w.env).timer),
          w.flush || exists i :: 0 <= i < TABLE && Scan(i, SlotOf(w, i), w.env).flush,
          w.env)
  }

  /** Timer i runs out: reportAttrTimerCb. */
  function Fire(w: World, i: nat): World
    requires i < |w.timers| && w.timers[i].Armed? && w.timers[i].entry < |w.tab|
  {
    var t := w.timers[i];
    World(w.tab[t.entry := Elapsed(w.tab[t.entry], t.seconds, w.env)], w.timers[i := Idle], true, w.env)
  }

  /** The flush timer runs out: reportAttrs, without the packets. */
  ghost function Flush(w: World): (r: World)
    requires Ready(w)
    ensures |r.tab| == TABLE
  {
    w.(tab := Flushed(w.tab, w.env), flush := false)
  }

  ghost function Flushed(tab: seq<Entry>, env: Env): (r: seq<Entry>)
    requires forall e :: e in tab ==> WellFormed(e)
    ensures |r| == |tab|
  {
    seq(|tab|, i requires 0 <= i < |tab| =>
      assert tab[i] in tab; if Due(tab[i], env) then Reported(tab[i], env) else tab[i])
  }

  function Update(w: World, i: nat, c: Config): World
    requires i < |w.tab| && WellFormed(w.tab[i]) && |c.change| <= MAX_ANALOG
  {
    w.(tab := w.tab[i := Updated(w.tab[i], c)])
  }

  /** The first timer that points at entry i is stopped. */
  function Released(timers: seq<Timer>, i: nat): (r: seq<Timer>)
    ensures |r| == |timers|
  {
    if timers == [] then []
    else if timers[0].Armed? && timers[0].entry == i then [Idle] + timers[1..]
    else [timers[0]] + Released(timers[1..], i)
  }

  /** zcl_reportCfgInfoEntryRst before its scan. */
  function Revert(w: World, i: nat): World
    requires i < |w.tab| && WellFormed(w.tab[i])
  {
    w.(tab := w.tab[i := Reverted(w.tab[i])], timers := Released(w.timers, i))
  }

  /** What can happen: the application's report handler runs, a timer runs out, the stack's tables
      change, or an entry is configured. */
  datatype Event =
    | Handler(joined: bool)
    | FireTimer(i: nat)
    | FlushTimer
    | Change(env: Env)
    | Configure(i: nat, c: Config)
    | Reset(i: nat)

  /** The event can happen, and the stack keeps its side: configured attributes exist. */
  ghost predicate Possible(w: World, e: Event)
    requires Ready(w)
  {
    match e
    case Handler(_) => true
    case FireTimer(i) => i < TABLE && w.timers[i].Armed? && w.timers[i].entry < TABLE
    case FlushTimer => w.flush
    case Change(env) => Ready(w.(env := env))
    case Configure(i, c) => i < TABLE && |c.change| <= MAX_ANALOG && Ready(Update(w, i, c))
    case Reset(i) => i < TABLE && Ready(Revert(w, i))
  }

  ghost function Step(w: World, e: Event): (r: World)
    requires Ready(w) && Possible(w, e)
    ensures |r.tab| == TABLE && |r.timers| == TABLE
  {
    match e
    case Handler(joined) => if joined then ScanAll(w) else w
    case FireTimer(i) => Fire(w, i)
    case FlushTimer => Flush(w)
    case Change(env) => w.(env := env)
    case Configure(i, c) => Update(w, i, c)
    case Reset(i) => if w.tab[i].used then ScanAll(Revert(w, i)) else w
  }
}
