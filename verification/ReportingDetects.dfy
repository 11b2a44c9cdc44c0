/** Which changes a scan sees, from the bytes of the attribute, of what was last remembered and of the
    configured change alone; and what a configuration and a reset make of these. */
module ReportingDetects {
  import opened NorFlash
  import opened Crc32
  import opened Reporting
  import opened ReportingProofs

  // ----- numbers in bytes

  function Two(b: seq<byte>): nat
    requires |b| >= 2
  {
    b[0] as nat + 0x100 * b[1] as nat
  }

  function Three(b: seq<byte>): nat
    requires |b| >= 3
  {
    b[0] as nat + 0x100 * b[1] as nat + 0x1_0000 * b[2] as nat
  }

  function Four(b: seq<byte>): nat
    requires |b| >= 4
  {
    b[0] as nat + 0x100 * b[1] as nat + 0x1_0000 * b[2] as nat + 0x100_0000 * b[3] as nat
  }

  /** Two's complement of so many values. */
  function Signed(u: nat, values: nat): int {
    if 2 * u >= values then u - values else u
  }

  /** The number some bytes stand for, least significant byte first. */
  function IntOf(t: Type, b: seq<byte>): int
    requires Width(t) <= |b|
  {
    match t
    case U8 => b[0] as int
    case U16 => Two(b)
    case U24 => Three(b)
    case U32 => Four(b)
    case S8 => Signed(b[0] as nat, 0x100)
    case S16 => Signed(Two(b), 0x1_0000)
    case S24 => Signed(Three(b), 0x100_0000)
    case S32 => Signed(Four(b), 0x1_0000_0000)
    case OtherAnalog => 0
    case Discrete => 0
  }

  lemma LittleTwo(b: seq<byte>)
    requires |b| >= 2
    ensures Little(b[..2]) == Two(b)
  {
    var c := b[..2];
    assert c[1..][1..] == [];
    assert Little(c[1..]) == b[1] as nat;
  }

  lemma LittleThree(b: seq<byte>)
    requires |b| >= 3
    ensures Little(b[..3]) == Three(b)
  {
    var c := b[..3];
    assert c[1..][1..][1..] == [];
    assert Little(c[1..][1..]) == b[2] as nat;
    assert Little(c[1..]) == b[1] as nat + 0x100 * Little(c[1..][1..]);
  }

  lemma LittleFour(b: seq<byte>)
    requires |b| >= 4
    ensures Little(b[..4]) == Four(b)
  {
    var c := b[..4];
    assert c[1..][1..][1..][1..] == [];
    assert Little(c[1..][1..][1..]) == b[3] as nat;
    assert Little(c[1..][1..]) == b[2] as nat + 0x100 * b[3] as nat;
    assert Little(c[1..]) == b[1] as nat + 0x100 * Little(c[1..][1..]);
  }

  /** The number as the change check reads it: that of a signed 24-bit attribute without its sign. */
  function ReadAs(t: Type, b: seq<byte>): int
    requires Width(t) <= |b|
  {
    if t.S24? then Three(b) else IntOf(t, b)
  }

  lemma ValueIs(t: Type, b: seq<byte>)
    requires Width(t) <= |b| && !t.OtherAnalog? && !t.Discrete?
    ensures Value(t, b) == ReadAs(t, b)
  {
    if t.U8? || t.S8? {
      var c := b[..1];
      assert c[1..] == [] && Little(c) == b[0] as nat;
    } else if t.U16? || t.S16? {
      LittleTwo(b);
    } else if t.U24? || t.S24? {
      LittleThree(b);
    } else {
      LittleFour(b);
    }
  }

  // ----- what a scan sees

  /** The entry takes part in reporting: in use, not switched off by 0xffff, and bound. */
  predicate InForce(e: Entry, env: Env) {
    e.used && e.maxInterval != 0xffff && (e.key.cluster, e.key.endpoint) in env.bound
  }

  /** One of its intervals is over; a maximum interval of zero never is. */
  predicate RanOut(e: Entry) {
    e.minCnt == 0 || (e.maxInterval > 0 && e.maxCnt == 0)
  }

  /** The attribute has changed enough to be reported: a discrete one in any of its first eight bytes, a number
      by the configured change at least. A signed 32-bit distance wraps. */
  predicate FarApart(e: Entry, a: Attr)
    requires WellFormed(e) && Width(a.kind) <= |a.data|
  {
    if a.kind.Discrete? then exists k :: 0 <= k < |a.data| && k < 8 && e.prev[k] != a.data[k]
    else if a.kind.OtherAnalog? then false
    else
      var cur, prev, change := ReadAs(a.kind, a.data), ReadAs(a.kind, e.prev), ReadAs(a.kind, e.change);
      var d := if prev > cur then prev - cur else cur - prev;
      d > 0 && (if a.kind.S32? && d >= 0x8000_0000 then d - 0x1_0000_0000 else d) >= change
  }

  /** What the missing sign costs: a change of a signed 24-bit number is seen at its true distance d unless it
      crosses zero; then it is taken for one of 2^24 - d. */
  lemma CrossingZero(cur: seq<byte>, prev: seq<byte>)
    requires |cur| >= 3 && |prev| >= 3
    ensures var a, b := IntOf(S24, cur), IntOf(S24, prev);
      var d, r := if a > b then a - b else b - a, ReadAs(S24, cur) - ReadAs(S24, prev);
      (if r < 0 then -r else r) == if (a < 0) == (b < 0) then d else 0x100_0000 - d
  {
  }

  lemma ChangedExactly(e: Entry, a: Attr)
    requires WellFormed(e) && Width(a.kind) <= |a.data|
    ensures Changed(e, a) <==> FarApart(e, a)
  {
    if a.kind.Discrete? {
      if e.prev[..DataLen(a)] != a.data[..DataLen(a)] {
        var k := FirstDifference(e.prev[..DataLen(a)], a.data[..DataLen(a)]);
        assert e.prev[k] != a.data[k];
      } else {
        forall k | 0 <= k < |a.data| && k < 8 ensures e.prev[k] == a.data[k] {
          assert e.prev[..DataLen(a)][k] == a.data[..DataLen(a)][k];
        }
      }
    } else if !a.kind.OtherAnalog? {
      ValueIs(a.kind, a.data);
      ValueIs(a.kind, e.prev);
      ValueIs(a.kind, e.change);
    }
  }

  lemma {:induction false} FirstDifference(a: seq<byte>, b: seq<byte>) returns (k: nat)
    requires |a| == |b| && a != b
    ensures k < |a| && a[k] != b[k]
  {
    if a[0] != b[0] {
      k := 0;
    } else {
      assert a == [a[0]] + a[1..] && b == [b[0]] + b[1..];
      var j := FirstDifference(a[1..], b[1..]);
      k := j + 1;
    }
  }

  /** The attribute's first eight bytes are what is remembered. */
  predicate Remembers(e: Entry, a: Attr)
    requires |e.prev| == 8
  {
    forall k :: 0 <= k < |a.data| && k < 8 ==> e.prev[k] == a.data[k]
  }

  /** What a run of the report handler in a network does to an active entry. A change that is far enough is
      remembered and on its way: due at once if there is no minimum interval, or none worth waiting for, and
      else when that interval, or the minimum timer that is running, is over. Without one the entry stays as it
      is: a minimum timer goes on, and else the maximum interval is waited for, if there is one. */
  lemma ScanSees(w: World, i: nat, pending: bool)
    requires Inv(w, i, pending) && InForce(w.tab[i], w.env)
    ensures var e, r, a := w.tab[i], Reporting.Step(w, Handler(true)), AttrOf(w.tab[i], w.env);
      if FarApart(e, a) then
        && Inv(r, i, true) && Remembers(r.tab[i], a)
        && (if e.minInterval == 0 || (e.maxInterval == 0 && e.minInterval != 0xffff) then
              r.flush && RanOut(r.tab[i]) && r.timers[i] == Idle
            else
              var t := w.timers[i];
              r.timers[i] == if t.Armed? && !t.max then t else Armed(i, e.minInterval, false))
      else
        && Inv(r, i, pending) && r.tab[i] == e
        && r.timers[i] == (if w.timers[i].Armed? && !w.timers[i].max then w.timers[i]
                           else if e.maxInterval == 0 then Idle else Armed(i, e.maxInterval, true))
  {
    var e, a := w.tab[i], AttrOf(w.tab[i], w.env);
    ChangedExactly(e, a);
    ScanAllKeeps(w, i, pending);
    SeenBy(i, SlotOf(w, i), w.env);
    assert ScanAll(w).tab[i] == Scan(i, SlotOf(w, i), w.env).entry;
    assert ScanAll(w).timers[i] == Scan(i, SlotOf(w, i), w.env).timer;
  }

  lemma SeenBy(i: nat, s: Slot, env: Env)
    requires Known(s.entry, env) && InForce(s.entry, env) && (s.timer.Armed? ==> s.timer.entry == i)
    ensures Active(s.entry, env)
    ensures var e, r, a := s.entry, Scan(i, s, env), AttrOf(s.entry, env);
      if Changed(e, a) then
        && Remembers(r.entry, a)
        && (if e.minInterval == 0 || (e.maxInterval == 0 && e.minInterval != 0xffff) then
              r.flush && RanOut(r.entry) && r.timer == Idle
            else r.timer == if s.timer.Armed? && !s.timer.max then s.timer else Armed(i, e.minInterval, false))
      else
        && r.entry == e
        && r.timer == (if s.timer.Armed? && !s.timer.max then s.timer
                       else if e.maxInterval == 0 then Idle else Armed(i, e.maxInterval, true))
  {
    RememberedBytes(s.entry.prev, AttrOf(s.entry, env));
  }

  lemma RememberedBytes(prev: seq<byte>, a: Attr)
    requires |prev| == 8
    ensures forall k :: 0 <= k < |a.data| && k < 8 ==> Remembered(prev, a)[k] == a.data[k]
    ensures forall k :: |a.data| <= k < 8 ==> Remembered(prev, a)[k] == prev[k]
  {
  }

  /** After it every active entry of a discrete attribute remembers what the attribute reads, and a difference
      there was is on its way to a report. */
  lemma DiscreteSeen(w: World, i: nat, pending: bool)
    requires Inv(w, i, pending) && InForce(w.tab[i], w.env) && AttrOf(w.tab[i], w.env).kind.Discrete?
    ensures var r, a := Reporting.Step(w, Handler(true)), AttrOf(w.tab[i], w.env);
      && Inv(r, i, pending || !Remembers(w.tab[i], a)) && Remembers(r.tab[i], a)
  {
    ScanSees(w, i, pending);
  }

  /** An entry that is switched off or not bound only loses its timer; and outside a network nothing happens. */
  lemma ScanPasses(w: World, i: nat)
    requires Linked(w) && i < TABLE && !InForce(w.tab[i], w.env)
    ensures var r := Reporting.Step(w, Handler(true)); r.tab[i] == w.tab[i] && r.timers[i] == Idle
    ensures Reporting.Step(w, Handler(false)) == w
  {
    assert Scan(i, SlotOf(w, i), w.env) == SlotOf(w, i).(timer := Idle);
  }

  /** The flush reports exactly the entries that take part and have an interval over. A report remembers what
      it has sent, and both intervals begin again; all other entries stay as they are. */
  lemma FlushRemembers(w: World, i: nat)
    requires Linked(w) && i < TABLE
    ensures Due(w.tab[i], w.env) <==> InForce(w.tab[i], w.env) && RanOut(w.tab[i])
    ensures var e, r := w.tab[i], Flush(w).tab[i];
      if InForce(e, w.env) && RanOut(e) then
        && Remembers(r, AttrOf(e, w.env)) && r == e.(prev := r.prev, minCnt := r.minCnt, maxCnt := r.maxCnt)
        && r.minCnt == (if e.minInterval == 0 then 0xffff else e.minInterval)
        && r.maxCnt == (if e.maxInterval == 0 then 0xffff else e.maxInterval)
      else r == e
    ensures !Flush(w).flush && Flush(w).timers == w.timers
  {
    assert Known(w.tab[i], w.env);
    if HasAttr(w.tab[i], w.env) { RememberedBytes(w.tab[i].prev, AttrOf(w.tab[i], w.env)); }
  }

  /** A timer that runs out takes its seconds off the counters of its entry, if that takes part, down to zero,
      is idle afterwards, and has the flush follow. */
  lemma FireCounts(w: World, i: nat)
    requires Linked(w) && i < TABLE && w.timers[i].Armed?
    ensures var e, r, t := w.tab[i], Fire(w, i), w.timers[i].seconds;
      && r.flush && r.timers == w.timers[i := Idle] && (forall k :: 0 <= k < TABLE && k != i ==> r.tab[k] == w.tab[k])
      && r.tab[i] == if InForce(e, w.env) then
           e.(minCnt := if e.minCnt < t then 0 else e.minCnt - t, maxCnt := if e.maxCnt < t then 0 else e.maxCnt - t)
         else e
  {
  }

  // ----- configurations

  /** A new configuration takes effect: its intervals from the start, and for a number its reportable change. */
  lemma ConfiguredCounts(e: Entry, c: Config, t: Type)
    requires WellFormed(e) && |c.change| <= MAX_ANALOG && (c.analog ==> Width(t) <= |c.change|)
    ensures var r := Updated(e, c);
      && r.used && r.minInterval == r.minCnt == c.min && r.maxInterval == r.maxCnt == c.max && r.prev == e.prev
      && ReadAs(t, r.change) == ReadAs(t, if c.analog then c.change else e.change)
      && (e.used ==> r.key == e.key && r.attr == e.attr && r.minDft == e.minDft && r.maxDft == e.maxDft)
      && (!e.used ==> r.key == c.key && r.attr == c.attr && r.minDft == c.min && r.maxDft == c.max)
  {
    if c.analog { SameInt(t, c.change, c.change + e.change[|c.change|..]); }
  }

  lemma SameInt(t: Type, a: seq<byte>, b: seq<byte>)
    requires Width(t) <= |a| <= |b| && forall k :: 0 <= k < |a| ==> a[k] == b[k]
    ensures ReadAs(t, a) == ReadAs(t, b)
  {
    if Width(t) == 4 {
      assert Four(a) == Four(b);
    } else if Width(t) == 3 {
      assert Three(a) == Three(b);
    } else if Width(t) == 2 {
      assert Two(a) == Two(b);
    } else if Width(t) == 1 {
      assert a[0] == b[0];
    }
  }

  function AllUpdated(e: Entry, cs: seq<Config>): (r: Entry)
    requires WellFormed(e) && forall c :: c in cs ==> |c.change| <= MAX_ANALOG
    ensures WellFormed(r)
  {
    if cs == [] then e else Updated(AllUpdated(e, cs[..|cs| - 1]), cs[|cs| - 1])
  }

  lemma {:induction false} DefaultsStay(e: Entry, cs: seq<Config>)
    requires WellFormed(e) && e.used && forall c :: c in cs ==> |c.change| <= MAX_ANALOG
    ensures var r := AllUpdated(e, cs);
      r.used && r.key == e.key && r.attr == e.attr && r.minDft == e.minDft && r.maxDft == e.maxDft
  {
    if cs != [] { DefaultsStay(e, cs[..|cs| - 1]); }
  }

  /** After any number of configurations a reset brings back the intervals of the first one, and a reportable
      change of zero: every change is reported again. */
  lemma ResetBringsBack(e: Entry, first: Config, cs: seq<Config>, t: Type)
    requires WellFormed(e) && !e.used && |first.change| <= MAX_ANALOG
    requires forall c :: c in cs ==> |c.change| <= MAX_ANALOG
    ensures var r := Reverted(AllUpdated(Updated(e, first), cs));
      && r.minInterval == r.minCnt == first.min && r.maxInterval == r.maxCnt == first.max
      && ReadAs(t, r.change) == 0 && r.key == first.key && r.attr == first.attr
  {
    DefaultsStay(Updated(e, first), cs);
  }

  /** In the table: a configuration changes its entry and nothing else; a reset of an entry in use reverts it,
      stops its timer and scans the table, and one of an unused entry does nothing; what happens to attributes
      and bindings changes nothing here until something runs. */
  lemma ConfigureAndReset(w: World, i: nat, c: Config, env: Env)
    requires Linked(w) && i < TABLE
    ensures Possible(w, Change(env)) ==> Reporting.Step(w, Change(env)) == w.(env := env)
    ensures Possible(w, Configure(i, c)) ==>
      Reporting.Step(w, Configure(i, c)) == w.(tab := w.tab[i := Updated(w.tab[i], c)])
    ensures Possible(w, Reset(i)) && !w.tab[i].used ==> Reporting.Step(w, Reset(i)) == w
    ensures Possible(w, Reset(i)) && w.tab[i].used ==>
      var v := w.(tab := w.tab[i := Reverted(w.tab[i])], timers := w.timers[i := Idle]);
      Linked(v) && Reporting.Step(w, Reset(i)) == Reporting.Step(v, Handler(true))
  {
    if Possible(w, Reset(i)) && w.tab[i].used { ReleasedAll(w, i); }
  }
}
