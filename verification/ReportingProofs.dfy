/** A change that was seen is on its way to a report within its minimum interval until it is reported,
    unless a new configuration comes between; and when such a change is late, and when it is lost. */
module ReportingProofs {
  import opened Reporting

  // ----- one entry and its timer

  /** A minimum timer of this length serves this configuration: one of its intervals runs out with the
      timer, or a change is reported at once without any timer. */
  predicate Serves(seconds: nat, min: nat, max: nat) {
    min <= seconds || 0 < max <= seconds || (max == 0 && min != NEVER)
  }

  /** Timer i serves entry i, the running counters stay within their intervals, and a running minimum
      timer serves the configuration. */
  predicate Sound(i: nat, s: Slot) {
    && (s.timer.Armed? ==> s.timer.entry == i)
    && (s.entry.minInterval != 0 ==> s.entry.minCnt <= s.entry.minInterval)
    && (s.entry.maxInterval != 0 ==> s.entry.maxCnt <= s.entry.maxInterval)
    && (s.timer.Armed? && !s.timer.max ==> Serves(s.timer.seconds, s.entry.minInterval, s.entry.maxInterval))
  }

  /** One of the entry's counters has run out after this many seconds. */
  predicate RunsOut(e: Entry, seconds: nat) {
    e.minCnt <= seconds || (e.maxInterval != 0 && e.maxCnt <= seconds)
  }

  /** A change is on its way: a minimum timer will run a counter out, or one has run out and the flush
      is due. */
  predicate Covered(s: Slot) {
    || (s.timer.Armed? && !s.timer.max && RunsOut(s.entry, s.timer.seconds))
    || (s.flush && RunsOut(s.entry, 0))
  }

  ghost predicate SlotInv(i: nat, s: Slot, env: Env, pending: bool) {
    Known(s.entry, env) && Sound(i, s) && (pending ==> Active(s.entry, env) && Covered(s))
  }

  lemma ScanKeeps(i: nat, s: Slot, env: Env, pending: bool)
    requires SlotInv(i, s, env, pending)
    ensures SlotInv(i, Scan(i, s, env), env, pending || Detects(s.entry, env))
    ensures s.flush ==> Scan(i, s, env).flush
  {
  }

  lemma ElapsedKeeps(i: nat, s: Slot, env: Env, pending: bool)
    requires SlotInv(i, s, env, pending) && s.timer.Armed?
    ensures var r := Slot(Elapsed(s.entry, s.timer.seconds, env), Idle, true);
      SlotInv(i, r, env, pending) && (pending ==> RunsOut(r.entry, 0))
  {
  }

  lemma ReportedKeeps(i: nat, s: Slot, env: Env)
    requires SlotInv(i, s, env, false) && Due(s.entry, env)
    ensures SlotInv(i, s.(entry := Reported(s.entry, env)), env, false)
  {
  }

  /** A change on its way stays so under a new configuration when one of the new intervals does not
      outlast a running minimum timer, or the flush is due and the new minimum interval is zero. */
  predicate KeepsTime(s: Slot, c: Config) {
    || (s.timer.Armed? && !s.timer.max && (c.min <= s.timer.seconds || 0 < c.max <= s.timer.seconds))
    || (s.flush && c.min == 0)
  }

  lemma UpdateKeeps(i: nat, s: Slot, c: Config, env: Env, pending: bool)
    requires SlotInv(i, s, env, pending) && |c.change| <= MAX_ANALOG && Known(Updated(s.entry, c), env)
    requires s.timer.Armed? && !s.timer.max ==> Serves(s.timer.seconds, c.min, c.max)
    ensures SlotInv(i, s.(entry := Updated(s.entry, c)), env,
                    pending && Active(Updated(s.entry, c), env) && KeepsTime(s, c))
  {
  }

  // ----- the whole engine

  function SlotAt(w: World, i: nat): Slot
    requires i < |w.tab| && i < |w.timers|
  {
    Slot(w.tab[i], w.timers[i], w.flush)
  }

  /** Every timer serves its own entry. */
  ghost predicate Linked(w: World) {
    Ready(w) && forall k :: 0 <= k < TABLE && w.timers[k].Armed? ==> w.timers[k].entry == k
  }

  /** pending: the scan has seen a change of entry i that has not been reported since, while the entry
      stayed bound and every new configuration kept it in time. */
  ghost predicate Inv(w: World, i: nat, pending: bool) {
    Linked(w) && i < TABLE && SlotInv(i, SlotAt(w, i), w.env, pending)
  }

  ghost function Tracked(w: World, i: nat, pending: bool, e: Event): bool
    requires Ready(w) && i < TABLE && Possible(w, e)
  {
    match e
    case Handler(joined) => pending || (joined && Detects(w.tab[i], w.env))
    case FireTimer(_) => pending
    case FlushTimer => pending && !Due(w.tab[i], w.env)
    case Change(env) => pending && Active(w.tab[i], env)
    case Configure(k, c) =>
      pending && (k == i ==> Active(Updated(w.tab[i], c), w.env) && KeepsTime(SlotAt(w, i), c))
    case Reset(k) =>
      if !w.tab[k].used then pending
      else
        assert Known(Revert(w, k).tab[i], w.env);
        (pending && k != i) || Detects(Revert(w, k).tab[i], w.env)
  }

  /** A new configuration of entry i meets no minimum timer that does not serve it. */
  predicate Allowed(w: World, i: nat, e: Event)
    requires i < |w.timers|
  {
    e.Configure? && e.i == i && w.timers[i].Armed? && !w.timers[i].max ==> Serves(w.timers[i].seconds, e.c.min, e.c.max)
  }

  /** When timers serve their own entries, stopping the timer of entry i stops timer i. */
  lemma {:induction false} ReleasedIs(timers: seq<Timer>, base: nat, i: nat)
    requires forall k :: 0 <= k < |timers| && timers[k].Armed? ==> timers[k].entry == base + k
    requires base <= i < base + |timers|
    ensures Released(timers, i) == timers[i - base := Idle]
  {
    if i == base {
      if !timers[0].Armed? { NoneReleased(timers[1..], base + 1, i); }
    } else {
      ReleasedIs(timers[1..], base + 1, i);
    }
  }

  lemma {:induction false} NoneReleased(timers: seq<Timer>, base: nat, i: nat)
    requires forall k :: 0 <= k < |timers| && timers[k].Armed? ==> timers[k].entry == base + k
    requires i < base
    ensures Released(timers, i) == timers
  {
    if timers != [] { NoneReleased(timers[1..], base + 1, i); }
  }

  lemma ReleasedAll(w: World, i: nat)
    requires Linked(w) && i < TABLE
    ensures Released(w.timers, i) == w.timers[i := Idle]
  {
    ReleasedIs(w.timers, 0, i);
  }

  lemma ScanLinked(w: World)
    requires Linked(w)
    ensures Linked(ScanAll(w))
  {
    var r := ScanAll(w);
    forall k | 0 <= k < TABLE
      ensures Known(r.tab[k], r.env) && (r.timers[k].Armed? ==> r.timers[k].entry == k)
    {
      ScanOne(k, SlotOf(w, k), w.env);
    }
  }

  lemma ScanOne(i: nat, s: Slot, env: Env)
    requires Known(s.entry, env) && (s.timer.Armed? ==> s.timer.entry == i)
    ensures Known(Scan(i, s, env).entry, env)
    ensures Scan(i, s, env).timer.Armed? ==> Scan(i, s, env).timer.entry == i
  {
  }

  lemma ScanAllKeeps(w: World, i: nat, pending: bool)
    requires Inv(w, i, pending)
    ensures Inv(ScanAll(w), i, pending || Detects(w.tab[i], w.env))
  {
    ScanLinked(w);
    ScanKeeps(i, SlotAt(w, i), w.env, pending);
    var r := ScanAll(w);
    assert Scan(i, SlotAt(w, i), w.env).flush == (w.flush || Scan(i, SlotOf(w, i), w.env).flush);
    FlushMatters(i, Scan(i, SlotAt(w, i), w.env), SlotAt(r, i), w.env, pending || Detects(w.tab[i], w.env));
  }

  /** A flush that is due for another entry does no harm. */
  lemma FlushMatters(i: nat, s: Slot, s': Slot, env: Env, pending: bool)
    requires SlotInv(i, s, env, pending) && s' == s.(flush := s'.flush) && (s.flush ==> s'.flush)
    ensures SlotInv(i, s', env, pending)
  {
  }

  lemma FireLinked(w: World, k: nat)
    requires Linked(w) && k < TABLE && w.timers[k].Armed?
    ensures Linked(Fire(w, k)) && Fire(w, k).tab == w.tab[k := Elapsed(w.tab[k], w.timers[k].seconds, w.env)]
  {
    var r := Fire(w, k);
    forall j | 0 <= j < TABLE ensures Known(r.tab[j], r.env) {
      assert Known(w.tab[j], w.env);
    }
  }

  lemma FireKeeps(w: World, i: nat, pending: bool, k: nat)
    requires Inv(w, i, pending) && k < TABLE && w.timers[k].Armed?
    ensures Inv(Fire(w, k), i, pending)
    ensures k == i && pending ==> RunsOut(Fire(w, i).tab[i], 0)
  {
    FireLinked(w, k);
    if k == i {
      ElapsedKeeps(i, SlotAt(w, i), w.env, pending);
    } else {
      FlushMatters(i, SlotAt(w, i), SlotAt(Fire(w, k), i), w.env, pending);
    }
  }

  lemma FlushLinked(w: World)
    requires Linked(w)
    ensures Linked(Flush(w))
  {
    var r := Flush(w);
    forall k | 0 <= k < TABLE ensures Known(r.tab[k], r.env) {
      assert Known(w.tab[k], w.env);
    }
  }

  lemma FlushKeeps(w: World, i: nat, pending: bool)
    requires Inv(w, i, pending)
    ensures Inv(Flush(w), i, pending && !Due(w.tab[i], w.env))
  {
    FlushLinked(w);
    if Due(w.tab[i], w.env) { ReportedKeeps(i, SlotAt(w, i), w.env); }
  }

  lemma ConfigureKeeps(w: World, i: nat, pending: bool, k: nat, c: Config)
    requires Inv(w, i, pending) && Possible(w, Configure(k, c)) && Allowed(w, i, Configure(k, c))
    ensures Inv(Update(w, k, c), i, Tracked(w, i, pending, Configure(k, c)))
  {
    var r := Update(w, k, c);
    assert Known(r.tab[i], r.env);
    if k == i { UpdateKeeps(i, SlotAt(w, i), c, w.env, pending); }
  }

  lemma RevertKeeps(w: World, i: nat, pending: bool, k: nat)
    requires Inv(w, i, pending) && Possible(w, Reset(k))
    ensures Inv(Revert(w, k), i, pending && k != i)
  {
    ReleasedAll(w, k);
    var r := Revert(w, k);
    assert Known(r.tab[i], r.env);
  }

  /** Every event keeps timers on their own entries, and the invariant of entry i unless it puts a
      configuration on that very entry that its running minimum timer does not serve. */
  lemma StepKeeps(w: World, i: nat, pending: bool, e: Event)
    requires Inv(w, i, pending) && Possible(w, e) && Allowed(w, i, e)
    ensures Inv(Step(w, e), i, Tracked(w, i, pending, e))
  {
    match e
    case Handler(joined) => if joined { ScanAllKeeps(w, i, pending); }
    case FireTimer(k) => FireKeeps(w, i, pending, k);
    case FlushTimer => FlushKeeps(w, i, pending);
    case Change(env) => assert Known(w.tab[i], env);
    case Configure(k, c) => ConfigureKeeps(w, i, pending, k, c);
    case Reset(k) =>
      RevertKeeps(w, i, pending, k);
      if w.tab[k].used { ScanAllKeeps(Revert(w, k), i, pending && k != i); }
  }

  // ----- runs

  /** Every event can happen where it stands and none puts such a configuration on entry i. */
  ghost predicate Feasible(w: World, i: nat, pending: bool, evs: seq<Event>)
    requires Inv(w, i, pending)
    decreases |evs|
  {
    evs == [] ||
    (Possible(w, evs[0]) && Allowed(w, i, evs[0])
     && (StepKeeps(w, i, pending, evs[0]);
         Feasible(Step(w, evs[0]), i, Tracked(w, i, pending, evs[0]), evs[1..])))
  }

  ghost function Run(w: World, i: nat, pending: bool, evs: seq<Event>): (r: (World, bool))
    requires Inv(w, i, pending) && Feasible(w, i, pending, evs)
    ensures Inv(r.0, i, r.1)
    decreases |evs|
  {
    if evs == [] then (w, pending)
    else
      StepKeeps(w, i, pending, evs[0]);
      Run(Step(w, evs[0]), i, Tracked(w, i, pending, evs[0]), evs[1..])
  }

  /** Over every run, whatever the other entries are configured to: an entry with a pending change is
      active and has its minimum timer running, or has a counter at zero with the flush due. */
  lemma NoChangeLost(w: World, i: nat, pending: bool, evs: seq<Event>)
    requires Inv(w, i, pending) && Feasible(w, i, pending, evs)
    ensures var (w', p') := Run(w, i, pending, evs);
      && (w'.timers[i].Armed? ==> w'.timers[i].entry == i)
      && (p' ==> Active(w'.tab[i], w'.env) && Covered(SlotAt(w', i)))
  {
    var (w', p') := Run(w, i, pending, evs);
    assert SlotInv(i, SlotAt(w', i), w'.env, p');
  }

  /** And it does get there: with a change pending, the flush, or the timer and then the flush,
      reports the entry. */
  lemma PendingIsDelivered(w: World, i: nat)
    requires Inv(w, i, true)
    ensures (w.flush && Due(w.tab[i], w.env))
            || (w.timers[i].Armed? && w.timers[i].entry == i && Fire(w, i).flush && Due(Fire(w, i).tab[i], w.env))
  {
    if !(w.flush && RunsOut(w.tab[i], 0)) { FireKeeps(w, i, true, i); }
  }

  // ----- an attribute that stays as it is

  /** The attribute reads as it was last remembered. */
  predicate Settled(e: Entry, env: Env) {
    && |e.prev| == MAX_ANALOG && HasAttr(e, env)
    && var a := AttrOf(e, env); e.prev[..DataLen(a)] == a.data[..DataLen(a)]
  }

  /** Then no scan sees a change, whatever the reportable change is. */
  lemma SettledQuiet(e: Entry, env: Env)
    requires Known(e, env) && Settled(e, env)
    ensures !Detects(e, env)
  {
    if Active(e, env) {
      var a := AttrOf(e, env);
      assert e.prev[..DataLen(a)][..Width(a.kind)] == e.prev[..Width(a.kind)];
      assert a.data[..DataLen(a)][..Width(a.kind)] == a.data[..Width(a.kind)];
    }
  }

  lemma RememberedSettles(e: Entry, env: Env, e': Entry)
    requires WellFormed(e) && HasAttr(e, env) && e'.key == e.key && e'.attr == e.attr
    requires e'.prev == Remembered(e.prev, AttrOf(e, env))
    ensures Settled(e', env)
  {
    var a := AttrOf(e, env);
    assert e'.prev[..DataLen(a)] == a.data[..DataLen(a)];
  }

  /** What a scan does to an entry without a change. */
  lemma SettledScan(i: nat, s: Slot, env: Env)
    requires Known(s.entry, env) && Active(s.entry, env) && Settled(s.entry, env)
    ensures var r := Scan(i, s, env);
      && r.entry == s.entry
      && (s.entry.maxInterval == 0 ==> r.timer == if s.timer.Armed? && s.timer.max then Idle else s.timer)
      && (s.entry.maxInterval != 0 && s.timer == Idle ==> r.timer == Armed(i, s.entry.maxInterval, true))
  {
    SettledQuiet(s.entry, env);
  }

  /** The event can happen and leaves entry i's configuration, binding and attribute alone. */
  ghost predicate Untouched(w: World, i: nat, e: Event)
    requires Ready(w) && i < TABLE
  {
    && Possible(w, e)
    && match e
       case Configure(k, _) => k != i
       case Reset(k) => k != i
       case Change(env) =>
         && Bound(w.tab[i], env) == Bound(w.tab[i], w.env) && HasAttr(w.tab[i], env) == HasAttr(w.tab[i], w.env)
         && (HasAttr(w.tab[i], env) ==> AttrOf(w.tab[i], env) == AttrOf(w.tab[i], w.env))
       case _ => true
  }

  /** An active entry whose change has been remembered; the attribute has not changed since. */
  ghost predicate Waiting(w: World, i: nat) {
    && Linked(w) && i < TABLE && Active(w.tab[i], w.env) && Settled(w.tab[i], w.env)
    && (w.tab[i].maxInterval != 0 ==> w.tab[i].maxCnt <= w.tab[i].maxInterval)
  }

  /** The entry has no maximum interval, and its counter outlasts whatever timer it has. */
  predicate Stranded(e: Entry, t: Timer) {
    e.maxInterval == 0 && e.minCnt > 0 && (t.Armed? ==> e.minCnt > t.seconds)
  }

  lemma LinkedStep(w: World, e: Event)
    requires Linked(w) && Possible(w, e)
    ensures Linked(Step(w, e))
  {
    match e
    case Handler(joined) => if joined { ScanLinked(w); }
    case FireTimer(k) => FireLinked(w, k);
    case FlushTimer => FlushLinked(w);
    case Change(env) =>
    case Configure(k, c) =>
    case Reset(k) =>
      ReleasedAll(w, k);
      if w.tab[k].used { ScanLinked(Revert(w, k)); }
  }

  /** A run that leaves entry i alone, up to a flush that reports it. */
  ghost predicate Reports(w: World, i: nat, evs: seq<Event>)
    requires Linked(w) && i < TABLE
    decreases |evs|
  {
    && evs != [] && Untouched(w, i, evs[0])
    && (if evs[0].FlushTimer? && Due(w.tab[i], w.env) then evs[1..] == []
        else LinkedStep(w, evs[0]); Reports(Step(w, evs[0]), i, evs[1..]))
  }

  lemma StrandedScan(w: World, i: nat)
    requires Waiting(w, i) && Stranded(w.tab[i], w.timers[i])
    ensures Waiting(ScanAll(w), i) && Stranded(ScanAll(w).tab[i], ScanAll(w).timers[i])
  {
    ScanLinked(w);
    SettledScan(i, SlotOf(w, i), w.env);
  }

  /** A stranded entry stays stranded and is not reported. */
  lemma StrandedStays(w: World, i: nat, e: Event)
    requires Waiting(w, i) && Stranded(w.tab[i], w.timers[i]) && Untouched(w, i, e)
    ensures Waiting(Step(w, e), i) && Stranded(Step(w, e).tab[i], Step(w, e).timers[i])
    ensures !Due(w.tab[i], w.env)
  {
    LinkedStep(w, e);
    match e
    case Handler(joined) => if joined { StrandedScan(w, i); }
    case FireTimer(k) => FireLinked(w, k);
    case FlushTimer =>
    case Change(env) =>
    case Configure(k, c) =>
    case Reset(k) =>
      if w.tab[k].used {
        RevertKeepsOthers(w, k, i);
        StrandedScan(Revert(w, k), i);
      }
  }

  lemma RevertKeepsOthers(w: World, k: nat, i: nat)
    requires Linked(w) && Possible(w, Reset(k)) && i < TABLE && k != i
    ensures Linked(Revert(w, k)) && Revert(w, k).tab[i] == w.tab[i] && Revert(w, k).timers[i] == w.timers[i]
  {
    ReleasedAll(w, k);
  }

  lemma {:induction false} StrandedForever(w: World, i: nat, evs: seq<Event>)
    requires Waiting(w, i) && Stranded(w.tab[i], w.timers[i])
    ensures !Reports(w, i, evs)
    decreases |evs|
  {
    if evs != [] && Untouched(w, i, evs[0]) {
      StrandedStays(w, i, evs[0]);
      LinkedStep(w, evs[0]);
      StrandedForever(Step(w, evs[0]), i, evs[1..]);
    }
  }

  lemma ReportsNow(w: World, i: nat)
    requires Linked(w) && i < TABLE && w.flush && Due(w.tab[i], w.env)
    ensures Reports(w, i, [FlushTimer])
  {
  }

  lemma ReportsLater(w: World, i: nat, e: Event, rest: seq<Event>)
    requires Linked(w) && i < TABLE && Untouched(w, i, e) && !e.FlushTimer?
    requires Linked(Step(w, e)) && Reports(Step(w, e), i, rest)
    ensures Reports(w, i, [e] + rest)
  {
    assert ([e] + rest)[1..] == rest;
  }

  /** With a maximum interval, an entry without a timer is reported when that interval is over. */
  lemma MaximumReports(w: World, i: nat)
    requires Waiting(w, i) && w.tab[i].maxInterval != 0 && w.timers[i] == Idle
    ensures Reports(w, i, [Handler(true), FireTimer(i), FlushTimer])
  {
    var w1 := ScanAll(w);
    ScanLinked(w);
    SettledScan(i, SlotOf(w, i), w.env);
    FireLinked(w1, i);
    ReportsNow(Fire(w1, i), i);
    ReportsLater(w1, i, FireTimer(i), [FlushTimer]);
    ReportsLater(w, i, Handler(true), [FireTimer(i)] + [FlushTimer]);
    assert [Handler(true)] + ([FireTimer(i)] + [FlushTimer]) == [Handler(true), FireTimer(i), FlushTimer];
  }

  /** The entry's timer runs out: then the flush reports it, or it has its maximum interval to wait for. */
  lemma FiredReports(w: World, i: nat) returns (evs: seq<Event>)
    requires Waiting(w, i) && w.timers[i].Armed? && !Stranded(w.tab[i], w.timers[i])
    ensures Reports(w, i, evs)
  {
    var w1 := Fire(w, i);
    FireLinked(w, i);
    if Due(w1.tab[i], w1.env) {
      ReportsNow(w1, i);
      evs := [FireTimer(i)] + [FlushTimer];
      ReportsLater(w, i, FireTimer(i), [FlushTimer]);
    } else {
      MaximumReports(w1, i);
      evs := [FireTimer(i)] + [Handler(true), FireTimer(i), FlushTimer];
      ReportsLater(w, i, FireTimer(i), [Handler(true), FireTimer(i), FlushTimer]);
    }
  }

  /** Some run that leaves entry i and its attribute alone reports it. */
  ghost predicate Reportable(w: World, i: nat)
    requires Linked(w) && i < TABLE
  {
    exists evs :: Reports(w, i, evs)
  }

  lemma ReportableBy(w: World, i: nat, evs: seq<Event>)
    requires Linked(w) && i < TABLE && Reports(w, i, evs)
    ensures Reportable(w, i)
  {
  }

  /** While the attribute stays as it is, an entry that has a timer running or the flush due can still be
      reported exactly if it is not stranded. */
  lemma ReportedExactly(w: World, i: nat)
    requires Waiting(w, i) && (w.flush || w.timers[i].Armed?)
    ensures Reportable(w, i) <==> !Stranded(w.tab[i], w.timers[i])
  {
    if Stranded(w.tab[i], w.timers[i]) {
      forall evs ensures !Reports(w, i, evs) { StrandedForever(w, i, evs); }
    } else {
      var evs := WaitingReports(w, i);
      ReportableBy(w, i, evs);
    }
  }

  lemma WaitingReports(w: World, i: nat) returns (evs: seq<Event>)
    requires Waiting(w, i) && (w.flush || w.timers[i].Armed?) && !Stranded(w.tab[i], w.timers[i])
    ensures Reports(w, i, evs)
  {
    if w.timers[i].Armed? {
      evs := FiredReports(w, i);
    } else if w.tab[i].minCnt == 0 {
      evs := [FlushTimer];
      ReportsNow(w, i);
    } else {
      evs := [Handler(true), FireTimer(i), FlushTimer];
      MaximumReports(w, i);
    }
  }

  // ----- a new configuration

  /** A change on its way can still be reported under a new configuration exactly if this has a maximum
      interval, or its minimum interval is over with the timer that is running, or is zero; otherwise the
      change is lost: no run that leaves the entry and its attribute alone reports it. */
  lemma SurvivesExactly(w: World, i: nat, c: Config)
    requires Inv(w, i, true) && Settled(w.tab[i], w.env) && Possible(w, Configure(i, c))
    requires Active(Update(w, i, c).tab[i], w.env)
    ensures Linked(Update(w, i, c))
    ensures Reportable(Update(w, i, c), i) <==>
            (c.max != 0 || c.min == 0 || (w.timers[i].Armed? && c.min <= w.timers[i].seconds))
  {
    var w1 := Update(w, i, c);
    assert Settled(w1.tab[i], w1.env);
    ReportedExactly(w1, i);
  }

  /** The change the scan has just seen is reported at once, or when the minimum timer is over. */
  predicate InTime(w: World, i: nat)
    requires i < |w.tab| && i < |w.timers|
  {
    if w.timers[i].Armed? && !w.timers[i].max then Due(Elapsed(w.tab[i], w.timers[i].seconds, w.env), w.env)
    else w.flush && Due(w.tab[i], w.env)
  }

  /** The next change after a new configuration is reported in time exactly when no minimum timer is
      still running from before, or that timer serves the new intervals. */
  lemma NextChangeInTime(w: World, i: nat, c: Config)
    requires Linked(w) && Possible(w, Configure(i, c))
    requires Active(Update(w, i, c).tab[i], w.env) && Detects(Update(w, i, c).tab[i], w.env)
    ensures InTime(Step(Update(w, i, c), Handler(true)), i) <==>
            (w.timers[i].Armed? && !w.timers[i].max ==> Serves(w.timers[i].seconds, c.min, c.max))
  {
    var w1 := Update(w, i, c);
    NextScan(i, SlotOf(w1, i), c.min, c.max, w.env);
    assert ScanAll(w1).tab[i] == Scan(i, SlotOf(w1, i), w.env).entry;
    assert ScanAll(w1).timers[i] == Scan(i, SlotOf(w1, i), w.env).timer;
  }

  lemma NextScan(i: nat, s: Slot, min: nat, max: nat, env: Env)
    requires Known(s.entry, env) && Active(s.entry, env) && Detects(s.entry, env)
    requires s.entry.minInterval == s.entry.minCnt == min && s.entry.maxInterval == s.entry.maxCnt == max
    ensures var r := Scan(i, s, env);
      if min == 0 || (min != NEVER && max == 0) then r.timer == Idle && r.flush && Due(r.entry, env)
      else
        && r.timer == (if s.timer.Armed? && !s.timer.max then s.timer else Armed(i, min, false))
        && r.entry == s.entry.(prev := Remembered(s.entry.prev, AttrOf(s.entry, env)))
        && (Due(Elapsed(r.entry, r.timer.seconds, env), env) <==>
              (s.timer.Armed? && !s.timer.max ==> Serves(s.timer.seconds, min, max)))
  {
  }

  /** That change is lost exactly when a shorter minimum timer is still running from before and the new
      intervals are NEVER and none. */
  lemma NextChangeReported(w: World, i: nat, c: Config)
    requires Linked(w) && Possible(w, Configure(i, c))
    requires Active(Update(w, i, c).tab[i], w.env) && Detects(Update(w, i, c).tab[i], w.env)
    ensures Linked(Step(Update(w, i, c), Handler(true)))
    ensures Reportable(Step(Update(w, i, c), Handler(true)), i) <==>
            !(w.timers[i].Armed? && !w.timers[i].max && w.timers[i].seconds < c.min == NEVER && c.max == 0)
  {
    var w1 := Update(w, i, c);
    var w2, r := ScanAll(w1), Scan(i, SlotOf(w1, i), w.env);
    ScanLinked(w1);
    NextScan(i, SlotOf(w1, i), c.min, c.max, w.env);
    assert w2.tab[i] == r.entry && w2.timers[i] == r.timer && (r.flush ==> w2.flush);
    RememberedSettles(w1.tab[i], w.env, w2.tab[i]);
    ReportedExactly(w2, i);
  }

  /** With a timer that does not serve the new intervals the scan keeps that timer, which runs out before
      either counter does, and the flush finds nothing due. */
  lemma ShortTimerMisses(w: World, i: nat, c: Config) returns (w2: World, w3: World, w4: World)
    requires Linked(w) && Possible(w, Configure(i, c))
    requires w.timers[i].Armed? && !w.timers[i].max && !Serves(w.timers[i].seconds, c.min, c.max)
    requires Active(Update(w, i, c).tab[i], w.env) && Detects(Update(w, i, c).tab[i], w.env)
    ensures w2 == Step(Update(w, i, c), Handler(true)) && Ready(w2) && Possible(w2, FireTimer(i))
    ensures w3 == Step(w2, FireTimer(i)) && Ready(w3) && Possible(w3, FlushTimer)
    ensures w4 == Step(w3, FlushTimer) && !Due(w3.tab[i], w3.env) && Waiting(w4, i)
    ensures w4.tab[i].minCnt == c.min - w.timers[i].seconds > 0 && w4.tab[i].maxInterval == c.max
    ensures w4.timers[i] == Idle && !w4.flush
  {
    var w1 := Update(w, i, c);
    ScanLinked(w1);
    w2 := ScanAll(w1);
    MissedScan(i, SlotOf(w1, i), c.min, c.max, w.env);
    FireLinked(w2, i);
    w3 := Fire(w2, i);
    FlushLinked(w3);
    w4 := Flush(w3);
    RememberedSettles(w1.tab[i], w.env, w4.tab[i]);
  }

  lemma MissedScan(i: nat, s: Slot, min: nat, max: nat, env: Env)
    requires Known(s.entry, env) && Active(s.entry, env) && Detects(s.entry, env)
    requires s.entry.minInterval == s.entry.minCnt == min && s.entry.maxInterval == s.entry.maxCnt == max
    requires s.timer.Armed? && !s.timer.max && s.timer.entry == i && !Serves(s.timer.seconds, min, max)
    ensures var r := Scan(i, s, env); var e := Elapsed(r.entry, s.timer.seconds, env);
      && r.timer == s.timer && !Due(e, env) && e.minCnt == min - s.timer.seconds > 0
      && e == s.entry.(prev := Remembered(s.entry.prev, AttrOf(s.entry, env)), minCnt := e.minCnt, maxCnt := e.maxCnt)
      && (max != 0 ==> e.maxCnt <= max)
  {
  }

  /** If there is a maximum interval the change is late: the run of a scan, the old timer and the flush
      does not report it, the same again does, when the maximum timer is over. */
  lemma ShortTimerDelays(w: World, i: nat, c: Config) returns (w4: World)
    requires Linked(w) && Possible(w, Configure(i, c)) && c.max != 0
    requires w.timers[i].Armed? && !w.timers[i].max && !Serves(w.timers[i].seconds, c.min, c.max)
    requires Active(Update(w, i, c).tab[i], w.env) && Detects(Update(w, i, c).tab[i], w.env)
    ensures Linked(w4) && Reports(w4, i, [Handler(true), FireTimer(i), FlushTimer])
    ensures Ready(Update(w, i, c))
    ensures !Reports(Update(w, i, c), i, [Handler(true), FireTimer(i), FlushTimer])
    ensures var lap := [Handler(true), FireTimer(i), FlushTimer]; Reports(Update(w, i, c), i, lap + lap)
  {
    var w2, w3;
    w2, w3, w4 := ShortTimerMisses(w, i, c);
    MaximumReports(w4, i);
    var w1 := Update(w, i, c);
    var lap := [Handler(true), FireTimer(i), FlushTimer];
    LinkedStep(w1, Handler(true));
    LinkedStep(w2, FireTimer(i));
    LapReports(w1, w2, w3, w4, i, []);
    LapReports(w1, w2, w3, w4, i, lap);
    assert lap + [] == lap;
  }

  /** A lap whose flush does not find the entry due is as good as none. */
  lemma LapReports(w1: World, w2: World, w3: World, w4: World, i: nat, rest: seq<Event>)
    requires Linked(w1) && Linked(w2) && Linked(w3) && Linked(w4) && i < TABLE
    requires w2 == Step(w1, Handler(true))
    requires Possible(w2, FireTimer(i)) && w3 == Step(w2, FireTimer(i))
    requires Possible(w3, FlushTimer) && w4 == Step(w3, FlushTimer) && !Due(w3.tab[i], w3.env)
    ensures Reports(w1, i, [Handler(true), FireTimer(i), FlushTimer] + rest) <==> Reports(w4, i, rest)
  {
    var c := [FlushTimer] + rest;
    var b := [FireTimer(i)] + c;
    var a := [Handler(true)] + b;
    assert a[1..] == b && b[1..] == c && c[1..] == rest;
    assert Reports(w3, i, c) <==> Reports(w4, i, rest);
    assert Reports(w2, i, b) <==> Reports(w3, i, c);
    assert Reports(w1, i, a) <==> Reports(w2, i, b);
    assert a == [Handler(true), FireTimer(i), FlushTimer] + rest;
  }

  // ----- the reportable change

  /** The change check is the distance test of the specification, except that a 32-bit signed
      distance of 2^31 or more wraps: it then misses the change exactly when the configured change
      exceeds the wrapped difference. */
  lemma DistanceTest(t: Type, cur: int, prev: int, change: int)
    requires !t.OtherAnalog? && !t.Discrete?
    ensures var d := if prev > cur then prev - cur else cur - prev;
      (NeedReport(t, cur, prev, change) <==> cur != prev && d >= change)
        <==> !(t.S32? && d >= 0x8000_0000 && d - 0x1_0000_0000 < change <= d)
  {
  }
}
