/** The reporting engine as the firmware runs it: table, timers and flush timer updated in place
    (src/zcl/zcl_reporting.c). */
module ReportingDevice {
  import opened Reporting

  /** A report command: its group, its attributes, and the table positions they came from. */
  datatype Packet = Packet(key: Key, attrs: seq<Attr>, from: seq<nat>)

  /** No due entry uses the cluster id that stands for "none yet". */
  predicate NoWild(tab: seq<Entry>, env: Env) {
    forall k :: 0 <= k < |tab| && Due(tab[k], env) ==> tab[k].key.cluster != NEVER
  }

  ghost predicate AllWellFormed(tab: seq<Entry>) {
    |tab| == TABLE && forall k :: 0 <= k < TABLE ==> WellFormed(tab[k])
  }

  /** tab is tab0 with exactly the entries in done reported. */
  ghost predicate Applied(tab0: seq<Entry>, env: Env, done: set<nat>, tab: seq<Entry>) {
    && AllWellFormed(tab0) && |tab| == TABLE
    && (forall k :: k in done ==> k < TABLE && Due(tab0[k], env))
    && forall k: nat :: k < TABLE ==> tab[k] == if k in done then Reported(tab0[k], env) else tab0[k]
  }

  function Positions(s: seq<nat>): set<nat> {
    set k | k in s
  }

  /** What one pass over the table takes out of the due entries. */
  ghost predicate PassTakes(tab0: seq<Entry>, env: Env, taken: seq<nat>, again: bool) {
    && AllWellFormed(tab0) && |taken| <= 2 && (|taken| == 2 ==> taken[0] != taken[1])
    && (forall j :: 0 <= j < |taken| ==> taken[j] < TABLE && Due(tab0[taken[j]], env))
    && (taken == [] ==> !again && forall k :: 0 <= k < TABLE ==> !Due(tab0[k], env))
    && (!again ==> forall k: nat :: k < TABLE && Due(tab0[k], env) ==> k in taken)
  }

  /** With no wild cluster the pass takes entries of one group, and one alone only if no other due
      entry belongs to its group. */
  ghost predicate OneGroup(tab0: seq<Entry>, env: Env, taken: seq<nat>)
    requires AllWellFormed(tab0) && forall j :: 0 <= j < |taken| ==> taken[j] < TABLE
  {
    && (|taken| == 2 ==> tab0[taken[0]].key == tab0[taken[1]].key)
    && (|taken| == 1 ==>
          forall k: nat :: k < TABLE && Due(tab0[k], env) && tab0[k].key == tab0[taken[0]].key ==> k == taken[0])
  }

  /** The packet carries the entries at these positions. */
  ghost predicate Carries(p: Packet, tab0: seq<Entry>, env: Env) {
    && 1 <= |p.from| <= 2 && |p.attrs| == |p.from| && |tab0| == TABLE
    && forall j :: 0 <= j < |p.from| ==>
         && p.from[j] < TABLE && Due(tab0[p.from[j]], env)
         && tab0[p.from[j]].key == p.key && p.attrs[j] == AttrOf(tab0[p.from[j]], env)
  }

  function Flat(packets: seq<Packet>): (f: seq<nat>) {
    if packets == [] then [] else Flat(packets[..|packets| - 1]) + packets[|packets| - 1].from
  }

  ghost predicate Distinct(s: seq<nat>) {
    forall a, b :: 0 <= a < b < |s| ==> s[a] != s[b]
  }

  /** The packets are a batching of the due entries: each carries one or two attributes of one
      group, every due entry is in exactly one, and after a packet with one attribute its group
      does not appear again. */
  ghost predicate Batching(packets: seq<Packet>, tab0: seq<Entry>, env: Env) {
    && |tab0| == TABLE
    && (forall p :: p in packets ==> Carries(p, tab0, env))
    && Distinct(Flat(packets))
    && (forall k: nat :: k in Flat(packets) <==> k < TABLE && Due(tab0[k], env))
    && forall a, b :: 0 <= a < b < |packets| && |packets[a].from| == 1 ==> packets[b].key != packets[a].key
  }

  /** A batching of the entries in done; the rest is still due. */
  ghost predicate BatchingSoFar(packets: seq<Packet>, tab0: seq<Entry>, env: Env, done: set<nat>) {
    && AllWellFormed(tab0)
    && (forall p :: p in packets ==> Carries(p, tab0, env))
    && Distinct(Flat(packets))
    && (forall k: nat :: k in Flat(packets) <==> k in done)
    && (forall a, b :: 0 <= a < b < |packets| && |packets[a].from| == 1 ==> packets[b].key != packets[a].key)
    && forall a, k: nat :: 0 <= a < |packets| && |packets[a].from| == 1 && k < TABLE && Due(tab0[k], env) && k !in done
         ==> tab0[k].key != packets[a].key
  }

  /** Packets never carry the wild cluster id, so they can be a batching of the due entries only if
      no due entry has it. */
  lemma WildIsNeverBatched(packets: seq<Packet>, tab0: seq<Entry>, env: Env)
    requires Batching(packets, tab0, env) && forall p :: p in packets ==> p.key.cluster != NEVER
    ensures NoWild(tab0, env)
  {
    forall k: nat | k < |tab0| && Due(tab0[k], env) ensures tab0[k].key.cluster != NEVER {
      assert k in Flat(packets);
      var p := CarrierOf(packets, k);
    }
  }

  lemma {:induction false} CarrierOf(packets: seq<Packet>, k: nat) returns (p: Packet)
    requires k in Flat(packets)
    ensures p in packets && k in p.from
  {
    p := packets[|packets| - 1];
    if k !in p.from { p := CarrierOf(packets[..|packets| - 1], k); }
  }

  /** What is due while done has been reported is what was due and is not done. */
  lemma StillDue(tab0: seq<Entry>, env: Env, done: set<nat>, tab: seq<Entry>)
    requires Applied(tab0, env, done, tab)
    ensures AllWellFormed(tab)
    ensures forall k: nat :: k < TABLE ==> (Due(tab[k], env) <==> Due(tab0[k], env) && k !in done)
    ensures forall k: nat :: k < TABLE ==> tab[k].key == tab0[k].key && tab[k].attr == tab0[k].attr
  {
  }

  lemma AppliedOne(tab0: seq<Entry>, env: Env, taken: seq<nat>, tab: seq<Entry>, i: nat)
    requires Applied(tab0, env, Positions(taken), tab) && i < TABLE && i !in taken && Due(tab0[i], env)
    ensures tab[i] == tab0[i] && Applied(tab0, env, Positions(taken + [i]), tab[i := Reported(tab[i], env)])
  {
    assert i !in Positions(taken);
    forall k: nat | k in Positions(taken + [i]) ensures k in Positions(taken) || k == i {
    }
    assert i in taken + [i] && forall k :: k in taken ==> k in taken + [i];
  }

  lemma AppliedTwice(tab0: seq<Entry>, env: Env, done: set<nat>, tab1: seq<Entry>, more: set<nat>, tab2: seq<Entry>)
    requires Applied(tab0, env, done, tab1) && Applied(tab1, env, more, tab2)
    ensures Applied(tab0, env, done + more, tab2) && done !! more
  {
    StillDue(tab0, env, done, tab1);
  }

  lemma BatchGrows(packets: seq<Packet>, p: Packet, tab0: seq<Entry>, env: Env, done: set<nat>, tab1: seq<Entry>)
    requires BatchingSoFar(packets, tab0, env, done) && Applied(tab0, env, done, tab1)
    requires Carries(p, tab1, env) && (|p.from| == 2 ==> p.from[0] != p.from[1]) && OneGroup(tab1, env, p.from)
    ensures BatchingSoFar(packets + [p], tab0, env, done + Positions(p.from))
  {
    StillDue(tab0, env, done, tab1);
    var all := packets + [p];
    assert all[..|packets|] == packets;
    assert Flat(all) == Flat(packets) + p.from;
    CarriesBefore(p, tab0, env, done, tab1);
    FlatGrows(Flat(packets), p.from, done);
    OneMoreKey(packets, p, tab0, env, done, tab1);
    RestAvoids(packets, p, tab0, env, done, tab1);
  }

  /** What is carried out of the table as it stands was due in it at the start, and is new. */
  lemma CarriesBefore(p: Packet, tab0: seq<Entry>, env: Env, done: set<nat>, tab1: seq<Entry>)
    requires Applied(tab0, env, done, tab1) && Carries(p, tab1, env)
    ensures Carries(p, tab0, env) && forall j :: 0 <= j < |p.from| ==> p.from[j] !in done
  {
    StillDue(tab0, env, done, tab1);
    forall j | 0 <= j < |p.from| ensures p.from[j] !in done && tab1[p.from[j]] == tab0[p.from[j]] {
      assert Due(tab1[p.from[j]], env);
    }
  }

  lemma FlatGrows(f: seq<nat>, more: seq<nat>, done: set<nat>)
    requires Distinct(f) && |more| <= 2 && (|more| == 2 ==> more[0] != more[1])
    requires (forall k: nat :: k in f <==> k in done) && forall j :: 0 <= j < |more| ==> more[j] !in done
    ensures Distinct(f + more) && forall k: nat :: k in f + more <==> k in done + Positions(more)
  {
    var all := f + more;
    forall a, b | 0 <= a < b < |all| ensures all[a] != all[b] {
      if b < |f| {
        assert f[a] != f[b];
      } else if a < |f| {
        assert f[a] in f && f[a] in done && more[b - |f|] !in done;
      }
    }
  }

  /** A group that was served alone is not served again. */
  lemma OneMoreKey(packets: seq<Packet>, p: Packet, tab0: seq<Entry>, env: Env, done: set<nat>, tab1: seq<Entry>)
    requires BatchingSoFar(packets, tab0, env, done) && Carries(p, tab0, env)
    requires forall j :: 0 <= j < |p.from| ==> p.from[j] !in done
    ensures var all := packets + [p];
      forall a, b :: 0 <= a < b < |all| && |all[a].from| == 1 ==> all[b].key != all[a].key
  {
    var all := packets + [p];
    forall a, b | 0 <= a < b < |all| && |all[a].from| == 1 ensures all[b].key != all[a].key {
      assert all[a] == packets[a];
      if b < |packets| {
        assert all[b] == packets[b];
      } else {
        assert tab0[p.from[0]].key == p.key && p.from[0] !in done && Due(tab0[p.from[0]], env);
      }
    }
  }

  lemma RestAvoids(packets: seq<Packet>, p: Packet, tab0: seq<Entry>, env: Env, done: set<nat>, tab1: seq<Entry>)
    requires BatchingSoFar(packets, tab0, env, done) && Applied(tab0, env, done, tab1)
    requires Carries(p, tab1, env) && OneGroup(tab1, env, p.from)
    ensures var all, done' := packets + [p], done + Positions(p.from);
      forall a, k: nat :: 0 <= a < |all| && |all[a].from| == 1 && k < TABLE && Due(tab0[k], env) && k !in done'
        ==> tab0[k].key != all[a].key
  {
    StillDue(tab0, env, done, tab1);
    var all, done' := packets + [p], done + Positions(p.from);
    forall a, k: nat | 0 <= a < |all| && |all[a].from| == 1 && k < TABLE && Due(tab0[k], env) && k !in done'
      ensures tab0[k].key != all[a].key
    {
      if a < |packets| {
        assert all[a] == packets[a] && k !in done;
      } else {
        assert p.from[0] in p.from && p.from[0] in Positions(p.from);
        assert tab1[p.from[0]].key == p.key && Due(tab1[k], env) && tab1[k].key == tab0[k].key;
      }
    }
  }

  /** The state of reportAttrs between passes: these entries reported, these packets sent. */
  ghost predicate Progress(tab0: seq<Entry>, out0: seq<Packet>, env: Env, done: set<nat>,
                           tab: seq<Entry>, out: seq<Packet>) {
    && Applied(tab0, env, done, tab)
    && |out0| <= |out| && out[..|out0|] == out0
    && (forall p :: p in out[|out0|..] ==> p.key.cluster != NEVER)
    && (NoWild(tab0, env) ==> BatchingSoFar(out[|out0|..], tab0, env, done))
  }

  /** What a pass appends to the packets. */
  ghost predicate PassSends(tab0: seq<Entry>, env: Env, taken: seq<nat>, out0: seq<Packet>, out: seq<Packet>)
    requires AllWellFormed(tab0) && forall j :: 0 <= j < |taken| ==> taken[j] < TABLE
  {
    && (out == out0 || (|out| == |out0| + 1 && out[..|out0|] == out0
                        && out[|out0|].from == taken && out[|out0|].key.cluster != NEVER))
    && (taken == [] ==> out == out0)
    && (NoWild(tab0, env) ==>
          OneGroup(tab0, env, taken) && (taken != [] ==> out != out0 && Carries(out[|out0|], tab0, env)))
  }

  lemma ProgressGrows(tab0: seq<Entry>, out0: seq<Packet>, env: Env, done: set<nat>,
                      tab1: seq<Entry>, out1: seq<Packet>, taken: seq<nat>, again: bool,
                      tab: seq<Entry>, out: seq<Packet>)
    requires Progress(tab0, out0, env, done, tab1, out1) && PassTakes(tab1, env, taken, again)
    requires PassSends(tab1, env, taken, out1, out) && Applied(tab1, env, Positions(taken), tab)
    ensures Progress(tab0, out0, env, done + Positions(taken), tab, out)
    ensures !again ==> forall k: nat :: k < TABLE && Due(tab0[k], env) ==> k in done + Positions(taken)
    ensures again ==> |done| < |done + Positions(taken)|
    ensures |done + Positions(taken)| <= TABLE
  {
    StillDue(tab0, env, done, tab1);
    AppliedTwice(tab0, env, done, tab1, Positions(taken), tab);
    FewPositions(done + Positions(taken), TABLE);
    if again { OneAtLeast(done, taken); }
    SentGrows(tab0, out0, env, done, tab1, out1, taken, out);
  }

  lemma OneAtLeast(done: set<nat>, taken: seq<nat>)
    requires taken != [] && done !! Positions(taken)
    ensures |done| < |done + Positions(taken)|
  {
    assert taken[0] in Positions(taken) && taken[0] !in done;
    assert done < done + Positions(taken);
    Larger(done, done + Positions(taken));
  }

  lemma SentGrows(tab0: seq<Entry>, out0: seq<Packet>, env: Env, done: set<nat>, tab1: seq<Entry>, out1: seq<Packet>,
                  taken: seq<nat>, out: seq<Packet>)
    requires Progress(tab0, out0, env, done, tab1, out1)
    requires |taken| <= 2 && (|taken| == 2 ==> taken[0] != taken[1])
    requires forall j :: 0 <= j < |taken| ==> taken[j] < TABLE && Due(tab1[taken[j]], env)
    requires PassSends(tab1, env, taken, out1, out) && (NoWild(tab0, env) ==> NoWild(tab1, env))
    ensures |out0| <= |out| && out[..|out0|] == out0 && forall p :: p in out[|out0|..] ==> p.key.cluster != NEVER
    ensures NoWild(tab0, env) ==> BatchingSoFar(out[|out0|..], tab0, env, done + Positions(taken))
  {
    if out != out1 {
      assert out[|out0|..] == out1[|out0|..] + [out[|out1|]];
      if NoWild(tab0, env) { BatchGrows(out1[|out0|..], out[|out1|], tab0, env, done, tab1); }
    } else if NoWild(tab0, env) {
      assert done + Positions([]) == done;
    }
  }

  lemma Larger(a: set<nat>, b: set<nat>)
    requires a < b
    ensures |a| < |b|
  {
    assert b == a + (b - a);
    assert b - a != {};
  }

  /** A set of table positions is no larger than the table. */
  lemma {:induction false} FewPositions(s: set<nat>, n: nat)
    requires forall k :: k in s ==> k < n
    ensures |s| <= n
  {
    if n > 0 {
      FewPositions(s - {n - 1}, n - 1);
    } else {
      assert s == {};
    }
  }

  class Reporter {
    var tab: seq<Entry>
    var timers: seq<Timer>
    var flush: bool
    var env: Env
    var out: seq<Packet>

    ghost predicate Valid()
      reads this
    {
      Ready(Now())
    }

    ghost function Now(): World
      reads this
    {
      World(tab, timers, flush, env)
    }

    // ----- reporting

    /** One pass of the do loop of reportAttrs. */
    method ReportPass() returns (again: bool, taken: seq<nat>)
      requires AllWellFormed(tab)
      modifies this`tab, this`out
      ensures PassTakes(old(tab), env, taken, again)
      ensures Applied(old(tab), env, Positions(taken), tab)
      ensures PassSends(old(tab), env, taken, old(out), out)
    {
      var key, attrs;
      again, taken, key, attrs := TakeDue();
      if key.cluster != NEVER {
        out := out + [Packet(key, attrs, taken)];
      }
    }

    /** The for loop of a pass: up to two due entries of one group are put into the report. */
    method TakeDue() returns (again: bool, taken: seq<nat>, key: Key, attrs: seq<Attr>)
      requires AllWellFormed(tab)
      modifies this`tab
      ensures PassTakes(old(tab), env, taken, again)
      ensures Applied(old(tab), env, Positions(taken), tab)
      ensures |attrs| == |taken| && forall j :: 0 <= j < |taken| ==> attrs[j] == AttrOf(old(tab)[taken[j]], env)
      ensures taken == [] ==> key.cluster == NEVER
      ensures NoWild(old(tab), env) ==> OneGroup(old(tab), env, taken)
      ensures NoWild(old(tab), env) && taken != [] ==> key.cluster != NEVER && key == old(tab)[taken[0]].key
    {
      ghost var tab0 := tab;
      var cluster, profile, endpoint := 0xFFFF, 0xFFFF, 0;
      again, taken, attrs := false, [], [];
      var i: nat := 0;
      while i < TABLE
        invariant i <= TABLE && |taken| <= 1
        invariant Applied(tab0, env, Positions(taken), tab)
        invariant taken == [] ==> cluster == NEVER && !again && attrs == []
        invariant taken == [] ==> forall k: nat :: k < i ==> !Due(tab0[k], env)
        invariant taken != [] ==> taken[0] < i && Due(tab0[taken[0]], env) && attrs == [AttrOf(tab0[taken[0]], env)]
        invariant taken != [] ==> tab0[taken[0]].key == Key(cluster, profile, endpoint)
        invariant !again ==> forall k: nat :: k < i && Due(tab0[k], env) ==> k in taken
        invariant taken != [] && cluster != NEVER ==>
                    forall k: nat :: k < i && Due(tab0[k], env) && tab0[k].key == tab0[taken[0]].key ==> k == taken[0]
        decreases TABLE - i
      {
        var e := tab[i];
        if Due(e, env) {
          var differs :=
            cluster != NEVER
            && (cluster != e.key.cluster || profile != e.key.profile || endpoint != e.key.endpoint);
          if differs {
            again := true;
          } else {
            if cluster == NEVER { cluster, profile, endpoint := e.key.cluster, e.key.profile, e.key.endpoint; }
            attrs := attrs + [AttrOf(e, env)];
            AppliedOne(tab0, env, taken, tab, i);
            tab := tab[i := Reported(e, env)];
            taken := taken + [i];
            if |taken| >= 2 {
              again := true;
              break;
            }
          }
        }
        i := i + 1;
      }
      key := Key(cluster, profile, endpoint);
    }

    /** reportAttrs: passes until one leaves nothing over. Everything due is reported and reloaded,
        the rest untouched, and the packets are a batching of what was due. */
    method ReportAttrs()
      requires AllWellFormed(tab)
      modifies this`tab, this`out
      ensures AllWellFormed(old(tab)) && tab == Flushed(old(tab), env)
      ensures forall k :: 0 <= k < TABLE ==> !Due(tab[k], env)
      ensures |old(out)| <= |out| && out[..|old(out)|] == old(out)
      ensures forall p :: p in out[|old(out)|..] ==> p.key.cluster != NEVER
      ensures NoWild(old(tab), env) ==> Batching(out[|old(out)|..], old(tab), env)
    {
      ghost var tab0, out0 := tab, out;
      ghost var done: set<nat> := {};
      assert out[|out0|..] == [];
      var again := true;
      while again
        invariant Progress(tab0, out0, env, done, tab, out) && |done| <= TABLE
        invariant !again ==> forall k: nat :: k < TABLE && Due(tab0[k], env) ==> k in done
        decreases if again then TABLE + 1 - |done| else 0
      {
        ghost var tab1, out1 := tab, out;
        StillDue(tab0, env, done, tab);
        var taken;
        again, taken := ReportPass();
        ProgressGrows(tab0, out0, env, done, tab1, out1, taken, again, tab, out);
        done := done + Positions(taken);
      }
      StillDue(tab0, env, done, tab);
      assert tab == Flushed(tab0, env);
    }

    /** reportingTimerCb. */
    method FlushTimerCb()
      requires Valid() && flush
      modifies this
      ensures Now() == Flush(old(Now()))
      ensures NoWild(old(tab), env) ==> |out| >= |old(out)| && Batching(out[|old(out)|..], old(tab), env)
    {
      flush := false;
      ReportAttrs();
    }

    /** reportingTimerStart. */
    method FlushTimerStart()
      modifies this`flush
      ensures flush
    {
      if !flush { flush := true; }
    }

    // ----- the timers

    /** reportAttrTimerStop. */
    method TimerStop(i: nat)
      requires i < |timers|
      modifies this`timers
      ensures timers == old(timers)[i := Idle]
    {
      if timers[i].Armed? { timers := timers[i := Idle]; }
    }

    /** reportAttrTimerCb. */
    method TimerCb(i: nat)
      requires i < |timers| && timers[i].Armed? && timers[i].entry < |tab|
      modifies this`tab, this`timers, this`flush
      ensures Now() == Fire(old(Now()), i)
    {
      var k, seconds := timers[i].entry, timers[i].seconds;
      var e := tab[k];
      if Active(e, env) {
        if e.minCnt != 0 {
          if e.minCnt >= seconds { e := e.(minCnt := e.minCnt - seconds); } else { e := e.(minCnt := 0); }
        }
        if e.maxCnt != 0 {
          if e.maxCnt >= seconds { e := e.(maxCnt := e.maxCnt - seconds); } else { e := e.(maxCnt := 0); }
        }
      }
      tab := tab[k := e];
      FlushTimerStart();
      timers := timers[i := Idle];
    }

    /** One turn of the loop of reportAttrTimerStart. */
    method ScanOne(i: nat)
      requires i < |tab| && i < |timers| && Known(tab[i], env)
      modifies this`tab, this`timers, this`flush
      ensures var r := Scan(i, Slot(old(tab)[i], old(timers)[i], false), env);
        tab == old(tab)[i := r.entry] && timers == old(timers)[i := r.timer] && flush == (old(flush) || r.flush)
    {
      var e := tab[i];
      if !Active(e, env) {
        TimerStop(i);
        return;
      }
      var a := AttrOf(e, env);
      var seconds, max := 0, true;
      if Changed(e, a) {
        e := e.(prev := Remembered(e.prev, a));
        tab := tab[i := e];
        if e.minInterval != 0 {
          if e.minInterval != 0xFFFF && e.maxInterval == 0 {
            TimerStop(i);
            tab := tab[i := e.(minCnt := 0)];
            FlushTimerStart();
            return;
          }
          if timers[i].Armed? && timers[i].max { TimerStop(i); }
          seconds, max := e.minInterval, false;
        } else {
          TimerStop(i);
          tab := tab[i := e.(minCnt := 0)];
          FlushTimerStart();
          return;
        }
      } else if e.maxInterval != 0 {
        if timers[i].Armed? && timers[i].max && timers[i].seconds != e.maxInterval { TimerStop(i); }
        seconds := e.maxInterval;
      } else {
        if timers[i].Armed? && timers[i].max { TimerStop(i); }
        return;
      }
      if timers[i].Idle? { timers := timers[i := Armed(i, seconds, max)]; }
    }

    /** reportAttrTimerStart: every entry is scanned once, independently of the others. */
    method TimerStart()
      requires Valid()
      modifies this`tab, this`timers, this`flush
      ensures Now() == ScanAll(old(Now()))
    {
      ghost var w := Now();
      var i := 0;
      while i < TABLE
        invariant 0 <= i <= TABLE && |tab| == TABLE && |timers| == TABLE
        invariant forall k :: 0 <= k < i ==> tab[k] == ScanAll(w).tab[k] && timers[k] == ScanAll(w).timers[k]
        invariant forall k :: i <= k < TABLE ==> tab[k] == w.tab[k] && timers[k] == w.timers[k]
        invariant w.flush ==> flush
        invariant forall k :: 0 <= k < i && Scan(k, SlotOf(w, k), env).flush ==> flush
        invariant flush && !w.flush ==> exists k :: 0 <= k < i && Scan(k, SlotOf(w, k), env).flush
      {
        assert SlotOf(w, i) == Slot(tab[i], timers[i], false);
        ScanOne(i);
        i := i + 1;
      }
      assert tab == ScanAll(w).tab && timers == ScanAll(w).timers;
    }

    /** report_handler. */
    method ReportHandler(joined: bool)
      requires Valid()
      modifies this`tab, this`timers, this`flush
      ensures Now() == Step(old(Now()), Handler(joined))
    {
      if joined { TimerStart(); }
    }

    // ----- configuration

    /** zcl_reportCfgInfoEntryUpdate. */
    method EntryUpdate(i: nat, c: Config)
      requires i < |tab| && WellFormed(tab[i]) && |c.change| <= MAX_ANALOG
      modifies this`tab
      ensures Now() == Update(old(Now()), i, c)
    {
      var e := tab[i];
      if !e.used {
        e := e.(key := c.key, attr := c.attr, minDft := c.min, maxDft := c.max,
                minInterval := c.min, maxInterval := c.max);
        if c.analog { e := e.(change := c.change + e.change[|c.change|..]); }
        e := e.(minCnt := c.min, maxCnt := c.max, used := true);
      } else {
        e := e.(minInterval := c.min, maxInterval := c.max, minCnt := c.min, maxCnt := c.max);
        if c.analog { e := e.(change := c.change + e.change[|c.change|..]); }
      }
      tab := tab[i := e];
    }

    /** The loop of zcl_reportCfgInfoEntryRst that stops the entry's timer. */
    method StopTimerOf(i: nat)
      modifies this`timers
      ensures timers == Released(old(timers), i)
    {
      ghost var t0 := timers;
      var k := 0;
      while k < |timers|
        invariant 0 <= k <= |timers| && timers == t0
        invariant t0[..k] + Released(t0[k..], i) == Released(t0, i)
      {
        if timers[k].Armed? && timers[k].entry == i {
          TimerStop(k);
          assert t0[..k] + ([Idle] + t0[k..][1..]) == timers;
          return;
        }
        assert t0[..k] + ([t0[k]] + Released(t0[k + 1..], i)) == t0[..k + 1] + Released(t0[k + 1..], i);
        assert t0[k..][1..] == t0[k + 1..];
        k := k + 1;
      }
      assert t0[..|t0|] + [] == t0;
    }

    /** zcl_reportCfgInfoEntryRst. */
    method EntryRst(i: nat)
      requires Valid() && Possible(Now(), Reset(i))
      modifies this`tab, this`timers, this`flush
      ensures Now() == Step(old(Now()), Reset(i))
    {
      if tab[i].used {
        var e := tab[i];
        tab := tab[i := e.(minInterval := e.minDft, maxInterval := e.maxDft, minCnt := e.minDft, maxCnt := e.maxDft,
                           change := seq(MAX_ANALOG, _ => 0))];
        StopTimerOf(i);
        assert Now() == Revert(old(Now()), i);
        TimerStart();
      }
    }
  }
}
