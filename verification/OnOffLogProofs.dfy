/** What the on/off log promises: no save is lost across restarts, wear is spread over the whole
    sector, and what a power cut during a save can do. */
module OnOffLogProofs {
  import opened NorFlash
  import opened OnOffLog

  // ----- scanning

  lemma {:induction false} RunTo(mem: Mem, k: nat, e: nat)
    requires LogFits(mem) && k <= e <= SLOTS
    requires forall j :: k <= j < e ==> IsRecord(Slot(mem, j))
    requires e < SLOTS ==> !IsRecord(Slot(mem, e))
    ensures RunEnd(mem, k) == e
    decreases e - k
  {
    if k < e { RunTo(mem, k + 1, e); }
  }

  lemma {:induction false} FirstTo(mem: Mem, k: nat, f: nat)
    requires LogFits(mem) && k <= f < SLOTS && IsRecord(Slot(mem, f))
    requires forall j :: k <= j < f ==> !IsRecord(Slot(mem, j))
    ensures FirstRecord(mem, k) == f
    decreases f - k
  {
    if k < f { FirstTo(mem, k + 1, f); }
  }

  /** Slots f to k are the first unbroken run of records. */
  predicate FirstRun(mem: Mem, f: nat, k: nat) {
    && LogFits(mem) && f <= k < SLOTS
    && (forall j :: 0 <= j < f ==> !IsRecord(Slot(mem, j)))
    && (forall j :: f <= j <= k ==> IsRecord(Slot(mem, j)))
    && (k + 1 < SLOTS ==> !IsRecord(Slot(mem, k + 1)))
  }

  lemma FirstRunNewest(mem: Mem, f: nat, k: nat)
    requires FirstRun(mem, f, k)
    ensures Newest(mem) == Some(k)
  {
    FirstTo(mem, 0, f);
    RunTo(mem, f, k + 1);
  }

  lemma NewestMeans(mem: Mem, k: nat) returns (f: nat)
    requires LogFits(mem) && Newest(mem) == Some(k)
    ensures FirstRun(mem, f, k)
  {
    f := FirstRecord(mem, 0);
  }

  /** A run that starts in slot 0 and stops after slot k restores slot k. */
  lemma NewestOfRun(mem: Mem, k: nat)
    requires LogFits(mem) && k < SLOTS
    requires forall j :: 0 <= j <= k ==> IsRecord(Slot(mem, j))
    requires k + 1 < SLOTS ==> !IsRecord(Slot(mem, k + 1))
    ensures Newest(mem) == Some(k)
  {
    FirstRunNewest(mem, 0, k);
  }

  /** Slots up to the one behind the newest decide what is newest. */
  lemma NewestKept(mem: Mem, m: Mem, k: nat)
    requires LogFits(mem) && LogFits(m) && Newest(mem) == Some(k)
    requires forall j :: 0 <= j <= k + 1 && j < SLOTS ==> Slot(m, j) == Slot(mem, j)
    ensures Newest(m) == Some(k)
  {
    var f := NewestMeans(mem, k);
    FirstRunNewest(m, f, k);
  }

  lemma ErasedSlot(mem: Mem, k: nat)
    requires LogFits(mem) && k < SLOTS && IsErased(mem, BEGIN + SLOT * k, END)
    ensures Slot(mem, k) == [0xFF, 0xFF, 0xFF] && !IsRecord(Slot(mem, k))
  {
    assert forall i :: 0 <= i < 3 ==> Slot(mem, k)[i] == mem[BEGIN + SLOT * k + i];
  }

  lemma WellFormedNewest(mem: Mem, k: nat, status: byte)
    requires WellFormed(mem, k, status)
    ensures Newest(mem) == Some(k)
  {
    if k + 1 < SLOTS { ErasedSlot(mem, k + 1); }
    NewestOfRun(mem, k);
  }

  lemma SlotKept(m: Mem, mem: Mem, j: nat)
    requires LogFits(mem) && |m| == |mem| && j < SLOTS
    requires forall i :: BEGIN + SLOT * j <= i < BEGIN + SLOT * j + 3 ==> m[i] == mem[i]
    ensures Slot(m, j) == Slot(mem, j)
  {
  }

  // ----- one save

  /** A save lands on erased flash and leaves a well-formed log one slot further on. */
  lemma SaveStep(mem: Mem, k: nat, status: byte, status': byte)
    requires WellFormed(mem, k, status) && |mem| % SECTOR == 0
    ensures WellFormed(Saved(mem, k, status'), Next(k), status')
    ensures var ready := if Next(k) == 0 then EraseSector(mem, BEGIN) else mem;
            IsErased(ready, BEGIN + SLOT * Next(k), BEGIN + SLOT * Next(k) + SLOT)
  {
    var n := Next(k);
    var ready := if n == 0 then EraseSector(mem, BEGIN) else mem;
    assert SectorOf(BEGIN) == BEGIN;
    assert IsErased(ready, BEGIN + SLOT * n, END);
    forall j | 0 <= j < n ensures IsRecord(Slot(ready, j)) {
    }
    WriteRecord(ready, n, status');
  }

  /** Writing a record into the first erased slot after a run of records. */
  lemma WriteRecord(ready: Mem, n: nat, status: byte)
    requires LogFits(ready) && n < SLOTS && IsErased(ready, BEGIN + SLOT * n, END)
    requires forall j :: 0 <= j < n ==> IsRecord(Slot(ready, j))
    ensures WellFormed(Program(ready, BEGIN + SLOT * n, Record(status)), n, status)
  {
    RecordWritten(ready, n, Record(status));
  }

  lemma RecordWritten(ready: Mem, n: nat, rec: seq<byte>)
    requires LogFits(ready) && n < SLOTS && IsErased(ready, BEGIN + SLOT * n, END) && |rec| == 3
    ensures var m := Program(ready, BEGIN + SLOT * n, rec);
      && Slot(m, n) == rec && IsErased(m, BEGIN + SLOT * (n + 1), END)
      && forall j :: 0 <= j < n ==> Slot(m, j) == Slot(ready, j)
  {
    var a := BEGIN + SLOT * n;
    ProgramErased(ready, a, rec);
    forall j | 0 <= j < n ensures Slot(Program(ready, a, rec), j) == Slot(ready, j) {
      EarlierSlot(ready, a, rec, j);
    }
  }

  lemma EarlierSlot(mem: Mem, a: nat, rec: seq<byte>, j: nat)
    requires LogFits(mem) && j < SLOTS && BEGIN + SLOT * j + 3 <= a
    ensures Slot(Program(mem, a, rec), j) == Slot(mem, j)
  {
  }

  lemma DefaultStep(mem: Mem)
    requires LogFits(mem)
    ensures WellFormed(Defaulted(mem), 0, OFF)
  {
    assert SectorOf(BEGIN) == BEGIN;
    WriteRecord(EraseSector(mem, BEGIN), 0, OFF);
  }

  // ----- runs of saves and restarts

  datatype Event = SaveStatus(status: byte) | Restart

  /** The device between events: its flash, the newest slot and the live status, and how often
      the sector has been erased. */
  datatype Device = Device(mem: Mem, slot: nat, status: byte, erases: nat)

  function Step(d: Device, e: Event): (d': Device)
    requires LogFits(d.mem) && d.slot < SLOTS
    ensures LogFits(d'.mem) && d'.slot < SLOTS
  {
    match e
    case SaveStatus(s) =>
      Device(Saved(d.mem, d.slot, s), Next(d.slot), s, d.erases + if Next(d.slot) == 0 then 1 else 0)
    case Restart =>
      match Newest(d.mem)
      case None => Device(Defaulted(d.mem), 0, OFF, d.erases + 1)
      case Some(k) => d.(slot := k, status := Slot(d.mem, k)[1])
  }

  function Run(d: Device, events: seq<Event>): (d': Device)
    requires LogFits(d.mem) && d.slot < SLOTS
    ensures LogFits(d'.mem) && d'.slot < SLOTS
  {
    if events == [] then d else Step(Run(d, events[..|events| - 1]), events[|events| - 1])
  }

  /** The status saved last, or the initial one. */
  function LastSaved(events: seq<Event>, initial: byte): byte {
    if events == [] then initial
    else match events[|events| - 1]
         case SaveStatus(s) => s
         case Restart => LastSaved(events[..|events| - 1], initial)
  }

  function Saves(events: seq<Event>): nat {
    if events == [] then 0
    else Saves(events[..|events| - 1]) + if events[|events| - 1].SaveStatus? then 1 else 0
  }

  ghost predicate Sound(d: Device) {
    WellFormed(d.mem, d.slot, d.status) && |d.mem| % SECTOR == 0
  }

  lemma StepKeeps(d: Device, e: Event)
    requires Sound(d)
    ensures Sound(Step(d, e)) && |Step(d, e).mem| == |d.mem|
    ensures e.Restart? ==> Step(d, e) == d
    ensures e.SaveStatus? ==> Step(d, e).status == e.status && Step(d, e).slot == Next(d.slot)
  {
    match e {
      case SaveStatus(s) => SaveStep(d.mem, d.slot, d.status, s);
      case Restart => WellFormedNewest(d.mem, d.slot, d.status);
    }
  }

  /** Refinement: whatever the order of saves and restarts, the device holds the status saved
      last, at the end of a well-formed log. */
  lemma {:induction false} RunSound(d: Device, events: seq<Event>)
    requires Sound(d)
    ensures Sound(Run(d, events)) && |Run(d, events).mem| == |d.mem|
    ensures Run(d, events).status == LastSaved(events, d.status)
  {
    if events != [] {
      var before := events[..|events| - 1];
      RunSound(d, before);
      StepKeeps(Run(d, before), events[|events| - 1]);
    }
  }

  /** Every save moves one slot on, and every lap of the sector erases once. */
  lemma {:induction false} RunCounts(d: Device, events: seq<Event>)
    requires Sound(d)
    ensures d.slot + Saves(events) == SLOTS * (Run(d, events).erases - d.erases) + Run(d, events).slot
  {
    if events != [] {
      var before := events[..|events| - 1];
      RunCounts(d, before);
      RunSound(d, before);
      StepCounts(Run(d, before), events[|events| - 1]);
    }
  }

  lemma StepCounts(d: Device, e: Event)
    requires Sound(d)
    ensures d.slot + (if e.SaveStatus? then 1 else 0) == SLOTS * (Step(d, e).erases - d.erases) + Step(d, e).slot
  {
    StepKeeps(d, e);
  }

  /** Wear: the slot and the number of erases follow from the number of saves alone. */
  lemma RunWear(d: Device, events: seq<Event>)
    requires Sound(d)
    ensures Run(d, events).slot == (d.slot + Saves(events)) % SLOTS
    ensures Run(d, events).erases == d.erases + (d.slot + Saves(events)) / SLOTS
  {
    var r, x := Run(d, events), d.slot + Saves(events);
    RunCounts(d, events);
    Laps(x, r.erases - d.erases, r.slot);
  }

  /** In particular a restart after any run changes nothing the device knows. */
  lemma RestartIsInvisible(d: Device, events: seq<Event>)
    requires Sound(d)
    ensures Step(Run(d, events), Restart) == Run(d, events)
  {
    RunSound(d, events);
    StepKeeps(Run(d, events), Restart);
  }

  lemma Laps(x: nat, laps: int, slot: nat)
    requires x == SLOTS * laps + slot && slot < SLOTS
    ensures slot == x % SLOTS && laps == x / SLOTS
  {
  }

  // ----- a power cut during a save

  predicate IsStatus(s: byte) {
    s == OFF || s == ON
  }

  /** Some bytes of a record, the others still erased. */
  ghost predicate IsPart(r: seq<byte>, record: seq<byte>) {
    |r| == 3 && |record| == 3 && forall i :: 0 <= i < 3 ==> r[i] == 0xFF || r[i] == record[i]
  }

  /** A record cut short in an erased slot is not mistaken for a record. */
  lemma PartRecord(r: seq<byte>, status: byte)
    requires IsStatus(status) && IsPart(r, Record(status))
    ensures IsRecord(r) <==> r == Record(status)
  {
    assert r == [r[0], r[1], r[2]];
    assert (r[0] == 0xFF || r[0] == ID) && (r[1] == 0xFF || r[1] == status) && (r[2] == 0xFF || r[2] == ID + status);
  }

  /** Records up to slot k, then a slot that holds r, then erased slots. */
  ghost predicate LogThen(m: Mem, k: nat, status: byte, r: seq<byte>) {
    && LogFits(m) && k + 1 < SLOTS
    && (forall j :: 0 <= j <= k ==> IsRecord(Slot(m, j)))
    && Slot(m, k) == Record(status) && Slot(m, k + 1) == r
    && IsErased(m, BEGIN + SLOT * (k + 2), END)
  }

  /** What a restart finds in such a log. */
  lemma NewestThen(m: Mem, k: nat, status: byte, r: seq<byte>)
    requires LogThen(m, k, status, r)
    ensures Newest(m) == Some(if IsRecord(r) then k + 1 else k)
  {
    if IsRecord(r) {
      if k + 2 < SLOTS { ErasedSlot(m, k + 2); }
      NewestOfRun(m, k + 1);
    } else {
      NewestOfRun(m, k);
    }
  }

  /** Power lost while a record is written behind slot k: part of it is there. */
  lemma TornWrite(mem: Mem, k: nat, status: byte, status': byte, m: Mem)
    requires WellFormed(mem, k, status) && k + 1 < SLOTS
    requires Torn(mem, Write(BEGIN + SLOT * (k + 1), Record(status')), m)
    ensures LogFits(m) && LogThen(m, k, status, Slot(m, k + 1))
    ensures IsPart(Slot(m, k + 1), Record(status'))
    ensures Slot(m, k + 1) == Record(status') ==> m == Saved(mem, k, status')
  {
    TornRun(mem, k, status, Record(status'), m);
    TornRecord(mem, k, Record(status'), m);
    if Slot(m, k + 1) == Record(status') { SavedIs(mem, k, status'); }
  }

  lemma SavedIs(mem: Mem, k: nat, status': byte)
    requires LogFits(mem) && k + 1 < SLOTS
    ensures Saved(mem, k, status') == Program(mem, BEGIN + SLOT * (k + 1), Record(status'))
  {
  }

  lemma TornRecord(mem: Mem, k: nat, rec: seq<byte>, m: Mem)
    requires LogFits(mem) && k + 1 < SLOTS && IsErased(mem, BEGIN + SLOT * (k + 1), END) && |rec| == 3
    requires Torn(mem, Write(BEGIN + SLOT * (k + 1), rec), m)
    ensures IsPart(Slot(m, k + 1), rec)
    ensures Slot(m, k + 1) == rec ==> m == Program(mem, BEGIN + SLOT * (k + 1), rec)
  {
    var a := BEGIN + SLOT * (k + 1);
    TornPart(mem, a, rec, m);
    if m[a..a + 3] == rec { TornWhole(mem, a, rec, m); }
  }

  /** The records before it and the erased space behind it are untouched. */
  lemma TornRun(mem: Mem, k: nat, status: byte, rec: seq<byte>, m: Mem)
    requires WellFormed(mem, k, status) && k + 1 < SLOTS && |rec| == 3
    requires Torn(mem, Write(BEGIN + SLOT * (k + 1), rec), m)
    ensures LogFits(m) && LogThen(m, k, status, Slot(m, k + 1))
  {
    TornFrame(mem, Write(BEGIN + SLOT * (k + 1), rec), m);
    forall j | 0 <= j <= k ensures Slot(m, j) == Slot(mem, j) {
      SlotKept(m, mem, j);
    }
  }

  lemma TornPart(mem: Mem, a: nat, rec: seq<byte>, m: Mem)
    requires a + 3 <= |mem| && |rec| == 3 && IsErased(mem, a, a + 3) && Torn(mem, Write(a, rec), m)
    ensures IsPart(m[a..a + 3], rec)
  {
    forall i | 0 <= i < 3 ensures m[a..a + 3][i] == 0xFF || m[a..a + 3][i] == rec[i] {
      ProgramPrefix(mem, a, rec, 3, a + i);
      assert rec[..3] == rec;
      assert m[a + i] == mem[a + i] || m[a + i] == 0xFF & rec[i];
    }
  }

  lemma TornWhole(mem: Mem, a: nat, rec: seq<byte>, m: Mem)
    requires a + 3 <= |mem| && |rec| == 3 && IsErased(mem, a, a + 3)
    requires Torn(mem, Write(a, rec), m) && m[a..a + 3] == rec
    ensures m == Program(mem, a, rec)
  {
    TornFrame(mem, Write(a, rec), m);
    ProgramErased(mem, a, rec);
    var full := Program(mem, a, rec);
    forall i | 0 <= i < |m| ensures m[i] == full[i] {
      if a <= i < a + 3 { assert m[i] == m[a..a + 3][i - a] == full[a..a + 3][i - a]; }
    }
  }

  /** Power lost while the record is being written, without a wrap: whichever bytes made it, a
      restart finds the previous record, or the new one if all of it was written. */
  lemma TornSave(mem: Mem, k: nat, status: byte, status': byte, m: Mem)
    requires WellFormed(mem, k, status) && k + 1 < SLOTS && IsStatus(status')
    requires Torn(mem, Write(BEGIN + SLOT * (k + 1), Record(status')), m)
    ensures LogFits(m)
    ensures (m == Saved(mem, k, status') && Newest(m) == Some(k + 1))
            || (Newest(m) == Some(k) && Slot(m, k) == Record(status))
  {
    TornWrite(mem, k, status, status', m);
    PartRecord(Slot(m, k + 1), status');
    NewestThen(m, k, status, Slot(m, k + 1));
  }

  /** Power lost while the first record after a wrap is being written: the old records are gone,
      and a restart finds the new record if all of it was written and otherwise starts over with
      the OFF default. */
  lemma TornWrap(mem: Mem, status': byte, m: Mem)
    requires LogFits(mem) && IsStatus(status')
    requires Torn(EraseSector(mem, BEGIN), Write(BEGIN, Record(status')), m)
    ensures LogFits(m)
    ensures (m == Saved(mem, SLOTS - 1, status') && Newest(m) == Some(0)) || Newest(m) == None
  {
    var ready := EraseSector(mem, BEGIN);
    assert SectorOf(BEGIN) == BEGIN;
    TornPart(ready, BEGIN, Record(status'), m);
    PartRecord(Slot(m, 0), status');
    TornFrame(ready, Write(BEGIN, Record(status')), m);
    assert IsErased(m, BEGIN + SLOT, END);
    if IsRecord(Slot(m, 0)) {
      TornWhole(ready, BEGIN, Record(status'), m);
      ErasedSlot(m, 1);
      NewestOfRun(m, 0);
    } else {
      NoRecords(m, 0);
    }
  }

  lemma {:induction false} NoRecords(m: Mem, k: nat)
    requires LogFits(m) && k < SLOTS && !IsRecord(Slot(m, k)) && IsErased(m, BEGIN + SLOT * (k + 1), END)
    ensures FirstRecord(m, k) == SLOTS
    decreases SLOTS - k
  {
    if k + 1 < SLOTS {
      ErasedSlot(m, k + 1);
      NoRecords(m, k + 1);
    }
  }

  /** Every record of a full log carries OFF or ON. */
  ghost predicate AllStatuses(mem: Mem) {
    LogFits(mem) && forall j :: 0 <= j < SLOTS ==> Slot(mem, j) == Record(OFF) || Slot(mem, j) == Record(ON)
  }

  /** Power lost while the full sector is being erased: a restart can only find a record that was
      in the log, though not necessarily its newest one, or start over with the OFF default. */
  lemma TornErase(mem: Mem, m: Mem)
    requires AllStatuses(mem) && Torn(mem, Erase(BEGIN), m)
    ensures LogFits(m)
    ensures Newest(m).Some? ==> Slot(m, Newest(m).value) == Slot(mem, Newest(m).value)
  {
    if Newest(m).Some? {
      var j := Newest(m).value;
      var r, old_ := Slot(m, j), Slot(mem, j);
      assert SectorOf(BEGIN) == BEGIN;
      forall i | 0 <= i < 3 ensures r[i] == 0xFF || r[i] == old_[i] {
        assert r[i] == m[BEGIN + SLOT * j + i] && old_[i] == mem[BEGIN + SLOT * j + i];
      }
      PartRecord(r, old_[1]);
    }
  }

  // ----- what cuts leave behind

  /** The checksum byte of OFF programmed over that of ON; also that of a record with status 0xFF. */
  const BOTH: byte := 0x64

  /** Bytes of OFF and ON records, or erased, in any mixture. */
  predicate Scrap(r: seq<byte>) {
    && |r| == 3 && (r[0] == 0xFF || r[0] == ID) && (r[1] == 0xFF || r[1] == OFF || r[1] == ON)
    && (r[2] == 0xFF || r[2] == ID + OFF || r[2] == ID + ON || r[2] == BOTH)
  }

  ghost predicate Scraps(mem: Mem) {
    LogFits(mem) && forall k :: 0 <= k < SLOTS ==> Scrap(Slot(mem, k))
  }

  /** The statuses a record of such bytes can show. */
  predicate Known(status: byte) {
    status == OFF || status == ON || status == 0xFF
  }

  lemma ScrapRecord(r: seq<byte>)
    requires Scrap(r) && IsRecord(r)
    ensures r == Record(r[1]) && Known(r[1]) && (r[1] == 0xFF <==> r[2] == BOTH)
  {
    assert r == [r[0], r[1], r[2]];
  }

  /** Each byte of the slot is what it was, erased, or the record's byte programmed over it. */
  lemma ScrapNext(r: seq<byte>, status: byte, w: seq<byte>)
    requires Scrap(r) && Known(status) && |w| == 3
    requires forall i :: 0 <= i < 3 ==> w[i] == r[i] || w[i] == 0xFF || w[i] == r[i] & Record(status)[i]
    ensures Scrap(w)
  {
    assert w[0] == r[0] || w[0] == 0xFF || w[0] == r[0] & ID;
    assert w[1] == r[1] || w[1] == 0xFF || w[1] == r[1] & status;
    assert w[2] == r[2] || w[2] == 0xFF || w[2] == r[2] & (ID + status);
  }

  /** A sector erase, cut short or not. */
  lemma EraseScraps(mem: Mem, m: Mem)
    requires Scraps(mem) && Torn(mem, Erase(BEGIN), m)
    ensures Scraps(m)
  {
    assert SectorOf(BEGIN) == BEGIN;
    forall k | 0 <= k < SLOTS ensures Scrap(Slot(m, k)) {
      assert Slot(m, k)[0] == m[BEGIN + SLOT * k] && Slot(mem, k)[0] == mem[BEGIN + SLOT * k];
      assert Slot(m, k)[1] == m[BEGIN + SLOT * k + 1] && Slot(mem, k)[1] == mem[BEGIN + SLOT * k + 1];
      assert Slot(m, k)[2] == m[BEGIN + SLOT * k + 2] && Slot(mem, k)[2] == mem[BEGIN + SLOT * k + 2];
      ScrapNext(Slot(mem, k), OFF, Slot(m, k));
    }
  }

  /** A record written into a slot, cut short or not. */
  lemma WriteScraps(mem: Mem, n: nat, status: byte, m: Mem)
    requires Scraps(mem) && n < SLOTS && Known(status)
    requires Torn(mem, Write(BEGIN + SLOT * n, Record(status)), m)
    ensures Scraps(m)
  {
    TornFrame(mem, Write(BEGIN + SLOT * n, Record(status)), m);
    forall k | 0 <= k < SLOTS ensures Scrap(Slot(m, k)) {
      if k == n { SlotWritten(mem, n, Record(status), m); ScrapNext(Slot(mem, n), status, Slot(m, n)); }
      else { SlotKept(m, mem, k); }
    }
  }

  lemma SlotWritten(mem: Mem, n: nat, rec: seq<byte>, m: Mem)
    requires LogFits(mem) && n < SLOTS && |rec| == 3 && Torn(mem, Write(BEGIN + SLOT * n, rec), m)
    ensures forall i :: 0 <= i < 3 ==> Slot(m, n)[i] == Slot(mem, n)[i] || Slot(m, n)[i] == Slot(mem, n)[i] & rec[i]
  {
    var a := BEGIN + SLOT * n;
    forall i | 0 <= i < 3 ensures Slot(m, n)[i] == Slot(mem, n)[i] || Slot(m, n)[i] == Slot(mem, n)[i] & rec[i] {
      ProgramPrefix(mem, a, rec, 3, a + i);
      assert rec[..3] == rec;
      assert Slot(m, n)[i] == m[a + i] && Slot(mem, n)[i] == mem[a + i];
    }
  }

  // ----- the save after a cut

  /** Whether a record can still be programmed over what the slot holds. */
  predicate Programmable(r: seq<byte>, record: seq<byte>)
    requires |r| == 3 && |record| == 3
  {
    r[0] & record[0] == record[0] && r[1] & record[1] == record[1] && r[2] & record[2] == record[2]
  }

  /** A restart finds this status in this slot. */
  predicate Finds(m: Mem, k: nat, status: byte)
    requires LogFits(m)
  {
    k < SLOTS && Newest(m) == Some(k) && Slot(m, k) == Record(status)
  }

  /** What comes behind slot k is out of the way of a save: the record can be programmed over slot
      k + 1, and no record stands behind that one. A save that wraps finds a fresh sector. */
  predicate Free(m: Mem, k: nat, status: byte)
    requires LogFits(m) && k < SLOTS
  {
    || k + 1 == SLOTS
    || (Programmable(Slot(m, k + 1), Record(status)) && (k + 2 < SLOTS ==> !IsRecord(Slot(m, k + 2))))
  }

  /** Whatever the flash holds: when a restart has settled on slot k, the next save is kept exactly
      when the way behind that slot is free. */
  lemma SaveKept(m: Mem, k: nat, status: byte)
    requires LogFits(m) && Newest(m) == Some(k)
    ensures Finds(Saved(m, k, status), Next(k), status) <==> Free(m, k, status)
  {
    if k + 1 == SLOTS {
      WrapHeals(m, status);
    } else {
      SavedOver(m, k, status, Saved(m, k, status));
      FoundExactly(m, k, status, Saved(m, k, status));
    }
  }

  lemma FoundExactly(m: Mem, k: nat, status: byte, m': Mem)
    requires LogFits(m) && LogFits(m') && Newest(m) == Some(k) && k + 1 < SLOTS
    requires forall j :: 0 <= j < SLOTS && j != k + 1 ==> Slot(m', j) == Slot(m, j)
    ensures Finds(m', k + 1, status)
        <==> Slot(m', k + 1) == Record(status) && (k + 2 < SLOTS ==> !IsRecord(Slot(m, k + 2)))
  {
    assert k + 2 < SLOTS ==> Slot(m', k + 2) == Slot(m, k + 2);
    if Slot(m', k + 1) == Record(status) && (k + 2 < SLOTS ==> !IsRecord(Slot(m, k + 2))) {
      var f := NewestMeans(m, k);
      OneMore(m, f, k, m');
    }
    if Finds(m', k + 1, status) { BehindNewest(m', k + 1); }
  }

  lemma BehindNewest(m: Mem, k: nat)
    requires LogFits(m) && Newest(m) == Some(k)
    ensures k + 1 < SLOTS ==> !IsRecord(Slot(m, k + 1))
  {
  }

  lemma OneMore(m: Mem, f: nat, k: nat, m': Mem)
    requires FirstRun(m, f, k) && LogFits(m') && k + 1 < SLOTS && IsRecord(Slot(m', k + 1))
    requires forall j :: 0 <= j < SLOTS && j != k + 1 ==> Slot(m', j) == Slot(m, j)
    requires k + 2 < SLOTS ==> !IsRecord(Slot(m, k + 2))
    ensures Newest(m') == Some(k + 1)
  {
    assert FirstRun(m', f, k + 1);
    FirstRunNewest(m', f, k + 1);
  }

  /** A save that wraps leaves a well-formed log behind, whatever was there. */
  lemma WrapHeals(m: Mem, status: byte)
    requires LogFits(m)
    ensures WellFormed(Saved(m, SLOTS - 1, status), 0, status) && Finds(Saved(m, SLOTS - 1, status), 0, status)
  {
    ErasedSector(m);
    var m' := Program(EraseSector(m, BEGIN), BEGIN + SLOT * 0, Record(status));
    WriteRecord(EraseSector(m, BEGIN), 0, status);
    WellFormedNewest(m', 0, status);
    assert Saved(m, SLOTS - 1, status) == m';
  }

  lemma ErasedSector(m: Mem)
    requires LogFits(m)
    ensures IsErased(EraseSector(m, BEGIN), BEGIN, END)
  {
    assert SectorOf(BEGIN) == BEGIN;
  }

  /** A record programmed over what slot k + 1 holds; the other slots stay. */
  lemma SavedOver(m: Mem, k: nat, status: byte, m': Mem)
    requires LogFits(m) && k + 1 < SLOTS && m' == Saved(m, k, status)
    ensures forall j :: 0 <= j < SLOTS && j != k + 1 ==> Slot(m', j) == Slot(m, j)
    ensures var r := Slot(m, k + 1);
      && Slot(m', k + 1) == [r[0] & ID, r[1] & status, r[2] & (ID + status)]
      && (Slot(m', k + 1) == Record(status) <==> Programmable(r, Record(status)))
  {
    SavedIs(m, k, status);
    SlotOver(m, k + 1, Record(status), m');
    OtherSlots(m, k + 1, Record(status), m');
    Triple(Slot(m', k + 1), Record(status));
  }

  lemma OtherSlots(m: Mem, n: nat, rec: seq<byte>, m': Mem)
    requires LogFits(m) && n < SLOTS && |rec| == 3 && m' == Program(m, BEGIN + SLOT * n, rec)
    ensures forall j :: 0 <= j < SLOTS && j != n ==> Slot(m', j) == Slot(m, j)
  {
    forall j | 0 <= j < SLOTS && j != n ensures Slot(m', j) == Slot(m, j) {
      SlotKept(m', m, j);
    }
  }

  lemma SlotOver(m: Mem, n: nat, rec: seq<byte>, m': Mem)
    requires LogFits(m) && n < SLOTS && |rec| == 3 && m' == Program(m, BEGIN + SLOT * n, rec)
    ensures var r, w := Slot(m, n), Slot(m', n);
      w[0] == r[0] & rec[0] && w[1] == r[1] & rec[1] && w[2] == r[2] & rec[2]
  {
    ByteOver(m, n, rec, m', 0);
    ByteOver(m, n, rec, m', 1);
    ByteOver(m, n, rec, m', 2);
  }

  lemma ByteOver(m: Mem, n: nat, rec: seq<byte>, m': Mem, i: nat)
    requires LogFits(m) && n < SLOTS && |rec| == 3 && m' == Program(m, BEGIN + SLOT * n, rec) && i < 3
    ensures Slot(m', n)[i] == Slot(m, n)[i] & rec[i]
  {
    var a := BEGIN + SLOT * n;
    ProgramPrefix(m, a, rec, 3, a + i);
    assert rec[..3] == rec;
    assert Slot(m', n)[i] == m'[a + i] && Slot(m, n)[i] == m[a + i];
  }

  lemma Triple(w: seq<byte>, rec: seq<byte>)
    requires |w| == 3 && |rec| == 3
    ensures w == [w[0], w[1], w[2]]
    ensures w == rec <==> w[0] == rec[0] && w[1] == rec[1] && w[2] == rec[2]
  {
  }

  /** OFF or ON programmed over a mixture is a record only if it came out whole. */
  lemma Overprogrammed(r: seq<byte>, status: byte)
    requires Scrap(r) && IsStatus(status) && !Programmable(r, Record(status))
    ensures !IsRecord([r[0] & ID, r[1] & status, r[2] & (ID + status)])
  {
  }

  /** The save after a cut, in every case. If its record cannot be programmed over slot k + 1 a restart
      still finds the older one: the save is lost. If it can but old records stand behind it, left
      there by a cut erase, a restart finds the last of those instead. */
  lemma SaveAfterTear(m: Mem, k: nat, status: byte)
    requires Scraps(m) && Newest(m) == Some(k) && IsStatus(status)
    ensures var m' := Saved(m, k, status);
      if Free(m, k, status) then Finds(m', Next(k), status)
      else if !Programmable(Slot(m, k + 1), Record(status)) then Newest(m') == Some(k) && Slot(m', k) == Slot(m, k)
      else var e := RunEnd(m, k + 2) - 1; e >= k + 2 && Newest(m') == Some(e) && Slot(m', e) == Slot(m, e)
  {
    SaveKept(m, k, status);
    if !Free(m, k, status) {
      SavedOver(m, k, status, Saved(m, k, status));
      if Programmable(Slot(m, k + 1), Record(status)) {
        StaleFound(m, k, Saved(m, k, status));
      } else {
        Overprogrammed(Slot(m, k + 1), status);
        OlderFound(m, k, Saved(m, k, status));
      }
    }
  }

  /** Slot k + 1 has become a record in front of others: the last of those is found. */
  lemma StaleFound(m: Mem, k: nat, m': Mem)
    requires LogFits(m) && LogFits(m') && Newest(m) == Some(k) && k + 2 < SLOTS && IsRecord(Slot(m, k + 2))
    requires IsRecord(Slot(m', k + 1)) && forall j :: 0 <= j < SLOTS && j != k + 1 ==> Slot(m', j) == Slot(m, j)
    ensures var e := RunEnd(m, k + 2) - 1; e >= k + 2 && Newest(m') == Some(e) && Slot(m', e) == Slot(m, e)
  {
    var e := RunEnd(m, k + 2) - 1;
    var f := NewestMeans(m, k);
    JoinedRun(m, f, k, m', e);
    FirstRunNewest(m', f, e);
  }

  lemma JoinedRun(m: Mem, f: nat, k: nat, m': Mem, e: nat)
    requires FirstRun(m, f, k) && LogFits(m') && k + 2 <= e < SLOTS
    requires forall j :: k + 2 <= j <= e ==> IsRecord(Slot(m, j))
    requires e + 1 < SLOTS ==> !IsRecord(Slot(m, e + 1))
    requires IsRecord(Slot(m', k + 1)) && forall j :: 0 <= j < SLOTS && j != k + 1 ==> Slot(m', j) == Slot(m, j)
    ensures FirstRun(m', f, e)
  {
  }

  /** Slot k + 1 still holds no record: what was found before is found again. */
  lemma OlderFound(m: Mem, k: nat, m': Mem)
    requires LogFits(m) && LogFits(m') && Newest(m) == Some(k) && k + 1 < SLOTS && !IsRecord(Slot(m', k + 1))
    requires forall j :: 0 <= j < SLOTS && j != k + 1 ==> Slot(m', j) == Slot(m, j)
    ensures Newest(m') == Some(k) && Slot(m', k) == Slot(m, k)
  {
    var f := NewestMeans(m, k);
    FirstRunNewest(m', f, k);
  }

  /** A concrete loss: OFF is cut off after its second byte, ON is saved next, and the restart
      after that finds the older record. */
  lemma LostSave(m: Mem, k: nat, status: byte)
    requires LogFits(m) && k + 1 < SLOTS && LogThen(m, k, status, [ID, OFF, 0xFF])
    ensures Newest(Saved(m, k, ON)) == Some(k) && Slot(Saved(m, k, ON), k) == Record(status)
  {
    NewestThen(m, k, status, [ID, OFF, 0xFF]);
    var m' := Saved(m, k, ON);
    SavedOver(m, k, ON, m');
    NewestOfRun(m', k);
  }

  /** Another one: slots 0 and 1 held a record, the erase of the full sector was cut after it had
      reached slot 1's check byte alone, and then OFF is saved. It can be programmed over slot 1, yet
      the restart after that finds the last record of the lap before. */
  lemma StaleSave(m: Mem, status: byte)
    requires LogFits(m) && Slot(m, 1) == [ID, OFF, 0xFF]
    requires forall j :: 0 <= j < SLOTS && j != 1 ==> IsRecord(Slot(m, j))
    requires Slot(m, SLOTS - 1) == Record(status)
    ensures Newest(m) == Some(0) && Programmable(Slot(m, 1), Record(OFF))
    ensures Finds(Saved(m, 0, OFF), SLOTS - 1, status)
  {
    NewestOfRun(m, 0);
    var m' := Saved(m, 0, OFF);
    SavedOver(m, 0, OFF, m');
    NewestOfRun(m', SLOTS - 1);
  }

  /** Once slot k + 1 is spoilt, no later save of the same lap is found by a restart either. */
  lemma {:induction false} LaterSavesLost(d: Device, k: nat, saves: seq<byte>)
    requires LogFits(d.mem) && k < d.slot && d.slot + |saves| < SLOTS && Newest(d.mem) == Some(k)
    ensures var r := Run(d, seq(|saves|, i requires 0 <= i < |saves| => SaveStatus(saves[i])));
            && r.slot == d.slot + |saves|
            && Newest(r.mem) == Some(k) && Slot(r.mem, k) == Slot(d.mem, k)
  {
    if saves != [] {
      var n := |saves| - 1;
      var events := seq(|saves|, i requires 0 <= i < |saves| => SaveStatus(saves[i]));
      var before := seq(n, i requires 0 <= i < n => SaveStatus(saves[..n][i]));
      assert events[..n] == before;
      LaterSavesLost(d, k, saves[..n]);
      SaveBehind(Run(d, before), k, saves[n]);
    }
  }

  lemma SaveBehind(d: Device, k: nat, status: byte)
    requires LogFits(d.mem) && k < d.slot && d.slot + 1 < SLOTS && Newest(d.mem) == Some(k)
    ensures var r := Step(d, SaveStatus(status));
            r.slot == d.slot + 1 && Newest(r.mem) == Some(k) && Slot(r.mem, k) == Slot(d.mem, k)
  {
    var r := Step(d, SaveStatus(status));
    SavedOver(d.mem, d.slot, status, r.mem);
    NewestKept(d.mem, r.mem, k);
  }

  // ----- runs with power cuts

  /** Besides saves and restarts: power lost during a save of this status, or during the default
      record's write of a restart, with the flash left holding m; the restart that follows works on m. */
  datatype Happening = Whole(event: Event) | CutSave(status: byte, m: Mem) | CutRestart(m: Mem)

  /** What a cut during a save behind slot k can leave. */
  ghost predicate CutOf(mem: Mem, k: nat, status: byte, m: Mem)
    requires LogFits(mem) && k < SLOTS
  {
    if Next(k) == 0 then
      Torn(mem, Erase(BEGIN), m) || Torn(EraseSector(mem, BEGIN), Write(BEGIN, Record(status)), m)
    else
      Torn(mem, Write(BEGIN + SLOT * Next(k), Record(status)), m)
  }

  ghost predicate Possible(d: Device, h: Happening)
    requires LogFits(d.mem) && d.slot < SLOTS
  {
    match h
    case Whole(SaveStatus(s)) => Known(s)
    case Whole(Restart) => true
    case CutSave(s, m) => Known(s) && CutOf(d.mem, d.slot, s, m)
    case CutRestart(m) => Newest(d.mem) == None && CutOf(d.mem, SLOTS - 1, OFF, m)
  }

  function Happens(d: Device, h: Happening): (d': Device)
    requires LogFits(d.mem) && d.slot < SLOTS && (!h.Whole? ==> LogFits(h.m))
    ensures LogFits(d'.mem) && d'.slot < SLOTS
  {
    match h
    case Whole(e) => Step(d, e)
    case CutSave(_, m) => Step(d.(mem := m), Restart)
    case CutRestart(m) => Step(d.(mem := m), Restart)
  }

  ghost predicate Cuts(d: Device) {
    Scraps(d.mem) && d.slot < SLOTS && Known(d.status)
  }

  lemma CutScraps(mem: Mem, k: nat, status: byte, m: Mem)
    requires Scraps(mem) && k < SLOTS && Known(status) && CutOf(mem, k, status, m)
    ensures Scraps(m)
  {
    if Next(k) == 0 {
      ErasedScraps(mem);
      if Torn(mem, Erase(BEGIN), m) {
        EraseScraps(mem, m);
      } else {
        WriteScraps(EraseSector(mem, BEGIN), 0, status, m);
      }
    } else {
      WriteScraps(mem, Next(k), status, m);
    }
  }

  lemma SavedScraps(mem: Mem, k: nat, status: byte)
    requires Scraps(mem) && k < SLOTS && Known(status)
    ensures Scraps(Saved(mem, k, status))
  {
    if Next(k) == 0 {
      ErasedScraps(mem);
      WrittenScraps(EraseSector(mem, BEGIN), 0, status);
    } else {
      WrittenScraps(mem, Next(k), status);
    }
  }

  lemma ErasedScraps(mem: Mem)
    requires Scraps(mem)
    ensures Scraps(EraseSector(mem, BEGIN))
  {
    Done(mem, Erase(BEGIN));
    EraseScraps(mem, EraseSector(mem, BEGIN));
  }

  lemma WrittenScraps(mem: Mem, n: nat, status: byte)
    requires Scraps(mem) && n < SLOTS && Known(status)
    ensures Scraps(Program(mem, BEGIN + SLOT * n, Record(status)))
  {
    Done(mem, Write(BEGIN + SLOT * n, Record(status)));
    WriteScraps(mem, n, status, Program(mem, BEGIN + SLOT * n, Record(status)));
  }

  /** A completed operation is a cut that came too late. */
  lemma Done(mem: Mem, op: Op)
    ensures Torn(mem, op, Apply(mem, op))
  {
  }

  lemma RestartScraps(d: Device)
    requires Scraps(d.mem) && d.slot < SLOTS
    ensures Cuts(Step(d, Restart))
  {
    match Newest(d.mem) {
      case None => assert Defaulted(d.mem) == Saved(d.mem, SLOTS - 1, OFF); SavedScraps(d.mem, SLOTS - 1, OFF);
      case Some(k) => ScrapRecord(Slot(d.mem, k));
    }
  }

  lemma HappeningKeeps(d: Device, h: Happening)
    requires Cuts(d) && Possible(d, h)
    ensures !h.Whole? ==> LogFits(h.m)
    ensures Cuts(Happens(d, h))
  {
    match h {
      case Whole(SaveStatus(s)) => SavedScraps(d.mem, d.slot, s);
      case Whole(Restart) => RestartScraps(d);
      case CutSave(s, m) => CutScraps(d.mem, d.slot, s, m); RestartScraps(d.(mem := m));
      case CutRestart(m) => CutScraps(d.mem, SLOTS - 1, OFF, m); RestartScraps(d.(mem := m));
    }
  }

  /** d is where a run of saves, restarts and power cuts from the first device can lead. */
  ghost predicate Leads(d: Device, hs: seq<Happening>, end: Device)
    requires Cuts(d)
    decreases |hs|
  {
    if hs == [] then end == d
    else Possible(d, hs[0]) && (HappeningKeeps(d, hs[0]); Leads(Happens(d, hs[0]), hs[1..], end))
  }

  /** Over every run of saves, restarts and power cuts, wherever they hit: every slot holds bytes of OFF
      and ON records only, and the device never shows another status than OFF, ON, or 0xFF. */
  lemma {:induction false} CutRunKeeps(d: Device, hs: seq<Happening>, end: Device)
    requires Cuts(d) && Leads(d, hs, end)
    ensures Cuts(end)
    decreases |hs|
  {
    if hs != [] {
      HappeningKeeps(d, hs[0]);
      CutRunKeeps(Happens(d, hs[0]), hs[1..], end);
    }
  }

  /** And the next save that wraps puts the log in order again, from where RunSound takes over. */
  lemma WrapEndsIt(d: Device, hs: seq<Happening>, end: Device, status: byte)
    requires Cuts(d) && Leads(d, hs, end) && end.slot == SLOTS - 1 && |end.mem| % SECTOR == 0
    ensures Cuts(end) && Sound(Step(end, SaveStatus(status)))
  {
    CutRunKeeps(d, hs, end);
    WrapHeals(end.mem, status);
  }

  /** A write into slot k + 1 leaves the log around it as it was. */
  lemma TornBehind(m: Mem, k: nat, status: byte, status': byte, m': Mem)
    requires LogFits(m) && k + 1 < SLOTS && LogThen(m, k, status, Slot(m, k + 1))
    requires Torn(m, Write(BEGIN + SLOT * (k + 1), Record(status')), m')
    ensures LogFits(m') && LogThen(m', k, status, Slot(m', k + 1))
  {
    TornFrame(m, Write(BEGIN + SLOT * (k + 1), Record(status')), m');
    forall j | 0 <= j <= k ensures Slot(m', j) == Slot(m, j) {
      SlotKept(m', m, j);
    }
  }
}
