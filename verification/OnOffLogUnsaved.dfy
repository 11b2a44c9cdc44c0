/** When power cuts make the on/off log show the status 0xFF, which nobody saved; and that the memories
    which the concrete losses start from are left by cuts. */
module OnOffLogUnsaved {
  import opened NorFlash
  import opened OnOffLog
  import opened OnOffLogProofs

  const BLANK: seq<byte> := [0xFF, 0xFF, 0xFF]

  /** The log with other bytes in one slot. */
  function WithSlot(mem: Mem, n: nat, w: seq<byte>): (m: Mem)
    requires LogFits(mem) && n < SLOTS && |w| == 3
    ensures |m| == |mem|
  {
    mem[..BEGIN + SLOT * n] + w + mem[BEGIN + SLOT * n + 3..]
  }

  lemma WithSlotIs(mem: Mem, n: nat, w: seq<byte>)
    requires LogFits(mem) && n < SLOTS && |w| == 3
    ensures Slot(WithSlot(mem, n, w), n) == w
    ensures forall j :: 0 <= j < SLOTS && j != n ==> Slot(WithSlot(mem, n, w), j) == Slot(mem, j)
  {
    var m := WithSlot(mem, n, w);
    forall j | 0 <= j < SLOTS && j != n ensures Slot(m, j) == Slot(mem, j) {
      SlotKept(m, mem, j);
    }
  }

  // ----- what a restart shows

  /** A restart on this log shows the status 0xFF. */
  predicate Shows(mem: Mem)
    requires LogFits(mem)
  {
    Newest(mem).Some? && Slot(mem, Newest(mem).value)[1] == 0xFF
  }

  /** Which slot a restart settles on depends only on which slots hold records. */
  lemma SameRecords(mem: Mem, m: Mem)
    requires LogFits(mem) && LogFits(m)
    requires forall j :: 0 <= j < SLOTS ==> (IsRecord(Slot(m, j)) <==> IsRecord(Slot(mem, j)))
    ensures Newest(m) == Newest(mem)
  {
    if Newest(mem).Some? {
      var f := NewestMeans(mem, Newest(mem).value);
      FirstRunNewest(m, f, Newest(mem).value);
    }
  }

  /** The slot a restart settles on if slot n holds a record. */
  function IfRecord(mem: Mem, n: nat): (o: Option<nat>)
    requires LogFits(mem) && n < SLOTS
    ensures o.Some? ==> o.value < SLOTS
  {
    Newest(WithSlot(mem, n, Record(OFF)))
  }

  /** The slot it settles on if slot n holds none. */
  function IfNone(mem: Mem, n: nat): (o: Option<nat>)
    requires LogFits(mem) && n < SLOTS
    ensures o.Some? ==> o.value < SLOTS && o.value != n
  {
    WithSlotIs(mem, n, BLANK);
    Newest(WithSlot(mem, n, BLANK))
  }

  lemma SettlesOn(mem: Mem, n: nat, w: seq<byte>)
    requires LogFits(mem) && n < SLOTS && |w| == 3
    ensures Newest(WithSlot(mem, n, w)) == if IsRecord(w) then IfRecord(mem, n) else IfNone(mem, n)
  {
    WithSlotIs(mem, n, w);
    WithSlotIs(mem, n, BLANK);
    WithSlotIs(mem, n, Record(OFF));
    SameRecords(WithSlot(mem, n, if IsRecord(w) then Record(OFF) else BLANK), WithSlot(mem, n, w));
  }

  lemma SlotShows(mem: Mem, n: nat, w: seq<byte>)
    requires LogFits(mem) && n < SLOTS && |w| == 3
    ensures var p := if IsRecord(w) then IfRecord(mem, n) else IfNone(mem, n);
      Shows(WithSlot(mem, n, w)) <==>
      (p.Some? && (if p.value == n then w[1] else Slot(mem, p.value)[1]) == 0xFF)
  {
    SettlesOn(mem, n, w);
    WithSlotIs(mem, n, w);
  }

  // ----- a cut write

  /** The bytes rec programmed over the bytes r. */
  function Over(r: seq<byte>, rec: seq<byte>): (p: seq<byte>)
    requires |r| == 3 && |rec| == 3
    ensures |p| == 3
  {
    [r[0] & rec[0], r[1] & rec[1], r[2] & rec[2]]
  }

  /** Each byte of w is that of r or that of p. */
  predicate Between(r: seq<byte>, p: seq<byte>, w: seq<byte>) {
    && |r| == 3 && |p| == 3 && |w| == 3
    && (w[0] == r[0] || w[0] == p[0]) && (w[1] == r[1] || w[1] == p[1]) && (w[2] == r[2] || w[2] == p[2])
  }

  /** w is left of slot bytes r by a cut while rec is programmed over them. */
  predicate CutBytes(r: seq<byte>, rec: seq<byte>, w: seq<byte>) {
    |r| == 3 && |rec| == 3 && Between(r, Over(r, rec), w)
  }

  lemma Programmed(mem: Mem, n: nat, rec: seq<byte>, after: Mem)
    requires LogFits(mem) && n < SLOTS && |rec| == 3 && after == Program(mem, BEGIN + SLOT * n, rec)
    ensures Slot(after, n) == Over(Slot(mem, n), rec)
  {
    SlotOver(mem, n, rec, after);
  }

  /** What a cut write leaves. */
  lemma CutLeaves(mem: Mem, n: nat, rec: seq<byte>, m: Mem)
    requires LogFits(mem) && n < SLOTS && |rec| == 3 && Torn(mem, Write(BEGIN + SLOT * n, rec), m)
    ensures LogFits(m) && CutBytes(Slot(mem, n), rec, Slot(m, n)) && m == WithSlot(mem, n, Slot(m, n))
  {
    var after := Program(mem, BEGIN + SLOT * n, rec);
    Programmed(mem, n, rec, after);
    TornBetween(mem, n, rec, after, m);
    TornFrame(mem, Write(BEGIN + SLOT * n, rec), m);
    OnlySlot(mem, n, m);
  }

  lemma TornBetween(mem: Mem, n: nat, rec: seq<byte>, after: Mem, m: Mem)
    requires LogFits(mem) && n < SLOTS && |rec| == 3 && after == Program(mem, BEGIN + SLOT * n, rec)
    requires Torn(mem, Write(BEGIN + SLOT * n, rec), m)
    ensures LogFits(m) && Between(Slot(mem, n), Slot(after, n), Slot(m, n))
  {
    var a := BEGIN + SLOT * n;
    assert Slot(m, n)[0] == m[a] && Slot(mem, n)[0] == mem[a] && Slot(after, n)[0] == after[a];
    assert Slot(m, n)[1] == m[a + 1] && Slot(mem, n)[1] == mem[a + 1] && Slot(after, n)[1] == after[a + 1];
    assert Slot(m, n)[2] == m[a + 2] && Slot(mem, n)[2] == mem[a + 2] && Slot(after, n)[2] == after[a + 2];
  }

  lemma OnlySlot(mem: Mem, n: nat, m: Mem)
    requires LogFits(mem) && n < SLOTS && |m| == |mem|
    requires forall i :: 0 <= i < |m| && !(BEGIN + SLOT * n <= i < BEGIN + SLOT * n + 3) ==> m[i] == mem[i]
    ensures m == WithSlot(mem, n, Slot(m, n))
  {
    var a := BEGIN + SLOT * n;
    forall i | 0 <= i < |m| ensures m[i] == WithSlot(mem, n, Slot(m, n))[i] {
      if a <= i < a + 3 { assert Slot(m, n)[i - a] == m[i]; }
    }
  }

  /** And any such bytes can be left. */
  lemma CutCanLeave(mem: Mem, n: nat, rec: seq<byte>, w: seq<byte>)
    requires LogFits(mem) && n < SLOTS && CutBytes(Slot(mem, n), rec, w)
    ensures Torn(mem, Write(BEGIN + SLOT * n, rec), WithSlot(mem, n, w))
  {
    var after := Program(mem, BEGIN + SLOT * n, rec);
    Programmed(mem, n, rec, after);
    BetweenTorn(mem, n, after, WithSlot(mem, n, w), w);
  }

  lemma BetweenTorn(mem: Mem, n: nat, after: Mem, m: Mem, w: seq<byte>)
    requires LogFits(mem) && n < SLOTS && |after| == |mem| && Between(Slot(mem, n), Slot(after, n), w)
    requires m == WithSlot(mem, n, w)
    ensures |m| == |mem| && forall i :: 0 <= i < |mem| ==> m[i] == mem[i] || m[i] == after[i]
  {
    var a := BEGIN + SLOT * n;
    assert m[a] == w[0] && Slot(mem, n)[0] == mem[a] && Slot(after, n)[0] == after[a];
    assert m[a + 1] == w[1] && Slot(mem, n)[1] == mem[a + 1] && Slot(after, n)[1] == after[a + 1];
    assert m[a + 2] == w[2] && Slot(mem, n)[2] == mem[a + 2] && Slot(after, n)[2] == after[a + 2];
    forall i | 0 <= i < |mem| ensures m[i] == mem[i] || m[i] == after[i] {
      if a <= i < a + 3 { assert i == a || i == a + 1 || i == a + 2; }
    }
  }

  /** A cut write of this status can leave the slot holding a record of status t. */
  predicate CanBecome(r: seq<byte>, status: byte, t: byte)
    requires |r| == 3
  {
    && (r[1] == t || r[1] & status == t)
    && (r[2] == ID + t || r[2] & (ID + status) == ID + t)
  }

  lemma CanBecomeExactly(r: seq<byte>, status: byte, t: byte)
    requires Scrap(r)
    ensures CanBecome(r, status, t) <==> CutBytes(r, Record(status), Record(t))
  {
    assert r[0] & ID == ID;
  }

  lemma BecomesRecord(r: seq<byte>, status: byte, w: seq<byte>)
    requires Scrap(r) && Known(status) && CutBytes(r, Record(status), w) && IsRecord(w)
    ensures Known(w[1]) && CanBecome(r, status, w[1])
  {
    CutScrap(r, status, w);
    ScrapRecord(w);
    CanBecomeExactly(r, status, w[1]);
  }

  lemma CutScrap(r: seq<byte>, status: byte, w: seq<byte>)
    requires Scrap(r) && Known(status) && CutBytes(r, Record(status), w)
    ensures Scrap(w)
  {
    CutScrapAt(r[0], r[1], r[2], status, w);
  }

  lemma CutScrapAt(a: byte, b: byte, c: byte, status: byte, w: seq<byte>)
    requires Scrap([a, b, c]) && Known(status) && |w| == 3 && (w[0] == a || w[0] == a & ID)
    requires (w[1] == b || w[1] == b & status) && (w[2] == c || w[2] == c & (ID + status))
    ensures Scrap(w)
  {
  }

  /** A cut write can leave the slot without a record unless this very record is there already. */
  lemma CanBeNone(r: seq<byte>, status: byte) returns (w: seq<byte>)
    requires Scrap(r) && Known(status) && r != Record(status)
    ensures CutBytes(r, Record(status), w) && !IsRecord(w)
  {
    if IsRecord(r) {
      ScrapRecord(r);
      w := [ID, r[1] & status, if r[1] == ON && status == OFF then ID + ON else BOTH];
    } else {
      w := r;
    }
  }

  lemma StaysRecord(status: byte, w: seq<byte>)
    requires CutBytes(Record(status), Record(status), w)
    ensures w == Record(status)
  {
    Triple(w, Record(status));
  }

  /** Some cut write of the status into slot n makes a restart show 0xFF: the slot can come to hold such a
      record and be the newest; or it can come to hold a record in front of others, the last of which is
      such a one; or it can be left without a record, and the newest then is such a one. */
  predicate WriteShows(mem: Mem, n: nat, status: byte)
    requires LogFits(mem) && n < SLOTS
  {
    var r, on, off := Slot(mem, n), IfRecord(mem, n), IfNone(mem, n);
    || (on == Some(n) && CanBecome(r, status, 0xFF))
    || (on.Some? && on.value != n && Slot(mem, on.value)[1] == 0xFF
        && (CanBecome(r, status, OFF) || CanBecome(r, status, ON) || CanBecome(r, status, 0xFF)))
    || (off.Some? && Slot(mem, off.value)[1] == 0xFF && r != Record(status))
  }

  lemma WriteShowsIf(mem: Mem, n: nat, status: byte, m: Mem)
    requires Scraps(mem) && n < SLOTS && Known(status)
    requires Torn(mem, Write(BEGIN + SLOT * n, Record(status)), m) && Shows(m)
    ensures WriteShows(mem, n, status)
  {
    var w := Slot(m, n);
    CutLeaves(mem, n, Record(status), m);
    SlotShows(mem, n, w);
    if IsRecord(w) {
      BecomesRecord(Slot(mem, n), status, w);
    } else if Slot(mem, n) == Record(status) {
      StaysRecord(status, w);
    }
  }

  lemma WriteShowsBy(mem: Mem, n: nat, status: byte) returns (m: Mem)
    requires Scraps(mem) && n < SLOTS && Known(status) && WriteShows(mem, n, status)
    ensures LogFits(m) && Torn(mem, Write(BEGIN + SLOT * n, Record(status)), m) && Shows(m)
  {
    var r, on, off := Slot(mem, n), IfRecord(mem, n), IfNone(mem, n);
    var w: seq<byte>;
    if off.Some? && Slot(mem, off.value)[1] == 0xFF && r != Record(status) {
      w := CanBeNone(r, status);
    } else {
      var t := if CanBecome(r, status, 0xFF) then 0xFF else if CanBecome(r, status, ON) then ON else OFF;
      w := Record(t);
      CanBecomeExactly(r, status, t);
    }
    SlotShows(mem, n, w);
    CutCanLeave(mem, n, Record(status), w);
    m := WithSlot(mem, n, w);
  }

  // ----- a cut erase

  /** Some slot holds the id and the check byte of a record with status 0xFF, whatever lies between. */
  predicate EraseShows(mem: Mem)
    requires LogFits(mem)
  {
    exists j :: 0 <= j < SLOTS && Slot(mem, j)[0] == ID && Slot(mem, j)[2] == BOTH
  }

  lemma EraseShowsIf(mem: Mem, m: Mem)
    requires Scraps(mem) && Torn(mem, Erase(BEGIN), m) && Shows(m)
    ensures EraseShows(mem)
  {
    EraseScraps(mem, m);
    var j := Newest(m).value;
    ScrapRecord(Slot(m, j));
    assert SectorOf(BEGIN) == BEGIN;
    assert Slot(m, j)[0] == m[BEGIN + SLOT * j] && Slot(mem, j)[0] == mem[BEGIN + SLOT * j];
    assert Slot(m, j)[2] == m[BEGIN + SLOT * j + 2] && Slot(mem, j)[2] == mem[BEGIN + SLOT * j + 2];
  }

  /** The sector erased but for the first and the last byte of slot j. */
  function AllBut(mem: Mem, j: nat): (m: Mem)
    requires LogFits(mem) && j < SLOTS
    ensures |m| == |mem|
  {
    seq(|mem|, i requires 0 <= i < |mem| =>
      if BEGIN <= i < END && i != BEGIN + SLOT * j && i != BEGIN + SLOT * j + 2 then 0xFF else mem[i])
  }

  lemma AllButIs(mem: Mem, j: nat)
    requires LogFits(mem) && j < SLOTS
    ensures Torn(mem, Erase(BEGIN), AllBut(mem, j))
    ensures Slot(AllBut(mem, j), j) == [Slot(mem, j)[0], 0xFF, Slot(mem, j)[2]]
    ensures forall k :: 0 <= k < SLOTS && k != j ==> Slot(AllBut(mem, j), k) == BLANK
  {
    assert SectorOf(BEGIN) == BEGIN;
    var m := AllBut(mem, j);
    forall k | 0 <= k < SLOTS && k != j ensures Slot(m, k) == BLANK {
      assert forall i :: 0 <= i < 3 ==> Slot(m, k)[i] == m[BEGIN + SLOT * k + i];
    }
  }

  lemma EraseShowsBy(mem: Mem) returns (m: Mem)
    requires Scraps(mem) && EraseShows(mem)
    ensures LogFits(m) && Torn(mem, Erase(BEGIN), m) && Shows(m)
  {
    var j :| 0 <= j < SLOTS && Slot(mem, j)[0] == ID && Slot(mem, j)[2] == BOTH;
    AllButIs(mem, j);
    m := AllBut(mem, j);
    assert Slot(m, j) == Record(0xFF);
    FirstRunNewest(m, j, j);
  }

  /** Into an erased sector only a save of 0xFF itself brings it. */
  lemma FreshShows(mem: Mem, status: byte)
    requires LogFits(mem) && IsErased(mem, BEGIN, END) && Known(status)
    ensures WriteShows(mem, 0, status) <==> status == 0xFF
  {
    forall j | 0 <= j < SLOTS ensures Slot(mem, j) == BLANK { ErasedSlot(mem, j); }
    WithSlotIs(mem, 0, Record(OFF));
    WithSlotIs(mem, 0, BLANK);
    FirstRunNewest(WithSlot(mem, 0, Record(OFF)), 0, 0);
    NoneFound(WithSlot(mem, 0, BLANK));
    FreshByte(status);
  }

  lemma NoneFound(m: Mem)
    requires LogFits(m) && forall j :: 0 <= j < SLOTS ==> Slot(m, j) == BLANK
    ensures Newest(m) == None
  {
  }

  lemma FreshByte(status: byte)
    requires Known(status)
    ensures CanBecome(BLANK, status, 0xFF) <==> status == 0xFF
  {
  }

  // ----- every happening

  /** A cut save of the status can make the restart after it show 0xFF. */
  ghost predicate CutSaveCan(d: Device, status: byte)
    requires LogFits(d.mem) && d.slot < SLOTS
  {
    exists m :: Possible(d, CutSave(status, m)) && LogFits(m) && Happens(d, CutSave(status, m)).status == 0xFF
  }

  /** So can a cut restart that is writing the default record. */
  ghost predicate CutRestartCan(d: Device)
    requires LogFits(d.mem) && d.slot < SLOTS
  {
    exists m :: Possible(d, CutRestart(m)) && LogFits(m) && Happens(d, CutRestart(m)).status == 0xFF
  }

  /** What must be in the log before the cut. */
  predicate CutShows(mem: Mem, k: nat, status: byte)
    requires LogFits(mem) && k < SLOTS
  {
    if k + 1 == SLOTS then status == 0xFF || EraseShows(mem) else WriteShows(mem, k + 1, status)
  }

  /** A cut behind slot k can leave a log that shows 0xFF. */
  ghost predicate CutCan(mem: Mem, k: nat, status: byte)
    requires LogFits(mem) && k < SLOTS
  {
    exists m :: CutOf(mem, k, status, m) && LogFits(m) && Shows(m)
  }

  ghost predicate TornCan(mem: Mem, op: Op) {
    exists m :: Torn(mem, op, m) && LogFits(m) && Shows(m)
  }

  lemma WriteCan(mem: Mem, n: nat, status: byte)
    requires Scraps(mem) && n < SLOTS && Known(status)
    ensures TornCan(mem, Write(BEGIN + SLOT * n, Record(status))) <==> WriteShows(mem, n, status)
  {
    if TornCan(mem, Write(BEGIN + SLOT * n, Record(status))) {
      var m :| Torn(mem, Write(BEGIN + SLOT * n, Record(status)), m) && LogFits(m) && Shows(m);
      WriteShowsIf(mem, n, status, m);
    }
    if WriteShows(mem, n, status) { var m := WriteShowsBy(mem, n, status); }
  }

  lemma EraseCan(mem: Mem)
    requires Scraps(mem)
    ensures TornCan(mem, Erase(BEGIN)) <==> EraseShows(mem)
  {
    if TornCan(mem, Erase(BEGIN)) {
      var m :| Torn(mem, Erase(BEGIN), m) && LogFits(m) && Shows(m);
      EraseShowsIf(mem, m);
    }
    if EraseShows(mem) { var m := EraseShowsBy(mem); }
  }

  lemma FreshCan(mem: Mem, ready: Mem, status: byte)
    requires Scraps(mem) && ready == EraseSector(mem, BEGIN) && Known(status)
    ensures TornCan(ready, Write(BEGIN, Record(status))) <==> status == 0xFF
  {
    ErasedScraps(mem);
    ErasedSector(mem);
    WriteCan(ready, 0, status);
    FreshShows(ready, status);
  }

  lemma WrapCan(mem: Mem, status: byte)
    requires LogFits(mem)
    ensures CutCan(mem, SLOTS - 1, status) <==>
      TornCan(mem, Erase(BEGIN)) || TornCan(EraseSector(mem, BEGIN), Write(BEGIN, Record(status)))
  {
    assert Next(SLOTS - 1) == 0;
    if CutCan(mem, SLOTS - 1, status) {
      var m :| CutOf(mem, SLOTS - 1, status, m) && LogFits(m) && Shows(m);
    }
    if TornCan(mem, Erase(BEGIN)) {
      var m :| Torn(mem, Erase(BEGIN), m) && LogFits(m) && Shows(m);
      assert CutOf(mem, SLOTS - 1, status, m);
    }
    if TornCan(EraseSector(mem, BEGIN), Write(BEGIN, Record(status))) {
      var m :| Torn(EraseSector(mem, BEGIN), Write(BEGIN, Record(status)), m) && LogFits(m) && Shows(m);
      assert CutOf(mem, SLOTS - 1, status, m);
    }
  }

  lemma LapCan(mem: Mem, k: nat, n: nat, status: byte)
    requires LogFits(mem) && n == k + 1 < SLOTS
    ensures CutCan(mem, k, status) <==> TornCan(mem, Write(BEGIN + SLOT * n, Record(status)))
  {
    forall m ensures CutOf(mem, k, status, m) <==> Torn(mem, Write(BEGIN + SLOT * n, Record(status)), m) {
      CutInLap(mem, k, n, status, m);
    }
  }

  lemma CutInLap(mem: Mem, k: nat, n: nat, status: byte, m: Mem)
    requires LogFits(mem) && n == k + 1 < SLOTS
    ensures CutOf(mem, k, status, m) <==> Torn(mem, Write(BEGIN + SLOT * n, Record(status)), m)
  {
    assert Next(k) == n;
    assert Write(BEGIN + SLOT * n, Record(status)) == Write(BEGIN + SLOT * Next(k), Record(status));
  }

  lemma CutCanExactly(mem: Mem, k: nat, status: byte)
    requires Scraps(mem) && k < SLOTS && Known(status)
    ensures CutCan(mem, k, status) <==> CutShows(mem, k, status)
  {
    if k == SLOTS - 1 { WrapCanExactly(mem, status); } else { LapCanExactly(mem, k, k + 1, status); }
  }

  lemma WrapCanExactly(mem: Mem, status: byte)
    requires Scraps(mem) && Known(status)
    ensures CutCan(mem, SLOTS - 1, status) <==> status == 0xFF || EraseShows(mem)
  {
    WrapCan(mem, status);
    EraseCan(mem);
    FreshCan(mem, EraseSector(mem, BEGIN), status);
  }

  lemma LapCanExactly(mem: Mem, k: nat, n: nat, status: byte)
    requires Scraps(mem) && n == k + 1 < SLOTS && Known(status)
    ensures CutCan(mem, k, status) <==> WriteShows(mem, n, status)
  {
    LapCan(mem, k, n, status);
    WriteCan(mem, n, status);
  }

  lemma RestartShows(d: Device, m: Mem)
    requires LogFits(m) && d.slot < SLOTS
    ensures OnOffLogProofs.Step(d.(mem := m), Restart).status == 0xFF <==> Shows(m)
  {
  }

  /** Whatever is in the log: some cut of a save shows 0xFF exactly under that condition. */
  lemma CutSaveShows(d: Device, status: byte)
    requires Cuts(d) && Known(status)
    ensures CutSaveCan(d, status) <==> CutShows(d.mem, d.slot, status)
  {
    CutSaveCut(d, status);
    CutCanExactly(d.mem, d.slot, status);
  }

  lemma CutSaveCut(d: Device, status: byte)
    requires Cuts(d) && Known(status)
    ensures CutSaveCan(d, status) <==> CutCan(d.mem, d.slot, status)
  {
    if CutSaveCan(d, status) {
      var m :| Possible(d, CutSave(status, m)) && LogFits(m) && Happens(d, CutSave(status, m)).status == 0xFF;
      RestartShows(d, m);
    }
    if CutCan(d.mem, d.slot, status) {
      var m :| CutOf(d.mem, d.slot, status, m) && LogFits(m) && Shows(m);
      RestartShows(d, m);
      assert Possible(d, CutSave(status, m));
    }
  }

  /** Some cut of a restart that finds no record does exactly if a slot holds the id and that check byte. */
  lemma CutRestartShows(d: Device)
    requires Cuts(d)
    ensures CutRestartCan(d) <==> Newest(d.mem) == None && EraseShows(d.mem)
  {
    CutRestartCut(d);
    CutCanExactly(d.mem, SLOTS - 1, OFF);
  }

  lemma CutRestartCut(d: Device)
    requires Cuts(d)
    ensures CutRestartCan(d) <==> Newest(d.mem) == None && CutCan(d.mem, SLOTS - 1, OFF)
  {
    if CutRestartCan(d) {
      var m :| Possible(d, CutRestart(m)) && LogFits(m) && Happens(d, CutRestart(m)).status == 0xFF;
      RestartShows(d, m);
    }
    if Newest(d.mem) == None && CutCan(d.mem, SLOTS - 1, OFF) {
      var m :| CutOf(d.mem, SLOTS - 1, OFF, m) && LogFits(m) && Shows(m);
      RestartShows(d, m);
      assert Possible(d, CutRestart(m));
    }
  }

  /** The slot that counts after a whole save into slot n is another one, left behind with status 0xFF: the
      last of the records behind n if the save got its record there, the newest one before it if not. */
  predicate BehindShows(mem: Mem, n: nat, status: byte)
    requires LogFits(mem) && n < SLOTS
  {
    var p := if Programmable(Slot(mem, n), Record(status)) then IfRecord(mem, n) else IfNone(mem, n);
    p.Some? && p.value != n && Slot(mem, p.value)[1] == 0xFF
  }

  /** A whole save of OFF or ON and then a restart: 0xFF shows exactly under that condition. */
  lemma WholeSaveShows(d: Device, status: byte)
    requires Cuts(d) && IsStatus(status)
    ensures OnOffLogProofs.Step(OnOffLogProofs.Step(d, SaveStatus(status)), Restart).status == 0xFF <==>
      d.slot + 1 < SLOTS && BehindShows(d.mem, d.slot + 1, status)
  {
    SaveShowsAt(d, d.mem, d.slot, status);
  }

  lemma SaveShowsAt(d: Device, mem: Mem, k: nat, status: byte)
    requires Cuts(d) && IsStatus(status) && mem == d.mem && k == d.slot
    ensures OnOffLogProofs.Step(OnOffLogProofs.Step(d, SaveStatus(status)), Restart).status == 0xFF <==>
      k + 1 < SLOTS && BehindShows(mem, k + 1, status)
  {
    var m := SaveThenRestart(d, status);
    SaveShows(mem, k, status, m);
  }

  lemma SaveShows(mem: Mem, k: nat, status: byte, m: Mem)
    requires Scraps(mem) && k < SLOTS && IsStatus(status) && m == Saved(mem, k, status)
    ensures Shows(m) <==> k + 1 < SLOTS && BehindShows(mem, k + 1, status)
  {
    if k == SLOTS - 1 { WrapShowsNot(mem, status, m); } else { SavedShows(mem, k, status, m); }
  }

  lemma SaveThenRestart(d: Device, status: byte) returns (m: Mem)
    requires LogFits(d.mem) && d.slot < SLOTS
    ensures LogFits(m) && m == Saved(d.mem, d.slot, status)
    ensures OnOffLogProofs.Step(OnOffLogProofs.Step(d, SaveStatus(status)), Restart).status == 0xFF <==> Shows(m)
  {
    m := Saved(d.mem, d.slot, status);
    RestartShows(OnOffLogProofs.Step(d, SaveStatus(status)), m);
  }

  lemma WrapShowsNot(mem: Mem, status: byte, m: Mem)
    requires LogFits(mem) && IsStatus(status) && m == Saved(mem, SLOTS - 1, status)
    ensures !Shows(m)
  {
    WrapHeals(mem, status);
    assert Record(status)[1] == status;
  }

  lemma SavedShows(mem: Mem, k: nat, status: byte, m: Mem)
    requires Scraps(mem) && k + 1 < SLOTS && IsStatus(status) && m == Saved(mem, k, status)
    ensures Shows(m) <==> BehindShows(mem, k + 1, status)
  {
    SavedOver(mem, k, status, m);
    SavedIs(mem, k, status);
    Done(mem, Write(BEGIN + SLOT * (k + 1), Record(status)));
    CutLeaves(mem, k + 1, Record(status), m);
    SlotShows(mem, k + 1, Slot(m, k + 1));
    if !Programmable(Slot(mem, k + 1), Record(status)) { Overprogrammed(Slot(mem, k + 1), status); }
  }

  /** The plain case: the device shows the newest record, and no record stands behind the next slot. Then
      it takes a status byte still erased, and a check byte that is BOTH or becomes it. */
  lemma PlainShows(d: Device, status: byte)
    requires Cuts(d) && IsStatus(d.status) && IsStatus(status) && d.slot + 1 < SLOTS
    requires Finds(d.mem, d.slot, d.status) && (d.slot + 2 < SLOTS ==> !IsRecord(Slot(d.mem, d.slot + 2)))
    ensures var r := Slot(d.mem, d.slot + 1);
      CutSaveCan(d, status) <==> r[1] == 0xFF && (r[2] == BOTH || r[2] & (ID + status) == BOTH)
  {
    PlainCan(d, d.mem, d.slot, status);
    PlainByte(Slot(d.mem, d.slot + 1), status);
  }

  lemma PlainCan(d: Device, mem: Mem, k: nat, status: byte)
    requires Cuts(d) && Known(status) && mem == d.mem && k == d.slot && k + 1 < SLOTS && IsStatus(d.status)
    requires Finds(mem, k, d.status) && (k + 2 < SLOTS ==> !IsRecord(Slot(mem, k + 2)))
    ensures CutSaveCan(d, status) <==> CanBecome(Slot(mem, k + 1), status, 0xFF)
  {
    CutSaveShows(d, status);
    PlainCut(mem, k, d.status, status);
  }

  lemma PlainCut(mem: Mem, k: nat, shown: byte, status: byte)
    requires LogFits(mem) && k + 1 < SLOTS && IsStatus(shown)
    requires Finds(mem, k, shown) && (k + 2 < SLOTS ==> !IsRecord(Slot(mem, k + 2)))
    ensures CutShows(mem, k, status) <==> CanBecome(Slot(mem, k + 1), status, 0xFF)
  {
    PlainPlaces(mem, k);
    assert Slot(mem, k)[1] == Record(shown)[1] == shown;
    PlainWrite(mem, k, status);
  }

  lemma PlainPlaces(mem: Mem, k: nat)
    requires LogFits(mem) && Newest(mem) == Some(k) && k + 1 < SLOTS && (k + 2 < SLOTS ==> !IsRecord(Slot(mem, k + 2)))
    ensures IfRecord(mem, k + 1) == Some(k + 1) && IfNone(mem, k + 1) == Some(k)
  {
    var f := NewestMeans(mem, k);
    WithSlotIs(mem, k + 1, Record(OFF));
    WithSlotIs(mem, k + 1, BLANK);
    OneMore(mem, f, k, WithSlot(mem, k + 1, Record(OFF)));
    OlderFound(mem, k, WithSlot(mem, k + 1, BLANK));
  }

  lemma PlainWrite(mem: Mem, k: nat, status: byte)
    requires LogFits(mem) && k + 1 < SLOTS && Slot(mem, k)[1] != 0xFF
    requires IfRecord(mem, k + 1) == Some(k + 1) && IfNone(mem, k + 1) == Some(k)
    ensures WriteShows(mem, k + 1, status) <==> CanBecome(Slot(mem, k + 1), status, 0xFF)
  {
  }

  lemma PlainByte(r: seq<byte>, status: byte)
    requires Scrap(r) && IsStatus(status)
    ensures CanBecome(r, status, 0xFF) <==> r[1] == 0xFF && (r[2] == BOTH || r[2] & (ID + status) == BOTH)
  {
  }

  /** Stale records behind the next slot: a whole save that gets its record there shows the last of them. */
  lemma StaleShows(d: Device, mem: Mem, k: nat, e: int, status: byte)
    requires Cuts(d) && IsStatus(status) && mem == d.mem && k == d.slot && Newest(mem) == Some(k) && k + 2 < SLOTS
    requires Programmable(Slot(mem, k + 1), Record(status)) && IsRecord(Slot(mem, k + 2))
    requires e == RunEnd(mem, k + 2) - 1
    ensures OnOffLogProofs.Step(OnOffLogProofs.Step(d, SaveStatus(status)), Restart).status == 0xFF <==>
      0 <= e < SLOTS && Slot(mem, e)[1] == 0xFF
  {
    StalePlace(mem, k, e);
    SaveShowsAt(d, mem, k, status);
  }

  lemma StalePlace(mem: Mem, k: nat, e: int)
    requires LogFits(mem) && Newest(mem) == Some(k) && k + 2 < SLOTS && IsRecord(Slot(mem, k + 2))
    requires e == RunEnd(mem, k + 2) - 1
    ensures k + 2 <= e < SLOTS && IfRecord(mem, k + 1) == Some(e)
  {
    WithSlotIs(mem, k + 1, Record(OFF));
    StaleFound(mem, k, WithSlot(mem, k + 1, Record(OFF)));
  }

  /** A run that gets there from a well-formed log: OFF and then ON are cut off, both after their first and
      last byte. */
  lemma NeverSaved(d: Device) returns (m1: Mem, m2: Mem)
    requires Sound(d) && Cuts(d) && d.slot + 1 < SLOTS
    ensures Leads(d, [CutSave(OFF, m1), CutSave(ON, m2)], d.(mem := m2, slot := d.slot + 1, status := 0xFF))
  {
    StartsThen(d);
    NeverBytes();
    m1 := CutLands(d, OFF, [ID, 0xFF, ID + OFF], d.slot, d.status);
    var d1 := d.(mem := m1);
    m2 := CutLands(d1, ON, [ID, 0xFF, BOTH], d.slot + 1, 0xFF);
    LeadsTwo(d, CutSave(OFF, m1), d1, CutSave(ON, m2), d.(mem := m2, slot := d.slot + 1, status := 0xFF));
  }

  lemma StartsThen(d: Device)
    requires Sound(d) && d.slot + 1 < SLOTS
    ensures LogThen(d.mem, d.slot, d.status, BLANK) && Slot(d.mem, d.slot + 1) == BLANK
  {
    ErasedSlot(d.mem, d.slot + 1);
  }

  lemma NeverBytes()
    ensures CutBytes(BLANK, Record(OFF), [ID, 0xFF, ID + OFF]) && !IsRecord([ID, 0xFF, ID + OFF])
    ensures CutBytes([ID, 0xFF, ID + OFF], Record(ON), [ID, 0xFF, BOTH]) && IsRecord([ID, 0xFF, BOTH])
  {
  }

  /** A cut save leaves these bytes in the next slot, and the restart after it does what they say. */
  lemma CutLands(d: Device, status: byte, w: seq<byte>, slot: nat, shown: byte) returns (m: Mem)
    requires Cuts(d) && d.slot + 1 < SLOTS && LogThen(d.mem, d.slot, d.status, Slot(d.mem, d.slot + 1))
    requires IsStatus(status) && CutBytes(Slot(d.mem, d.slot + 1), Record(status), w)
    requires slot == (if IsRecord(w) then d.slot + 1 else d.slot) && shown == (if IsRecord(w) then w[1] else d.status)
    ensures LogFits(m) && LogThen(m, d.slot, d.status, w) && Slot(m, d.slot + 1) == w
    ensures Possible(d, CutSave(status, m))
    ensures Happens(d, CutSave(status, m)) == d.(mem := m, slot := slot, status := shown)
    ensures Cuts(d.(mem := m, slot := slot, status := shown))
  {
    m := WithSlot(d.mem, d.slot + 1, w);
    CutThen(d.mem, d.slot, d.status, status, w, m);
    CutHappens(d, status, w, m, slot, shown);
  }

  lemma CutThen(mem: Mem, k: nat, shown: byte, status: byte, w: seq<byte>, m: Mem)
    requires LogFits(mem) && k + 1 < SLOTS && LogThen(mem, k, shown, Slot(mem, k + 1))
    requires CutBytes(Slot(mem, k + 1), Record(status), w) && m == WithSlot(mem, k + 1, w)
    ensures LogFits(m) && CutOf(mem, k, status, m) && LogThen(m, k, shown, w) && Slot(m, k + 1) == w
  {
    CutCanLeave(mem, k + 1, Record(status), w);
    WithSlotIs(mem, k + 1, w);
    TornBehind(mem, k, shown, status, m);
    CutInLap(mem, k, k + 1, status, m);
  }

  lemma CutHappens(d: Device, status: byte, w: seq<byte>, m: Mem, slot: nat, shown: byte)
    requires Cuts(d) && IsStatus(status) && d.slot + 1 < SLOTS && CutOf(d.mem, d.slot, status, m)
    requires LogFits(m) && LogThen(m, d.slot, d.status, w)
    requires slot == (if IsRecord(w) then d.slot + 1 else d.slot) && shown == (if IsRecord(w) then w[1] else d.status)
    ensures var h := CutSave(status, m);
      Possible(d, h) && Happens(d, h) == d.(mem := m, slot := slot, status := shown) && Cuts(Happens(d, h))
  {
    HappeningKeeps(d, CutSave(status, m));
    NewestThen(m, d.slot, d.status, w);
    assert Record(d.status)[1] == d.status;
  }

  lemma LeadsTwo(d: Device, h1: Happening, d1: Device, h2: Happening, d2: Device)
    requires Cuts(d) && Possible(d, h1) && (!h1.Whole? ==> LogFits(h1.m)) && Happens(d, h1) == d1
    requires Cuts(d1) && Possible(d1, h2) && (!h2.Whole? ==> LogFits(h2.m)) && Happens(d1, h2) == d2
    ensures Leads(d, [h1, h2], d2)
  {
    HappeningKeeps(d, h1);
    HappeningKeeps(d1, h2);
    assert [h1, h2][1..] == [h2] && [h2][1..] == [];
    assert Leads(d2, [], d2);
    assert Leads(d1, [h2], d2);
  }

  lemma LeadsThen(d: Device, h: Happening, d1: Device, rest: seq<Happening>, end: Device)
    requires Cuts(d) && Possible(d, h) && (!h.Whole? ==> LogFits(h.m)) && Happens(d, h) == d1
    requires Cuts(d1) && Leads(d1, rest, end)
    ensures Leads(d, [h] + rest, end)
  {
    HappeningKeeps(d, h);
    assert ([h] + rest)[1..] == rest;
  }

  function OnSaves(n: nat): (hs: seq<Happening>)
    ensures |hs| == n
  {
    if n == 0 then [] else [Whole(SaveStatus(ON))] + OnSaves(n - 1)
  }

  function AfterOn(d: Device, n: nat): (end: Device)
    requires LogFits(d.mem) && d.slot < SLOTS
    ensures LogFits(end.mem) && end.slot < SLOTS
    decreases n
  {
    if n == 0 then d else AfterOn(OnOffLogProofs.Step(d, SaveStatus(ON)), n - 1)
  }

  lemma {:induction false} AfterOnKeeps(d: Device, n: nat)
    requires Cuts(d) && 1 <= d.slot && d.slot + n < SLOTS
    ensures var end := AfterOn(d, n); end.slot == d.slot + n && Cuts(end) && Slot(end.mem, 1) == Slot(d.mem, 1)
    decreases n
  {
    if n > 0 {
      OnSaveKeeps(d, OnOffLogProofs.Step(d, SaveStatus(ON)));
      AfterOnKeeps(OnOffLogProofs.Step(d, SaveStatus(ON)), n - 1);
    }
  }

  lemma OnSaveKeeps(d: Device, d1: Device)
    requires Cuts(d) && 1 <= d.slot && d.slot + 1 < SLOTS && d1 == OnOffLogProofs.Step(d, SaveStatus(ON))
    ensures Cuts(d1) && d1.slot == d.slot + 1 && Slot(d1.mem, 1) == Slot(d.mem, 1)
  {
    HappeningKeeps(d, Whole(SaveStatus(ON)));
    SavedOver(d.mem, d.slot, ON, d1.mem);
  }

  lemma {:induction false} OnSavesLead(d: Device, n: nat, last: Device, rest: seq<Happening>, end: Device)
    requires Cuts(d) && 1 <= d.slot && d.slot + n < SLOTS
    requires last == AfterOn(d, n) && Cuts(last) && Leads(last, rest, end)
    ensures Leads(d, OnSaves(n) + rest, end)
    decreases n
  {
    OnSavesUnfold(n, rest);
    if n > 0 {
      var d1 := OnSaveFirst(d, n);
      OnSavesLead(d1, n - 1, last, rest, end);
      OnSaveLeads(d, d1, OnSaves(n - 1) + rest, OnSaves(n) + rest, end);
    }
  }

  lemma OnSavesUnfold(n: nat, rest: seq<Happening>)
    ensures OnSaves(n) + rest == if n == 0 then rest else [Whole(SaveStatus(ON))] + (OnSaves(n - 1) + rest)
  {
  }

  lemma OnSaveFirst(d: Device, n: nat) returns (d1: Device)
    requires Cuts(d) && 1 <= d.slot && d.slot + n < SLOTS && n > 0
    ensures d1 == OnOffLogProofs.Step(d, SaveStatus(ON)) && Cuts(d1) && d1.slot == d.slot + 1
    ensures AfterOn(d1, n - 1) == AfterOn(d, n)
  {
    d1 := OnOffLogProofs.Step(d, SaveStatus(ON));
    OnSaveKeeps(d, d1);
  }

  lemma OnSaveLeads(d: Device, d1: Device, hs: seq<Happening>, all: seq<Happening>, end: Device)
    requires Cuts(d) && Cuts(d1) && d1 == OnOffLogProofs.Step(d, SaveStatus(ON)) && Leads(d1, hs, end)
    requires all == [Whole(SaveStatus(ON))] + hs
    ensures Leads(d, all, end)
  {
    LeadsThen(d, Whole(SaveStatus(ON)), d1, hs, end);
  }

  /** Another run, through the wrap: a save of OFF into slot 1 is cut off, ON is saved to the end of the
      lap, and the erase of the save that wraps is cut off in slot 1. */
  lemma NeverSavedByWrap(d: Device) returns (m1: Mem, m2: Mem, end: Device)
    requires Sound(d) && Cuts(d) && d.slot == 0
    ensures Leads(d, [CutSave(OFF, m1)] + (OnSaves(SLOTS - 1) + [CutSave(ON, m2)]), end) && end.status == 0xFF
  {
    m1 := SpoiltSlot(d);
    var d1 := d.(mem := m1);
    var d2 := OnOffLogProofs.Step(d1, SaveStatus(ON));
    SpoiltMore(d1, d2);
    AfterOnKeeps(d2, SLOTS - 2);
    m2, end := WrapCutLands(AfterOn(d2, SLOTS - 2));
    OnSavesLead(d2, SLOTS - 2, AfterOn(d2, SLOTS - 2), [CutSave(ON, m2)], end);
    LeadsThen(d1, Whole(SaveStatus(ON)), d2, OnSaves(SLOTS - 2) + [CutSave(ON, m2)], end);
    assert [Whole(SaveStatus(ON))] + (OnSaves(SLOTS - 2) + [CutSave(ON, m2)]) == OnSaves(SLOTS - 1) + [CutSave(ON, m2)];
    LeadsThen(d, CutSave(OFF, m1), d1, OnSaves(SLOTS - 1) + [CutSave(ON, m2)], end);
  }

  /** The first cut leaves the status byte out. */
  lemma SpoiltSlot(d: Device) returns (m1: Mem)
    requires Sound(d) && Cuts(d) && d.slot == 0
    ensures LogFits(m1) && Possible(d, CutSave(OFF, m1)) && Happens(d, CutSave(OFF, m1)) == d.(mem := m1)
    ensures Cuts(d.(mem := m1)) && Slot(m1, 1) == [ID, 0xFF, ID + OFF]
  {
    StartsThen(d);
    NeverBytes();
    m1 := CutLands(d, OFF, [ID, 0xFF, ID + OFF], 0, d.status);
  }

  lemma SpoiltMore(d1: Device, d2: Device)
    requires Cuts(d1) && d1.slot == 0 && Slot(d1.mem, 1) == [ID, 0xFF, ID + OFF]
    requires d2 == OnOffLogProofs.Step(d1, SaveStatus(ON))
    ensures Cuts(d2) && d2.slot == 1 && Slot(d2.mem, 1) == [ID, ON, BOTH]
  {
    HappeningKeeps(d1, Whole(SaveStatus(ON)));
    SavedOver(d1.mem, 0, ON, d2.mem);
  }

  lemma WrapCutLands(d: Device) returns (m: Mem, end: Device)
    requires Cuts(d) && d.slot == SLOTS - 1 && Slot(d.mem, 1)[0] == ID && Slot(d.mem, 1)[2] == BOTH
    ensures Cuts(d) && Leads(d, [CutSave(ON, m)], end) && end.status == 0xFF
  {
    assert EraseShows(d.mem);
    CutSaveShows(d, ON);
    m :| Possible(d, CutSave(ON, m)) && LogFits(m) && Happens(d, CutSave(ON, m)).status == 0xFF;
    end := Happens(d, CutSave(ON, m));
    HappeningKeeps(d, CutSave(ON, m));
    assert [CutSave(ON, m)] + [] == [CutSave(ON, m)];
    LeadsThen(d, CutSave(ON, m), end, [], end);
  }

  // ----- the concrete losses do arise

  /** What LostSave starts from is left by a cut save behind a well-formed log. */
  lemma LostSaveArises(mem: Mem, k: nat, status: byte) returns (m: Mem)
    requires WellFormed(mem, k, status) && k + 1 < SLOTS
    ensures Torn(mem, Write(BEGIN + SLOT * (k + 1), Record(OFF)), m)
    ensures LogFits(m) && LogThen(m, k, status, [ID, OFF, 0xFF])
  {
    ErasedSlot(mem, k + 1);
    var w := [ID, OFF, 0xFF];
    m := WithSlot(mem, k + 1, w);
    CutCanLeave(mem, k + 1, Record(OFF), w);
    WithSlotIs(mem, k + 1, w);
    TornRun(mem, k, status, Record(OFF), m);
  }

  /** What StaleSave starts from is left by a cut erase of a full log with OFF in slot 1. */
  lemma StaleSaveArises(mem: Mem, status: byte) returns (m: Mem)
    requires WellFormed(mem, SLOTS - 1, status) && Slot(mem, 1) == Record(OFF)
    ensures Torn(mem, Erase(BEGIN), m) && LogFits(m) && Slot(m, 1) == [ID, OFF, 0xFF]
    ensures forall j :: 0 <= j < SLOTS && j != 1 ==> IsRecord(Slot(m, j))
    ensures Slot(m, SLOTS - 1) == Record(status)
  {
    var w := [ID, OFF, 0xFF];
    m := WithSlot(mem, 1, w);
    WithSlotIs(mem, 1, w);
    assert SectorOf(BEGIN) == BEGIN;
    var a := BEGIN + SLOT;
    forall i | 0 <= i < |mem| ensures m[i] == mem[i] || m[i] == EraseSector(mem, BEGIN)[i] {
      if a <= i < a + 3 { assert m[i] == w[i - a] && mem[i] == Slot(mem, 1)[i - a]; }
    }
  }
}
