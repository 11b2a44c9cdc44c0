/** The wear-levelled log that keeps the relay's on/off status across restarts
    (src/app_onoff.c:177-258): one flash sector used as 1024 four-byte slots, each holding a
    three-byte record, erased only when the log wraps. */
module OnOffLog {
  import opened NorFlash

  const BEGIN := 0x74000
  const END := 0x75000
  const SLOT := 4
  const SLOTS := 1024
  const ID: byte := 0x65
  const OFF: byte := 0
  const ON: byte := 1

  // ----- records

  /** checksum() of src/app_utility.c: the sum, in a byte, of everything but the last byte. */
  function Sum(data: seq<byte>): byte {
    if data == [] then 0 else Sum(data[..|data| - 1]) + data[|data| - 1]
  }

  method Checksum(data: seq<byte>) returns (crc8: byte)
    ensures crc8 == if data == [] then 0 else Sum(data[..|data| - 1])
  {
    crc8 := 0;
    if |data| == 0 { return; }
    var length := |data| - 1;
    for i := 0 to length
      invariant crc8 == Sum(data[..i])
    {
      assert data[..i + 1][..i] == data[..i];
      crc8 := crc8 + data[i];
    }
  }

  function Record(status: byte): (r: seq<byte>)
    ensures |r| == 3
  {
    [ID, status, ID + status]
  }

  predicate IsRecord(r: seq<byte>) {
    |r| == 3 && r[0] == ID && r[2] == r[0] + r[1]
  }

  lemma SumOfRecord(r: seq<byte>)
    requires |r| == 3
    ensures Sum(r[..2]) == r[0] + r[1]
  {
    assert r[..2][..1] == [r[0]] && [r[0]][..0] == [];
    assert Sum([r[0]]) == r[0];
  }

  // ----- the log

  predicate LogFits(mem: Mem) {
    |mem| >= END
  }

  function Slot(mem: Mem, k: nat): (r: seq<byte>)
    requires LogFits(mem) && k < SLOTS
    ensures |r| == 3
  {
    mem[BEGIN + SLOT * k..BEGIN + SLOT * k + 3]
  }

  /** The first slot from k on that holds a record, SLOTS if none does. */
  function FirstRecord(mem: Mem, k: nat): (f: nat)
    requires LogFits(mem) && k <= SLOTS
    ensures k <= f <= SLOTS
    ensures forall j :: k <= j < f ==> !IsRecord(Slot(mem, j))
    ensures f < SLOTS ==> IsRecord(Slot(mem, f))
    decreases SLOTS - k
  {
    if k == SLOTS || IsRecord(Slot(mem, k)) then k else FirstRecord(mem, k + 1)
  }

  /** The end of the unbroken run of records that starts at k. */
  function RunEnd(mem: Mem, k: nat): (e: nat)
    requires LogFits(mem) && k <= SLOTS
    ensures k <= e <= SLOTS
    ensures forall j :: k <= j < e ==> IsRecord(Slot(mem, j))
    ensures e < SLOTS ==> !IsRecord(Slot(mem, e))
    decreases SLOTS - k
  {
    if k == SLOTS || !IsRecord(Slot(mem, k)) then k else RunEnd(mem, k + 1)
  }

  datatype Option<T> = None | Some(value: T)

  /** The slot a restore settles on: the last one of the first unbroken run. */
  function Newest(mem: Mem): (o: Option<nat>)
    requires LogFits(mem)
    ensures o.Some? ==> o.value < SLOTS && IsRecord(Slot(mem, o.value))
  {
    var f := FirstRecord(mem, 0);
    if f == SLOTS then None else Some(RunEnd(mem, f) - 1)
  }

  function Next(k: nat): nat {
    if k + 1 == SLOTS then 0 else k + 1
  }

  /** The flash after a save whose previous record is in slot k. */
  function Saved(mem: Mem, k: nat, status: byte): (m: Mem)
    requires LogFits(mem) && k < SLOTS
    ensures |m| == |mem|
  {
    var ready := if Next(k) == 0 then EraseSector(mem, BEGIN) else mem;
    Program(ready, BEGIN + SLOT * Next(k), Record(status))
  }

  /** The flash after the default record has been written to a fresh sector. */
  function Defaulted(mem: Mem): (m: Mem)
    ensures |m| == |mem|
  {
    Program(EraseSector(mem, BEGIN), BEGIN, Record(OFF))
  }

  /** Slots 0 to k hold records, the newest with this status, and the rest of the sector is erased. */
  ghost predicate WellFormed(mem: Mem, k: nat, status: byte) {
    && LogFits(mem) && k < SLOTS
    && (forall j :: 0 <= j <= k ==> IsRecord(Slot(mem, j)))
    && Slot(mem, k) == Record(status)
    && IsErased(mem, BEGIN + SLOT * (k + 1), END)
  }

  /** Addresses and slot numbers move together, and only slot 0 starts a sector. */
  lemma NextAddress(addr: nat, k: nat)
    requires BEGIN <= addr < END && (addr - BEGIN) % SLOT == 0 && k == (addr - BEGIN) / SLOT
    ensures k < SLOTS && addr == BEGIN + SLOT * k
    ensures addr + SLOT == END <==> k + 1 == SLOTS
    ensures addr + SLOT < END ==> (addr + SLOT) % SECTOR != 0
    ensures BEGIN % SECTOR == 0
  {
  }

  // ----- the code

  /** The globals of app_onoff.c: the address of the newest record and the live record. */
  class StatusLog {
    const flash: Flash
    var addr: nat
    var id: byte
    var status: byte
    var crc: byte

    ghost predicate Valid()
      reads this, flash
    {
      LogFits(flash.mem) && !flash.faulty
      && BEGIN <= addr < END && (addr - BEGIN) % SLOT == 0
    }

    ghost function Index(): nat
      requires BEGIN <= addr
      reads this
    {
      (addr - BEGIN) / SLOT
    }

    constructor (flash: Flash)
      requires LogFits(flash.mem) && !flash.faulty
      ensures Valid() && this.flash == flash && status == OFF
    {
      this.flash, addr, id, status, crc := flash, BEGIN, 0, OFF, 0;
    }

    /** The record's checksum byte, over its other two. */
    method Seal()
      requires id == ID
      modifies this`crc
      ensures [id, status, crc] == Record(status)
    {
      var c := Checksum([id, status, crc]);
      SumOfRecord([id, status, crc]);
      assert [id, status, crc][..2] == [id, status];
      crc := c;
    }

    /** init_default_status_onoff. */
    method InitDefault()
      requires Valid()
      modifies this, flash
      ensures Valid() && addr == BEGIN && id == ID && status == OFF
      ensures flash.mem == Defaulted(old(flash.mem))
    {
      status := OFF;
      id := ID;
      addr := BEGIN;
      Seal();
      flash.Erase(addr);
      var n := flash.WritePage(addr, [id, status, crc]);
    }

    /** The validity test both scan loops make on a slot. */
    method ReadSlot(a: nat, ghost k: nat) returns (r: seq<byte>, ok: bool)
      requires Valid() && k < SLOTS && a == BEGIN + SLOT * k
      ensures r == Slot(flash.mem, k) && (ok <==> IsRecord(r))
    {
      r := flash.Read(a, 3);
      var c := Checksum(r);
      SumOfRecord(r);
      ok := r[0] == ID && c == r[2];
    }

    /** The first loop of a restore: the first slot that holds a record. */
    method ScanFirst() returns (a: nat, curr: seq<byte>, ghost k: nat)
      requires Valid()
      ensures k == FirstRecord(flash.mem, 0) && a == BEGIN + SLOT * k
      ensures k < SLOTS ==> curr == Slot(flash.mem, k)
    {
      a, curr, k := BEGIN, [], 0;
      while a < END
        invariant k <= SLOTS && a == BEGIN + SLOT * k
        invariant FirstRecord(flash.mem, 0) == FirstRecord(flash.mem, k)
      {
        var ok;
        curr, ok := ReadSlot(a, k);
        if ok { return; }
        a, k := a + SLOT, k + 1;
      }
    }

    /** The second loop: on through the records that follow without a gap. */
    method ScanRun(a0: nat, curr0: seq<byte>, ghost f: nat) returns (a: nat, curr: seq<byte>, ghost k: nat)
      requires Valid() && f < SLOTS && a0 == BEGIN + SLOT * f && curr0 == Slot(flash.mem, f) && IsRecord(curr0)
      ensures k == RunEnd(flash.mem, f) > f && a == BEGIN + SLOT * k
      ensures curr == Slot(flash.mem, k - 1)
    {
      a, curr, k := a0 + SLOT, curr0, f + 1;
      while a < END
        invariant f < k <= SLOTS && a == BEGIN + SLOT * k
        invariant RunEnd(flash.mem, f) == RunEnd(flash.mem, k)
        invariant curr == Slot(flash.mem, k - 1)
      {
        var next, ok := ReadSlot(a, k);
        if !ok { return; }
        curr := next;
        a, k := a + SLOT, k + 1;
      }
    }

    /** status_onoff_restore. */
    method Restore()
      requires Valid()
      modifies this, flash
      ensures Valid() && id == ID
      ensures match Newest(old(flash.mem))
              case None => addr == BEGIN && status == OFF && flash.mem == Defaulted(old(flash.mem))
              case Some(k) => addr == BEGIN + SLOT * k && Record(status) == Slot(flash.mem, k)
                              && flash.mem == old(flash.mem)
    {
      var a, curr, f := ScanFirst();
      if a >= END {
        InitDefault();
      } else {
        ghost var k;
        a, curr, k := ScanRun(a, curr, f);
        Adopt(a - SLOT, curr, k - 1);
      }
    }

    /** The newest record becomes the live one. */
    method Adopt(a: nat, r: seq<byte>, ghost k: nat)
      requires Valid() && k < SLOTS && a == BEGIN + SLOT * k && IsRecord(r)
      modifies this
      ensures Valid() && addr == a && id == ID && [id, status, crc] == r && Record(status) == r
    {
      addr := a;
      id, status, crc := r[0], r[1], r[2];
    }

    /** The next slot, on erased flash: the sector is erased when the address wraps. */
    method Advance()
      requires Valid()
      modifies this`addr, flash
      ensures Valid() && Index() == Next(old(Index())) && addr == BEGIN + SLOT * Index()
      ensures flash.mem == if Next(old(Index())) == 0 then EraseSector(old(flash.mem), BEGIN) else old(flash.mem)
    {
      NextAddress(addr, Index());
      addr := addr + SLOT;
      if addr == END { addr := BEGIN; }
      if addr % SECTOR == 0 { flash.Erase(addr); }
      assert addr == BEGIN + SLOT * Next(old(Index()));
    }

    /** status_onoff_save. The record's id is only there once a restore has loaded it. */
    method Save()
      requires Valid() && id == ID
      modifies this`addr, this`crc, flash
      ensures Valid() && addr == BEGIN + SLOT * Next(old(Index()))
      ensures flash.mem == Saved(old(flash.mem), old(Index()), status)
    {
      NextAddress(addr, Index());
      Advance();
      WriteLive();
    }

    /** The live record, sealed, at the current address. */
    method WriteLive()
      requires Valid() && id == ID
      modifies this`crc, flash
      ensures Valid() && flash.mem == Program(old(flash.mem), addr, Record(status))
    {
      Seal();
      var n := flash.WritePage(addr, [id, status, crc]);
    }
  }
}
