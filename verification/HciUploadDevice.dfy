/** The host interface's upload handler as the firmware runs it: ota_info, the timer and the flash
    updated in place, each handler tied to its function in HciUpload. */
module HciUploadDevice {
  import opened NorFlash
  import opened Crc32
  import opened BootInstall
  import opened HciUpload

  /** A chunk as read, the flag byte of the first one unmasked, is a chunk of the unmasked body. */
  lemma ChunkUnmasked(mem: Mem, a: nat, n: nat, done: nat, w: nat)
    requires a + n <= |mem| && done + w <= n && (done == 0 || done >= 256) && (done == 0 ==> w >= 256 || w == n)
    ensures Unmasked(mem[a..a + n])[done..done + w] == var b := mem[a + done..a + done + w];
      if done == 0 && w > FLAG_OFFSET then b[FLAG_OFFSET := START_FLAG] else b
  {
    var full, b := Unmasked(mem[a..a + n]), mem[a + done..a + done + w];
    var r := if done == 0 && w > FLAG_OFFSET then b[FLAG_OFFSET := START_FLAG] else b;
    forall k | 0 <= k < w ensures full[done..done + w][k] == r[k] {
      assert full[done..done + w][k] == full[done + k];
      if done + k != FLAG_OFFSET { assert full[done + k] == mem[a..a + n][done + k] == mem[a + done + k] == b[k]; }
    }
  }

  lemma SumMore(step: Table, s: seq<byte>, done: nat, w: nat)
    requires done + w <= |s|
    ensures Crc(step, Crc(step, INIT, s[..done]), s[done..done + w]) == Crc(step, INIT, s[..done + w])
  {
    CrcAppend(step, INIT, s[..done], s[done..done + w]);
    assert s[..done] + s[done..done + w] == s[..done + w];
  }

  class Host {
    const device: Device
    const flash: Flash
    var ota: Ota
    var timer: Timer
    var out: seq<Msg>

    /** The SDK's flash driver does not report failures; a sound flash is assumed here. */
    ghost predicate Valid()
      reads this, flash
    {
      !flash.faulty && |ota.boot| == 4 && ota.offset < 0x1_0000_0000
      && device.area % SECTOR == 0 && (ota.start == device.area || ota.start == 0)
      && SECTOR <= device.max && device.area + device.max <= |flash.mem|
      && (ota.local ==> ota.started && ota.start + ota.total <= |flash.mem|)
      && (ota.started ==> ota.start == device.area)
    }

    ghost function Now(): State
      reads this, flash
    {
      State(ota, timer, flash.mem, out)
    }

    constructor (device: Device, flash: Flash)
      requires !flash.faulty && device.area % SECTOR == 0
      requires SECTOR <= device.max && device.area + device.max <= |flash.mem|
      ensures Valid() && this.device == device && this.flash == flash && Now() == State(CLEAR, Off, flash.mem, [])
    {
      this.device, this.flash := device, flash;
      ota, timer, out := CLEAR, Off, [];
    }

    method Send(m: Msg)
      modifies this`out
      ensures out == old(out) + [m]
    {
      out := out + [m];
    }

    /** Erasing n sectors from base. */
    method EraseSectors(base: nat, n: nat)
      requires !flash.faulty && base % SECTOR == 0
      modifies flash
      ensures flash.mem == Blanked(old(flash.mem), base, base + n * SECTOR)
    {
      assert Blanked(flash.mem, base, base) == flash.mem;
      var i := 0;
      while i < n
        invariant 0 <= i <= n
        invariant flash.mem == Blanked(old(flash.mem), base, base + i * SECTOR)
      {
        BlankMore(old(flash.mem), base, i);
        flash.Erase(base + i * SECTOR);
        i := i + 1;
      }
    }

    /** uart_send_ota_end. */
    method SendEnd(status: Status)
      requires Valid()
      modifies this, flash
      ensures Valid() && Now() == EndWith(old(Now()), status)
    {
      Send(End(ota.total, ota.offset, status));
      if status != Success {
        EraseSectors(ota.start, ota.offset / SECTOR + 1);
      }
      ota := CLEAR;
    }

    /** ZBHCI_CMD_OTA_START_REQUEST. */
    method StartRequest(size: nat, local: bool)
      requires Valid()
      modifies this, flash
      ensures Valid() && Now() == OnStart(device, old(Now()), size, local)
    {
      var status := Success;
      if !ota.started {
        if !device.known {
          status := NoAddress;
        } else {
          ota := ota.(start := device.area, total := size);
          if size < device.max {
            ota := ota.(local := local, offset := 0, started := true);
            EraseSectors(ota.start, size / SECTOR + 1);
            ota := ota.(found := false, count := 0, crc := INIT);
            timer := Retry;
          } else {
            status := Oversize;
          }
        }
      } else {
        status := InProgress;
      }
      Send(StartRsp(status, ota.start, ota.total, ota.offset));
    }

    /** ZBHCI_CMD_OTA_BLOCK_RESPONSE. */
    method BlockResponse(status: nat, offset: nat, data: seq<byte>, behind: byte)
      requires Valid() && |data| < 256
      modifies this, flash
      ensures Valid() && Now() == OnBlock(device, old(Now()), status, offset, data, behind)
    {
      if status != 0 {
        timer := Off;
        SendEnd(IncorrectData);
        return;
      }
      if offset == ota.offset {
        timer := Off;
        var blockData := data;
        if ota.local {
          SumBlock(data);
          if offset <= FLAG_OFFSET && offset + |data| >= FLAG_OFFSET {
            if FlagByteOf(offset, data, behind) != START_FLAG {
              SendEnd(IncorrectData);
              return;
            } else if FLAG_OFFSET - offset < |data| {
              blockData := data[FLAG_OFFSET - offset := 0xff];
            }
          }
        } else if !ota.found {
          var match_ := FindBootFlag(data);
          if match_ {
            SendEnd(MatchBootFlag);
            return;
          }
        }
        StoreBlock(blockData);
      }
    }

    /** The running checksum of a local image. */
    method SumBlock(data: seq<byte>)
      requires Valid() && |data| < 256
      modifies this`ota
      ensures Valid() && ota == old(ota).(crc := Crc(device.step, old(ota).crc, data[..CrcLen(old(ota), |data|)]))
    {
      var left := Sub32(ota.total, ota.offset);
      var crcLen := 0;
      if left < 4 {
      } else if Sub32(left, |data|) >= 4 {
        crcLen := |data|;
      } else {
        crcLen := left - 4;
      }
      var crc := Xcrc32(device.step, data[..crcLen], ota.crc);
      ota := ota.(crc := crc);
    }

    /** Collecting the start-up word byte by byte; true when it is complete and a bare firmware's. */
    method FindBootFlag(data: seq<byte>) returns (bare: bool)
      requires Valid() && |data| < 256 && !ota.found
      modifies this`ota
      ensures ota == old(ota).(boot := Collect(old(ota.boot), ota.offset, data),
                                found := CompletesFlag(ota.offset, |data|))
      ensures bare <==> ota.found && ota.boot == STARTUP
    {
      bare := false;
      ghost var boot := ota.boot;
      assert Collect(boot, ota.offset, data[..0]) == boot;
      var i := 0;
      while i < |data|
        invariant 0 <= i <= |data|
        invariant |ota.boot| == 4 && !CompletesFlag(ota.offset, i)
        invariant ota == old(ota).(boot := Collect(boot, ota.offset, data[..i]))
      {
        assert data[..i + 1][..i] == data[..i];
        if ota.offset + i >= FLAG_OFFSET && ota.offset + i < FLAG_OFFSET + 4 {
          var k := ota.offset + i - FLAG_OFFSET;
          ota := ota.(boot := ota.boot[k := data[i]]);
          if k == 3 {
            assert Collect(boot, ota.offset, data[..i + 1]) == Collect(boot, ota.offset, data);
            ota := ota.(found := true);
            bare := ota.boot == STARTUP;
            return;
          }
        }
        i := i + 1;
      }
      assert data[..|data|] == data;
    }

    /** Four bytes up to address e, read through the end of the chip when they start below address 0. */
    method ReadEnding(e: nat) returns (w: nat)
      requires 4 <= |flash.mem| && e <= |flash.mem|
      ensures w == WordEnding(flash.mem, e)
    {
      if e >= 4 {
        var b := flash.Read(e - 4, 4);
        w := Word(b);
      } else {
        var last := flash.Read(|flash.mem| + e - 4, 4 - e);
        var first := flash.Read(0, e);
        assert flash.mem[|flash.mem| + e - 4..|flash.mem|] == flash.mem[|flash.mem| + e - 4..];
        w := Word(last + first);
      }
    }

    /** The stored checksum against the running one, and is_valid_fw_flag. */
    method FinalCheck() returns (ok: bool)
      requires Valid() && ota.local
      ensures ok <==> Checked(flash.mem, ota)
    {
      var crcRecv := ReadEnding(ota.start + ota.total);
      ok := false;
      if crcRecv == ota.crc {
        var flag := flash.Read(ota.start + FLAG_OFFSET, 4);
        ok := flag == CHECK_FLAG;
      }
    }

    /** Writing an accepted block and going on to the next, or closing the session. */
    method StoreBlock(data: seq<byte>)
      requires Valid() && |data| < 256
      modifies this, flash
      ensures Valid() && Now() == Store(old(Now()), data)
    {
      var _ := flash.WritePage(ota.start + ota.offset, data);
      ota := ota.(offset := Add32(ota.offset, |data|));
      if ota.offset < ota.total {
        ota := ota.(count := 0);
        timer := Retry;
      } else if ota.offset == ota.total {
        Complete();
      } else {
        SendEnd(IncorrectOffset);
      }
    }

    /** The whole file has been written. */
    method Complete()
      requires Valid()
      modifies this, flash
      ensures Valid()
      ensures var s := old(Now());
        Now() == if !s.ota.local then EndWith(s, Success)
                 else if Checked(s.mem, s.ota) then EndWith(s.(timer := Reboot), Success)
                 else EndWith(s, IncorrectData)
    {
      var finalStatus := Success;
      if ota.local {
        var good := FinalCheck();
        if good {
          timer := Reboot;
        } else {
          finalStatus := IncorrectData;
        }
      }
      SendEnd(finalStatus);
    }

    /** recv_ota_block_response_cb and uart_send_ota_block_request. */
    method BlockTimeout()
      requires Valid()
      modifies this, flash
      ensures Valid() && Now() == OnTick(old(Now()))
    {
      if ota.count < RETRIES {
        ota := ota.(count := ota.count + 1);
        var left := Sub32(ota.total, ota.offset);
        Send(BlockReq(ota.offset, if left >= BLOCK_REQUEST then BLOCK_REQUEST else left));
      } else {
        SendEnd(Timeout);
        timer := Off;
      }
    }

    /** ota_newImageValid: the checksum loop, 256 bytes at a time, the flag byte unmasked. */
    method CheckNewImage() returns (ok: bool)
      requires Valid() && Checkable(device, flash.mem)
      ensures ok <==> NewImageValid(device, flash.mem)
    {
      var head := flash.Read(device.area + SIZE_OFFSET, 4);
      var fwSize := Word(head);
      ok := false;
      if fwSize <= device.max {
        var flag := flash.Read(device.area + FLAG_OFFSET + 1, 3);
        if flag != CHECK_FLAG[1..] { return; }
        var tail := ReadEnding(device.area + fwSize);
        var curCrc := SumImage(fwSize);
        ok := curCrc == tail;
      }
    }

    /** One read of the checksum loop. */
    method ReadChunk(ghost n: nat, done: nat, w: nat) returns (buf: seq<byte>)
      requires device.area + n <= |flash.mem| && done + w <= n
      requires (done == 0 || done >= 256) && (done == 0 ==> w >= 256 || w == n)
      ensures buf == Unmasked(flash.mem[device.area..device.area + n])[done..done + w]
    {
      buf := flash.Read(device.area + done, w);
      if done == 0 && w > FLAG_OFFSET { buf := buf[FLAG_OFFSET := START_FLAG]; }
      ChunkUnmasked(flash.mem, device.area, n, done, w);
    }

    method SumImage(fwSize: nat) returns (crc: nat)
      requires fwSize <= device.max && device.area + device.max <= |flash.mem|
      ensures crc == Crc(device.step, INIT, Unmasked(Body(flash.mem, device.area, fwSize)))
    {
      ghost var body := Body(flash.mem, device.area, fwSize);
      ghost var full, n := Unmasked(body), |body|;
      var totalLen: int, done: nat := fwSize - 4, 0;
      crc := INIT;
      while totalLen > 0
        invariant done <= n && (totalLen > 0 ==> totalLen == n - done) && (totalLen <= 0 ==> done == n)
        invariant done == 0 || done >= 256 || done == n
        invariant crc == Crc(device.step, INIT, full[..done])
      {
        var wLen := if totalLen > 256 then 256 else totalLen;
        var buf := ReadChunk(n, done, wLen);
        SumMore(device.step, full, done, wLen);
        crc := Xcrc32(device.step, buf, crc);
        totalLen, done := totalLen - wLen, done + wLen;
      }
      assert full[..n] == full;
    }

    /** local_ota_reboot_delay: true when the device resets into the new image or the bootloader. */
    method RebootDelay(build: Build) returns (reboot: bool)
      requires Valid() && (device.known ==> Checkable(device, flash.mem))
      modifies this, flash
      ensures reboot <==> device.known && Reboots(device, old(flash.mem))
      ensures flash.mem == if device.known then OnReboot(device, old(flash.mem), build) else old(flash.mem)
      ensures timer == Off
    {
      timer := Off;
      reboot := false;
      if !device.known { return; }
      var valid := CheckNewImage();
      if valid {
        var _ := flash.WritePage(device.area + FLAG_OFFSET, [START_FLAG]);
        var back := flash.Read(device.area + FLAG_OFFSET, 1);
        if back[0] == START_FLAG {
          if build.Direct? { var _ := flash.WritePage(build.running + FLAG_OFFSET, [0]); }
          reboot := true;
        }
      }
    }
  }
}
