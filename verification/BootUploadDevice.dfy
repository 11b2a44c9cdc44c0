/** The upload handlers as the firmware runs them: upgradeInfo and the flash updated in place, each
    handler tied to its function in BootUpload. */
module BootUploadDevice {
  import opened NorFlash
  import opened BootInstall
  import opened BootCopy
  import opened BootUpload
  import opened Crc32

  class Upgrade {
    const layout: Layout
    const flash: Flash
    var info: Info
    var check: bool
    var out: seq<Msg>

    /** The SDK's flash driver does not report failures; a sound flash is assumed here. */
    ghost predicate Valid()
      reads this, flash
    {
      !flash.faulty && Fits(layout, flash.mem) && info.offset <= info.total <= layout.max
      && (info.start == 0 || info.start == layout.image)
    }

    ghost function Now(): State
      reads this, flash
    {
      State(info, flash.mem, check, out)
    }

    /** bootloader_init: no session, and the boot check due after the wait for messages. */
    constructor (layout: Layout, flash: Flash)
      requires !flash.faulty && Fits(layout, flash.mem)
      ensures this.layout == layout && this.flash == flash && Valid() && Now() == State(IDLE, flash.mem, true, [])
    {
      this.layout, this.flash := layout, flash;
      info, check, out := IDLE, true, [];
    }

    method Send(m: Msg)
      modifies this`out
      ensures out == old(out) + [m]
    {
      out := out + [m];
    }

    /** MSG_CMD_OTA_START_REQUEST. */
    method StartRequest(size: nat)
      requires Valid()
      modifies this, flash
      ensures Valid() && Now() == OnStart(layout, old(Now()), size)
    {
      var status := Success;
      if info.start == 0 {
        if size <= layout.max {
          check := false;
          info := Info(info.timer, layout.image, size, 0, 0);
          EraseArea(size);
          info := info.(timer := true);
        } else {
          status := Oversize;
        }
      } else {
        status := InProgress;
      }
      Send(StartRsp(info.start, info.total, info.offset, status));
    }

    /** Erasing the new image area. */
    method EraseArea(size: nat)
      requires !flash.faulty && layout.image % SECTOR == 0
      modifies flash
      ensures flash.mem == Blanked(old(flash.mem), layout.image, layout.image + Room(size))
    {
      var n, i := (size + 4095) / 4096, 0;
      assert Blanked(flash.mem, layout.image, layout.image) == flash.mem;
      while i < n
        invariant 0 <= i <= n
        invariant flash.mem == Blanked(old(flash.mem), layout.image, layout.image + i * SECTOR)
      {
        BlankMore(old(flash.mem), layout.image, i);
        flash.Erase(layout.image + i * 4096);
        i := i + 1;
      }
    }

    /** bootloader_uartOtaComplete. */
    method Complete(status: Status)
      modifies this
      ensures info == IDLE && out == old(out) + [End(old(info).total, old(info).offset, status)] && check == old(check)
    {
      Send(End(info.total, info.offset, status));
      info := IDLE;
    }

    /** The first block's flag byte is disabled before it is written. */
    method WriteBlock(offset: nat, data: seq<byte>)
      requires !flash.faulty
      modifies flash
      ensures flash.mem == Program(old(flash.mem), info.start + offset, if offset == 0 then Masked(data) else data)
    {
      var pData := data;
      if offset == 0 && |data| > FLAG_OFFSET { pData := pData[FLAG_OFFSET := 0xff]; }
      var _ := flash.WritePage(info.start + offset, pData);
    }

    /** What follows a written block: the next one is asked for, or the session ends. */
    method TakeBlock(len: nat)
      requires !flash.faulty && !info.timer
      modifies this, flash
      ensures var i, offset := old(info), old(info).offset + len;
        Now() == if offset == i.total then
                   State(IDLE, Program(old(flash.mem), i.start + FLAG_OFFSET, [START_FLAG]), true,
                         old(out) + [End(i.total, offset, Success)])
                 else if offset > i.total then
                   State(IDLE, old(flash.mem), old(check), old(out) + [End(i.total, offset, IncorrectOffset)])
                 else
                   State(Info(true, i.start, i.total, offset, 0), old(flash.mem), old(check), old(out) + [Ack(Success)])
    {
      info := info.(offset := info.offset + len);
      if info.offset == info.total {
        var _ := flash.WritePage(info.start + FLAG_OFFSET, [START_FLAG]);
        check := true;
        Complete(Success);
      } else if info.offset > info.total {
        Complete(IncorrectOffset);
      } else {
        info := info.(retry := 0, timer := true);
        Send(Ack(Success));
      }
    }

    /** MSG_CMD_OTA_BLOCK_RESPONSE. */
    method BlockResponse(status: nat, offset: nat, data: seq<byte>)
      requires Valid()
      modifies this, flash
      ensures Valid() && Now() == OnBlock(old(Now()), status, offset, data)
    {
      info := info.(timer := false);
      if status != 0 || info.total == 0 {
        Complete(BadResponse);
        return;
      }
      if offset == info.offset && |data| != 0 && |data| <= BLOCK_MAX {
        WriteBlock(offset, data);
        TakeBlock(|data|);
      } else {
        Send(Ack(IncorrectOffset));
      }
    }

    /** upgradeBlockReqTimerCb. */
    method TimerCb()
      requires Valid()
      modifies this, flash
      ensures Valid() && Now() == OnTick(old(Now()))
    {
      if info.retry < RETRY_MAX {
        info := info.(retry := info.retry + 1);
        BlockRequest();
      } else {
        Send(End(info.total, info.offset, Timeout));
        info := IDLE;
      }
    }

    /** otaChkDelayCb; true when the application is started. */
    method OtaCheckDelay(step: Table) returns (launched: bool)
      requires Valid()
      modifies this, flash
      ensures Valid() && Now() == OnCheck(layout, old(Now()), step)
      ensures launched <==> HasFlag(flash.mem, layout.load)
    {
      var o := BootloaderWithOtaCheck(layout, flash, step);
      launched := o == Launch;
      check := false;
    }

    /** bootloader_uartBlockReq. */
    method BlockRequest()
      requires info.offset <= info.total
      modifies this`out
      ensures out == old(out) + [BlockReq(info.offset, Wanted(info))]
    {
      var len := if info.total - info.offset >= BLOCK_MAX then BLOCK_MAX else info.total - info.offset;
      Send(BlockReq(info.offset, len));
    }
  }
}
