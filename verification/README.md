# Verified model of the relay firmware

A Dafny model of the algorithms and state machines of a Zigbee relay switch (its application in
`src/`, and the bootloader and host interface of the vendored SDK), with proofs about all inputs and
all runs. `dafny verify dfyconfig.toml` checks everything.

| files | what they model |
|---|---|
| `Bits`, `Words`, `Division`, `ZeroCount`, `Shifts`, `PopCounts` | 64-bit arithmetic on a 32-bit machine |
| `NorFlash`, `Crc32` | the flash chip (erase sets, program clears; faults and power cuts) and its page-splitting driver; the CRC as a fold |
| `Relocation` | the overlapping in-place move of the application image |
| `BootInstall`, `BootCopy`, `BootSafety` | the bootloader's install, its power-cut safety, and what a rejected image costs |
| `BootUpload`, `BootUploadProofs`, `BootUploadReplies`, `BootUploadDevice` | the bootloader's serial upload, and the simple protocol its replies follow |
| `HciUpload`, `HciUploadProofs`, `HciUploadAnswers`, `HciUploadDevice` | the host interface's upload with its running CRC, and what the host is asked and told |
| `OnOffLog`, `OnOffLogProofs`, `OnOffLogUnsaved` | the wear-levelled on/off log, with torn writes, and when these show a status nobody saved |
| `RelayApp`, `RelayAppProofs`, `RelaySettings`, `RelayDevice` | on/off commands, attribute writes and power-on over that log, and what writes leave in the settings |
| `Reporting`, `ReportingProofs`, `ReportingDetects`, `ReportingDevice` | attribute reporting (sections 2.5.7 and 2.5.11 of the Zigbee Cluster Library Specification), and which changes it sees |
| `Switch`, `SwitchProofs`, `SwitchPresses`, `SwitchBursts`, `SwitchDevice` | the wall-switch state machine, what presses do to the relay, and what bursts are reported as |
| `Calendar`, `KeyRing`, `Decimal` | date conversion, key matrix, decimal text |

State that the source updates in place is a class whose methods are proved against functions on
values; the `...Proofs` modules prove what those functions keep over every run. `NorFlash.Flash` is
shared by all flash users. A faulty flash may refuse an operation or leave any byte it addresses
unchanged; a power cut leaves every addressed byte with its old or its new value (`NorFlash.Torn`).

## Findings

Properties that the code does not have, each with the exact condition under which it does:

- The save after a power cut is kept exactly when its record can be programmed over the next slot and no
  record stands behind that one (`OnOffLogProofs.SaveKept`, for every memory). Otherwise a restart finds
  the older record (`LostSave`), and then not a later save of that lap either (`LaterSavesLost`), or a stale
  record left by a cut erase (`StaleSave`); `SaveAfterTear` tells the cases apart.
- Power cuts can make the device show the status 0xFF, which nobody saved. For every log that cuts can leave,
  `OnOffLogUnsaved.CutSaveShows` says from which bytes some cut of a save does so, `CutRestartShows` the same
  of a restart and `WholeSaveShows` of a save that is not cut off at all. In the plain case (`PlainShows`) the
  next slot's status byte must still be erased and its check byte be, or become, that of such a record; where
  the log wraps, some slot must hold the id and that check byte, whatever its status byte; in front of stale
  records the last of them must be one (`StaleShows`). `NeverSaved` and `NeverSavedByWrap` are runs that get
  there from a well-formed log.
- After a power-on, attribute, status and pin agree only if the logged status is OFF and the start-up
  mode neither switches nor toggles on (`RelayAppProofs.BootConsistent`). The first poll mends that for
  toggle and momentary switches only: with the other two types the start-up mode never reaches the pin
  (`CycleConsistent`).
- The weekday is right up to 2099 and wrong on every later day of the counter's range
  (`Calendar.WeekdayExactly`).
- The first change after a new reporting configuration is reported in time exactly when no minimum timer from
  before is still running or that timer serves the new intervals (`ReportingProofs.NextChangeInTime`). If not,
  and there is a maximum interval, it is delayed until that one is over (`ShortTimerMisses`,
  `ShortTimerDelays`). It is lost exactly when the new intervals are 0xFFFF and none and that timer is shorter
  (`NextChangeReported`): no run reports it while the attribute stays as it is. A change already on its way is
  lost exactly when the new configuration has no maximum interval and a nonzero minimum interval that outlasts
  the running timer (`SurvivesExactly`).
- A due entry with cluster id 0xFFFF is reloaded but never sent under its own cluster
  (`ReportingDevice.WildIsNeverBatched`).
- A 32-bit signed change of 2^31 or more wraps in the change check (`ReportingProofs.DistanceTest`). Signed 24-bit
  numbers are compared without their sign: a change by d across zero counts as one by 2^24 - d
  (`ReportingDetects.CrossingZero`).
- A rejected image keeps the application only if its size word does not send the erase loop round the
  end of the chip (`BootSafety.RejectedImage`).
- While an upload is open the new image is bootable exactly when its first block was too short to
  reach the flag byte and the start-up word has arrived (`BootUploadProofs.OpenNotBootable`); a last
  block longer than requested programs bytes behind the image area (`BlockOverruns`).
- An open upload session has lost its retry timer exactly when the last block reply of the session was
  about a wrong offset (`BootUploadProofs.ArmedExactly`, `StallsExactly`); without a proper block it never
  gets it back (`StalledForever`).
- A good local image is refused exactly when one of its blocks ends right before the flag byte and another
  byte than the flag lies behind that block in the receive buffer (`HciUploadProofs.LocalUpload`).
- A host block that takes a session to the end of the image area or beyond has the whole area erased, and the
  sector behind it too; no other message of an open session touches that sector (`HciUploadProofs.StepStaysInside`).
- Without a session, a host block response at offset 0 costs the first flash sector its content
  (`HciUploadProofs.StrayBlock`). A start that is refused for its size, and no other refused start, leaves a
  usable session behind (`RefusedStart`, `OversizeLeavesSession`).
- In toggle mode, closed with no press on record is a dead state (`SwitchProofs.DeadForever`): `DeadExactly`
  says which polls lead there, `OpensExactly` when a closed switch is still seen as opened.
- In the other two modes a one-poll glitch counts as a press exactly at the upper end of the debounce counter
  (`GlitchCountsExactly`).
- A HOLD loses its RELEASE, and a level move its stop, exactly when the switch type has changed before the
  burst ends (`HoldEndsAs`).
- A text converts to the number of its leading digits exactly when these are all that is read, at most
  sixteen characters, or are zero (`Decimal.AtoiExactly`).
- The source comments at `src/common/main.c:72-73` suggest that the copied header is made unbootable
  until the end; the mask used changes nothing, and the model follows the code. So a power cut after the first
  block leaves an image at address 0 that counts as bootable with the rest of the copy missing, and one in the
  first sector can leave none there (`Relocation.CutBootable`, `FirstCutBreaks`).

## Assumptions

- The step of the CRC table is an arbitrary function; non-volatile memory for the settings stores what it is
  given; the stack stores an attribute before the write handler runs.
- Every question to the clock is an arbitrary answer; timers are armed flags that fire at any time.
- The device is enabled (`set_relay_status` drives the pin) and has one relay.
- The upload handlers and the log run on a flash that does not fail in normal operation; power cuts
  are treated separately. An address beyond the chip's capacity is decoded modulo that capacity.

## Model

| member | source | states |
|---|---|---|
| Division.DivModdi4 | src/app_arith64.c:149-189 | for all 64-bit a and nonzero b the result is the q and r with a = q*b + r and r < b; zero b traps |
| Division.LongDivision | src/app_arith64.c:161-188 | the shift-subtract loop alone, reached when 1 < b <= a, returns quotient and remainder |
| Division.SignDecides | src/app_arith64.c:180-184 | the sign bit of b - rem - 1 decides rem >= b exactly when rem is not more than 2^63 below b; further below it is set as well |
| Division.BitsRange | src/app_arith64.c:167-172 | the difference of the leading-zero counts leaves 1 to 63 quotient bits |
| Division.LoopStep | src/app_arith64.c:176-186 | one pass brings down one numerator bit, keeps rem < b and a = q*b + rem on the bits consumed |
| Division.AbsMeaning | src/app_arith64.c:52-60 | the branch-free negate-if-negative yields the absolute value of every signed word, the smallest included |
| Division.TruncatedUnique | src/app_arith64.c:191-197 | truncation toward zero is the only quotient whose remainder is smaller than b and has a's sign |
| Division.DivDi3 | src/app_arith64.c:192-197 | the signed quotient is truncated toward zero; the one overflow wraps; zero divisor traps |
| Division.ModDi3 | src/app_arith64.c:225-230 | the signed remainder takes the numerator's sign and satisfies a = q*b + r |
| ZeroCount.Clzdi2 | src/app_arith64.c:112-122 | for nonzero a, 2^(63-r) <= a < 2^(64-r) |
| ZeroCount.Clzsi2 | src/app_arith64.c:102-110 | for nonzero a, 2^(31-r) <= a < 2^(32-r) |
| ZeroCount.Ctzdi2 | src/app_arith64.c:135-144 | for nonzero a, 2^r divides a and 2^(r+1) does not |
| ZeroCount.Ctzsi2 | src/app_arith64.c:125-133 | the same for 32-bit words |
| ZeroCount.Ffsdi2 | src/app_arith64.c:200-203 | one more than the trailing-zero count, zero for zero |
| ZeroCount.ClzBracket | src/app_arith64.c:112-122 | a word whose top bit is set after shifting left by n has exactly n leading zeros |
| Shifts.AshlDi3 | src/app_arith64.c:63-79 | the half-word left shift is the 64-bit shift by the count modulo 64 |
| Shifts.AshrDi3 | src/app_arith64.c:82-98 | the half-word arithmetic right shift is the floor shift of the signed value |
| Shifts.LshrDi3 | src/app_arith64.c:206-222 | the half-word logical right shift is the 64-bit shift |
| Words.SarIsFloor | src/app_arith64.c:82-98 | the arithmetic right shift divides by 2^n rounding down |
| PopCounts.PopCountSi2 | src/app_arith64.c:233-242 | the masked sums equal the number of 1 bits counted one by one |
| PopCounts.PopCountDi2 | src/app_arith64.c:245-255 | the same for 64-bit words |
| PopCounts.PairStep | src/app_arith64.c:236 | subtracting the masked half leaves every two-bit field holding its own bit count |
| PopCounts.SumsBound | src/app_arith64.c:238-239 | no field of the masked sums overflows into the next |
| NorFlash.Flash.Erase | src/common/flash.c:196-200 | a sector erase, exact on a sound part and torn on a faulty one |
| NorFlash.Flash.ProgramPage | src/common/flash.c:144-176 | one page command, in place when the data ends by the end of its page; nothing happens when the driver refuses |
| NorFlash.Flash.WritePage | src/common/flash.c:240-255 | the page-splitting loop programs every byte once and in place; on a faulty part the part sent is torn |
| NorFlash.NoWrap | src/common/flash.c:240-255 | data within one page is not wrapped by the chip |
| NorFlash.WrapsInPage | src/common/flash.c:144-176 | data that runs over the end of its page goes on at the page's start |
| NorFlash.OtherPages | src/common/flash.c:144-176 | a page command touches no other page |
| NorFlash.FaultsTear | src/common/flash.c:144-200 | what faults of the chip can make of an operation is exactly what a power cut can |
| NorFlash.SentMore | src/common/flash.c:246-254 | a cut during any page command is a cut of the whole write |
| NorFlash.HeldAppend | src/common/flash.c:240-255 | writing behind stored data on erased flash appends to it |
| Crc32.CrcAppend | tl_zigbee_sdk/proj/common/utility.c:82-90 | the CRC chunk by chunk is the CRC all at once |
| Crc32.CrcIsFolded | tl_zigbee_sdk/proj/common/utility.c:82-90 | the CRC is one table step for each byte, the first byte first |
| Crc32.WordIsNumber | tl_zigbee_sdk/apps/bootLoader/bootloader.c:139-155 | a word read from flash has its least significant byte first |
| Crc32.Xcrc32 | tl_zigbee_sdk/proj/common/utility.c:82-90 | the loop computes the fold |
| Relocation.TuyaZigbeeOta | src/common/main.c:55-99 | afterwards bytes 0 to the rounded size are the original source bytes, though the regions overlap; nothing else changes but the two MAC sectors; without a valid image nothing changes |
| Relocation.ChosenByBytes | src/common/main.c:62-74 | an image at 0x8000 goes before one at 0x20000, and the size word of the chosen one decides |
| Relocation.MakeReady | src/common/main.c:77-87 | a sector erased ahead of the copy holds no byte still to be read |
| Relocation.MoveBlock | src/common/main.c:77-91 | the block lands on erased flash and extends the copy |
| Relocation.RewriteFlag | src/common/main.c:72-95 | the flag written at the end changes nothing |
| Relocation.MovedIsBootable | src/common/main.c:72-76 | the copy is bootable from its first block on |
| Relocation.CutBootable | src/common/main.c:72-91 | a power cut in any step of the copy: address 0 is bootable from the second block on although only the blocks so far are there and old content follows; before the copy reaches it the source still is; so one of the two always is |
| Relocation.FirstCutBreaks | src/common/main.c:77-80 | a cut in the first sector can leave address 0 without the start-up word |
| Relocation.LateCut | src/common/main.c:92-97 | a cut behind the copy leaves address 0 bootable |
| BootCopy.IsValidFw | tl_zigbee_sdk/apps/bootLoader/bootloader.c:121-127 | true exactly when the start-up word stands at the address |
| BootCopy.CrcOf | tl_zigbee_sdk/apps/bootLoader/bootloader.c:152-163 | the chunked checksum loop computes the CRC of the whole range, none for a negative length |
| BootInstall.OkExactly | tl_zigbee_sdk/apps/bootLoader/bootloader.c:143-167 | an image is accepted exactly when its size is in range and the table steps over all bytes but the last four give the last word |
| BootInstall.FlagIs | tl_zigbee_sdk/apps/bootLoader/bootloader.c:121-127 | the start-up word is 4b 4e 4c 54, read as 0x544c4e4b |
| BootCopy.CheckImage | tl_zigbee_sdk/apps/bootLoader/bootloader.c:143-167 | true exactly when the size is in range and the last word is the checksum of the bytes before it |
| BootCopy.CopyImage | tl_zigbee_sdk/apps/bootLoader/bootloader.c:176-192 | even on a faulty flash success means an exact copy, and nothing outside the application region changes |
| BootCopy.PageReadsBack | tl_zigbee_sdk/apps/bootLoader/bootloader.c:177-187 | every page is written on erased flash and reads back |
| BootCopy.EraseImage | tl_zigbee_sdk/apps/bootLoader/bootloader.c:198-201 | the erase loop in 32-bit addresses; within the chip it stays at or above the image |
| BootCopy.BootloaderWithOtaCheck | tl_zigbee_sdk/apps/bootLoader/bootloader.c:129-224 | the application is started exactly when its flag stands at the end; without a flagged image nothing changes; an image that passed and did not end in a reset is in place byte for byte even on a faulty flash; on a sound flash the run is the planned sequence of operations |
| BootSafety.CopyExact | tl_zigbee_sdk/apps/bootLoader/bootloader.c:176-192 | the planned copy leaves the image in the application region and nothing else changed |
| BootSafety.BootRecovers | tl_zigbee_sdk/apps/bootLoader/bootloader.c:129-224 | from any recoverable memory a completed boot installs and a cut one stays recoverable |
| BootSafety.InstallSurvivesCuts | tl_zigbee_sdk/apps/bootLoader/bootloader.c:129-224 | after any number of power cuts the next completed boot has the image in place, its flag cleared, and starts it |
| BootSafety.BootDecides | tl_zigbee_sdk/apps/bootLoader/bootloader.c:129-224 | decided by the bytes alone: without the start-up word nothing happens; with a right checksum the image is in place and starts; with a wrong one, or too large a size that does not send the erases round, the application stays |
| BootSafety.RejectedImage | tl_zigbee_sdk/apps/bootLoader/bootloader.c:143-201 | an image too large or with a wrong checksum leaves the whole application exactly when its size does not send the erase loop round to it, or wraps when rounded up; otherwise its first sector is erased |
| BootSafety.RejectedWithinLimit | tl_zigbee_sdk/apps/bootLoader/bootloader.c:143-201 | a wrong checksum within the size limit never costs the application anything |
| BootUploadProofs.StepKeeps | tl_zigbee_sdk/apps/bootLoader/bootloader.c:226-506 | every message, retry and boot check keeps the session invariant; all but the check keep the flash outside the image area |
| BootUploadProofs.RunHolds | tl_zigbee_sdk/apps/bootLoader/bootloader.c:226-506 | over every run an open session's area holds the accepted blocks in order with the flag byte masked and the rest erased, and the boot check is not due; without a boot check nothing else has changed |
| BootUploadProofs.OpenNotBootable | tl_zigbee_sdk/apps/bootLoader/bootloader.c:465-471 | the open area is bootable exactly when the flag byte escaped the mask and the start-up word has arrived |
| BootUploadProofs.BlockStaysInside | tl_zigbee_sdk/apps/bootLoader/bootloader.c:470-493 | a block no longer than what was left stays in the image area |
| BootUploadProofs.BlockOverruns | tl_zigbee_sdk/apps/bootLoader/bootloader.c:470-486 | a longer one programs the bytes behind the area before it ends the session |
| BootUploadProofs.CompletionHolds | tl_zigbee_sdk/apps/bootLoader/bootloader.c:472-481 | the last block reports success, schedules the check and leaves the whole file stored |
| BootUploadProofs.StallsExactly | tl_zigbee_sdk/apps/bootLoader/bootloader.c:443-498 | a step that leaves a session open takes its retry timer exactly when it is a misplaced, empty or over-long block |
| BootUploadProofs.ArmedExactly | tl_zigbee_sdk/apps/bootLoader/bootloader.c:342-498 | over every run, whatever sessions it opens, an open session has its timer exactly when its last block reply was not about a wrong offset |
| BootUploadProofs.StalledForever | tl_zigbee_sdk/apps/bootLoader/bootloader.c:401-498 | once lost, further starts and misplaced blocks change neither session nor flash |
| BootUploadProofs.GivesUp | tl_zigbee_sdk/apps/bootLoader/bootloader.c:374-393 | without answers the session asks at most five times and ends with a timeout |
| BootUploadProofs.UploadCompletes | tl_zigbee_sdk/apps/bootLoader/bootloader.c:374-498 | the file of a session ends up stored, and its check scheduled, in exactly those runs that deliver it: cut into blocks of any permitted sizes, with retries, starts and misplaced blocks in between |
| BootUploadProofs.AnswersDeliver | tl_zigbee_sdk/apps/bootLoader/bootloader.c:342-498 | answering each request with the bytes asked for is such a run |
| BootUploadReplies.RunFollows | tl_zigbee_sdk/apps/bootLoader/bootloader.c:342-501 | over every run the replies are those of a protocol that knows only the size, the bytes taken and the unanswered requests of a session |
| BootUploadReplies.CheckFollows | tl_zigbee_sdk/apps/bootLoader/bootloader.c:401-481 | the boot check is scheduled exactly by the block that completes the file |
| BootUploadProofs.UploadInstalls | tl_zigbee_sdk/apps/bootLoader/bootloader.c:129-506 | a well-formed image uploaded in any such run is installed by the boot check that follows and is the application that starts |
| BootUploadDevice.Upgrade.StartRequest | tl_zigbee_sdk/apps/bootLoader/bootloader.c:401-438 | the handler's new state is the specified one, erase loop included |
| BootUploadDevice.Upgrade.BlockResponse | tl_zigbee_sdk/apps/bootLoader/bootloader.c:440-501 | the same for a block response |
| BootUploadDevice.Upgrade.TimerCb | tl_zigbee_sdk/apps/bootLoader/bootloader.c:342-393 | the same for the retry timer |
| BootUploadDevice.Upgrade.OtaCheckDelay | tl_zigbee_sdk/apps/bootLoader/bootloader.c:226-232 | the same for the delayed boot check, and whether it starts the application |
| HciUploadProofs.StepKeeps | tl_zigbee_sdk/zbhci/zbhciCmdProcess.c:1058-1277 | every event keeps an open session's record, checksum, flash and timer |
| HciUploadProofs.CrcLenIsGrowth | tl_zigbee_sdk/zbhci/zbhciCmdProcess.c:1212-1219 | the length summed is what the file prefix without its last four bytes grows by |
| HciUploadProofs.RunSums | tl_zigbee_sdk/zbhci/zbhciCmdProcess.c:1196-1277 | over every run the running value is the CRC of the unmasked file prefix of length min(offset, total - 4) |
| HciUploadProofs.LocalCompletion | tl_zigbee_sdk/zbhci/zbhciCmdProcess.c:1262-1275 | the last block of a local image succeeds exactly when its start-up word is there and its last word is the CRC of the rest |
| HciUploadProofs.LocalUpload | tl_zigbee_sdk/zbhci/zbhciCmdProcess.c:1086-1277 | so does a whole image delivered in any way, retries included, unless a block ends right before the flag byte with another byte behind it: both directions |
| HciUploadProofs.LocalOffer | tl_zigbee_sdk/zbhci/zbhciCmdProcess.c:1196-1277 | the same for an image offered straight through in blocks of any sizes |
| HciUploadProofs.SuccessBoots | tl_zigbee_sdk/zbhci/zbhciCmdProcess.c:1099-1137 | after success the pre-reboot check passes, and the bootloader installs the image byte for byte and starts it |
| HciUploadProofs.SuccessSwitches | tl_zigbee_sdk/zbhci/zbhciCmdProcess.c:1099-1137 | in a build without a bootloader the chip then boots the other image, which is the file byte for byte |
| HciUploadProofs.RemoteRefused | tl_zigbee_sdk/zbhci/zbhciCmdProcess.c:1237-1254 | a file for another device is refused exactly when bytes 8 to 11 are a bare firmware's start-up word |
| HciUploadAnswers.RemoteUpload | tl_zigbee_sdk/zbhci/zbhciCmdProcess.c:1086-1277 | a remote file delivered in any way is stored and reported so exactly when it is no bare firmware for this chip; otherwise it is refused and its area erased |
| HciUploadAnswers.GivesUp | tl_zigbee_sdk/zbhci/zbhciCmdProcess.c:1041-1096 | without answers an open session asks for the same bytes, at most 40, until it has asked five times, then reports a timeout, is forgotten, and leaves timer off and area erased |
| HciUploadAnswers.AnswersDeliver | tl_zigbee_sdk/zbhci/zbhciCmdProcess.c:1041-1277 | a host that answers each request with the bytes asked for delivers the file |
| HciUploadAnswers.AnswersExist | tl_zigbee_sdk/zbhci/zbhciCmdProcess.c:1041-1277 | and from every open session it can |
| HciUploadAnswers.StartTold | tl_zigbee_sdk/zbhci/zbhciCmdProcess.c:1153-1191 | the one reply to a start request in every state |
| HciUploadAnswers.StartOpens | tl_zigbee_sdk/zbhci/zbhciCmdProcess.c:1168-1185 | an accepted start opens a session with nothing received, five requests to come and its area erased |
| HciUploadAnswers.BlockTold | tl_zigbee_sdk/zbhci/zbhciCmdProcess.c:1192-1277 | what a session tells of a block: nothing while it goes on, and at its end once how many bytes there were and how it came out |
| HciUploadAnswers.TimerFollows | tl_zigbee_sdk/zbhci/zbhciCmdProcess.c:1086-1277 | the retry timer runs exactly as long as the session; after it only the reboot into a local image that succeeded is due |
| HciUploadAnswers.RebootDecides | tl_zigbee_sdk/zbhci/zbhciCmdProcess.c:1098-1137 | decided by the bytes alone: the flag byte is set exactly in an image whose size, start-up word and checksum are right, the device resets exactly if all its bits could be set, and a build without a bootloader then clears the running image's flag; nothing else changes |
| HciUploadAnswers.WordEndsAt | tl_zigbee_sdk/zbhci/zbhciCmdProcess.c:1265-1267 | a checksum word that would begin below address 0 is read from the end of the chip on |
| HciUploadAnswers.BootsFrom | tl_zigbee_sdk/zigbee/ota/ota.c:128-149 | without a bootloader the lower image is booted if its start-up word is there, else the upper one if its is, else none |
| HciUploadProofs.FailureLeavesBlank | tl_zigbee_sdk/zbhci/zbhciCmdProcess.c:1068-1083 | a session that ends in failure leaves its area erased |
| HciUploadProofs.SwitchSurvivesCut | tl_zigbee_sdk/zbhci/zbhciCmdProcess.c:1119-1124 | power lost in or between the two flag writes: the chip boots the running image, untouched, or the file byte for byte |
| HciUploadProofs.StepStaysInside | tl_zigbee_sdk/zbhci/zbhciCmdProcess.c:1058-1277 | a session changes nothing outside its area exactly unless a block takes it to the area's end; then the area and the sector behind it end up erased, whatever they held, and the session is over |
| HciUploadProofs.StrayBlock | tl_zigbee_sdk/zbhci/zbhciCmdProcess.c:1186-1275 | what a block response without a session does to the flash, exactly |
| HciUploadProofs.RefusedStart | tl_zigbee_sdk/zbhci/zbhciCmdProcess.c:1153-1191 | a refused start leaves the session record as it was exactly unless the size was the reason |
| HciUploadProofs.OversizeLeavesSession | tl_zigbee_sdk/zbhci/zbhciCmdProcess.c:1161-1275 | after a refused start a block at offset 0 is stored and the next one asked for exactly when the size was the reason and the block does not show a bare firmware |
| HciUploadDevice.Host.StartRequest | tl_zigbee_sdk/zbhci/zbhciCmdProcess.c:1153-1191 | the handler's new state is the specified one |
| HciUploadDevice.Host.BlockResponse | tl_zigbee_sdk/zbhci/zbhciCmdProcess.c:1192-1277 | the same for a block response |
| HciUploadDevice.Host.FindBootFlag | tl_zigbee_sdk/zbhci/zbhciCmdProcess.c:1238-1253 | the byte loop collects the start-up word across blocks |
| HciUploadDevice.Host.BlockTimeout | tl_zigbee_sdk/zbhci/zbhciCmdProcess.c:1086-1097 | the same for the retry timer |
| HciUploadDevice.Host.CheckNewImage | tl_zigbee_sdk/zigbee/ota/ota.c:151-195 | the pre-reboot check sums the image with its flag byte unmasked |
| HciUploadDevice.Host.RebootDelay | tl_zigbee_sdk/zbhci/zbhciCmdProcess.c:1098-1137 | without a boot address nothing happens; else the flag byte is set in a valid image, and the device resets exactly if it then reads back; without a bootloader the running image's flag is cleared |
| OnOffLog.StatusLog.Save | src/app_onoff.c:239-258 | a save advances one slot, erasing the sector on a wrap, and writes the record of the live status |
| OnOffLog.StatusLog.Restore | src/app_onoff.c:196-237 | a restore finds the last record of the first run, or starts over with the default |
| OnOffLog.StatusLog.InitDefault | src/app_onoff.c:177-194 | the default record on an erased sector |
| OnOffLog.Checksum | src/app_utility.c:248-260 | the checksum is the sum of all bytes but the last |
| OnOffLogProofs.SaveStep | src/app_onoff.c:239-258 | every save writes into an erased slot, also when the log is full, and leaves a well-formed log |
| OnOffLogProofs.RunSound | src/app_onoff.c:177-258 | over every run of saves and restarts the device holds the status saved last |
| OnOffLogProofs.RunWear | src/app_onoff.c:239-258 | slot and erases are (start slot + saves) modulo and divided by the slots of a sector |
| OnOffLogProofs.RestartIsInvisible | src/app_onoff.c:196-237 | a restart after any run changes nothing the device knows |
| OnOffLogProofs.PartRecord | src/app_onoff.c:207-213 | no part of a record in an erased slot passes for a record |
| OnOffLogProofs.TornSave | src/app_onoff.c:196-258 | power lost during a save without a wrap: a restart finds the previous record or the whole new one |
| OnOffLogProofs.TornWrap | src/app_onoff.c:239-258 | during a save after a wrap: the whole new record or the default |
| OnOffLogProofs.TornErase | src/app_onoff.c:245-250 | during the erase: a record that was in the log, or the default |
| OnOffLogProofs.SaveKept | src/app_onoff.c:196-258 | whatever the flash holds, the save after a restart is kept exactly when its record can be programmed over the next slot and no record stands behind that |
| OnOffLogProofs.SaveAfterTear | src/app_onoff.c:196-258 | what a restart finds after that save in every case: it, the older record, or the last of the stale ones |
| OnOffLogProofs.LostSave | src/app_onoff.c:196-258 | a concrete save that is lost after a cut write |
| OnOffLogProofs.StaleSave | src/app_onoff.c:196-258 | a concrete save that is lost after a cut erase though it could be programmed |
| OnOffLogProofs.LaterSavesLost | src/app_onoff.c:196-258 | and no later save of that lap is found either |
| OnOffLogProofs.CutRunKeeps | src/app_onoff.c:177-258 | over every run of saves, restarts and power cuts each slot holds bytes of OFF and ON records only and the status is OFF, ON or 0xFF |
| OnOffLogProofs.WrapEndsIt | src/app_onoff.c:239-258 | after any such run the next save that wraps leaves a well-formed log |
| OnOffLogUnsaved.CutSaveShows | src/app_onoff.c:196-258 | for every log that cuts can leave: some cut of a save makes the restart show 0xFF exactly under a condition on the bytes before the cut, in the next slot and in the slot that counts then, or anywhere in the sector if the save wraps |
| OnOffLogUnsaved.CutRestartShows | src/app_onoff.c:177-237 | some cut of a restart does exactly if it finds no record and a slot holds the id and the check byte of such a record |
| OnOffLogUnsaved.WholeSaveShows | src/app_onoff.c:196-258 | a save of OFF or ON that is not cut off shows 0xFF after the restart exactly if another slot counts then, left behind with that status |
| OnOffLogUnsaved.PlainShows | src/app_onoff.c:196-258 | behind the newest record with no stale one following, a cut save can show 0xFF exactly if the next slot's status byte is erased and its check byte is 0x64 or becomes it |
| OnOffLogUnsaved.StaleShows | src/app_onoff.c:196-258 | a whole save in front of stale records shows 0xFF exactly if the last of them has that status |
| OnOffLogUnsaved.NeverSaved | src/app_onoff.c:196-258 | a run of two cut saves from a well-formed log that ends with the status 0xFF |
| OnOffLogUnsaved.NeverSavedByWrap | src/app_onoff.c:196-258 | another one over a whole lap, through a cut erase |
| OnOffLogUnsaved.LostSaveArises | src/app_onoff.c:239-258 | a cut save behind a well-formed log leaves what LostSave starts from |
| OnOffLogUnsaved.StaleSaveArises | src/app_onoff.c:245-250 | a cut erase of a full log leaves what StaleSave starts from |
| RelayAppProofs.RunKeeps | src/app_onoff.c:10-80 | over every run the log's newest record is the live status whenever the start-up mode needs it, and after every command attribute, status and pin agree |
| RelayAppProofs.PowerCycle | src/app_switch.c:425-443 | what a power cycle after any run gives back, for each start-up mode and switch type |
| RelayAppProofs.CycleConsistent | src/app_switch.c:425-443 | attribute, status and pin agree after it exactly for a toggle or momentary switch, or for a logged OFF without a mode that switches on |
| RelayAppProofs.ToggleKeeps | src/app_onoff.c:10-34 | a toggle inverts the status and keeps log, attribute and pin in step |
| RelayAppProofs.OnKeeps | src/app_onoff.c:36-57 | the on command leaves everything on and logged if the mode needs it |
| RelayAppProofs.OffKeeps | src/app_onoff.c:59-80 | the same for off |
| RelayAppProofs.WriteKeeps | src/zcl_appCb.c:178-307 | a write request of any records keeps log, settings, their saved copy and the start-up attribute in agreement |
| RelayAppProofs.StartUpsKeep | src/zcl_appCb.c:195-210 | start-up records leave the last mode written, logged at once when it needs the log |
| RelayAppProofs.ConfigsKeep | src/zcl_appCb.c:211-256 | switch configuration records keep the log, and switch types without a relay decoupled |
| RelayAppProofs.BootKeeps | src/app_relay.c:76-126 | a power-on restores the logged status and the saved settings |
| RelayAppProofs.FirstPowerOn | src/app_relay.c:76-126 | without a log record and saved settings a device starts OFF, with the default settings, everything in agreement |
| RelayAppProofs.BootConsistent | src/app_relay.c:76-139 | attribute, status and pin agree after it exactly for a logged OFF without a mode that switches on |
| RelayAppProofs.FirstStartKeeps | src/app_switch.c:55-76 | the start-up rule of the switch brings them back in step, in the start-up mode's state |
| RelaySettings.ConfigSettles | src/zcl_appCb.c:211-269 | after a write of any switch configuration records the type is the last valid one written, the action the last one, the decoupling the last one except that a type without a relay keeps 1, all else as before; the saved copy is the same; the attribute and the relay follow exactly |
| RelaySettings.BootSettles | src/app_relay.c:76-139 | after a power-on the pin is off, settings, status and decoupling attribute are those saved, and the attribute follows the start-up mode |
| RelaySettings.CommandLogs | src/app_onoff.c:10-80 | a command is logged exactly when the start-up mode needs it and it is not for what is so already |
| RelaySettings.StartUpSettles | src/zcl_appCb.c:195-210 | after a write of start-up records mode, saved copy and attribute are the last one written and nothing else changes |
| RelayDevice.Relay.CmdOnOffToggle | src/app_onoff.c:10-34 | the command's new state is the specified one |
| RelayDevice.Relay.CmdOnOffOn | src/app_onoff.c:36-57 | the same for on |
| RelayDevice.Relay.CmdOnOffOff | src/app_onoff.c:59-80 | the same for off |
| RelayDevice.Relay.WriteRequest | src/zcl_appCb.c:178-307 | the handler loop's new state is the specified one |
| RelayDevice.Relay.SettingsRestore | src/app_relay.c:76-126 | the same for the restore |
| RelayDevice.Relay.DevRelayInit | src/app_relay.c:128-139 | the same for the relay's initialisation |
| RelayDevice.Relay.PowerOn | src/app_main.c:186-206 | the whole power-on sequence, with the relay initialised before the settings are restored |
| ReportingDevice.Reporter.ReportAttrs | src/zcl/zcl_reporting.c:411-500 | terminates; everything due is reported and reloaded, the rest untouched, nothing due remains; the packets are a batching of what was due |
| ReportingDevice.Reporter.ReportPass | src/zcl/zcl_reporting.c:426-498 | one pass takes one or two due entries of one group, one alone only if its group has no other |
| ReportingDevice.WildIsNeverBatched | src/zcl/zcl_reporting.c:457-487 | a batching is possible only if no due entry has cluster 0xFFFF |
| ReportingDevice.Reporter.FlushTimerCb | src/zcl/zcl_reporting.c:502-507 | the flush reports everything due and stops |
| ReportingDevice.Reporter.TimerStart | src/zcl/zcl_reporting.c:598-674 | every entry is scanned once, independently of the others |
| ReportingDevice.Reporter.TimerCb | src/zcl/zcl_reporting.c:527-564 | the entry's counters run down and the flush is due |
| ReportingDevice.Reporter.EntryUpdate | src/zcl/zcl_reporting.c:212-252 | the entry takes over the configuration |
| ReportingDevice.Reporter.EntryRst | src/zcl/zcl_reporting.c:178-198 | the entry reverts to its defaults, its timer is stopped and the table scanned |
| ReportingDevice.Reporter.ReportHandler | src/zcl/zcl_reporting.c:685-690 | the table is scanned exactly if the device has joined a network |
| ReportingProofs.StepKeeps | src/zcl/zcl_reporting.c:178-674 | every event keeps timers on their own entries and, unless it puts a configuration on this very entry that the running minimum timer does not serve, its counters within their intervals and its pending change in time |
| ReportingProofs.NoChangeLost | src/zcl/zcl_reporting.c:178-674 | over every run, whatever the other entries are configured to, a change seen and not yet reported, and kept in time by new configurations of its own entry, has its minimum timer running or a counter at zero with the flush due |
| ReportingProofs.PendingIsDelivered | src/zcl/zcl_reporting.c:411-564 | and the flush, or the timer and then the flush, reports it |
| ReportingProofs.ReportedExactly | src/zcl/zcl_reporting.c:411-674 | while entry and attribute stay as they are, some run reports an entry with a timer running or the flush due exactly unless it has no maximum interval and its minimum counter outlasts that timer |
| ReportingProofs.SurvivesExactly | src/zcl/zcl_reporting.c:241-251 | a change already on its way can still be reported under a new configuration exactly if that has a maximum interval, or a minimum interval of zero or one that is over with the running timer; otherwise no run reports it |
| ReportingProofs.NextChangeInTime | src/zcl/zcl_reporting.c:241-674 | the next change after a new configuration is reported at once or with its minimum timer exactly when no minimum timer is running from before, or the minimum or the nonzero maximum interval ends with it, or there is no maximum interval and the minimum is not 0xFFFF |
| ReportingProofs.ShortTimerMisses | src/zcl/zcl_reporting.c:241-674 | otherwise the old timer runs out before either counter, the flush finds nothing due, and the change stays remembered as reported |
| ReportingProofs.ShortTimerDelays | src/zcl/zcl_reporting.c:241-674 | with a maximum interval that lap does not report it and a second one does |
| ReportingProofs.NextChangeReported | src/zcl/zcl_reporting.c:241-674 | some run reports that change exactly unless the intervals are 0xFFFF and none and a shorter minimum timer is running |
| ReportingDetects.ScanSees | src/zcl/zcl_reporting.c:598-674 | an active entry's change is seen exactly when its bytes differ, or its number is the configured change away from the remembered one; then it is remembered and due at once or with the minimum timer, else the entry stays and waits for its maximum interval |
| ReportingDetects.DiscreteSeen | src/zcl/zcl_reporting.c:611-643 | after a scan a discrete attribute reads as remembered, and a difference there was is on its way |
| ReportingDetects.ScanPasses | src/zcl/zcl_reporting.c:602-604 | entries that take no part only lose their timer, and outside a network nothing happens |
| ReportingDetects.FlushRemembers | src/zcl/zcl_reporting.c:436-475 | the flush reports exactly the entries in force with an interval over; these remember what was sent and start their intervals again |
| ReportingDetects.FireCounts | src/zcl/zcl_reporting.c:527-564 | a timer takes its seconds off both counters of its entry and has the flush follow |
| ReportingDetects.ValueIs | src/zcl/zcl_reporting.c:266-400 | numbers are read by the weight of their bytes, two's complement but for the signed 24-bit type |
| ReportingDetects.CrossingZero | src/zcl/zcl_reporting.c:340-352 | the distance of signed 24-bit numbers is right unless they have different signs; then it is 2^24 minus the true one |
| ReportingDetects.ConfiguredCounts | src/zcl/zcl_reporting.c:212-252 | a configuration takes effect: intervals from the start, and the reportable change of a number |
| ReportingDetects.ConfigureAndReset | src/zcl/zcl_reporting.c:178-252 | in the table a configuration changes its entry only; a reset reverts an entry in use, stops its timer and scans |
| ReportingDetects.ResetBringsBack | src/zcl/zcl_reporting.c:178-252 | after any configurations a reset restores the intervals of the first one and a change of zero |
| ReportingProofs.DistanceTest | src/zcl/zcl_reporting.c:266-400 | the change check is the distance test except where a 32-bit signed distance wraps |
| SwitchProofs.ToggleKeeps | src/app_switch.c:130-233 | in every run of toggle mode the debounce counter stays in 1 to 128 and bounds what the status can be |
| SwitchProofs.ClosedStands | src/app_switch.c:182-190 | right after closing the status stands for 126 polls whatever they find |
| SwitchProofs.OpenStands | src/app_switch.c:137-143 | the same right after opening |
| SwitchProofs.ChangesFarApart | src/app_switch.c:137-190 | over every run two polls that change a known status are at least 127 polls apart, whatever the contact does |
| SwitchProofs.ClosesInTime | src/app_switch.c:137-144 | an open switch is seen closed after exactly 128 - debounce closed polls |
| SwitchProofs.OpensExactly | src/app_switch.c:184-192 | a closed switch that stays open for debounce - 1 polls is seen open after exactly these if and only if its press is on record and no earlier burst ends on the way |
| SwitchProofs.DeadForever | src/app_switch.c:143-190 | closed without a press on record is never left and commands nothing |
| SwitchProofs.DeadExactly | src/app_switch.c:130-233 | over every run the dead state is reached exactly through a first closed poll after a boot or a poll that ends a burst while the switch is seen as closed again |
| SwitchProofs.SecondPressIsDead | src/app_switch.c:143-232 | in particular by a second press within the burst that is held until it ends |
| SwitchPresses.PollActs | src/app_switch.c:143-233 | each poll gives one command for a new press, or for the release of a single one of a momentary switch, and none otherwise: to the relay if coupled, to bound devices if not; a press inverts or sets as the action says, a release does the opposite |
| SwitchPresses.RunActs | src/app_switch.c:130-233 | over every run, whatever the settings at each poll, the relay follows the presses made while coupled and the bound devices those made while decoupled |
| SwitchPresses.SidesKept | src/app_switch.c:159-173 | a switch decoupled throughout never commands its relay, a coupled one never a bound device |
| SwitchPresses.PressesInvert | src/app_switch.c:168-173 | a coupled toggle switch has inverted its relay once for each new press |
| SwitchPresses.PollSwitches | src/app_switch.c:143-233 | carried out by the relay application, a coupled press leaves status, attribute and pin inverted or as the action says, and a decoupled one leaves them alone |
| SwitchPresses.FirstPollSwitches | src/app_switch.c:55-76 | the first poll after a power-on applies the start-up rule |
| SwitchBursts.BurstReports | src/app_switch.c:235-331 | all that a burst in multifunction mode puts out is a hold if it was held, and at its end a release, or a click of one, two or three presses, empty for 250, a reset for ten or more: end, hold and count taken from the polls alone |
| SwitchBursts.LightBurstReports | src/app_switch.c:333-422 | the same in light control: a held contact moves the level, up and down in turn, and stops; one press toggles a bound device, ten or more reset |
| SwitchBursts.BurstEndsExactly | src/app_switch.c:182-232 | over every run in toggle mode a poll ends the burst exactly if it comes late and the contact has been seen open again since the first press; the next press then acts again |
| SwitchBursts.ToggleBurstResets | src/app_switch.c:216-232 | a burst in toggle mode ends with a reset exactly if it had ten presses or more |
| SwitchBursts.RejoinsExactly | src/app_switch.c:138-141 | in every mode a device that has lost its network asks to rejoin exactly four steps away from either end |
| SwitchBursts.StartsSo | src/app_switch.c:453-472 | what a power-on starts from in either kind of mode |
| SwitchProofs.HoldsAreBracketed | src/app_switch.c:235-331 | in multifunction mode HOLD and RELEASE strictly alternate and clicks come only between holds |
| SwitchProofs.MovesAreBracketed | src/app_switch.c:333-422 | in light control every move is followed by one stop before the next move |
| SwitchProofs.DirectionsAlternate | src/app_switch.c:346-364 | the move directions alternate, the first one up |
| SwitchProofs.GlitchCountsExactly | src/app_switch.c:257-281 | in both modes one stray open poll leaves the press counter alone exactly below the upper end of the debounce counter, and there counts as another press; if the burst ends in these polls the counter starts again |
| SwitchProofs.TypesMayChange | src/app_switch.c:425-443 | over every run in which the switch type changes at any time every hold and move is ended once before the next, as long as no toggle poll ends it |
| SwitchProofs.HoldEndsAs | src/app_switch.c:286-420 | a held burst ends with a release exactly in multifunction mode and with a stop exactly in light control, whatever the type was before |
| SwitchDevice.Contact.ReadToggle | src/app_switch.c:130-233 | the poll routine's new state and commands are the specified ones |
| SwitchDevice.Contact.ReadMulti | src/app_switch.c:235-331 | the same in multifunction mode |
| SwitchDevice.Contact.ReadLight | src/app_switch.c:333-422 | the same in light control |
| SwitchDevice.Contact.constructor | src/app_switch.c:453-472 | the initial state of a contact |
| Calendar.GetFtime | src/app_time.c:91-127 | for every nonzero 32-bit counter the date is counter/86400 days after 2000-01-01, the time is the rest, and the weekday is right exactly up to 2099 |
| Calendar.LayersAreCivil | src/app_time.c:103-114 | the three rounded quotients convert every day number to its Gregorian date, counted forward day by day |
| Calendar.DateStep | src/app_time.c:103-114 | the conversion of the next day number is the next calendar day |
| Calendar.NothingTruncated | src/app_time.c:93-114 | no intermediate value overflows its byte |
| Calendar.WeekdayExactly | src/app_time.c:116-124 | the weekday formula is right exactly up to 2099 |
| KeyRing.FilteredIsMajority | src/drv_sdk/drv_keyboard.c:107-110 | the filter is the bitwise majority of last output and the last two samples |
| KeyRing.ChangeNeedsTwoSamples | src/drv_sdk/drv_keyboard.c:107-110 | an output bit changes only to a value seen in two samples running |
| KeyRing.GlitchUnseen | src/drv_sdk/drv_keyboard.c:107-110 | one stray sample is never seen |
| KeyRing.Keyboard.DebounceFilter | src/drv_sdk/drv_keyboard.c:99-118 | the row loop filters every row and reports whether any changed |
| KeyRing.Keyboard.Push | src/drv_sdk/drv_keyboard.c:286-294 | the ring with modulo-8 pointers is a queue of four that drops its oldest |
| KeyRing.Keyboard.Pop | src/drv_sdk/drv_keyboard.c:301-306 | reading takes the oldest |
| KeyRing.KeepsNewest | src/drv_sdk/drv_keyboard.c:286-306 | over every run of writes and reads each read returns the oldest matrix not yet read among the newest four, in order and none twice, and the rest of those four is what waits |
| Decimal.Digit64ToString | src/app_utility.c:92-103 | below 10^16 the buffer ends in the number's decimal numeral |
| Decimal.FitsExactly | src/app_utility.c:92-103 | the numeral fits a buffer of k digits exactly for values below 10^k |
| Decimal.Itoa | src/app_utility.c:63-90 | sign, numeral, terminator and their length, for every value but the smallest |
| Decimal.Atoi | src/app_utility.c:105-130 | the leading digits' number, scaled by ten for each other character behind them |
| Decimal.AtoiExactly | src/app_utility.c:105-130 | which is the number of the text's leading digits exactly when these are all that is read or are zero, for texts of any length |
| Decimal.RoundTrip | src/app_utility.c:92-130 | what the one writes the other reads back |
| Decimal.NumberOfDigits | src/app_utility.c:92-103 | the numeral stands for the number |

## Left out

- Pins, ADC, UART, SPI registers, interrupts, LEDs and debug output: inputs are arbitrary, outputs are appended to a trace.
- The Zigbee stack, the non-volatile memory driver and the event-timer queue; reporting looks at its binding and attribute tables only.
- Floating-point attribute types, which the source does not check either.
- BootSafety.InstallSurvivesCuts: for sizes of 4 and more only; below that the checksum word lies below the image, where the copy changes it.
- BootSafety.InstallSurvivesCuts: power cuts are modelled per byte, so a byte with only some bits programmed is not considered.
- HciUpload.Cover: does not model the 16-bit sector counter's wrap, which needs offsets of 2^28 and more.
- Decimal.Itoa: excludes the smallest 32-bit value, whose negation is undefined in C.
- SwitchProofs.ToggleKeeps: for runs in toggle mode; across changes of the switch type only the bracketing of holds and moves is stated.
- Decimal.Digit64ToString: for values below 10^16; above, the digits run below the buffer, which is undefined in C.
- BootCopy.EraseImage: the 32-bit wrap of the erase address only for chip sizes that divide 2^32, as those of flash chips do.
- The second endpoint, remote on/off commands, level control and forced reports: loops of send calls without state of interest.
- Flash addresses beyond the chip, except in the erase loop of the install, and the SDK's own flash driver, taken to program like the application's.
