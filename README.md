# Fring companion-MCU driver, modelled in Dafny

The Fring is a companion microcontroller on the device's I2C bus. The host-side
driver (`Fring` in fring.cpp) does four things:

- It brings the MCU up. It checks the "Fring" id code and reads the boot info.
  It writes a fresh serial number when the stored one is blank (all 0xFF). It
  reads the board revisions. When updates are enabled, it picks the newest
  firmware image for the slot that is not running.
- It keeps the last reported device status (home button, ambient light,
  hardware errors, battery presence) and battery status. It signals a change
  only when a new reading differs.
- It serves the MCU's interrupt line. It reads the interrupt status word, then
  reads the register of every source whose bit is set, in a fixed order.
- It writes LEDs through a two-entry cache and programs the wake-up timer.

The firmware update (`FringUpdateThread::run`) pushes the image in 32-byte
chunks. Each chunk is padded to a whole word and carries its offset and the
running CRC-32/MPEG-2. The CRC uses polynomial 0x04C11DB7 and initial value
0xFFFFFFFF, with no reflection and no final XOR. The bytes of every word are
fed in reverse order. After each chunk, the update waits for the result code
that the interrupt handler stores.

The project has seven modules:

- `Protocol` holds the commands, replies, transactions and signals. Struct
  sizes and bit masks live in fring.h, which is not part of this model, so
  they are declared as constants without values.
- `Transport` is the I2C client. It is a class that logs every transaction.
  Whether a transfer succeeds, and what the MCU answers, are the
  environment's choice.
- `Crc` is the word-wise checksum: a loop over an array, proved equal to
  CRC-32/MPEG-2 over the word-reversed bytes.
- `Identity` covers the id code, the boot flags, the hex rendering of the
  serial number, file-name splitting and `toInt`, and the scan for the newest
  image.
- `Status` is the diff-and-emit logic for device and battery status, as
  functions on values.
- `Update` is the update loop as a function on values. `RunFrom` is the
  do-while loop. `Concluded` and `Expected` describe every way it can end
  and every chunk it sends; `LaidOut` states the chunk layout (padded
  lengths, word-aligned offsets that sum the lengths before them, chained CRCs).
- `Driver` holds the class `Fring`. Its fields are the session's fields plus
  the update job's fields:
  - the last reported progress;
  - the stored result code;
  - how many times the job's semaphore was released.

  Every method names the fields it may change. It states their new values in
  terms of the old ones and of the transactions it appended to the bus log.
  `RunUpdate` is proved to follow `Update.Run` on the transfer outcomes that
  the log records.

Signals are recorded in `Fring.events`, in the order they are emitted.

The model follows the code in three places where the intended behaviour reads
differently:

- **LED writes are never suppressed.** fring.cpp:193 passes
  `sizeof(...) == 0`, which is 0, as memcmp's length. So the cache check
  never holds, and every `setLed` transmits. The intended behaviour is to
  suppress a write identical to the cached one. The model keeps the code's
  behaviour: `Driver.Fring.SetLed` always appends a transaction.
- **The final empty chunk is transmitted.** The loop ends only after a chunk
  of length 0 has been transmitted and acknowledged
  (fring.cpp:554-591). It does not stop before transmitting it. Every
  successful transmission therefore ends with an empty chunk.
- **A failed file read reports success.** It breaks out of the loop, which
  then emits `succeeded` (fring.cpp:556-559, 593).

## Model

| member | source | states |
|---|---|---|
| Driver.Fring.constructor | fring.cpp:19-36 | home button, ambient light and battery presence start at -1 ("never read"), the LED cache is invalid, updates are disabled, no job exists; the hardware-error word and battery fields, which the constructor leaves uninitialised, start as given |
| Driver.WireRead | fring.cpp:176-179 | a missing or zero read length becomes a read of exactly one byte; any other length is kept |
| Driver.Fring.Transfer | fring.cpp:169-187 | appends exactly one transaction of the command with the given write length and the read length WireRead gives; reports its success; the bus stays open or closed as it was |
| Transport.Bus.Transfer | i2cclient.h:15 | one write-then-read transaction is appended to the log; the reply has the register's layout |
| Transport.Bus.Open | i2cclient.h:13 | the bus is open exactly when opening succeeded; nothing is transmitted |
| Driver.Fring.Initialize | fring.cpp:54-162 | the new transactions follow InitTrace (none when the bus cannot be opened); firmware version and serial come from the boot info when it was read, with a blank serial replaced; board revisions come from their reply when read; a job is started exactly for NewJob |
| Driver.Fring.Identify | fring.cpp:61-77 | first the Identify transaction; a failed transfer or a wrong id code ends the bring-up unsuccessfully with nothing more sent |
| Driver.Fring.ReadBootInfo | fring.cpp:81-123 | boot info, then the serial write only when the serial is blank, then the board revision read, whose success is the result; each field changes only once its reply was read |
| Driver.Fring.CheckForUpdate | fring.cpp:129-159 | a job for UpdateChoice's image is started, with progress back at 0, exactly when a newer image exists; otherwise the job fields are unchanged |
| Driver.InitSuccessMeansIdentified | fring.cpp:61-123 | a successful bring-up made at least three transactions, the first answered with the Fring id code, and both boot info and board revisions were read |
| Driver.InitSerial | fring.cpp:96-116 | a blank serial is replaced by the new one, which is exactly what the SetSerial transaction writes; a programmed serial is kept; the hex rendering decodes back to the serial |
| Driver.NewJobIsNewest | fring.cpp:129-159 | with updates enabled and board revisions read, a job starts exactly when some image for the inactive slot is newer than the running firmware, and it is for the newest such image |
| Identity.BootDescription | fring.cpp:79-93 | the first description names the boot slot (B exactly when the firmware-B flag is set); "beta version" is added exactly when the beta flag is set |
| Identity.UpdateTargetsInactiveSlot | fring.cpp:135 | images are looked for in "bin-b" exactly when booted from A, and in "bin-a" exactly when booted from B |
| Identity.AllFF | fring.cpp:98-104 | the scan answers true exactly when every serial byte is 0xFF |
| Identity.Hex | fring.cpp:116 | the rendering has two characters per byte, all hex digits |
| Identity.UnhexHex | fring.cpp:116 | the hex rendering of the serial loses nothing: decoding it gives the bytes back |
| Identity.SplitHasNoSeparator | fring.cpp:141 | no part of a split file name contains a dot |
| Identity.JoinSplit | fring.cpp:141 | joining the parts with the separator gives the file name back |
| Identity.ToInt | fring.cpp:149 | the result is a 32-bit int; a non-zero result is the value of the text read as an optionally signed decimal number |
| Identity.ToIntDecimal | fring.cpp:149 | every 32-bit version number written in decimal reads back as itself |
| Identity.Examine | fring.cpp:141-149 | a file is a candidate exactly when the suffix has no dot and the name is the suffix or ends with a dot followed by it; its version is the text before the first dot (the whole name without one) read as an int |
| Identity.FirstSep | fring.cpp:141 | the index of the first separator, or the length when there is none: nothing before it is a separator |
| Identity.SplitFirst | fring.cpp:141-147 | the first part of a split is the text before the first separator |
| Identity.SplitLast | fring.cpp:141-144 | the last part of a split ends the name and has no separator; it is the whole name for one part and follows a separator otherwise |
| Identity.LastPartIs | fring.cpp:141-144 | the last part is the unique separator-free ending that is the whole name or follows a separator |
| Identity.CandidateByEnding | fring.cpp:144-147 | the last dot-part is the wanted suffix exactly when the suffix has no dot and the name is the suffix or ends with a dot followed by it |
| Identity.VersionByPrefix | fring.cpp:149 | the announced version is the text before the first dot read as an int |
| Identity.SelectUpdate | fring.cpp:137-154 | the loop computes the scan; it finds nothing exactly when no candidate is newer than the running version (which is then the available version), and otherwise the earliest file with the largest newer version, whose version becomes the available one |
| Identity.ScanFindsNewest | fring.cpp:137-154 | the scan over any prefix of the listing returns nothing, or the newest candidate with the version to beat set to its version |
| Identity.ScanSkips | fring.cpp:146-153 | a file that is no candidate, or is not newer than the best so far, leaves the choice as it is |
| Identity.ScanTakes | fring.cpp:149-152 | a candidate newer than the best so far becomes the newest |
| Identity.NewestUnique | fring.cpp:149 | the strict comparison makes the choice unique: ties go to the earliest file |
| Driver.Fring.SetLed | fring.cpp:189-200 | the LED's cache entry (0 for id 0, 1 for every other id) holds the new LED, the other entry is unchanged, the cache is valid, and one transaction always goes out |
| Driver.Slot | fring.cpp:191 | the cache entry is 0 exactly for LED id 0, and is always one of the two entries |
| Driver.Fring.SetLedOff | fring.cpp:202-211 | SetLed with mode off and every colour and timing byte zero |
| Status.HomeBit | fring.cpp:269 | the home-button state is 0 or 1 |
| Status.DeviceUpdateHoldsReading | fring.cpp:269-291 | after a reading the cache holds its home bit, ambient light and error word; the battery counts as present exactly when neither battery error bit is set |
| Status.DeviceUpdateSignalsChanges | fring.cpp:271-289 | each of home button, ambient light and hardware errors is signalled exactly when it differs from the cached value |
| Status.DeviceUpdateSignalCount | fring.cpp:271-289 | one signal per changed quantity and no others |
| Status.FirstReadingReports | fring.cpp:271-280 | the first reading after construction always signals the home button and the ambient light |
| Status.RepeatedReadingSilent | fring.cpp:271-289 | reading the same device status twice signals nothing the second time |
| Status.BatteryUpdateReports | fring.cpp:323-340 | after a reading the cache holds the five battery quantities; one combined signal fires exactly when any of them changed |
| Status.RepeatedBatteryReadingSilent | fring.cpp:323-340 | reading the same battery status twice signals nothing the second time |
| Driver.Fring.ReadDeviceStatus | fring.cpp:258-302 | one device-status transaction; the caches and signals change exactly as Handle says (a failed transfer changes nothing) |
| Driver.Fring.ReadBatteryStatus | fring.cpp:304-340 | one battery-status transaction; the caches and signals change exactly as Handle says |
| Driver.Fring.ReadLogMessage | fring.cpp:373-388 | one direct 16-byte read, without the dummy-read wrapper; a successful read signals the message |
| Driver.Fring.ReadWakeupReason | fring.cpp:390-404 | one wake-up-reason transaction; a successful read signals the reason |
| Driver.Fring.SetWakeupMs | fring.cpp:478-487 | one SetWakeupTime transaction of the given milliseconds with a one-byte read; its outcome is ignored |
| Driver.Fring.Interrupt | fring.cpp:596-607 | one update-result transaction; when it succeeds, the result code is stored for the job and its semaphore is released once |
| Driver.HandleFailedIsSilent | fring.cpp:264-265 | a handler whose transfer failed changes nothing |
| Driver.HandleReleasesOnResult | fring.cpp:602-606 | the semaphore is released, and the result code replaced, exactly on a successful update-result read |
| Driver.HandleAppendsSignals | fring.cpp:420-438 | a handler only appends signals |
| Driver.ReplayAppendsSignals | fring.cpp:420-438 | a run of handlers only appends signals |
| Driver.Fring.OnInterrupt | fring.cpp:407-440 | first the interrupt-status transaction; if it succeeds, the handler transactions that follow are exactly Dispatch of the status word, each answered in its register's layout and applied as Handle; otherwise nothing more; the job's result code and semaphore change only when the firmware bit is set while a job exists |
| Driver.ReplayKeepsJob | fring.cpp:420-438 | handler reads that do not include the update result leave the job's result code and semaphore unchanged |
| Driver.DispatchKeepsJob | fring.cpp:429-432 | serving a status word whose firmware bit is clear, or with no job, leaves the job's result code and semaphore unchanged |
| Driver.Fring.ServeSources | fring.cpp:420-427 | device status, battery status and log message are read exactly when their bits are set, in that order |
| Driver.Fring.ServeUpdate | fring.cpp:429-438 | the update result is read when its bit is set and a job exists; then the wake-up reason when its bit is set |
| Driver.Fring.ServeIf | fring.cpp:420-438 | one bit test: the register is read through its handler exactly when the bit is set |
| Driver.PickReadsExactlyTheFlagged | fring.cpp:420-438 | each register is read exactly when its flag is set |
| Driver.DispatchReadsExactlyTheSetBits | fring.cpp:420-438 | each register is read exactly when its interrupt bit is set, and the update result only while a job exists |
| Driver.PickOrdered | fring.cpp:420-438 | the flagged registers come in the fixed order |
| Driver.DispatchOrdered | fring.cpp:420-438 | the handlers run in strictly increasing fixed order, so each runs at most once |
| Driver.Fring.StartFirmwareUpdate | fring.cpp:442-476 | the new job is for the given file, with progress at 0 and a fresh semaphore |
| Driver.Fring.OnUpdateSucceeded | fring.cpp:452-464 | after success a re-initialisation is scheduled and updates are disabled |
| Driver.Fring.OnUpdateFailed | fring.cpp:466-469 | after failure updates are disabled |
| Update.Emit | fring.cpp:500-511 | a ratio outside [0, 1] changes nothing; otherwise the rounded value becomes the last one, and it is signalled exactly when it differs from the previous value (a NaN always differs) |
| Driver.Fring.EmitProgress | fring.cpp:500-511 | the last progress and the signals change exactly as Emit says |
| Update.ProgressBounds | fring.cpp:500-511 | a reported value is a whole number of hundredths from 0 to 100; 0 at the start, 100 at the end of the file |
| Update.ProgressMonotone | fring.cpp:590 | progress never goes backwards as the offset grows within the file |
| Crc.CalculateCrc | fring.cpp:513-528 | the word loop computes Checksum over the first len bytes, which is CRC-32/MPEG-2 over those bytes with every word reversed |
| Crc.CalculateCrcBy | fring.cpp:513-528 | the same loop, seen through any function that computes it |
| Crc.Mpeg2Append | fring.cpp:518-521 | the byte-wise CRC over a + b continues the CRC over a |
| Crc.Mpeg2OfWord | fring.cpp:518-521 | one word step feeds bytes 3, 2, 1, 0 through the table |
| Crc.ChecksumIsMpeg2OfReversedWords | fring.cpp:515-525 | the word-wise checksum is CRC-32/MPEG-2 of the word-reversed data |
| Crc.ChecksumConcat | fring.cpp:565 | the checksum continued chunk by chunk equals the checksum over all chunks |
| Crc.ChecksumOfWord | fring.cpp:517-525 | the checksum of one word is one word step |
| Crc.Mpeg2CheckValue | fring.cpp:515 | CRC-32/MPEG-2 of "123456789" is 0x0376E6E7, the standard check value |
| Crc.ChecksumCheckValue | fring.cpp:513-528 | the word-wise checksum of "12345678" is 0xFEFC54F9 |
| Update.RoundUp4 | fring.cpp:561-563 | a read length is padded to the next multiple of 4, stays within a chunk, and is 0 exactly for an empty read |
| Update.ReadSize | fring.cpp:555 | a read returns at most 32 bytes and never reads past the end of the file |
| Update.Refill | fring.cpp:555 | the payload buffer stays 32 bytes long |
| Update.Push | fring.cpp:565-568 | every pushed command carries the full 32-byte payload and a word-aligned length of at most 32 |
| Update.Advance | fring.cpp:579-590 | a pass that goes round again leaves the loop variables consistent |
| Update.Reach | fring.cpp:554-591 | the loop states reached along transfer outcomes stay consistent |
| Update.LastPassFirst | fring.cpp:554-591 | whether a pass is the last depends only on its own transfer outcome |
| Update.ReachRuns | fring.cpp:554-591 | once the loop has reached a state, the rest of the run is the run from that state |
| Update.ReachAdvance | fring.cpp:554-591 | an accepted non-empty chunk moves the loop on by one pass |
| Update.ReachEnd | fring.cpp:554-593 | a last pass ends the whole run the way that pass ends |
| Update.PushIsNextChunk | fring.cpp:561-568 | the command of a pass is the next chunk by position in the image: its offset continues the previous chunk, its CRC continues the previous CRC over the padded chunk |
| Update.PushFollows | fring.cpp:554-591 | the commands sent so far plus the next one are exactly the first chunks of the image |
| Update.AdvanceLast | fring.cpp:565-579 | after a pass the loop variables describe the chunk just sent: its end offset, its CRC and its payload |
| Update.AdvanceReached | fring.cpp:579-591 | the loop invariant survives a pass whose chunk was transferred, accepted and not empty |
| Update.ConcludesOnReadError | fring.cpp:556-559 | a failed read ends the loop with a success signal and nothing more sent |
| Update.ConcludesOnFailure | fring.cpp:574-588 | a failed transfer or a rejected chunk ends the loop with a failure signal |
| Update.ConcludesAwaiting | fring.cpp:582 | a chunk whose result code never comes leaves the update waiting, with no final signal |
| Update.ConcludesOnEmptyChunk | fring.cpp:591-593 | an accepted empty chunk ends the loop with a success signal |
| Update.LastPassSends | fring.cpp:554-591 | the last pass sends the next chunk by position unless its read fails |
| Update.LastPassConcludes | fring.cpp:554-593 | the last pass ends the loop in one of the Concluded ways |
| Update.RunFromConcludes | fring.cpp:554-593 | from any reached state, the run sends exactly the image's first chunks and ends in one of the Concluded ways: success after a failed read or an accepted empty chunk, failure on a failed transfer or rejection, or waiting for a missing result code; every chunk before the last was transferred, accepted and not empty; the only other signals are progress reports |
| Update.RunConcludes | fring.cpp:530-594 | the same for a whole run from the start |
| Update.NextChunkPlace | fring.cpp:561-568 | the next chunk's length is the read length padded to a word, its offset is the end of the previous chunk (0 for the first), and its CRC continues the previous CRC (the initial value for the first) over the padded bytes |
| Update.PushedEnd | fring.cpp:565-579 | in laid-out chunks the total pushed length is the end of the last chunk and a multiple of 4 |
| Update.LaidOutSnoc | fring.cpp:561-579 | a chunk placed at the pushed total, with a padded length and the continued CRC, extends a layout |
| Update.LaidOutAt | fring.cpp:561-579 | each chunk of a layout has the padded read length, starts at the sum of the lengths before it on a word boundary, and continues the CRC of the chunk before it |
| Update.ExpectedLayout | fring.cpp:554-591 | the image's first k chunks are laid out: padded lengths, word-aligned offsets equal to the lengths before them, chained CRCs |
| Update.RunLayout | fring.cpp:554-593 | every command a run sends has the read length padded to a multiple of 4, an offset equal to the sum of the lengths sent before it and a multiple of 4, and a CRC continuing the previous chunk's (the initial value for the first) |
| Update.ChecksumExtends | fring.cpp:565 | continuing the CRC of word-aligned bytes over a word-aligned chunk gives the CRC of both together |
| Update.LaidOutChecksum | fring.cpp:561-579 | with the word loop as checksum, the CRC after laid-out chunks is the CRC from the initial value over all the bytes they cover |
| Update.RunChecksum | fring.cpp:554-593 | the CRC of the last command a run sends is the word-wise CRC, from the initial value, of every padded chunk it sent, in order |
| Driver.StopConcludes | fring.cpp:554-593 | a pass that stops the chunk loop is the engine's last pass, and the engine's outcome is what the driver reports |
| Driver.StopFacts | fring.cpp:554-593 | when a pass stops the loop, the log, the progress value and the signals are the engine's outcome |
| Driver.StopOnFailure | fring.cpp:574-588 | StopFacts for a pass that ends without an accepted chunk |
| Driver.StopOnEmpty | fring.cpp:589-593 | StopFacts for an accepted empty chunk: its progress report comes before the success signal |
| Driver.GoFacts | fring.cpp:579-591 | an accepted non-empty chunk moves the loop invariant on by one pass |
| Driver.Fring.ReadChunk | fring.cpp:555-568 | the read puts up to 32 image bytes at the front of the payload buffer and keeps the rest; the command has the padded length and the CRC continued over the padded chunk |
| Driver.Fring.Pass | fring.cpp:554-590 | a read failure sends nothing; otherwise exactly one full-length push transaction goes out, and only an accepted chunk reports progress |
| Driver.Fring.Iteration | fring.cpp:554-591 | a pass that stops the loop concludes the engine's run; an accepted non-empty chunk moves the loop to the engine's next state |
| Driver.Fring.Transmit | fring.cpp:554-593 | the transactions of the chunk loop are exactly the engine's commands; the finish, the last progress and the signals are the engine's outcome |
| Driver.Fring.RunUpdate | fring.cpp:530-594 | an image that cannot be opened fails with nothing sent; otherwise the log, the signals and the finish follow Update.Run; afterwards updates are disabled unless the run is still waiting, and a re-initialisation is scheduled exactly after success |
| Driver.Fring.Conclude | fring.cpp:452-469 | the thread's final signal is appended, then the queued reaction runs: success schedules a re-initialisation and disables updates, failure disables updates, and a run still waiting changes neither |

## Left out

- Threads are not modelled. This covers the QSemaphore rendezvous and the replacement of a running job by `quit`/`deleteLater`. The MCU's result codes are an input sequence instead (`acks`); a chunk beyond them waits for ever. The queued lambdas run after the update's body, in `RunUpdate`.
- The 10-second `QTimer` re-initialisation is a flag, `reinitScheduled`. The initialisation it would run is `Initialize`.
- Floating point is left out: the LED colour and timing scaling of `setLedOn`, `setLedFlashing` and `setLedPulsating`, and the unit conversions of the battery signal. LED payloads are given bytes. The battery signal carries the raw readings. The ambient-light signal carries the raw byte instead of the byte divided by 255.0 (fring.cpp:278).
- Progress is an exact rational, rounded to hundredths with halves away from zero. It is not a double. 0/0 is the one NaN case.
- The battery log file is left out, including its file-name search in the constructor.
- Logging is left out. This includes the progress lambda, which only logs. The boot-flag descriptions of the bring-up log line are stated by `Identity.BootDescription`.
- The `QDir` listing of the firmware directory is an input, `files`.
- `qrand` is replaced by an input: the replacement serial number.
- `QString(buf)` in `readLogMessage` is left out. The message is the 16 raw bytes.
- fring.h and crc32table.h are not part of this model. Struct sizes, register numbers and bit masks are constants without values. The widths of the command and reply fields are not modelled either, and neither is any truncation on assignment: the LED `id` stored in the write command (fring.cpp:191-195) is an unbounded int, and the boot-info version stored in `firmwareVersion` (fring.cpp:95) and copied into `int availableVersion` (fring.cpp:137) is taken as it is. The CRC table is computed from the polynomial.
- The fields `firmwareVersion`, `deviceSerial` and `boardRevisionA`/`boardRevisionB` start at 0 or empty. The source leaves them unset until the first bring-up.
- The driver's `getDeviceSerial` and the other getters are left out.
- Driver.Fring.RunUpdate: the 32-bit `offset` is unbounded. Images of 4 GiB or more, where it would wrap, are not modelled.
- Driver.Fring.RunUpdate: which read call fails is an input (`readError`). What the payload buffer holds before the first read is an input (`stale`).
- Crc.CalculateCrc: requires a length that is a multiple of 4. Every caller passes a padded length. For any other length the source's unsigned counter would wrap.
- Identity.ToInt: accepts an optional sign and decimal digits. It returns 0 otherwise, or when the number is out of the int range. Qt's surrounding-whitespace rule is not modelled.
