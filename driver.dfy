/**
 * The Fring driver: the session object that owns the I2C client to the
 * companion MCU, caches what it last reported, dispatches the MCU's
 * interrupts, and runs the firmware update that the update thread performs.
 *
 * Fring is one class holding both the session's fields and the update job's
 * (last reported progress, the result code stored by the interrupt handler and
 * the number of times the job's semaphore was released).  Signals are
 * recorded in emission order in `events`; the bus keeps the log of its
 * transactions.  Every method names the fields it may change and states their
 * new values in terms of the old ones and of the transactions it appended to
 * the bus log.
 */
module Driver {
  import opened Protocol
  import Identity
  import Status
  import Update
  import Crc
  import Transport

  /** The number of bytes actually read back: the transport needs at least one. */
  function WireRead(readLen: Option<nat>): (n: nat)
    ensures readLen.None? || readLen.value == 0 ==> n == 1
    ensures readLen.Some? && readLen.value > 0 ==> n == readLen.value
  {
    if readLen.None? || readLen.value == 0 then 1 else readLen.value
  }

  /** The LED cache entry an LED id uses: entry 0 for LED 0, entry 1 for every other id. */
  function Slot(id: int): (i: nat)
    ensures i < 2 && (i == 0 <==> id == 0)
  {
    if id == 0 then 0 else 1
  }

  function Last(log: seq<Transaction>): Transaction
    requires log != []
  {
    log[|log| - 1]
  }

  /** after is before plus one transaction of cmd with these lengths, answered in cmd's layout. */
  predicate Appended(before: seq<Transaction>, after: seq<Transaction>, cmd: Command, writeLen: nat, readLen: nat) {
    && |after| == |before| + 1 && after[..|before|] == before
    && after[|before|].cmd == cmd && after[|before|].writeLen == writeLen && after[|before|].readLen == readLen
    && Answers(cmd, after[|before|].reply)
  }

  function Commands(ts: seq<Transaction>): (cs: seq<Command>)
    ensures |cs| == |ts|
    decreases |ts|
  {
    if ts == [] then [] else Commands(ts[..|ts| - 1]) + [Last(ts).cmd]
  }

  function Oks(ts: seq<Transaction>): (oks: seq<bool>)
    ensures |oks| == |ts|
    decreases |ts|
  {
    if ts == [] then [] else Oks(ts[..|ts| - 1]) + [Last(ts).ok]
  }

  lemma CommandsOksSnoc(ts: seq<Transaction>, t: Transaction)
    ensures Commands(ts + [t]) == Commands(ts) + [t.cmd] && Oks(ts + [t]) == Oks(ts) + [t.ok]
  {
    assert (ts + [t])[..|ts|] == ts;
  }

  /** A log that grew by L and then by more splits back into the old log and L + more. */
  lemma LogSplit(before: seq<Transaction>, L: seq<Transaction>, more: seq<Transaction>)
    ensures before + L + more == before + (L + more)
    ensures (before + (L + more))[..|before|] == before && (before + (L + more))[|before|..] == L + more
  {
  }

  // ---- Interrupt handlers ----

  /**
   * The part of the driver the interrupt handlers change: the device and
   * battery caches, the signals, and the update job's stored result code and
   * semaphore count.
   */
  datatype Snapshot = Snapshot(device: Status.DeviceCache, battery: Status.BatteryCache,
                               interruptStatus: bv32, released: nat, events: seq<Event>)

  /**
   * The effect of one handler transaction: a failed transfer changes nothing;
   * otherwise the reply is folded into the caches or signalled, and the
   * firmware-update result is stored for the job, whose semaphore is released.
   */
  function Handle(st: Snapshot, t: Transaction): Snapshot {
    if !t.ok then st
    else match t.reply
      case DeviceStatusReply(d) =>
        var u := Status.DeviceUpdate(st.device, d);
        st.(device := u.0, events := st.events + u.1)
      case BatteryStatusReply(b) =>
        var u := Status.BatteryUpdate(st.battery, b);
        st.(battery := u.0, events := st.events + u.1)
      case LogMessageReply(text) => st.(events := st.events + [LogMessageReceived(text)])
      case WakeupReasonReply(reason) => st.(events := st.events + [WakeupReasonChanged(reason)])
      case UpdateResultReply(result) => st.(interruptStatus := result, released := st.released + 1)
      case _ => st
  }

  /** A failed handler transfer changes nothing. */
  lemma HandleFailedIsSilent(st: Snapshot, t: Transaction)
    requires !t.ok
    ensures Handle(st, t) == st
  {
  }

  /** The job's semaphore is released exactly once per successful read of the update result. */
  lemma HandleReleasesOnResult(st: Snapshot, t: Transaction)
    requires Answers(t.cmd, t.reply)
    ensures Handle(st, t).released == st.released + (if t.ok && t.cmd == ReadFirmwareUpdateResult then 1 else 0)
    ensures t.ok && t.cmd == ReadFirmwareUpdateResult ==> Handle(st, t).interruptStatus == t.reply.result
    ensures !(t.ok && t.cmd == ReadFirmwareUpdateResult) ==> Handle(st, t).interruptStatus == st.interruptStatus
  {
  }

  /** A handler only appends signals. */
  lemma HandleAppendsSignals(st: Snapshot, t: Transaction)
    ensures |st.events| <= |Handle(st, t).events| && Handle(st, t).events[..|st.events|] == st.events
  {
    var added: seq<Event> := [];
    if t.ok {
      match t.reply
      case DeviceStatusReply(d) => added := Status.DeviceUpdate(st.device, d).1;
      case BatteryStatusReply(b) => added := Status.BatteryUpdate(st.battery, b).1;
      case LogMessageReply(text) => added := [LogMessageReceived(text)];
      case WakeupReasonReply(reason) => added := [WakeupReasonChanged(reason)];
      case _ =>
    }
    assert Handle(st, t).events == st.events + added;
  }

  /** Handler transactions applied in order. */
  function Replay(st: Snapshot, ts: seq<Transaction>): Snapshot
    decreases |ts|
  {
    if ts == [] then st else Handle(Replay(st, ts[..|ts| - 1]), Last(ts))
  }

  /** Replaying only appends signals, whatever the transactions were. */
  lemma {:induction false} ReplayAppendsSignals(st: Snapshot, ts: seq<Transaction>)
    ensures |st.events| <= |Replay(st, ts).events| && Replay(st, ts).events[..|st.events|] == st.events
    decreases |ts|
  {
    if ts != [] {
      var mid := Replay(st, ts[..|ts| - 1]);
      ReplayAppendsSignals(st, ts[..|ts| - 1]);
      HandleAppendsSignals(mid, Last(ts));
    }
  }

  /** The read length the driver asks for when it reads a handler register. */
  function HandlerReadLen(c: Command): nat {
    match c
    case ReadDeviceStatus => WireRead(Some(DEVICE_STATUS_READ_LEN))
    case ReadBatteryStatus => WireRead(Some(BATTERY_STATUS_READ_LEN))
    case ReadLogMessage => LOG_MESSAGE_LEN
    case ReadFirmwareUpdateResult => WireRead(Some(UPDATE_STATUS_READ_LEN))
    case _ => WireRead(Some(WAKEUP_REASON_READ_LEN))
  }

  /**
   * The handler transactions ts, which issued cmds, carry every handler from
   * before to after, and each wrote the one register byte.
   */
  ghost predicate Served(before: Snapshot, after: Snapshot, ts: seq<Transaction>, cmds: seq<Command>) {
    after == Replay(before, ts) && Commands(ts) == cmds && HandlerShaped(ts)
  }

  /** Each handler transaction wrote the one register byte, read the register's length and got its layout back. */
  predicate HandlerShaped(ts: seq<Transaction>)
    decreases |ts|
  {
    ts != [] ==>
      && HandlerShaped(ts[..|ts| - 1]) && Last(ts).writeLen == 1 && Last(ts).readLen == HandlerReadLen(Last(ts).cmd)
      && Answers(Last(ts).cmd, Last(ts).reply)
  }

  lemma ServedSnoc(before: Snapshot, mid: Snapshot, ts: seq<Transaction>, cmds: seq<Command>, t: Transaction)
    requires Served(before, mid, ts, cmds)
    requires t.writeLen == 1 && t.readLen == HandlerReadLen(t.cmd) && Answers(t.cmd, t.reply)
    ensures Served(before, Handle(mid, t), ts + [t], cmds + [t.cmd])
  {
    assert (ts + [t])[..|ts|] == ts;
    CommandsOksSnoc(ts, t);
  }

  /**
   * Serving an interrupt whose firmware bit is clear, or while no job exists, leaves the job's
   * result code and semaphore alone.
   */
  lemma DispatchKeepsJob(before: Snapshot, after: Snapshot, ts: seq<Transaction>, status: bv32, hasJob: bool)
    requires Served(before, after, ts, Dispatch(status, hasJob))
    ensures !(AnySet(status, INTERRUPT_FIRMWARE_UPDATE) && hasJob) ==>
      after.released == before.released && after.interruptStatus == before.interruptStatus
  {
    if !(AnySet(status, INTERRUPT_FIRMWARE_UPDATE) && hasJob) {
      DispatchReadsExactlyTheSetBits(status, hasJob);
      ReplayKeepsJob(before, ts);
    }
  }

  /** Handler reads that do not include the update result leave the job's result code and semaphore alone. */
  lemma {:induction false} ReplayKeepsJob(st: Snapshot, ts: seq<Transaction>)
    requires HandlerShaped(ts) && ReadFirmwareUpdateResult !in Commands(ts)
    ensures Replay(st, ts).released == st.released && Replay(st, ts).interruptStatus == st.interruptStatus
    decreases |ts|
  {
    if ts != [] {
      var p := ts[..|ts| - 1];
      assert Commands(ts) == Commands(p) + [Last(ts).cmd];
      ReplayKeepsJob(st, p);
      HandleReleasesOnResult(Replay(st, p), Last(ts));
    }
  }

  function When(b: bool, c: Command): seq<Command> {
    if b then [c] else []
  }

  /** The handler registers selected by five flags, in the handler's fixed order. */
  function Pick(device: bool, battery: bool, log: bool, update: bool, wakeup: bool): seq<Command> {
    When(device, ReadDeviceStatus) + When(battery, ReadBatteryStatus) + When(log, ReadLogMessage)
      + When(update, ReadFirmwareUpdateResult) + When(wakeup, ReadWakeupReason)
  }

  /** The registers the interrupt handler reads for a status word, in the order it tests the bits. */
  function Dispatch(status: bv32, hasJob: bool): seq<Command> {
    Pick(AnySet(status, INTERRUPT_DEVICE_STATUS), AnySet(status, INTERRUPT_BATTERY_STATUS),
         AnySet(status, INTERRUPT_LOG_MESSAGE), AnySet(status, INTERRUPT_FIRMWARE_UPDATE) && hasJob,
         AnySet(status, INTERRUPT_WAKEUP))
  }

  /** Position of a handler register in the fixed test order. */
  function Rank(c: Command): nat {
    match c
    case ReadDeviceStatus => 0
    case ReadBatteryStatus => 1
    case ReadLogMessage => 2
    case ReadFirmwareUpdateResult => 3
    case _ => 4
  }

  lemma PickReadsExactlyTheFlagged(device: bool, battery: bool, log: bool, update: bool, wakeup: bool)
    ensures var p := Pick(device, battery, log, update, wakeup);
      && (ReadDeviceStatus in p <==> device) && (ReadBatteryStatus in p <==> battery)
      && (ReadLogMessage in p <==> log) && (ReadFirmwareUpdateResult in p <==> update)
      && (ReadWakeupReason in p <==> wakeup)
      && forall c :: c in p ==> Rank(c) < 4 || c == ReadWakeupReason
  {
    var a, b, l, f, w := When(device, ReadDeviceStatus), When(battery, ReadBatteryStatus),
      When(log, ReadLogMessage), When(update, ReadFirmwareUpdateResult), When(wakeup, ReadWakeupReason);
    assert forall c :: c in Pick(device, battery, log, update, wakeup) <==> c in a || c in b || c in l || c in f || c in w;
  }

  /** A register is read exactly when its bit is set (the update result only while a job exists). */
  lemma DispatchReadsExactlyTheSetBits(status: bv32, hasJob: bool)
    ensures ReadDeviceStatus in Dispatch(status, hasJob) <==> AnySet(status, INTERRUPT_DEVICE_STATUS)
    ensures ReadBatteryStatus in Dispatch(status, hasJob) <==> AnySet(status, INTERRUPT_BATTERY_STATUS)
    ensures ReadLogMessage in Dispatch(status, hasJob) <==> AnySet(status, INTERRUPT_LOG_MESSAGE)
    ensures ReadFirmwareUpdateResult in Dispatch(status, hasJob) <==> AnySet(status, INTERRUPT_FIRMWARE_UPDATE) && hasJob
    ensures ReadWakeupReason in Dispatch(status, hasJob) <==> AnySet(status, INTERRUPT_WAKEUP)
    ensures forall c :: c in Dispatch(status, hasJob) ==> Rank(c) < 4 || c == ReadWakeupReason
  {
    PickReadsExactlyTheFlagged(AnySet(status, INTERRUPT_DEVICE_STATUS), AnySet(status, INTERRUPT_BATTERY_STATUS),
      AnySet(status, INTERRUPT_LOG_MESSAGE), AnySet(status, INTERRUPT_FIRMWARE_UPDATE) && hasJob,
      AnySet(status, INTERRUPT_WAKEUP));
  }

  /** Commands in strictly increasing rank, all below bound: each is ranked above the ones before it. */
  predicate Ranked(d: seq<Command>, bound: nat)
    decreases |d|
  {
    d != [] ==> Rank(d[|d| - 1]) < bound && Ranked(d[..|d| - 1], Rank(d[|d| - 1]))
  }

  /** Ranked as a statement about every pair of positions. */
  lemma {:induction false} RankedIncreasing(d: seq<Command>, bound: nat)
    requires Ranked(d, bound)
    ensures forall i :: 0 <= i < |d| ==> Rank(d[i]) < bound
    ensures forall i, j :: 0 <= i < j < |d| ==> Rank(d[i]) < Rank(d[j])
    decreases |d|
  {
    if d != [] {
      var p := d[..|d| - 1];
      RankedIncreasing(p, Rank(d[|d| - 1]));
      assert forall i :: 0 <= i < |p| ==> d[i] == p[i];
    }
  }

  /** Appending a register that ranks at least bound, or nothing, keeps the commands ranked. */
  lemma RankedWhen(d: seq<Command>, bound: nat, flag: bool, c: Command)
    requires Ranked(d, bound) && bound <= Rank(c)
    ensures Ranked(d + When(flag, c), Rank(c) + 1)
  {
    if flag {
      assert (d + [c])[..|d|] == d;
    } else {
      assert d + [] == d;
    }
  }

  lemma PickOrdered(device: bool, battery: bool, log: bool, update: bool, wakeup: bool)
    ensures Ranked(Pick(device, battery, log, update, wakeup), 5)
  {
    var a := When(device, ReadDeviceStatus);
    RankedWhen([], 0, device, ReadDeviceStatus);
    assert [] + a == a;
    var b := When(battery, ReadBatteryStatus);
    RankedWhen(a, 1, battery, ReadBatteryStatus);
    RankedWhen(a + b, 2, log, ReadLogMessage);
    RankedWhen(a + b + When(log, ReadLogMessage), 3, update, ReadFirmwareUpdateResult);
    RankedWhen(a + b + When(log, ReadLogMessage) + When(update, ReadFirmwareUpdateResult), 4, wakeup, ReadWakeupReason);
  }

  /** The handlers run in the fixed order, each at most once. */
  lemma DispatchOrdered(status: bv32, hasJob: bool)
    ensures var d := Dispatch(status, hasJob);
      forall i, j :: 0 <= i < j < |d| ==> Rank(d[i]) < Rank(d[j])
  {
    PickOrdered(AnySet(status, INTERRUPT_DEVICE_STATUS), AnySet(status, INTERRUPT_BATTERY_STATUS),
      AnySet(status, INTERRUPT_LOG_MESSAGE), AnySet(status, INTERRUPT_FIRMWARE_UPDATE) && hasJob,
      AnySet(status, INTERRUPT_WAKEUP));
    RankedIncreasing(Dispatch(status, hasJob), 5);
  }

  // ---- Bring-up ----

  /**
   * Position of the board-revision read among the transactions after the
   * identification: after the serial write when the serial is blank.
   */
  function BoardStep(serial: seq<bv8>): nat {
    if Identity.Blank(serial) then 2 else 1
  }

  /**
   * The transactions of a bring-up, in order: Identify; if the answer is a
   * successful "Fring", the rest as BootTrace says.  No transaction at all
   * means the bus could not be opened.
   */
  predicate InitTrace(L: seq<Transaction>, newSerial: seq<bv8>, success: bool) {
    if L == [] then !success
    else
      && L[0].cmd == Identify(Identity.PROTOCOL_VERSION) && L[0].writeLen == IDENTIFY_WRITE_LEN
      && L[0].readLen == WireRead(Some(ID_READ_LEN)) && Answers(L[0].cmd, L[0].reply)
      && if !L[0].ok || !Identity.IsFringMagic(L[0].reply.id) then |L| == 1 && !success
         else BootTrace(L[1..], newSerial, success)
  }

  /**
   * The transactions after a successful identification: the boot info; if
   * that succeeds, the serial number when the MCU's one is blank, then the
   * board revision, whose success is the result.
   */
  predicate BootTrace(M: seq<Transaction>, newSerial: seq<bv8>, success: bool) {
    && |M| >= 1 && M[0].cmd == ReadBootInfo && M[0].writeLen == 1
    && M[0].readLen == WireRead(Some(BOOT_INFO_READ_LEN)) && Answers(M[0].cmd, M[0].reply)
    && if !M[0].ok then |M| == 1 && !success
       else
         var b := BoardStep(M[0].reply.serial);
         && |M| == b + 1
         && (Identity.Blank(M[0].reply.serial) ==>
               M[1].cmd == SetSerial(newSerial) && M[1].writeLen == SET_SERIAL_WRITE_LEN && M[1].readLen == 1)
         && M[b].cmd == ReadBoardRevision && M[b].writeLen == 1
         && M[b].readLen == WireRead(Some(BOARD_REVISION_READ_LEN)) && Answers(M[b].cmd, M[b].reply)
         && success == M[b].ok
  }

  /** The boot info among the transactions after identification, once it was read. */
  function BootRead(M: seq<Transaction>): Option<Reply> {
    if |M| >= 1 && M[0].ok && M[0].reply.BootInfoReply? then Some(M[0].reply) else None
  }

  /** The board revisions among the transactions after identification, once they were read. */
  function BoardRead(M: seq<Transaction>): Option<Reply> {
    match BootRead(M)
    case None => None
    case Some(info) =>
      var b := BoardStep(info.serial);
      if b < |M| && M[b].ok && M[b].reply.BoardRevisionReply? then Some(M[b].reply) else None
  }

  /** The boot info of a bring-up, once it was read. */
  function BootInfo(L: seq<Transaction>): Option<Reply> {
    if L == [] then None else BootRead(L[1..])
  }

  /** The board revisions of a bring-up, once they were read. */
  function BoardRevision(L: seq<Transaction>): Option<Reply> {
    if L == [] then None else BoardRead(L[1..])
  }

  /**
   * The image an update check picks from the firmware directory's listing:
   * the newest one for the slot not running (flags), if it is newer than the
   * running version.
   */
  function UpdateChoice(files: seq<string>, flags: bv32, version: int): Option<string> {
    var scan := Identity.Scan(Identity.Entries(files, Identity.UpdateSuffix(flags)), version, |files|);
    if scan.0 > version && scan.1.Some? then Some(Identity.FIRMWARE_DIR + files[scan.1.value]) else None
  }

  /** The update job a bring-up starts: when updates are enabled and the board revisions were read. */
  function NewJob(L: seq<Transaction>, files: seq<string>, enabled: bool): Option<string> {
    if BoardRevision(L).None? || !enabled then None
    else UpdateChoice(files, BootInfo(L).value.flags, BootInfo(L).value.version)
  }

  /** A successful bring-up identified a Fring, read its boot info and its board revisions. */
  lemma InitSuccessMeansIdentified(L: seq<Transaction>, newSerial: seq<bv8>)
    requires InitTrace(L, newSerial, true)
    ensures |L| >= 3 && L[0].ok && Identity.IsFringMagic(L[0].reply.id)
    ensures BootInfo(L).Some? && BoardRevision(L).Some?
  {
  }

  /** A blank serial is replaced by the new one, which is also what the driver writes to the MCU. */
  lemma InitSerial(L: seq<Transaction>, newSerial: seq<bv8>, success: bool)
    requires InitTrace(L, newSerial, success) && BootInfo(L).Some?
    ensures var info := BootInfo(L).value;
      && (Identity.Blank(info.serial) ==> L[2].cmd == SetSerial(Identity.FinalSerial(info.serial, newSerial)))
      && (!Identity.Blank(info.serial) ==> Identity.FinalSerial(info.serial, newSerial) == info.serial)
      && Identity.Unhex(Identity.Hex(Identity.FinalSerial(info.serial, newSerial))) == Identity.FinalSerial(info.serial, newSerial)
  {
    var info := BootInfo(L).value;
    Identity.UnhexHex(Identity.FinalSerial(info.serial, newSerial));
  }

  /**
   * A bring-up starts a job exactly for the newest image of the inactive
   * slot that is newer than the running firmware.
   */
  lemma NewJobIsNewest(L: seq<Transaction>, files: seq<string>, enabled: bool)
    requires BoardRevision(L).Some? && enabled
    ensures var info := BootInfo(L).value;
      var suffix := Identity.UpdateSuffix(info.flags);
      var es := Identity.Entries(files, suffix);
      && (NewJob(L, files, enabled).None? <==> Identity.NoneNewer(es, |files|, info.version))
      && (NewJob(L, files, enabled).Some? ==>
            exists i :: Identity.IsNewest(es, |files|, info.version, i)
                     && NewJob(L, files, enabled) == Some(Identity.FIRMWARE_DIR + files[i]))
  {
    var info := BootInfo(L).value;
    var es := Identity.Entries(files, Identity.UpdateSuffix(info.flags));
    Identity.ScanFindsNewest(es, info.version, |files|);
    var scan := Identity.Scan(es, info.version, |files|);
    if scan.1.Some? {
      assert Identity.IsNewest(es, |files|, info.version, scan.1.value);
    }
  }

  // ---- Firmware update ----

  /** Every transaction pushes a chunk with the full command length and a one-byte dummy read. */
  predicate PushShaped(L: seq<Transaction>) {
    forall i :: 0 <= i < |L| ==> L[i].writeLen == PUSH_FIRMWARE_WRITE_LEN && L[i].readLen == 1 && L[i].reply == NoReply
  }

  /** How one pass of the update loop ended. */
  datatype PassEnd = ReadFailed | TransferFailed | NoAck | Rejected | Accepted

  /** The end of a pass whose read succeeded: the transfer's outcome, then the result code for the chunk, if any. */
  function PassEndOf(ok: bool, chunk: nat, acks: seq<bv32>): PassEnd {
    if !ok then TransferFailed
    else if chunk >= |acks| then NoAck
    else if acks[chunk] != UPDATE_RESULT_OK then Rejected
    else Accepted
  }

  /** The outcome run() reports for the way its last pass ended. */
  function FinishOf(ending: PassEnd): Update.Finish {
    match ending
    case ReadFailed => Update.Succeeded
    case Accepted => Update.Succeeded
    case NoAck => Update.AwaitingAck
    case TransferFailed => Update.Failed
    case Rejected => Update.Failed
  }

  /** The signal run() emits when it finishes that way. */
  function Closing(finish: Update.Finish): seq<Event> {
    match finish
    case Succeeded => [UpdateSucceeded]
    case Failed => [UpdateFailed]
    case AwaitingAck => []
  }

  /** The chunk loop has reached the engine state s from s0 along the log L, and L holds exactly s's commands. */
  ghost predicate Tracks(input: Update.Inputs, s0: Update.Loop, s: Update.Loop, L: seq<Transaction>) {
    && Update.Sane(input, s0) && Update.Reach(input, s0, Oks(L)) == Some(s)
    && Commands(L) == s.sent && PushShaped(L)
  }

  /**
   * A pass that stops the chunk loop is the engine's last pass from the state s the loop has reached, and
   * the engine's outcome is the one the driver reports: the finish, the commands and the signals.
   */
  lemma {:induction false} StopConcludes(input: Update.Inputs, s0: Update.Loop, oks: seq<bool>, s: Update.Loop, ending: PassEnd,
                      more: seq<bool>)
    requires Update.Sane(input, s0) && Update.Reach(input, s0, oks) == Some(s) && |more| <= 1
    requires ending == ReadFailed <==> input.readError == Some(|s.sent|)
    requires ending == ReadFailed <==> more == []
    requires more != [] ==> ending == PassEndOf(more[0], |s.sent|, input.acks)
    requires ending == Accepted ==> Update.Push(input, s).length == 0
    ensures var out := Update.RunFrom(input, s0, oks + more);
      var t := if ending == Accepted then Update.Advance(input, s) else s;
      && out.finish == FinishOf(ending)
      && out.sent == s.sent + (if more == [] then [] else [Update.Push(input, s)])
      && out.last == t.last && out.events == t.events + Closing(out.finish)
  {
    assert Update.LastPass(input, s, more);
    Update.ReachEnd(input, s0, oks, s, more);
  }

  /**
   * The loop's bookkeeping when a pass stops it: with tail the transaction that pass wrote (none when its
   * read failed), the log, the progress value and the signals are the engine's outcome from s0.
   */
  lemma {:induction false} StopFacts(input: Update.Inputs, s0: Update.Loop, s: Update.Loop, before: seq<Transaction>,
                  tail: seq<Transaction>, ending: PassEnd, e0: seq<Event>, events: seq<Event>, last: Progress)
    requires Tracks(input, s0, s, before)
    requires ending == ReadFailed <==> input.readError == Some(|s.sent|)
    requires ending == ReadFailed <==> tail == []
    requires tail != [] ==>
      && |tail| == 1 && tail[0] == Transaction(Update.Push(input, s), PUSH_FIRMWARE_WRITE_LEN, 1, tail[0].ok, NoReply)
      && ending == PassEndOf(tail[0].ok, |s.sent|, input.acks)
    requires ending == Accepted ==> Update.Push(input, s).length == 0
    requires ending != Accepted ==> events == e0 + s.events && last == s.last
    requires ending == Accepted ==>
      var e := Update.Emit(s.last, s.offset + Update.Push(input, s).length, |input.image|);
      events == e0 + s.events + e.1 && last == e.0
    ensures var out := Update.RunFrom(input, s0, Oks(before + tail));
      && Commands(before + tail) == out.sent && PushShaped(before + tail) && FinishOf(ending) == out.finish
      && last == out.last && events + Closing(out.finish) == e0 + out.events
  {
    if ending == Accepted {
      StopOnEmpty(input, s0, s, before, tail, e0, events, last);
    } else {
      StopOnFailure(input, s0, s, before, tail, ending, e0, events, last);
    }
  }

  /** StopFacts for a pass that ends the loop without an accepted chunk: s's signals are final. */
  lemma {:induction false} StopOnFailure(input: Update.Inputs, s0: Update.Loop, s: Update.Loop, before: seq<Transaction>,
                  tail: seq<Transaction>, ending: PassEnd, e0: seq<Event>, events: seq<Event>, last: Progress)
    requires Tracks(input, s0, s, before)
    requires ending != Accepted
    requires ending == ReadFailed <==> input.readError == Some(|s.sent|)
    requires ending == ReadFailed <==> tail == []
    requires tail != [] ==>
      && |tail| == 1 && tail[0] == Transaction(Update.Push(input, s), PUSH_FIRMWARE_WRITE_LEN, 1, tail[0].ok, NoReply)
      && ending == PassEndOf(tail[0].ok, |s.sent|, input.acks)
    requires events == e0 + s.events && last == s.last
    ensures var out := Update.RunFrom(input, s0, Oks(before + tail));
      && Commands(before + tail) == out.sent && PushShaped(before + tail) && FinishOf(ending) == out.finish
      && last == out.last && events + Closing(out.finish) == e0 + out.events
  {
    if tail == [] {
      assert before + tail == before && Oks(before) + Oks(tail) == Oks(before);
    } else {
      CommandsOksSnoc(before, tail[0]);
      assert tail == [tail[0]] && Oks(tail) == [tail[0].ok];
    }
    StopConcludes(input, s0, Oks(before), s, ending, Oks(tail));
  }

  /** StopFacts for an accepted empty chunk: the loop ends after Advance, and its progress report is the last. */
  lemma {:induction false} StopOnEmpty(input: Update.Inputs, s0: Update.Loop, s: Update.Loop, before: seq<Transaction>,
                  tail: seq<Transaction>, e0: seq<Event>, events: seq<Event>, last: Progress)
    requires Tracks(input, s0, s, before)
    requires input.readError != Some(|s.sent|) && Update.Push(input, s).length == 0
    requires |tail| == 1 && tail[0] == Transaction(Update.Push(input, s), PUSH_FIRMWARE_WRITE_LEN, 1, tail[0].ok, NoReply)
    requires PassEndOf(tail[0].ok, |s.sent|, input.acks) == Accepted
    requires var e := Update.Emit(s.last, s.offset + Update.Push(input, s).length, |input.image|);
      events == e0 + s.events + e.1 && last == e.0
    ensures var out := Update.RunFrom(input, s0, Oks(before + tail));
      && Commands(before + tail) == out.sent && PushShaped(before + tail) && out.finish == Update.Succeeded
      && last == out.last && events + [UpdateSucceeded] == e0 + out.events
  {
    CommandsOksSnoc(before, tail[0]);
    assert tail == [tail[0]] && Oks(tail) == [tail[0].ok];
    StopConcludes(input, s0, Oks(before), s, Accepted, Oks(tail));
    Update.AdvanceLast(input, s);
    var e := Update.Emit(s.last, s.offset + Update.Push(input, s).length, |input.image|);
    assert Update.Advance(input, s).events == s.events + e.1;
    ConcatAssoc(e0, s.events, e.1, [UpdateSucceeded]);
  }

  lemma ConcatAssoc<T>(a: seq<T>, b: seq<T>, c: seq<T>, d: seq<T>)
    ensures a + b + c + d == a + (b + c + d)
  {
  }

  /** The loop's bookkeeping when a pass is accepted and the next one follows: the invariant moves to Advance. */
  lemma {:induction false} GoFacts(input: Update.Inputs, s0: Update.Loop, s: Update.Loop, before: seq<Transaction>,
                tail: seq<Transaction>, e0: seq<Event>, events: seq<Event>, last: Progress)
    requires Tracks(input, s0, s, before)
    requires input.readError != Some(|s.sent|) && Update.Push(input, s).length != 0
    requires |tail| == 1 && tail[0] == Transaction(Update.Push(input, s), PUSH_FIRMWARE_WRITE_LEN, 1, tail[0].ok, NoReply)
    requires PassEndOf(tail[0].ok, |s.sent|, input.acks) == Accepted
    requires var e := Update.Emit(s.last, s.offset + Update.Push(input, s).length, |input.image|);
      events == e0 + s.events + e.1 && last == e.0
    ensures var next := Update.Advance(input, s);
      && Tracks(input, s0, next, before + tail)
      && events == e0 + next.events && last == next.last
      && next.pos == s.pos + Update.ReadSize(input, s) && next.offset == s.offset + Update.Push(input, s).length
      && next.crc == Update.Push(input, s).crc && next.buffer == Update.Refill(input, s)
      && Update.ReadSize(input, s) > 0
  {
    assert tail == [tail[0]];
    CommandsOksSnoc(before, tail[0]);
    Update.AdvanceLast(input, s);
    assert !Update.LastPass(input, s, [true]);
    Update.ReachAdvance(input, s0, Oks(before), s);
  }

  class Fring {
    const bus: Transport.Bus
    /** The last LED record written, per cache entry (see Slot). */
    const ledCache: array<Led>
    var ledCacheValid: bool

    /** The last reported home button, ambient light, hardware errors and battery presence. */
    var device: Status.DeviceCache
    /** The last reported battery quantities. */
    var battery: Status.BatteryCache

    var firmwareVersion: int
    var deviceSerial: string
    var boardRevisionA: int
    var boardRevisionB: int
    var firmwareUpdatesEnabled: bool

    /** The image path of the update job, once one was started. */
    var updateJob: Option<string>
    var lastEmittedProgress: Progress
    /** The result code the interrupt handler stored for the job. */
    var interruptStatus: bv32
    /** How many times the job's semaphore was released. */
    var released: nat
    /** Whether a re-initialisation was scheduled after a successful update. */
    var reinitScheduled: bool

    /** Signals emitted so far, oldest first. */
    var events: seq<Event>

    predicate Valid() {
      ledCache.Length == 2
    }

    function Snap(): Snapshot
      reads this
    {
      Snapshot(device, battery, interruptStatus, released, events)
    }

    /**
     * A driver on the given bus.  The hardware-error word and the battery
     * fields are not initialised by the driver, so they start as given.
     */
    constructor (bus: Transport.Bus, hardwareErrors: bv32, battery: Status.BatteryCache)
      ensures Valid() && this.bus == bus && fresh(ledCache)
      ensures !ledCacheValid && !firmwareUpdatesEnabled && updateJob == None && !reinitScheduled && events == []
      ensures device == Status.InitialDeviceCache(hardwareErrors) && this.battery == battery
      ensures firmwareVersion == 0 && deviceSerial == "" && boardRevisionA == 0 && boardRevisionB == 0
      ensures lastEmittedProgress == Hundredths(0) && released == 0
    {
      this.bus := bus;
      ledCache := new Led[2];
      ledCacheValid := false;
      device := Status.InitialDeviceCache(hardwareErrors);
      this.battery := battery;
      firmwareVersion, deviceSerial, boardRevisionA, boardRevisionB := 0, "", 0, 0;
      firmwareUpdatesEnabled := false;
      updateJob := None;
      lastEmittedProgress, interruptStatus, released := Hundredths(0), 0, 0;
      reinitScheduled := false;
      events := [];
    }

    /** One transaction; a missing or empty read is replaced by a one-byte dummy read. */
    method Transfer(cmd: Command, writeLen: nat, readLen: Option<nat>) returns (ok: bool, reply: Reply)
      modifies bus
      ensures Appended(old(bus.log), bus.log, cmd, writeLen, WireRead(readLen))
      ensures Last(bus.log).ok == ok && Last(bus.log).reply == reply && Answers(cmd, reply)
      ensures bus.isOpen == old(bus.isOpen)
    {
      var rdSize := 1;
      if readLen.Some? && readLen.value != 0 {
        rdSize := readLen.value;
      }
      ok, reply := bus.Transfer(cmd, writeLen, rdSize);
    }

    // ---- Bring-up ----

    /**
     * Opens the bus if needed, identifies the MCU, reads its boot info
     * (replacing a blank serial by newSerial), reads the board revisions and,
     * when updates are enabled, starts a job for the newest image in files
     * (the firmware directory's listing) meant for the inactive slot.
     */
    method Initialize(newSerial: seq<bv8>, files: seq<string>) returns (success: bool)
      requires |newSerial| == SERIAL_LEN
      modifies bus, this`firmwareVersion, this`deviceSerial, this`boardRevisionA, this`boardRevisionB,
        this`updateJob, this`lastEmittedProgress, this`released
      ensures |old(bus.log)| <= |bus.log| && bus.log[..|old(bus.log)|] == old(bus.log)
      ensures var L := bus.log[|old(bus.log)|..];
        && InitTrace(L, newSerial, success)
        && bus.isOpen == (old(bus.isOpen) || L != [])
      ensures var info := BootInfo(bus.log[|old(bus.log)|..]);
        (if info.None? then firmwareVersion == old(firmwareVersion) && deviceSerial == old(deviceSerial)
         else (firmwareVersion == info.value.version
               && deviceSerial == Identity.Hex(Identity.FinalSerial(info.value.serial, newSerial))))
      ensures var rev := BoardRevision(bus.log[|old(bus.log)|..]);
        (if rev.None? then boardRevisionA == old(boardRevisionA) && boardRevisionB == old(boardRevisionB)
         else boardRevisionA == rev.value.revisionA && boardRevisionB == rev.value.revisionB)
      ensures var job := NewJob(bus.log[|old(bus.log)|..], files, firmwareUpdatesEnabled);
        (if job.None? then updateJob == old(updateJob) && lastEmittedProgress == old(lastEmittedProgress) && released == old(released)
         else updateJob == job && lastEmittedProgress == Hundredths(0) && released == 0)
    {
      if !bus.isOpen {
        var up := bus.Open();
        if !up {
          return false;
        }
      }
      var flags;
      success, flags := Identify(newSerial);
      if success && firmwareUpdatesEnabled {
        CheckForUpdate(flags, files);
      }
    }

    /**
     * The bring-up's transactions on an open bus: identification, boot info
     * (and the serial number when blank), board revisions.
     */
    method Identify(newSerial: seq<bv8>) returns (success: bool, flags: bv32)
      requires |newSerial| == SERIAL_LEN
      modifies bus, this`firmwareVersion, this`deviceSerial, this`boardRevisionA, this`boardRevisionB
      ensures |old(bus.log)| < |bus.log| && bus.log[..|old(bus.log)|] == old(bus.log) && bus.isOpen == old(bus.isOpen)
      ensures var L := bus.log[|old(bus.log)|..];
        && InitTrace(L, newSerial, success)
        && (success ==> flags == BootInfo(L).value.flags)
      ensures var info := BootInfo(bus.log[|old(bus.log)|..]);
        (if info.None? then firmwareVersion == old(firmwareVersion) && deviceSerial == old(deviceSerial)
         else (firmwareVersion == info.value.version
               && deviceSerial == Identity.Hex(Identity.FinalSerial(info.value.serial, newSerial))))
      ensures var rev := BoardRevision(bus.log[|old(bus.log)|..]);
        (if rev.None? then boardRevisionA == old(boardRevisionA) && boardRevisionB == old(boardRevisionB)
         else boardRevisionA == rev.value.revisionA && boardRevisionB == rev.value.revisionB)
    {
      ghost var L0 := bus.log;
      var ok, reply := Transfer(Command.Identify(Identity.PROTOCOL_VERSION), IDENTIFY_WRITE_LEN, Some(ID_READ_LEN));
      ghost var L1 := bus.log;
      if !ok || !Identity.IsFringMagic(reply.id) {
        assert bus.log[|L0|..][1..] == [];
        return false, 0;
      }
      success, flags := ReadBootInfo(newSerial);
      assert bus.log[|L0|..][1..] == bus.log[|L1|..];
      assert bus.log[..|L0|] == L0;
    }

    /**
     * The bring-up after identification: boot info (and the serial number
     * when blank), board revisions.
     */
    method ReadBootInfo(newSerial: seq<bv8>) returns (success: bool, flags: bv32)
      requires |newSerial| == SERIAL_LEN
      modifies bus, this`firmwareVersion, this`deviceSerial, this`boardRevisionA, this`boardRevisionB
      ensures |old(bus.log)| < |bus.log| && bus.log[..|old(bus.log)|] == old(bus.log) && bus.isOpen == old(bus.isOpen)
      ensures var M := bus.log[|old(bus.log)|..];
        && BootTrace(M, newSerial, success)
        && (success ==> flags == BootRead(M).value.flags)
      ensures var info := BootRead(bus.log[|old(bus.log)|..]);
        (if info.None? then firmwareVersion == old(firmwareVersion) && deviceSerial == old(deviceSerial)
         else (firmwareVersion == info.value.version
               && deviceSerial == Identity.Hex(Identity.FinalSerial(info.value.serial, newSerial))))
      ensures var rev := BoardRead(bus.log[|old(bus.log)|..]);
        (if rev.None? then boardRevisionA == old(boardRevisionA) && boardRevisionB == old(boardRevisionB)
         else boardRevisionA == rev.value.revisionA && boardRevisionB == rev.value.revisionB)
    {
      var ok, reply := Transfer(Command.ReadBootInfo, 1, Some(BOOT_INFO_READ_LEN));
      if !ok {
        return false, 0;
      }
      flags := reply.flags;
      firmwareVersion := reply.version;
      var serial := reply.serial;
      var allFF := Identity.AllFF(serial);
      if allFF {
        serial := newSerial;
        var _, _ := Transfer(SetSerial(serial), SET_SERIAL_WRITE_LEN, None);
      }
      deviceSerial := Identity.Hex(serial);
      ok, reply := Transfer(Command.ReadBoardRevision, 1, Some(BOARD_REVISION_READ_LEN));
      if !ok {
        return false, flags;
      }
      boardRevisionA, boardRevisionB := reply.revisionA, reply.revisionB;
      success := true;
    }

    /**
     * The update check at the end of a bring-up: starts a job for the image
     * UpdateChoice picks, if any.
     */
    method CheckForUpdate(flags: bv32, files: seq<string>)
      modifies this`updateJob, this`lastEmittedProgress, this`released
      ensures var job := UpdateChoice(files, flags, firmwareVersion);
        (if job.None? then updateJob == old(updateJob) && lastEmittedProgress == old(lastEmittedProgress) && released == old(released)
         else updateJob == job && lastEmittedProgress == Hundredths(0) && released == 0)
    {
      var available, newest := Identity.SelectUpdate(files, Identity.UpdateSuffix(flags), firmwareVersion);
      if available > firmwareVersion {
        StartFirmwareUpdate(Identity.FIRMWARE_DIR + files[newest.value]);
      }
    }

    // ---- LEDs ----

    /**
     * Records the LED in its cache entry and writes it.  The comparison that
     * was meant to skip a write identical to the cached one compares zero
     * bytes and so never skips: every call transmits.
     */
    method SetLed(led: Led) returns (ok: bool)
      requires Valid()
      modifies this`ledCacheValid, ledCache, bus
      ensures bus.isOpen == old(bus.isOpen)
      ensures Appended(old(bus.log), bus.log, Command.SetLed(led), SET_LED_WRITE_LEN, 1) && Last(bus.log).ok == ok
      ensures ledCache[Slot(led.id)] == led && ledCache[1 - Slot(led.id)] == old(ledCache[1 - Slot(led.id)])
      ensures ledCacheValid
    {
      var slot := Slot(led.id);
      ledCache[slot] := led;
      ledCacheValid := true;
      var reply;
      ok, reply := Transfer(Command.SetLed(led), SET_LED_WRITE_LEN, None);
    }

    /** Switches an LED off: mode off, every colour and timing byte zero. */
    method SetLedOff(id: int) returns (ok: bool)
      requires Valid()
      modifies this`ledCacheValid, ledCache, bus
      ensures bus.isOpen == old(bus.isOpen)
      ensures var led := Led(id, LedOff, Zeros(LED_PARAMS_LEN));
        && Appended(old(bus.log), bus.log, Command.SetLed(led), SET_LED_WRITE_LEN, 1) && Last(bus.log).ok == ok
        && ledCache[Slot(id)] == led && ledCache[1 - Slot(id)] == old(ledCache[1 - Slot(id)])
      ensures ledCacheValid
    {
      ok := SetLed(Led(id, LedOff, Zeros(LED_PARAMS_LEN)));
    }

    // ---- Status reads ----

    method ReadDeviceStatus() returns (ok: bool)
      modifies bus, this`device, this`events
      ensures bus.isOpen == old(bus.isOpen)
      ensures Appended(old(bus.log), bus.log, Command.ReadDeviceStatus, 1, WireRead(Some(DEVICE_STATUS_READ_LEN)))
      ensures Last(bus.log).ok == ok && Snap() == Handle(old(Snap()), Last(bus.log))
    {
      var reply;
      ok, reply := Transfer(Command.ReadDeviceStatus, 1, Some(DEVICE_STATUS_READ_LEN));
      if !ok {
        return;
      }
      var u := Status.DeviceUpdate(device, reply.device);
      device := u.0;
      events := events + u.1;
    }

    method ReadBatteryStatus() returns (ok: bool)
      modifies bus, this`battery, this`events
      ensures bus.isOpen == old(bus.isOpen)
      ensures Appended(old(bus.log), bus.log, Command.ReadBatteryStatus, 1, WireRead(Some(BATTERY_STATUS_READ_LEN)))
      ensures Last(bus.log).ok == ok && Snap() == Handle(old(Snap()), Last(bus.log))
    {
      var reply;
      ok, reply := Transfer(Command.ReadBatteryStatus, 1, Some(BATTERY_STATUS_READ_LEN));
      if !ok {
        return;
      }
      var u := Status.BatteryUpdate(battery, reply.battery);
      battery := u.0;
      events := events + u.1;
    }

    /** Reads the 16-byte log message directly from the client (no dummy-read wrapper). */
    method ReadLogMessage() returns (ok: bool)
      modifies bus, this`events
      ensures bus.isOpen == old(bus.isOpen)
      ensures Appended(old(bus.log), bus.log, Command.ReadLogMessage, 1, LOG_MESSAGE_LEN)
      ensures Last(bus.log).ok == ok && Snap() == Handle(old(Snap()), Last(bus.log))
    {
      var reply;
      ok, reply := bus.Transfer(Command.ReadLogMessage, 1, LOG_MESSAGE_LEN);
      if !ok {
        return;
      }
      events := events + [LogMessageReceived(reply.text)];
    }

    method ReadWakeupReason() returns (ok: bool)
      modifies bus, this`events
      ensures bus.isOpen == old(bus.isOpen)
      ensures Appended(old(bus.log), bus.log, Command.ReadWakeupReason, 1, WireRead(Some(WAKEUP_REASON_READ_LEN)))
      ensures Last(bus.log).ok == ok && Snap() == Handle(old(Snap()), Last(bus.log))
    {
      var reply;
      ok, reply := Transfer(Command.ReadWakeupReason, 1, Some(WAKEUP_REASON_READ_LEN));
      if !ok {
        return;
      }
      events := events + [WakeupReasonChanged(reply.reason)];
    }

    /** Programs the wake-up timer; the outcome of the transfer is not reported. */
    method SetWakeupMs(ms: bv32)
      modifies bus
      ensures bus.isOpen == old(bus.isOpen)
      ensures Appended(old(bus.log), bus.log, SetWakeupTime(ms), SET_WAKEUP_WRITE_LEN, 1)
    {
      var _, _ := Transfer(SetWakeupTime(ms), SET_WAKEUP_WRITE_LEN, Some(1));
    }

    /** The update job's interrupt: store the result code and wake the job. */
    method Interrupt() returns (ok: bool)
      modifies bus, this`interruptStatus, this`released
      ensures bus.isOpen == old(bus.isOpen)
      ensures Appended(old(bus.log), bus.log, ReadFirmwareUpdateResult, 1, WireRead(Some(UPDATE_STATUS_READ_LEN)))
      ensures Last(bus.log).ok == ok && Snap() == Handle(old(Snap()), Last(bus.log))
    {
      var reply;
      ok, reply := Transfer(ReadFirmwareUpdateResult, 1, Some(UPDATE_STATUS_READ_LEN));
      if !ok {
        return;
      }
      interruptStatus := reply.result;
      released := released + 1;
    }

    /**
     * The MCU's interrupt line: reads the interrupt status and, if that
     * succeeds, the register of every source whose bit is set, in the fixed
     * order; the update result only while a job exists.
     */
    method OnInterrupt()
      modifies bus, this`device, this`battery, this`events, this`interruptStatus, this`released
      ensures bus.isOpen == old(bus.isOpen)
      ensures |old(bus.log)| < |bus.log| && bus.log[..|old(bus.log)|] == old(bus.log)
      ensures var t := bus.log[|old(bus.log)|];
        && t.cmd == ReadInterruptStatus && t.writeLen == 1
        && t.readLen == WireRead(Some(INTERRUPT_STATUS_READ_LEN)) && Answers(t.cmd, t.reply)
        && Served(old(Snap()), Snap(), bus.log[|old(bus.log)| + 1..],
                  if t.ok then Dispatch(t.reply.interrupts, updateJob.Some?) else [])
      ensures var t := bus.log[|old(bus.log)|];
        !(t.ok && AnySet(t.reply.interrupts, INTERRUPT_FIRMWARE_UPDATE) && updateJob.Some?) ==>
          released == old(released) && interruptStatus == old(interruptStatus)
    {
      var ok, reply := Transfer(ReadInterruptStatus, 1, Some(INTERRUPT_STATUS_READ_LEN));
      ghost var head := bus.log;
      ghost var before := Snap();
      assert bus.log[|head|..] == [];
      if !ok {
        return;
      }
      ServeSources(reply.interrupts, before, |head|);
      ServeUpdate(reply.interrupts, updateJob.Some?, before, |head|,
                  When(AnySet(reply.interrupts, INTERRUPT_DEVICE_STATUS), Command.ReadDeviceStatus)
                    + When(AnySet(reply.interrupts, INTERRUPT_BATTERY_STATUS), Command.ReadBatteryStatus)
                    + When(AnySet(reply.interrupts, INTERRUPT_LOG_MESSAGE), Command.ReadLogMessage));
      DispatchKeepsJob(before, Snap(), bus.log[|head|..], reply.interrupts, updateJob.Some?);
    }

    /** The first three tests of the interrupt handler: device status, battery status, log message. */
    method ServeSources(status: bv32, ghost before: Snapshot, ghost mark: nat)
      requires mark == |bus.log| && Served(before, Snap(), [], [])
      modifies bus, this`device, this`battery, this`events, this`interruptStatus, this`released
      ensures bus.isOpen == old(bus.isOpen)
      ensures mark <= |bus.log| && bus.log[..mark] == old(bus.log)
      ensures Served(before, Snap(), bus.log[mark..],
                     When(AnySet(status, INTERRUPT_DEVICE_STATUS), Command.ReadDeviceStatus)
                       + When(AnySet(status, INTERRUPT_BATTERY_STATUS), Command.ReadBatteryStatus)
                       + When(AnySet(status, INTERRUPT_LOG_MESSAGE), Command.ReadLogMessage))
    {
      ghost var head := bus.log;
      assert bus.log[mark..] == [];
      ServeIf(AnySet(status, INTERRUPT_DEVICE_STATUS), Command.ReadDeviceStatus, before, mark, []);
      assert [] + When(AnySet(status, INTERRUPT_DEVICE_STATUS), Command.ReadDeviceStatus)
        == When(AnySet(status, INTERRUPT_DEVICE_STATUS), Command.ReadDeviceStatus);
      ServeIf(AnySet(status, INTERRUPT_BATTERY_STATUS), Command.ReadBatteryStatus, before, mark,
              When(AnySet(status, INTERRUPT_DEVICE_STATUS), Command.ReadDeviceStatus));
      ServeIf(AnySet(status, INTERRUPT_LOG_MESSAGE), Command.ReadLogMessage, before, mark,
              When(AnySet(status, INTERRUPT_DEVICE_STATUS), Command.ReadDeviceStatus)
                + When(AnySet(status, INTERRUPT_BATTERY_STATUS), Command.ReadBatteryStatus));
      assert bus.log[..mark] == head;
    }

    /** The last two tests: the update result, only while a job exists, then the wakeup reason. */
    method ServeUpdate(status: bv32, hasJob: bool, ghost before: Snapshot, ghost mark: nat, ghost cmds: seq<Command>)
      requires mark <= |bus.log| && Served(before, Snap(), bus.log[mark..], cmds)
      modifies bus, this`device, this`battery, this`events, this`interruptStatus, this`released
      ensures bus.isOpen == old(bus.isOpen)
      ensures |old(bus.log)| <= |bus.log| && bus.log[..|old(bus.log)|] == old(bus.log)
      ensures Served(before, Snap(), bus.log[mark..],
                     cmds + When(AnySet(status, INTERRUPT_FIRMWARE_UPDATE) && hasJob, ReadFirmwareUpdateResult)
                       + When(AnySet(status, INTERRUPT_WAKEUP), Command.ReadWakeupReason))
    {
      ghost var head := bus.log;
      ServeIf(AnySet(status, INTERRUPT_FIRMWARE_UPDATE) && hasJob, ReadFirmwareUpdateResult, before, mark, cmds);
      ServeIf(AnySet(status, INTERRUPT_WAKEUP), Command.ReadWakeupReason, before, mark,
              cmds + When(AnySet(status, INTERRUPT_FIRMWARE_UPDATE) && hasJob, ReadFirmwareUpdateResult));
      assert bus.log[..|head|] == head;
    }

    /**
     * One test of the interrupt handler: when bit is set, reads register c
     * through its handler.  The transactions after mark, issuing cmds, carry
     * the handlers from before to the current state.
     */
    method ServeIf(bit: bool, c: Command, ghost before: Snapshot, ghost mark: nat, ghost cmds: seq<Command>)
      requires c in {Command.ReadDeviceStatus, Command.ReadBatteryStatus, Command.ReadLogMessage,
                     ReadFirmwareUpdateResult, Command.ReadWakeupReason}
      requires mark <= |bus.log| && Served(before, Snap(), bus.log[mark..], cmds)
      modifies bus, this`device, this`battery, this`events, this`interruptStatus, this`released
      ensures bus.isOpen == old(bus.isOpen)
      ensures |old(bus.log)| <= |bus.log| && bus.log[..|old(bus.log)|] == old(bus.log)
      ensures Served(before, Snap(), bus.log[mark..], cmds + When(bit, c))
    {
      if !bit {
        assert cmds + When(bit, c) == cmds;
        return;
      }
      ghost var mid := Snap();
      ghost var ts := bus.log[mark..];
      var ok: bool;
      if c == Command.ReadDeviceStatus {
        ok := ReadDeviceStatus();
      } else if c == Command.ReadBatteryStatus {
        ok := ReadBatteryStatus();
      } else if c == Command.ReadLogMessage {
        ok := ReadLogMessage();
      } else if c == ReadFirmwareUpdateResult {
        ok := Interrupt();
      } else {
        ok := ReadWakeupReason();
      }
      ServedSnoc(before, mid, ts, cmds, Last(bus.log));
      assert bus.log[mark..] == ts + [Last(bus.log)];
    }

    // ---- The update job ----

    /** A new job for the image: progress back at 0, a fresh semaphore. */
    method StartFirmwareUpdate(filename: string)
      modifies this`updateJob, this`lastEmittedProgress, this`released
      ensures updateJob == Some(filename) && lastEmittedProgress == Hundredths(0) && released == 0
    {
      updateJob := Some(filename);
      lastEmittedProgress := Hundredths(0);
      released := 0;
    }

    /** Reports offset/size, rounded to hundredths, when it is a ratio in [0, 1] that differs from the last one. */
    method EmitProgress(offset: nat, size: nat)
      modifies this`lastEmittedProgress, this`events
      ensures lastEmittedProgress == Update.Emit(old(lastEmittedProgress), offset, size).0
      ensures events == old(events) + Update.Emit(old(lastEmittedProgress), offset, size).1
    {
      var v := Update.ProgressOf(offset, size);
      if v.None? {
        return;
      }
      if Update.Differs(v.value, lastEmittedProgress) {
        events := events + [UpdateProgress(v.value)];
      }
      lastEmittedProgress := v.value;
    }

    /** The queued reaction to a successful update: re-initialise later, updates off. */
    method OnUpdateSucceeded()
      modifies this`reinitScheduled, this`firmwareUpdatesEnabled
      ensures reinitScheduled && !firmwareUpdatesEnabled
    {
      reinitScheduled := true;
      firmwareUpdatesEnabled := false;
    }

    /** The queued reaction to a failed update: updates off. */
    method OnUpdateFailed()
      modifies this`firmwareUpdatesEnabled
      ensures !firmwareUpdatesEnabled
    {
      firmwareUpdatesEnabled := false;
    }

    /**
     * One pass's read, padding and checksum: up to 32 bytes of the image at
     * pos go to the front of the payload buffer, the length is padded to a
     * word and the CRC continued over the padded chunk.  Returns the number
     * of bytes read and the command to push.
     */
    method ReadChunk(ghost input: Update.Inputs, ghost s: Update.Loop, file: seq<bv8>, payload: array<bv8>,
                     pos: nat, offset: nat, crc: bv32) returns (n: nat, cmd: Command)
      requires input.image == file && Crc.Computes(input.checksum) && Update.Sane(input, s)
      requires payload.Length == MAX_CHUNK && s.pos == pos && s.offset == offset && s.crc == crc && s.buffer == payload[..]
      modifies payload
      ensures n == Update.ReadSize(input, s) && payload[..] == Update.Refill(input, s)
      ensures cmd == Update.Push(input, s)
    {
      n := Update.Min(MAX_CHUNK, |file| - pos);
      forall j | 0 <= j < n {
        payload[j] := file[pos + j];
      }
      assert payload[..] == Update.Refill(input, s);
      var r := Update.RoundUp4(n);
      var c := Crc.CalculateCrcBy(input.checksum, crc, payload, r);
      cmd := PushFirmwareUpdate(offset, r, c, payload[..]);
    }

    /**
     * One pass of the update loop from the loop variables s, up to the
     * acknowledgement: the read (which may fail), the padded chunk and its
     * CRC, the transfer of the full command, the result code the interrupt
     * handler stored for this chunk and, when the MCU accepted it, the
     * progress report.  Returns how the pass ended and the chunk it pushed.
     */
    method Pass(ghost input: Update.Inputs, ghost s: Update.Loop, file: seq<bv8>, readError: Option<nat>,
                acks: seq<bv32>, payload: array<bv8>, chunk: nat, pos: nat, offset: nat, crc: bv32)
      returns (ending: PassEnd, cmd: Command, n: nat, ghost sent: seq<Transaction>)
      requires input.image == file && input.readError == readError && input.acks == acks
      requires Crc.Computes(input.checksum) && Update.Sane(input, s)
      requires payload.Length == MAX_CHUNK && chunk == |s.sent|
      requires s.pos == pos && s.offset == offset && s.crc == crc && s.buffer == payload[..]
      requires s.last == lastEmittedProgress
      modifies bus, payload, this`lastEmittedProgress, this`events
      ensures bus.isOpen == old(bus.isOpen) && bus.log == old(bus.log) + sent
      ensures cmd.PushFirmwareUpdate?
      ensures ending == ReadFailed <==> readError == Some(chunk)
      ensures ending == ReadFailed ==> sent == [] && payload[..] == old(payload[..])
      ensures ending != ReadFailed ==>
        && cmd == Update.Push(input, s) && n == Update.ReadSize(input, s) && payload[..] == Update.Refill(input, s)
        && |sent| == 1 && sent[0] == Transaction(cmd, PUSH_FIRMWARE_WRITE_LEN, 1, sent[0].ok, NoReply)
        && ending == PassEndOf(sent[0].ok, chunk, acks)
      ensures ending == Accepted ==>
        var e := Update.Emit(s.last, s.offset + cmd.length, |file|);
        lastEmittedProgress == e.0 && events == old(events) + e.1
      ensures ending != Accepted ==> lastEmittedProgress == old(lastEmittedProgress) && events == old(events)
    {
      if readError == Some(chunk) {
        return ReadFailed, PushFirmwareUpdate(0, 0, 0, []), 0, [];
      }
      n, cmd := ReadChunk(input, s, file, payload, pos, offset, crc);
      var ok, reply := Transfer(cmd, PUSH_FIRMWARE_WRITE_LEN, None);
      sent := [Transaction(cmd, PUSH_FIRMWARE_WRITE_LEN, 1, ok, NoReply)];
      ending := PassEndOf(ok, chunk, acks);
      if ending == Accepted {
        EmitProgress(offset + cmd.length, |file|);
      }
    }

    /**
     * One iteration of the chunk loop: a Pass from the engine state s the loop has reached along the log L,
     * and where that leaves the loop. A pass that stops it concludes the engine's run; an accepted non-empty
     * chunk moves the loop to Advance(s).
     */
    method Iteration(ghost input: Update.Inputs, ghost s0: Update.Loop, ghost s: Update.Loop, ghost L: seq<Transaction>,
                     ghost e0: seq<Event>, file: seq<bv8>, readError: Option<nat>, acks: seq<bv32>,
                     payload: array<bv8>, chunk: nat, pos: nat, offset: nat, crc: bv32)
      returns (ending: PassEnd, cmd: Command, n: nat, ghost sent: seq<Transaction>)
      requires input.image == file && input.readError == readError && input.acks == acks
      requires Crc.Computes(input.checksum) && payload.Length == MAX_CHUNK
      requires Tracks(input, s0, s, L) && Update.Sane(input, s) && chunk == |s.sent|
      requires events == e0 + s.events && s.last == lastEmittedProgress
      requires s.pos == pos && s.offset == offset && s.crc == crc && s.buffer == payload[..]
      modifies bus, payload, this`lastEmittedProgress, this`events
      ensures bus.isOpen == old(bus.isOpen) && bus.log == old(bus.log) + sent
      ensures cmd.PushFirmwareUpdate?
      ensures ending != Accepted || cmd.length == 0 ==>
        var out := Update.RunFrom(input, s0, Oks(L + sent));
        && Commands(L + sent) == out.sent && PushShaped(L + sent) && FinishOf(ending) == out.finish
        && lastEmittedProgress == out.last && events + Closing(out.finish) == e0 + out.events
      ensures ending == Accepted && cmd.length != 0 ==>
        var next := Update.Advance(input, s);
        && Tracks(input, s0, next, L + sent) && Update.Sane(input, next) && |next.sent| == chunk + 1
        && events == e0 + next.events && lastEmittedProgress == next.last
        && next.pos == pos + n && n > 0 && next.offset == offset + cmd.length && next.crc == cmd.crc
        && next.buffer == payload[..]
    {
      ending, cmd, n, sent := Pass(input, s, file, readError, acks, payload, chunk, pos, offset, crc);
      if ending != Accepted || cmd.length == 0 {
        StopFacts(input, s0, s, L, sent, ending, e0, events, lastEmittedProgress);
      } else {
        GoFacts(input, s0, s, L, sent, e0, events, lastEmittedProgress);
      }
    }

    /**
     * The chunk loop of run(): passes go on while each chunk is accepted and not empty. The loop stops on a
     * failed read, a failed transfer, a missing or rejected result code, or an accepted empty chunk, and
     * reports the engine's outcome for the transfer results in the log.
     */
    method Transmit(ghost input: Update.Inputs, file: seq<bv8>, readError: Option<nat>, acks: seq<bv32>,
                    stale: seq<bv8>) returns (finish: Update.Finish)
      requires input.image == file && input.readError == readError && input.acks == acks
      requires Crc.Computes(input.checksum) && |stale| == MAX_CHUNK
      modifies bus, this`lastEmittedProgress, this`events
      ensures bus.isOpen == old(bus.isOpen) && |old(bus.log)| <= |bus.log| && bus.log[..|old(bus.log)|] == old(bus.log)
      ensures var L := bus.log[|old(bus.log)|..];
        var out := Update.RunFrom(input, Update.Start(stale, old(lastEmittedProgress)), Oks(L));
        && Commands(L) == out.sent && PushShaped(L) && finish == out.finish
        && lastEmittedProgress == out.last && events + Closing(finish) == old(events) + out.events
    {
      var payload := new bv8[MAX_CHUNK](i => if 0 <= i < |stale| then stale[i] else 0);
      assert payload[..] == stale;
      ghost var s0 := Update.Start(stale, lastEmittedProgress);
      var pos: nat, offset: nat, crc, chunk: nat := 0, 0, Crc.INITIAL, 0;
      ghost var s := s0;
      ghost var L: seq<Transaction> := [];
      var ending := ReadFailed;
      while true
        invariant bus.log == old(bus.log) + L && bus.isOpen == old(bus.isOpen)
        invariant Tracks(input, s0, s, L) && Update.Sane(input, s) && chunk == |s.sent|
        invariant events == old(events) + s.events && s.last == lastEmittedProgress
        invariant s.pos == pos && s.offset == offset && s.crc == crc && s.buffer == payload[..]
        decreases |file| - pos
      {
        var cmd, n;
        ghost var sent;
        ending, cmd, n, sent := Iteration(input, s0, s, L, old(events), file, readError, acks, payload,
                                          chunk, pos, offset, crc);
        LogSplit(old(bus.log), L, sent);
        L := L + sent;
        if ending != Accepted || cmd.length == 0 {
          break;
        }
        pos, offset, crc := pos + n, offset + cmd.length, cmd.crc;
        chunk := chunk + 1;
        s := Update.Advance(input, s);
      }
      finish := FinishOf(ending);
    }

    /**
     * The update thread's body, followed by the queued reaction to the signal
     * it ends with.  image is the file's contents (None when it cannot be
     * opened), readError the read call that fails (if any), acks the result
     * codes the interrupt handler stores after each chunk (a chunk beyond them
     * waits for ever), and stale what the payload buffer holds before the first
     * read.  The run follows Update.Run on the transfer outcomes in the log.
     */
    method RunUpdate(image: Option<seq<bv8>>, readError: Option<nat>, acks: seq<bv32>, stale: seq<bv8>)
      returns (finish: Update.Finish)
      requires |stale| == MAX_CHUNK
      modifies bus, this`lastEmittedProgress, this`events, this`firmwareUpdatesEnabled, this`reinitScheduled
      ensures |old(bus.log)| <= |bus.log| && bus.log[..|old(bus.log)|] == old(bus.log) && bus.isOpen == old(bus.isOpen)
      ensures var L := bus.log[|old(bus.log)|..];
        var out := Update.Run(image, readError, acks, stale, old(lastEmittedProgress), Oks(L));
        && Commands(L) == out.sent && PushShaped(L) && finish == out.finish
        && lastEmittedProgress == out.last && events == old(events) + out.events
      ensures firmwareUpdatesEnabled == (old(firmwareUpdatesEnabled) && finish == Update.AwaitingAck)
      ensures reinitScheduled == (old(reinitScheduled) || finish == Update.Succeeded)
    {
      if image.None? {
        events := events + [UpdateFailed];
        OnUpdateFailed();
        assert bus.log[|old(bus.log)|..] == [];
        return Update.Failed;
      }
      var file := image.value;
      ghost var input := Update.Inputs(file, readError, acks, Crc.Accumulate);
      finish := Transmit(input, file, readError, acks, stale);
      ghost var L := bus.log[|old(bus.log)|..];
      assert Update.Run(image, readError, acks, stale, old(lastEmittedProgress), Oks(L))
        == Update.RunFrom(input, Update.Start(stale, old(lastEmittedProgress)), Oks(L));
      Conclude(finish);
    }

    /** The end of the thread: its final signal, then the queued reaction to it. */
    method Conclude(finish: Update.Finish)
      modifies this`events, this`firmwareUpdatesEnabled, this`reinitScheduled
      ensures events == old(events) + Closing(finish)
      ensures firmwareUpdatesEnabled == (old(firmwareUpdatesEnabled) && finish == Update.AwaitingAck)
      ensures reinitScheduled == (old(reinitScheduled) || finish == Update.Succeeded)
    {
      events := events + Closing(finish);
      if finish == Update.Succeeded {
        OnUpdateSucceeded();
      } else if finish == Update.Failed {
        OnUpdateFailed();
      }
    }
  }
}
