/**
 * The firmware-update engine, as a specification on values.
 *
 * The engine pushes the image to the MCU in chunks of at most 32 bytes, each
 * padded up to a multiple of 4 and carrying its offset and the running CRC,
 * and waits for the MCU's result code after every chunk.  It keeps going until
 * a chunk of length 0 has been acknowledged, so the transmission always ends
 * with an empty chunk.  RunFrom below is that loop on values; the driver's
 * RunUpdate method is proved to follow it.
 *
 * Inputs that the environment decides are explicit: the image, which read
 * call (if any) fails, the result codes the MCU acknowledges the chunks with,
 * and whether each bus transfer succeeds.
 */
module Update {
  import opened Protocol
  import Crc

  function Min(a: nat, b: nat): nat {
    if a <= b then a else b
  }

  /** A read length padded to whole 32-bit words. */
  function RoundUp4(n: nat): (r: nat)
    ensures r % 4 == 0 && n <= r < n + 4
    ensures n <= MAX_CHUNK ==> r <= MAX_CHUNK
    ensures r == 0 <==> n == 0
  {
    (n + 3) / 4 * 4
  }

  // ---- Progress reporting ----

  /**
   * The progress value for offset/size: rounded to hundredths, halves away
   * from zero; None when the ratio is outside [0, 1] and so ignored.  An empty
   * image gives 0/0, which is not a number.
   */
  function ProgressOf(offset: nat, size: nat): Option<Progress> {
    if size == 0 then (if offset == 0 then Some(NotANumber) else None)
    else if offset > size then None
    else Some(Hundredths(Quotient(200 * offset + size, 2 * size)))
  }

  /**
   * The quotient of a by b, by repeated subtraction. Written recursively so that
   * a proof meets the division only where it asks for it (QuotientIsDiv).
   */
  function Quotient(a: nat, b: nat): nat
    requires b > 0
    decreases a
  {
    if a < b then 0 else 1 + Quotient(a - b, b)
  }

  /** Comparison of progress values as doubles: a NaN differs from everything. */
  predicate Differs(a: Progress, b: Progress) {
    a.NotANumber? || b.NotANumber? || a.n != b.n
  }

  /** One call of the progress reporter: the new last value and the signals emitted. */
  function Emit(last: Progress, offset: nat, size: nat): (r: (Progress, seq<Event>))
    ensures ProgressOf(offset, size).None? ==> r == (last, [])
    ensures ProgressOf(offset, size).Some? ==> r.0 == ProgressOf(offset, size).value
    ensures r.1 == [] || (r.1 == [UpdateProgress(r.0)] && Differs(r.0, last))
    ensures ProgressOf(offset, size).Some? && Differs(r.0, last) ==> r.1 == [UpdateProgress(r.0)]
  {
    match ProgressOf(offset, size)
    case None => (last, [])
    case Some(p) => (p, if Differs(p, last) then [UpdateProgress(p)] else [])
  }

  lemma MulMonotone(x: nat, y: nat, b: nat)
    requires x <= y
    ensures x * b <= y * b
  {
    var d := y - x;
    assert y * b == x * b + d * b;
  }

  lemma DivBelow(a: nat, b: nat, q: nat)
    requires b > 0 && a < (q + 1) * b
    ensures a / b <= q
  {
    var d := a / b;
    assert d * b <= a;
    if q + 1 <= d {
      MulMonotone(q + 1, d, b);
    }
  }

  lemma DivAtLeast(a: nat, b: nat, q: nat)
    requires b > 0 && q * b <= a
    ensures q <= a / b
  {
    var d := a / b;
    assert a < (d + 1) * b;
    if d + 1 <= q {
      MulMonotone(d + 1, q, b);
    }
  }

  /** Repeated subtraction computes integer division. */
  lemma {:induction false} QuotientIsDiv(a: nat, b: nat)
    requires b > 0
    ensures Quotient(a, b) == a / b
    decreases a
  {
    if a >= b {
      QuotientIsDiv(a - b, b);
      var q := (a - b) / b;
      assert q * b <= a - b < (q + 1) * b;
      assert (q + 1) * b == q * b + b && (q + 2) * b == (q + 1) * b + b;
      DivAtLeast(a, b, q + 1);
      DivBelow(a, b, q + 1);
    }
  }

  /** Reported progress is a whole number of hundredths between 0 and 100. */
  lemma ProgressBounds(offset: nat, size: nat)
    requires ProgressOf(offset, size).Some? && ProgressOf(offset, size).value.Hundredths?
    ensures 0 <= ProgressOf(offset, size).value.n <= 100
    ensures offset == size ==> ProgressOf(offset, size).value.n == 100
    ensures offset == 0 ==> ProgressOf(offset, size).value.n == 0
  {
    var a := 200 * offset + size;
    QuotientIsDiv(a, 2 * size);
    assert a < 101 * (2 * size);
    DivBelow(a, 2 * size, 100);
    if offset == size {
      DivAtLeast(a, 2 * size, 100);
    }
    if offset == 0 {
      DivBelow(a, 2 * size, 0);
    }
  }

  /** Progress never goes backwards as the offset grows. */
  lemma ProgressMonotone(o1: nat, o2: nat, size: nat)
    requires o1 <= o2 <= size && size > 0
    ensures ProgressOf(o1, size).value.n <= ProgressOf(o2, size).value.n
  {
    var b := 2 * size;
    var a1, a2 := 200 * o1 + size, 200 * o2 + size;
    QuotientIsDiv(a1, b);
    QuotientIsDiv(a2, b);
    DivMonotone(a1, a2, b);
  }

  lemma DivMonotone(a1: nat, a2: nat, b: nat)
    requires a1 <= a2 && b > 0
    ensures a1 / b <= a2 / b
  {
    var q1 := a1 / b;
    assert q1 * b <= a1;
    DivAtLeast(a2, b, q1);
  }

  // ---- The transmit loop ----

  /**
   * What the loop depends on: the image, which read call (if any) fails, the
   * MCU's result codes, and the running checksum over a padded chunk.  The
   * checksum is a parameter so that the loop's properties hold whatever it
   * is; the engine itself uses Crc.Accumulate (see Run).
   */
  datatype Inputs = Inputs(image: seq<bv8>, readError: Option<nat>, acks: seq<bv32>,
                           checksum: (bv32, seq<bv8>) -> bv32)

  /** The loop's variables: file position, offset, CRC, payload buffer, last progress, and what was sent and emitted. */
  datatype Loop = Loop(pos: nat, offset: nat, crc: bv32, buffer: seq<bv8>, last: Progress,
                       sent: seq<Command>, events: seq<Event>)

  datatype Finish = Succeeded | Failed | AwaitingAck

  datatype Outcome = Outcome(sent: seq<Command>, events: seq<Event>, last: Progress, finish: Finish)

  predicate Sane(input: Inputs, s: Loop) {
    s.pos <= |input.image| && |s.buffer| == MAX_CHUNK
  }

  /** Bytes the next read returns: up to 32, fewer at the end of the file. */
  function ReadSize(input: Inputs, s: Loop): (n: nat)
    requires Sane(input, s)
    ensures n <= MAX_CHUNK && s.pos + n <= |input.image|
  {
    Min(MAX_CHUNK, |input.image| - s.pos)
  }

  /** A read of n bytes at start into a buffer: fresh bytes first, the previous contents after them. */
  function Fill(image: seq<bv8>, start: nat, n: nat, before: seq<bv8>): (buffer: seq<bv8>)
    requires start + n <= |image| && n <= |before|
    ensures |buffer| == |before|
  {
    image[start..start + n] + before[n..]
  }

  /** The payload buffer after the next read. */
  function Refill(input: Inputs, s: Loop): (buffer: seq<bv8>)
    requires Sane(input, s)
    ensures |buffer| == MAX_CHUNK
  {
    Fill(input.image, s.pos, ReadSize(input, s), s.buffer)
  }

  predicate IsPush(c: Command) {
    c.PushFirmwareUpdate? && |c.payload| == MAX_CHUNK && c.length <= MAX_CHUNK && c.length % 4 == 0
  }

  /** The command the next pass transmits (the whole 32-byte payload always goes out). */
  function Push(input: Inputs, s: Loop): (c: Command)
    requires Sane(input, s)
    ensures IsPush(c)
  {
    var buffer := Refill(input, s);
    var r := RoundUp4(ReadSize(input, s));
    PushFirmwareUpdate(s.offset, r, input.checksum(s.crc, buffer[..r]), buffer)
  }

  /** The loop's variables after a pass whose transfer and acknowledgement both succeeded. */
  function Advance(input: Inputs, s: Loop): (t: Loop)
    requires Sane(input, s)
    ensures Sane(input, t)
  {
    var c := Push(input, s);
    var emitted := Emit(s.last, s.offset + c.length, |input.image|);
    Loop(s.pos + ReadSize(input, s), s.offset + c.length, c.crc, c.payload, emitted.0,
         s.sent + [c], s.events + emitted.1)
  }

  /**
   * Whether the pass from s is the loop's last: the read fails, the transfer
   * fails, no acknowledgement is left to read, the MCU rejects the chunk, or
   * the chunk it accepted was empty.  oks are the outcomes of the remaining
   * bus transfers, one per chunk (a missing one counts as a failure).
   */
  predicate LastPass(input: Inputs, s: Loop, oks: seq<bool>)
    requires Sane(input, s)
  {
    var k := |s.sent|;
    || input.readError == Some(k)
    || oks == [] || !oks[0]
    || k >= |input.acks| || input.acks[k] != UPDATE_RESULT_OK
    || Push(input, s).length == 0
  }

  /** How the last pass leaves the loop, tested in the order the loop body tests. */
  function FinalPass(input: Inputs, s: Loop, oks: seq<bool>): Outcome
    requires Sane(input, s) && LastPass(input, s, oks)
  {
    if input.readError == Some(|s.sent|) then
      Outcome(s.sent, s.events + [UpdateSucceeded], s.last, Succeeded)
    else
      var c := Push(input, s);
      if oks == [] || !oks[0] then
        Outcome(s.sent + [c], s.events + [UpdateFailed], s.last, Failed)
      else if |s.sent| >= |input.acks| then
        Outcome(s.sent + [c], s.events, s.last, AwaitingAck)
      else if input.acks[|s.sent|] != UPDATE_RESULT_OK then
        Outcome(s.sent + [c], s.events + [UpdateFailed], s.last, Failed)
      else
        var t := Advance(input, s);
        Outcome(t.sent, t.events + [UpdateSucceeded], t.last, Succeeded)
  }

  /**
   * The do-while loop from state s: passes that push a non-empty chunk which
   * the MCU accepts go round again; the acknowledgement of chunk k is acks[k].
   */
  function RunFrom(input: Inputs, s: Loop, oks: seq<bool>): Outcome
    requires Sane(input, s)
    decreases |input.image| - s.pos
  {
    if LastPass(input, s, oks) then FinalPass(input, s, oks)
    else RunFrom(input, Advance(input, s), oks[1..])
  }

  /** The loop's variables before the first pass; stale is what the payload buffer happens to hold. */
  function Start(stale: seq<bv8>, last: Progress): Loop {
    Loop(0, 0, Crc.INITIAL, stale, last, [], [])
  }

  /** The whole engine: an image that cannot be opened fails before anything is sent. */
  function Run(image: Option<seq<bv8>>, readError: Option<nat>, acks: seq<bv32>, stale: seq<bv8>,
               last: Progress, oks: seq<bool>): Outcome
    requires |stale| == MAX_CHUNK
  {
    if image.None? then Outcome([], [UpdateFailed], last, Failed)
    else RunFrom(Inputs(image.value, readError, acks, Crc.Accumulate), Start(stale, last), oks)
  }

  // ---- The loop one pass at a time ----

  /**
   * The loop's variables after the passes whose transfer outcomes are oks,
   * when none of those passes was the last one; None once one of them was.
   */
  function Reach(input: Inputs, s: Loop, oks: seq<bool>): (r: Option<Loop>)
    requires Sane(input, s)
    ensures r.Some? ==> Sane(input, r.value)
    decreases |oks|
  {
    if oks == [] then Some(s)
    else if LastPass(input, s, [oks[0]]) then None
    else Reach(input, Advance(input, s), oks[1..])
  }

  /** Whether a pass is the last depends only on the first of the remaining outcomes. */
  lemma LastPassFirst(input: Inputs, s: Loop, oks: seq<bool>)
    requires Sane(input, s) && oks != []
    ensures LastPass(input, s, oks) == LastPass(input, s, [oks[0]])
  {
  }

  /** Once the loop has reached s, the rest of the run is the run from s. */
  lemma {:induction false} ReachRuns(input: Inputs, s0: Loop, oks: seq<bool>, more: seq<bool>)
    requires Sane(input, s0) && Reach(input, s0, oks).Some?
    ensures RunFrom(input, s0, oks + more) == RunFrom(input, Reach(input, s0, oks).value, more)
    decreases |oks|
  {
    if oks != [] {
      LastPassFirst(input, s0, oks + more);
      assert (oks + more)[0] == oks[0] && (oks + more)[1..] == oks[1..] + more;
      ReachRuns(input, Advance(input, s0), oks[1..], more);
    } else {
      assert oks + more == more;
    }
  }

  /** A pass whose non-empty chunk went out and was accepted moves the loop on by Advance. */
  lemma {:induction false} ReachAdvance(input: Inputs, s0: Loop, oks: seq<bool>, s: Loop)
    requires Sane(input, s0) && Reach(input, s0, oks) == Some(s)
    requires !LastPass(input, s, [true])
    ensures Reach(input, s0, oks + [true]) == Some(Advance(input, s))
    decreases |oks|
  {
    if oks != [] {
      assert (oks + [true])[0] == oks[0] && (oks + [true])[1..] == oks[1..] + [true];
      ReachAdvance(input, Advance(input, s0), oks[1..], s);
    }
  }

  /** A last pass after the outcomes more ends the whole run the way FinalPass says. */
  lemma ReachEnd(input: Inputs, s0: Loop, oks: seq<bool>, s: Loop, more: seq<bool>)
    requires Sane(input, s0) && Reach(input, s0, oks) == Some(s) && LastPass(input, s, more)
    ensures RunFrom(input, s0, oks + more) == FinalPass(input, s, more)
  {
    ReachRuns(input, s0, oks, more);
  }

  // ---- What each chunk carries ----

  /** Where read i starts, and how many bytes it returns. */
  function ReadStart(input: Inputs, i: nat): nat {
    Min(MAX_CHUNK * i, |input.image|)
  }

  function ReadLength(input: Inputs, i: nat): (n: nat)
    ensures n <= MAX_CHUNK && ReadStart(input, i) + n <= |input.image|
  {
    Min(MAX_CHUNK, |input.image| - ReadStart(input, i))
  }

  function Previous(sent: seq<Command>, i: nat): Option<Command>
    requires i <= |sent|
  {
    if i == 0 then None else Some(sent[i - 1])
  }

  /**
   * Chunk i, given the chunk before it (None for the first): its length is
   * read i's length padded to a word, its payload holds read i's bytes followed
   * by what the buffer held before, its offset continues where the previous one
   * ended and its CRC continues the previous one over the padded chunk.
   */
  function NextChunk(input: Inputs, stale: seq<bv8>, i: nat, prev: Option<Command>): (c: Command)
    requires |stale| == MAX_CHUNK && (prev.Some? ==> IsPush(prev.value))
    ensures IsPush(c)
  {
    var n := ReadLength(input, i);
    var start := ReadStart(input, i);
    var before := if prev.None? then stale else prev.value.payload;
    var payload := Fill(input.image, start, n, before);
    var length := RoundUp4(n);
    var offset := if prev.None? then 0 else prev.value.offset + prev.value.length;
    var crc := if prev.None? then Crc.INITIAL else prev.value.crc;
    PushFirmwareUpdate(offset, length, input.checksum(crc, payload[..length]), payload)
  }

  /** The first k chunks of a transmission, by position in the image rather than by loop state. */
  function Expected(input: Inputs, stale: seq<bv8>, k: nat): (cs: seq<Command>)
    requires |stale| == MAX_CHUNK
    ensures |cs| == k && (k > 0 ==> IsPush(cs[k - 1]))
    decreases k
  {
    if k == 0 then []
    else
      var cs := Expected(input, stale, k - 1);
      cs + [NextChunk(input, stale, k - 1, Previous(cs, k - 1))]
  }

  /** Every chunk but the last was acknowledged OK after a successful transfer, and was not empty. */
  predicate Gated(input: Inputs, oks: seq<bool>, sent: seq<Command>, done: nat)
    requires done <= |sent|
  {
    forall i :: 0 <= i < done ==>
      && i < |oks| && oks[i]
      && i < |input.acks| && input.acks[i] == UPDATE_RESULT_OK
      && sent[i].PushFirmwareUpdate? && sent[i].length > 0
  }

  predicate OnlyProgress(events: seq<Event>) {
    forall i :: 0 <= i < |events| ==> events[i].UpdateProgress?
  }

  /** The invariant of the loop's variables before each pass. */
  predicate Reached(input: Inputs, stale: seq<bv8>, oks: seq<bool>, s: Loop) {
    && |stale| == MAX_CHUNK
    && Sane(input, s)
    && s.sent == Expected(input, stale, |s.sent|)
    && s.pos == ReadStart(input, |s.sent|)
    && s.buffer == (if s.sent == [] then stale else s.sent[|s.sent| - 1].payload)
    && s.offset == (if s.sent == [] then 0 else s.sent[|s.sent| - 1].offset + s.sent[|s.sent| - 1].length)
    && s.crc == (if s.sent == [] then Crc.INITIAL else s.sent[|s.sent| - 1].crc)
    && Gated(input, oks, s.sent, |s.sent|)
    && OnlyProgress(s.events)
  }

  /** The loop's next command is the next chunk by position, once the loop variables agree. */
  lemma PushIsNextChunk(input: Inputs, stale: seq<bv8>, s: Loop, k: nat, prev: Option<Command>)
    requires |stale| == MAX_CHUNK && Sane(input, s) && (prev.Some? ==> IsPush(prev.value))
    requires s.pos == ReadStart(input, k)
    requires s.buffer == (if prev.None? then stale else prev.value.payload)
    requires s.offset == (if prev.None? then 0 else prev.value.offset + prev.value.length)
    requires s.crc == (if prev.None? then Crc.INITIAL else prev.value.crc)
    ensures Push(input, s) == NextChunk(input, stale, k, prev)
  {
    assert ReadSize(input, s) == ReadLength(input, k);
  }

  lemma PushFollows(input: Inputs, stale: seq<bv8>, oks: seq<bool>, s: Loop)
    requires Reached(input, stale, oks, s)
    ensures s.sent + [Push(input, s)] == Expected(input, stale, |s.sent| + 1)
  {
    var k := |s.sent|;
    PushIsNextChunk(input, stale, s, k, Previous(s.sent, k));
  }

  lemma ReadStartNext(input: Inputs, k: nat)
    ensures ReadStart(input, k) + ReadLength(input, k) == ReadStart(input, k + 1)
  {
  }

  lemma GatedSnoc(input: Inputs, oks: seq<bool>, sent: seq<Command>, c: Command)
    requires Gated(input, oks, sent, |sent|)
    requires |sent| < |oks| && oks[|sent|]
    requires |sent| < |input.acks| && input.acks[|sent|] == UPDATE_RESULT_OK
    requires c.PushFirmwareUpdate? && c.length > 0
    ensures Gated(input, oks, sent + [c], |sent| + 1)
  {
  }

  lemma OnlyProgressConcat(a: seq<Event>, b: seq<Event>)
    requires OnlyProgress(a) && OnlyProgress(b)
    ensures OnlyProgress(a + b)
  {
  }

  lemma EmitOnlyProgress(events: seq<Event>, last: Progress, offset: nat, size: nat)
    requires OnlyProgress(events)
    ensures OnlyProgress(events + Emit(last, offset, size).1)
  {
    var e := Emit(last, offset, size);
    assert e.1 == [] || e.1 == [UpdateProgress(e.0)];
    OnlyProgressConcat(events, e.1);
  }

  /** The loop variables after a pass describe the chunk just sent. */
  lemma AdvanceLast(input: Inputs, s: Loop)
    requires Sane(input, s)
    ensures var t := Advance(input, s); var c := Push(input, s);
      && t.sent == s.sent + [c] && t.sent[|s.sent|] == c
      && t.buffer == c.payload && t.offset == c.offset + c.length && t.crc == c.crc
      && t.pos == s.pos + ReadSize(input, s)
      && t.events == s.events + Emit(s.last, t.offset, |input.image|).1
      && t.last == Emit(s.last, t.offset, |input.image|).0
  {
  }

  lemma {:induction false} AdvanceReached(input: Inputs, stale: seq<bv8>, oks: seq<bool>, s: Loop)
    requires Reached(input, stale, oks, s)
    requires |s.sent| < |oks| && oks[|s.sent|]
    requires |s.sent| < |input.acks| && input.acks[|s.sent|] == UPDATE_RESULT_OK
    requires Push(input, s).length > 0
    ensures Reached(input, stale, oks, Advance(input, s))
  {
    var k := |s.sent|;
    var c := Push(input, s);
    PushFollows(input, stale, oks, s);
    ReadStartNext(input, k);
    assert ReadSize(input, s) == ReadLength(input, k);
    GatedSnoc(input, oks, s.sent, c);
    AdvanceLast(input, s);
    EmitOnlyProgress(s.events, s.last, s.offset + c.length, |input.image|);
  }

  /** What the loop leaves behind, whichever way it ends. */
  predicate Concluded(input: Inputs, oks: seq<bool>, out: Outcome) {
    match out.finish
       case Succeeded =>
         // a failed read after k acknowledged chunks, or an acknowledged empty chunk
         && |out.events| > 0 && out.events[|out.events| - 1] == UpdateSucceeded
         && OnlyProgress(out.events[..|out.events| - 1])
         && ((input.readError == Some(|out.sent|) && Gated(input, oks, out.sent, |out.sent|))
             || (|out.sent| > 0 && Gated(input, oks, out.sent, |out.sent| - 1)
                 && out.sent[|out.sent| - 1].PushFirmwareUpdate? && out.sent[|out.sent| - 1].length == 0
                 && |out.sent| - 1 < |input.acks| && input.acks[|out.sent| - 1] == UPDATE_RESULT_OK
                 && |out.sent| - 1 < |oks| && oks[|out.sent| - 1]))
       case Failed =>
         // the last chunk's transfer failed or the MCU rejected it
         && |out.sent| > 0 && Gated(input, oks, out.sent, |out.sent| - 1)
         && |out.events| > 0 && out.events[|out.events| - 1] == UpdateFailed
         && OnlyProgress(out.events[..|out.events| - 1])
         && var k := |out.sent| - 1;
            (k >= |oks| || !oks[k] || (k < |input.acks| && input.acks[k] != UPDATE_RESULT_OK))
       case AwaitingAck =>
         // the last chunk went out and its result code never came
         && |out.sent| == |input.acks| + 1 && Gated(input, oks, out.sent, |out.sent| - 1)
         && |out.sent| - 1 < |oks| && oks[|out.sent| - 1]
         && OnlyProgress(out.events)
  }

  lemma GatedSame(input: Inputs, oks: seq<bool>, sent: seq<Command>, c: Command)
    requires Gated(input, oks, sent, |sent|)
    ensures Gated(input, oks, sent + [c], |sent|)
  {
    assert forall i :: 0 <= i < |sent| ==> (sent + [c])[i] == sent[i];
  }

  /** A read failure ends the loop with a success signal and nothing more sent. */
  lemma ConcludesOnReadError(input: Inputs, oks: seq<bool>, sent: seq<Command>, events: seq<Event>, last: Progress)
    requires Gated(input, oks, sent, |sent|) && OnlyProgress(events)
    requires input.readError == Some(|sent|)
    ensures Concluded(input, oks, Outcome(sent, events + [UpdateSucceeded], last, Succeeded))
  {
    var all := events + [UpdateSucceeded];
    assert all[..|all| - 1] == events && all[|all| - 1] == UpdateSucceeded;
  }

  /** A failed transfer or a rejected chunk ends the loop with a failure signal. */
  lemma ConcludesOnFailure(input: Inputs, oks: seq<bool>, sent: seq<Command>, c: Command,
                           events: seq<Event>, last: Progress)
    requires Gated(input, oks, sent, |sent|) && OnlyProgress(events)
    requires var k := |sent|;
      k >= |oks| || !oks[k] || (k < |input.acks| && input.acks[k] != UPDATE_RESULT_OK)
    ensures Concluded(input, oks, Outcome(sent + [c], events + [UpdateFailed], last, Failed))
  {
    GatedSame(input, oks, sent, c);
    var all := events + [UpdateFailed];
    assert all[..|all| - 1] == events && all[|all| - 1] == UpdateFailed;
    assert |sent + [c]| - 1 == |sent|;
  }

  /** A chunk that went out without an acknowledgement to read leaves the loop waiting. */
  lemma ConcludesAwaiting(input: Inputs, oks: seq<bool>, sent: seq<Command>, c: Command,
                          events: seq<Event>, last: Progress)
    requires Gated(input, oks, sent, |sent|) && OnlyProgress(events)
    requires |sent| < |oks| && oks[|sent|] && |sent| >= |input.acks|
    ensures Concluded(input, oks, Outcome(sent + [c], events, last, AwaitingAck))
  {
    GatedSame(input, oks, sent, c);
    assert |sent + [c]| - 1 == |sent|;
    if |sent| > 0 {
      var i := |sent| - 1;
      assert sent[i].PushFirmwareUpdate? && i < |input.acks|;
    }
  }

  /** An acknowledged empty chunk ends the loop with a success signal. */
  lemma ConcludesOnEmptyChunk(input: Inputs, oks: seq<bool>, sent: seq<Command>, c: Command,
                              events: seq<Event>, last: Progress)
    requires Gated(input, oks, sent, |sent|) && OnlyProgress(events)
    requires |sent| < |oks| && oks[|sent|]
    requires |sent| < |input.acks| && input.acks[|sent|] == UPDATE_RESULT_OK
    requires c.PushFirmwareUpdate? && c.length == 0
    ensures Concluded(input, oks, Outcome(sent + [c], events + [UpdateSucceeded], last, Succeeded))
  {
    GatedSame(input, oks, sent, c);
    var all := events + [UpdateSucceeded];
    assert all[..|all| - 1] == events && all[|all| - 1] == UpdateSucceeded;
    assert |sent + [c]| - 1 == |sent| && (sent + [c])[|sent|] == c;
  }

  /** The last pass sends the next chunk by position, unless its read fails. */
  lemma LastPassSends(input: Inputs, stale: seq<bv8>, oks: seq<bool>, s: Loop)
    requires Reached(input, stale, oks, s) && LastPass(input, s, oks[|s.sent|..])
    ensures var out := FinalPass(input, s, oks[|s.sent|..]);
      out.sent == Expected(input, stale, |out.sent|)
  {
    if input.readError != Some(|s.sent|) {
      PushFollows(input, stale, oks, s);
      AdvanceLast(input, s);
    }
  }

  /** How the last pass ends the loop. */
  lemma LastPassConcludes(input: Inputs, oks: seq<bool>, s: Loop)
    requires Sane(input, s) && Gated(input, oks, s.sent, |s.sent|) && OnlyProgress(s.events)
    requires |s.sent| <= |oks| && LastPass(input, s, oks[|s.sent|..])
    ensures Concluded(input, oks, FinalPass(input, s, oks[|s.sent|..]))
  {
    var k := |s.sent|;
    var rest := oks[k..];
    if input.readError == Some(k) {
      ConcludesOnReadError(input, oks, s.sent, s.events, s.last);
    } else {
      var c := Push(input, s);
      if rest == [] || !rest[0] || (k < |input.acks| && input.acks[k] != UPDATE_RESULT_OK) {
        ConcludesOnFailure(input, oks, s.sent, c, s.events, s.last);
      } else if k >= |input.acks| {
        ConcludesAwaiting(input, oks, s.sent, c, s.events, s.last);
      } else {
        var t := Advance(input, s);
        AdvanceLast(input, s);
        EmitOnlyProgress(s.events, s.last, s.offset + c.length, |input.image|);
        ConcludesOnEmptyChunk(input, oks, s.sent, c, t.events, t.last);
      }
    }
  }

  lemma {:induction false} RunFromConcludes(input: Inputs, stale: seq<bv8>, oks: seq<bool>, s: Loop)
    requires Reached(input, stale, oks, s)
    ensures var out := RunFrom(input, s, oks[|s.sent|..]);
      out.sent == Expected(input, stale, |out.sent|) && Concluded(input, oks, out)
    decreases |input.image| - s.pos
  {
    var rest := oks[|s.sent|..];
    if LastPass(input, s, rest) {
      LastPassSends(input, stale, oks, s);
      LastPassConcludes(input, oks, s);
    } else {
      var t := Advance(input, s);
      AdvanceReached(input, stale, oks, s);
      assert oks[|t.sent|..] == rest[1..];
      RunFromConcludes(input, stale, oks, t);
    }
  }

  /** The engine's outcome, from a successfully opened image. */
  lemma RunConcludes(input: Inputs, stale: seq<bv8>, last: Progress, oks: seq<bool>)
    requires |stale| == MAX_CHUNK
    ensures var out := RunFrom(input, Start(stale, last), oks);
      out.sent == Expected(input, stale, |out.sent|) && Concluded(input, oks, out)
  {
    assert oks[0..] == oks;
    RunFromConcludes(input, stale, oks, Start(stale, last));
  }

  /** The total length of the chunks cs. */
  function Pushed(cs: seq<Command>): nat
    decreases |cs|
  {
    if cs == [] then 0
    else Pushed(cs[..|cs| - 1]) + (if cs[|cs| - 1].PushFirmwareUpdate? then cs[|cs| - 1].length else 0)
  }

  /** The CRC a chunk after cs continues: the last chunk's, or the initial value before the first. */
  function CrcAfter(cs: seq<Command>): bv32 {
    if cs != [] && cs[|cs| - 1].PushFirmwareUpdate? then cs[|cs| - 1].crc else Crc.INITIAL
  }

  /**
   * Every chunk of cs has its read's length padded to a word, starts where the chunks before it end,
   * on a word boundary, and continues their CRC over its padded bytes.  Stated from the last chunk
   * backwards; LaidOutAt reads it at one index.
   */
  predicate LaidOut(input: Inputs, cs: seq<Command>)
    decreases |cs|
  {
    cs != [] ==>
      var c := cs[|cs| - 1];
      var before := cs[..|cs| - 1];
      && LaidOut(input, before)
      && c.PushFirmwareUpdate? && c.length == RoundUp4(ReadLength(input, |cs| - 1))
      && c.offset == Pushed(before) && c.offset % 4 == 0
      && c.length <= |c.payload| && c.crc == input.checksum(CrcAfter(before), c.payload[..c.length])
  }

  /** Chunk i of laid-out chunks: read i's padded length, at the sum of the lengths before it, word-aligned. */
  lemma {:induction false} LaidOutAt(input: Inputs, cs: seq<Command>, i: nat)
    requires LaidOut(input, cs) && i < |cs|
    ensures cs[i].PushFirmwareUpdate? && cs[i].length == RoundUp4(ReadLength(input, i))
    ensures cs[i].offset == Pushed(cs[..i]) && cs[i].offset % 4 == 0
    ensures cs[i].length <= |cs[i].payload| && cs[i].crc == input.checksum(CrcAfter(cs[..i]), cs[i].payload[..cs[i].length])
    decreases |cs|
  {
    var p := cs[..|cs| - 1];
    if i < |p| {
      LaidOutAt(input, p, i);
      assert p[..i] == cs[..i];
    }
  }

  lemma WordSum(a: nat, b: nat)
    requires a % 4 == 0 && b % 4 == 0
    ensures (a + b) % 4 == 0
  {
    assert a == 4 * (a / 4) && b == 4 * (b / 4);
    assert a + b == 4 * (a / 4 + b / 4);
  }

  /** The chunk NextChunk builds: read i's padded length, at the end of the previous chunk. */
  lemma NextChunkPlace(input: Inputs, stale: seq<bv8>, i: nat, prev: Option<Command>)
    requires |stale| == MAX_CHUNK && (prev.Some? ==> IsPush(prev.value))
    ensures var c := NextChunk(input, stale, i, prev);
      && c.length == RoundUp4(ReadLength(input, i))
      && c.offset == (if prev.None? then 0 else prev.value.offset + prev.value.length)
      && c.length <= |c.payload|
      && c.crc == input.checksum(if prev.None? then Crc.INITIAL else prev.value.crc, c.payload[..c.length])
  {
  }

  /** Laid-out chunks end at the sum of their lengths, on a word boundary. */
  lemma PushedEnd(input: Inputs, cs: seq<Command>)
    requires LaidOut(input, cs) && cs != []
    ensures cs[|cs| - 1].PushFirmwareUpdate?
    ensures Pushed(cs) == cs[|cs| - 1].offset + cs[|cs| - 1].length && Pushed(cs) % 4 == 0
  {
    var c := cs[|cs| - 1];
    WordSum(c.offset, c.length);
  }

  /** A chunk with the next read's padded length, placed at the end of laid-out chunks, extends them. */
  lemma LaidOutSnoc(input: Inputs, cs: seq<Command>, c: Command)
    requires LaidOut(input, cs)
    requires c.PushFirmwareUpdate? && c.length == RoundUp4(ReadLength(input, |cs|))
    requires c.offset == Pushed(cs) && c.offset % 4 == 0
    requires c.length <= |c.payload| && c.crc == input.checksum(CrcAfter(cs), c.payload[..c.length])
    ensures LaidOut(input, cs + [c])
  {
    assert (cs + [c])[..|cs|] == cs;
  }

  /**
   * The layout of a transmission: chunk i has read i's length padded to a word, and starts where
   * the chunks before it end, so every offset is word-aligned.
   */
  lemma {:induction false} ExpectedLayout(input: Inputs, stale: seq<bv8>, k: nat)
    requires |stale| == MAX_CHUNK
    ensures LaidOut(input, Expected(input, stale, k))
    decreases k
  {
    if k > 0 {
      var cs := Expected(input, stale, k - 1);
      var prev := Previous(cs, k - 1);
      var c := NextChunk(input, stale, k - 1, prev);
      ExpectedLayout(input, stale, k - 1);
      NextChunkPlace(input, stale, k - 1, prev);
      if k > 1 {
        PushedEnd(input, cs);
      }
      LaidOutSnoc(input, cs, c);
    }
  }

  /**
   * Chunk i of a run has read i's length padded to a word, its offset is the sum of the lengths sent
   * before it, a multiple of 4, and its CRC continues the previous chunk's (the initial value for the
   * first chunk) over its padded bytes.
   */
  lemma {:induction false} RunLayout(input: Inputs, stale: seq<bv8>, last: Progress, oks: seq<bool>, i: nat)
    requires |stale| == MAX_CHUNK && i < |RunFrom(input, Start(stale, last), oks).sent|
    ensures var cs := RunFrom(input, Start(stale, last), oks).sent;
      && cs[i].PushFirmwareUpdate? && cs[i].length == RoundUp4(ReadLength(input, i))
      && cs[i].offset == Pushed(cs[..i]) && cs[i].offset % 4 == 0
      && cs[i].length <= |cs[i].payload|
      && cs[i].crc == input.checksum(CrcAfter(cs[..i]), cs[i].payload[..cs[i].length])
  {
    var cs := RunFrom(input, Start(stale, last), oks).sent;
    RunConcludes(input, stale, last, oks);
    ExpectedLayout(input, stale, |cs|);
    LaidOutAt(input, cs, i);
  }

  /** The bytes the chunks cs cover, in order: each chunk's payload up to its padded length. */
  function PushedBytes(cs: seq<Command>): seq<bv8>
    decreases |cs|
  {
    if cs == [] then []
    else
      var c := cs[|cs| - 1];
      PushedBytes(cs[..|cs| - 1]) + (if c.PushFirmwareUpdate? && c.length <= |c.payload| then c.payload[..c.length] else [])
  }

  /** Two word-aligned buffers joined are word-aligned. */
  lemma AlignedConcat(a: seq<bv8>, b: seq<bv8>)
    requires |a| % 4 == 0 && |b| % 4 == 0
    ensures |a + b| % 4 == 0
  {
    WordSum(|a|, |b|);
  }

  /** Continuing the CRC of a word-aligned prefix over a word-aligned chunk gives the CRC of both. */
  lemma ChecksumExtends(prefix: seq<bv8>, bytes: seq<bv8>)
    requires |prefix| % 4 == 0 && |bytes| % 4 == 0
    ensures |prefix + bytes| % 4 == 0
    ensures Crc.Checksum(Crc.Checksum(Crc.INITIAL, prefix), bytes) == Crc.Checksum(Crc.INITIAL, prefix + bytes)
  {
    AlignedConcat(prefix, bytes);
    Crc.ChecksumConcat(Crc.INITIAL, prefix, bytes);
  }

  /**
   * With the word loop as checksum, the CRC after laid-out chunks is the word-wise CRC, from the
   * initial value, of all the bytes they cover.
   */
  lemma {:induction false} LaidOutChecksum(input: Inputs, cs: seq<Command>)
    requires LaidOut(input, cs) && Crc.Computes(input.checksum)
    ensures |PushedBytes(cs)| % 4 == 0 && CrcAfter(cs) == Crc.Checksum(Crc.INITIAL, PushedBytes(cs))
    decreases |cs|
  {
    if cs != [] {
      var before := cs[..|cs| - 1];
      var c := cs[|cs| - 1];
      var bytes := c.payload[..c.length];
      LaidOutChecksum(input, before);
      assert c.crc == Crc.Accumulate(CrcAfter(before), bytes);
      ChecksumExtends(PushedBytes(before), bytes);
    }
  }

  /**
   * The CRC of the last command a run sends is the word-wise CRC, from the initial value, of every
   * padded chunk the run sent, in order: the device can check the whole image against it.
   */
  lemma RunChecksum(input: Inputs, stale: seq<bv8>, last: Progress, oks: seq<bool>)
    requires |stale| == MAX_CHUNK && Crc.Computes(input.checksum)
    ensures var cs := RunFrom(input, Start(stale, last), oks).sent;
      && |PushedBytes(cs)| % 4 == 0
      && (cs != [] ==> cs[|cs| - 1].PushFirmwareUpdate? && cs[|cs| - 1].crc == Crc.Checksum(Crc.INITIAL, PushedBytes(cs)))
  {
    var cs := RunFrom(input, Start(stale, last), oks).sent;
    RunConcludes(input, stale, last, oks);
    ExpectedLayout(input, stale, |cs|);
    LaidOutChecksum(input, cs);
  }
}
