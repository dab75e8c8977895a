/**
 * The receive worker of the FIR-filter application: it calls `recv` until a
 * transfer carries end-of-burst, classifies each transfer's error code with a fixed
 * precedence, stops at the first error without writing that transfer's samples, and
 * appends every successful transfer's samples to the output file, if one is open.
 *
 * The RX streamer is the sequence of transfers its `recv` calls return, one per
 * call. Past the end of that sequence no data arrives, so `recv` returns after its
 * 5-second wait with the timeout error code. The interrupt flag is the sequence of
 * values the loop head observes, false past its end.
 */
module RxWorker {
  import opened Wrappers
  import opened Cancellation

  /** The error codes of the RX metadata. */
  datatype ErrorCode = NoError | Timeout | LateCommand | BrokenChain | Overflow | Alignment | BadPacket

  /** The RX metadata fields the worker reads. */
  datatype RxMetadata = RxMetadata(errorCode: ErrorCode, outOfSequence: bool, endOfBurst: bool)

  /** One `recv` call's result: the samples received and their metadata. */
  datatype Transfer<S> = Transfer(samples: seq<S>, md: RxMetadata)

  /** Why the worker throws. */
  datatype RxError = TimedOut | DroppedOrOutOfSequence | OverflowWithoutRadio | StreamError(code: ErrorCode)

  datatype RxOutcome = EndOfBurst | Cancelled | Failed(error: RxError)

  /**
   * The worker's run: the samples of the accepted transfers in order, the number of
   * `recv` calls made, and how the loop ended.
   */
  datatype RxRun<S> = RxRun(received: seq<S>, calls: nat, outcome: RxOutcome)

  /** The result of the whole worker: the output file's contents, if a file was open. */
  datatype RxResult<S> = RxResult(file: Option<seq<S>>, run: RxRun<S>)

  /** The name the stream layer gives each error code. */
  function CodeName(code: ErrorCode): string
  {
    match code
    case NoError => "ERROR_CODE_NONE"
    case Timeout => "ERROR_CODE_TIMEOUT"
    case LateCommand => "ERROR_CODE_LATE_COMMAND"
    case BrokenChain => "ERROR_CODE_BROKEN_CHAIN"
    case Overflow => "ERROR_CODE_OVERFLOW"
    case Alignment => "ERROR_CODE_ALIGNMENT"
    case BadPacket => "ERROR_CODE_BAD_PACKET"
  }

  /** The text the worker prints and throws for each error. */
  function Message(e: RxError): string
  {
    "RX streamer " + Report(e)
  }

  /** What the streamer is reported to have done. */
  function Report(e: RxError): string
  {
    if e.TimedOut? then "timed out while receiving" else "detected " + Finding(e)
  }

  /** What the streamer is reported to have detected. */
  function Finding(e: RxError): string
    requires !e.TimedOut?
  {
    // Each literal is split after its first word so that the proofs that the texts
    // differ only need to look at that word.
    match e
    case DroppedOrOutOfSequence => "dropped" + " or out of sequence packet"
    case OverflowWithoutRadio => "overflow" + ", but without a radio block this should be impossible."
    case StreamError(code) => GenericFinding + CodeName(code)
  }

  const GenericFinding: string := "an error: "

  /** Each error is reported with its own text, so the report identifies the error. */
  lemma MessagesDistinct(a: RxError, b: RxError)
    ensures Message(a) == Message(b) ==> a == b
  {
    if Message(a) == Message(b) {
      var p := "RX streamer ";
      assert Message(a)[|p|..] == Report(a);
      assert Message(b)[|p|..] == Report(b);
      ReportsDistinct(a, b);
    }
  }

  /**
   * Only the timeout's report does not start with "detected ", and the three findings
   * start with different letters; a generic finding names its error code last.
   */
  lemma ReportsDistinct(a: RxError, b: RxError)
    ensures Report(a) == Report(b) ==> a == b
  {
    if Report(a) == Report(b) {
      var d := "detected ";
      assert Report(a)[0] == Report(b)[0];
      if !a.TimedOut? && !b.TimedOut? {
        assert Report(a)[|d|..] == Finding(a);
        assert Report(b)[|d|..] == Finding(b);
        FindingsDistinct(a, b);
      }
    }
  }

  lemma FindingsDistinct(a: RxError, b: RxError)
    requires !a.TimedOut? && !b.TimedOut?
    ensures Finding(a) == Finding(b) ==> a == b
  {
    if Finding(a) == Finding(b) {
      assert Finding(a)[0] == Finding(b)[0];
      if a.StreamError? && b.StreamError? {
        assert Finding(a)[|GenericFinding|..] == CodeName(a.code);
        assert Finding(b)[|GenericFinding|..] == CodeName(b.code);
      }
    }
  }

  /**
   * The worker's verdict on one transfer's metadata. Timeout is checked first, then
   * overflow (split on the out-of-sequence flag), then any other code but none; the
   * end-of-burst flag never affects the verdict.
   */
  function Classify(md: RxMetadata): (v: Option<RxError>)
    ensures v.None? <==> md.errorCode == NoError
    ensures md.errorCode == Timeout ==> v == Some(TimedOut)
    ensures md.errorCode == Overflow ==>
              v == Some(if md.outOfSequence then DroppedOrOutOfSequence else OverflowWithoutRadio)
    ensures md.errorCode !in {NoError, Timeout, Overflow} ==> v == Some(StreamError(md.errorCode))
  {
    if md.errorCode == Timeout then Some(TimedOut)
    else if md.errorCode == Overflow then
      if md.outOfSequence then Some(DroppedOrOutOfSequence) else Some(OverflowWithoutRadio)
    else if md.errorCode != NoError then Some(StreamError(md.errorCode))
    else None
  }

  /** What `recv` returns when no data arrives within its timeout. */
  function Silence<S>(): Transfer<S>
  {
    Transfer([], RxMetadata(Timeout, false, false))
  }

  /** The transfer the `k`-th `recv` call returns. */
  function Receive<S>(ts: seq<Transfer<S>>, k: nat): Transfer<S>
  {
    if k < |ts| then ts[k] else Silence()
  }

  /** A transfer the worker accepts and continues after: no error and no end-of-burst. */
  predicate Continues<S>(t: Transfer<S>)
  {
    t.md.errorCode == NoError && !t.md.endOfBurst
  }

  /** The samples of a sequence of transfers, in order. */
  function Samples<S>(ts: seq<Transfer<S>>): seq<S>
  {
    if |ts| == 0 then [] else ts[0].samples + Samples(ts[1..])
  }

  /**
   * What the worker's loop promises of a run `r` from call `k`. No loop head before
   * a call saw the interrupt. Every call before the last, and every call of an
   * interrupted run, returned a transfer without error or end-of-burst. The run ends
   * at the first interrupt, the first error (whose verdict is the outcome) or the
   * first end-of-burst. The received samples are those of the accepted transfers,
   * never those of a failing one.
   */
  ghost predicate RunConforms<S>(ts: seq<Transfer<S>>, stop: seq<bool>, k: nat, r: RxRun<S>)
  {
    && (forall j :: k <= j < k + r.calls ==> !StopSeen(stop, j))
    && (forall j :: k <= j < k + r.calls - (if r.outcome.Cancelled? then 0 else 1) ==>
          j < |ts| && Continues(ts[j]))
    && (r.outcome.Cancelled? ==> StopSeen(stop, k + r.calls))
    && (!r.outcome.Cancelled? ==> r.calls > 0)
    && (r.outcome.EndOfBurst? ==>
          (k + r.calls - 1 < |ts|
           && ts[k + r.calls - 1].md.errorCode == NoError
           && ts[k + r.calls - 1].md.endOfBurst))
    && (r.outcome.Failed? ==> Classify(Receive(ts, k + r.calls - 1).md) == Some(r.outcome.error))
    && k + r.calls <= |ts| + 1
    && (r.outcome.Cancelled? ==> k + r.calls <= |ts|)
    && k + Accepted(r) <= |ts|
    && r.received == Samples(ts[k..k + Accepted(r)])
  }

  /** The worker's loop from call `k` on: its run conforms in the sense of `RunConforms`. */
  function RecvLoop<S>(ts: seq<Transfer<S>>, stop: seq<bool>, k: nat): (r: RxRun<S>)
    requires k <= |ts|
    ensures RunConforms(ts, stop, k, r)
    decreases |ts| - k
  {
    if StopSeen(stop, k) then RxRun([], 0, Cancelled)
    else
      var t := Receive(ts, k);
      match Classify(t.md)
      case Some(e) => RxRun([], 1, Failed(e))
      case None =>
        if t.md.endOfBurst then RxRun(t.samples, 1, EndOfBurst)
        else
          var tail := RecvLoop(ts, stop, k + 1);
          RunStep(ts, stop, k, tail);
          RxRun(t.samples + tail.received, 1 + tail.calls, tail.outcome)
  }

  /**
   * One accepted transfer in front of a conforming run from the next call gives a
   * conforming run from this call.
   */
  lemma RunStep<S>(ts: seq<Transfer<S>>, stop: seq<bool>, k: nat, tail: RxRun<S>)
    requires k < |ts| && !StopSeen(stop, k) && Continues(ts[k])
    requires RunConforms(ts, stop, k + 1, tail)
    ensures RunConforms(ts, stop, k, RxRun(ts[k].samples + tail.received, 1 + tail.calls, tail.outcome))
  {
    var r := RxRun(ts[k].samples + tail.received, 1 + tail.calls, tail.outcome);
    assert Accepted(r) == 1 + Accepted(tail);
    SamplesCons(ts, k, k + Accepted(r));
  }

  /** How many transfers a run accepted: every call except a failing last one. */
  function Accepted<S>(r: RxRun<S>): nat
  {
    if r.outcome.Failed? && r.calls > 0 then r.calls - 1 else r.calls
  }

  /** The samples of a run of transfers are those of its first followed by the rest. */
  lemma SamplesCons<S>(ts: seq<Transfer<S>>, k: nat, m: nat)
    ensures k < m <= |ts| ==> Samples(ts[k..m]) == ts[k].samples + Samples(ts[k + 1..m])
  {
    if k < m <= |ts| {
      assert ts[k..m][0] == ts[k];
      assert ts[k..m][1..] == ts[k + 1..m];
    }
  }

  /**
   * The whole worker. An output file is opened only for a non-empty name; with an
   * empty name, or when the open fails, received samples are discarded. An open file
   * ends up holding exactly the samples of the accepted transfers.
   */
  function RecvToFile<S>(name: string, opens: bool, ts: seq<Transfer<S>>, stop: seq<bool>): (r: RxResult<S>)
    ensures r.run == RecvLoop(ts, stop, 0)
    ensures r.file.Some? <==> name != [] && opens
    ensures r.file.Some? ==> r.file.value == Samples(ts[..Accepted(r.run)])
  {
    var run := RecvLoop(ts, stop, 0);
    assert ts[0..Accepted(run)] == ts[..Accepted(run)];
    RxResult(if name != [] && opens then Some(run.received) else None, run)
  }

  lemma {:induction false} EndOfBurstFrom<S>(ts: seq<Transfer<S>>, stop: seq<bool>, k: nat, e: nat)
    requires k <= e < |ts|
    requires forall j :: k <= j < e ==> Continues(ts[j])
    requires ts[e].md.errorCode == NoError && ts[e].md.endOfBurst
    requires forall j :: k <= j <= e ==> !StopSeen(stop, j)
    ensures RecvLoop(ts, stop, k) == RxRun(Samples(ts[k..e + 1]), e + 1 - k, EndOfBurst)
    decreases e - k
  {
    SamplesCons(ts, k, e + 1);
    if k < e {
      EndOfBurstFrom(ts, stop, k + 1, e);
    } else {
      assert ts[k + 1..e + 1] == [];
    }
  }

  lemma {:induction false} ErrorFrom<S>(ts: seq<Transfer<S>>, stop: seq<bool>, k: nat, e: nat, x: RxError)
    requires k <= e <= |ts|
    requires forall j :: k <= j < e ==> Continues(ts[j])
    requires Classify(Receive(ts, e).md) == Some(x)
    requires forall j :: k <= j <= e ==> !StopSeen(stop, j)
    ensures RecvLoop(ts, stop, k) == RxRun(Samples(ts[k..e]), e + 1 - k, Failed(x))
    decreases e - k
  {
    if k < e {
      SamplesCons(ts, k, e);
      ErrorFrom(ts, stop, k + 1, e, x);
    } else {
      assert ts[k..e] == [];
    }
  }

  /**
   * When transfer `e` is the first with end-of-burst and every transfer up to it is
   * error-free, an uninterrupted run makes `e + 1` calls and keeps the samples of all
   * of them, the end-of-burst transfer included.
   */
  lemma RecvEndsAtFirstEndOfBurst<S>(ts: seq<Transfer<S>>, stop: seq<bool>, e: nat)
    requires e < |ts|
    requires forall j :: 0 <= j < e ==> Continues(ts[j])
    requires ts[e].md.errorCode == NoError && ts[e].md.endOfBurst
    requires NoStopBefore(stop, e + 1)
    ensures RecvLoop(ts, stop, 0) == RxRun(Samples(ts[..e + 1]), e + 1, EndOfBurst)
  {
    EndOfBurstFrom(ts, stop, 0, e);
    assert ts[0..e + 1] == ts[..e + 1];
  }

  /**
   * When transfer `e` is the first to carry an error and none before it carries
   * end-of-burst, an uninterrupted run fails with that transfer's verdict after `e + 1`
   * calls, keeping only the samples of the transfers before it. A call past the
   * end of the stream's responses counts as a timed-out transfer.
   */
  lemma RecvStopsAtFirstError<S>(ts: seq<Transfer<S>>, stop: seq<bool>, e: nat, x: RxError)
    requires e <= |ts|
    requires forall j :: 0 <= j < e ==> Continues(ts[j])
    requires Classify(Receive(ts, e).md) == Some(x)
    requires NoStopBefore(stop, e + 1)
    ensures RecvLoop(ts, stop, 0) == RxRun(Samples(ts[..e]), e + 1, Failed(x))
  {
    ErrorFrom(ts, stop, 0, e, x);
    assert ts[0..e] == ts[..e];
  }

  /**
   * The program as written never installs its interrupt handler, so the flag is never
   * set; then the loop never ends cancelled: it ends at an end-of-burst or an error.
   */
  lemma NeverCancelled<S>(ts: seq<Transfer<S>>, stop: seq<bool>, k: nat)
    requires k <= |ts|
    requires NoStop(stop)
    ensures var r := RecvLoop(ts, stop, k);
            !r.outcome.Cancelled? && r.calls > 0
  {
  }
}
