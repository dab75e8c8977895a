/**
 * The FIR-filter application's data path end to end: the TX worker streams a file
 * into the graph and the RX worker writes what comes back. With a pipeline that
 * hands every sent transfer back unchanged and without error, the output file holds
 * the input file's whole samples, byte for byte.
 *
 * Both streamers carry `sc16` on the wire whatever the host format. The model takes
 * the conversion between host and wire samples as the identity. That is exact for
 * the `short` type (host `sc16`); for `float` and `double` each sample is rounded
 * to 16 bits and back, so the output only approximates the input.
 */
module Loopback {
  import opened Wrappers
  import opened Records
  import opened TxWorker
  import RxWorker
  import opened Cancellation

  /**
   * What the RX streamer returns for one TX send when the pipeline passes it through,
   * with the host-to-wire conversion taken as the identity. The pipeline is assumed to
   * deliver exactly one RX transfer per TX send, carrying the same samples.
   */
  function Echo(s: Send): RxWorker.Transfer<Record>
  {
    RxWorker.Transfer(s.samples, RxWorker.RxMetadata(RxWorker.NoError, false, s.md.endOfBurst))
  }

  /** The transfers a pass-through pipeline returns for a sequence of sends. */
  function Echoes(sends: seq<Send>): (ts: seq<RxWorker.Transfer<Record>>)
    ensures |ts| == |sends|
    ensures forall i :: 0 <= i < |sends| ==> ts[i] == Echo(sends[i])
  {
    if |sends| == 0 then [] else [Echo(sends[0])] + Echoes(sends[1..])
  }

  lemma {:induction false} EchoesSamples(sends: seq<Send>)
    ensures RxWorker.Samples(Echoes(sends)) == Payload(sends)
    decreases |sends|
  {
    if |sends| > 0 {
      assert Echoes(sends)[1..] == Echoes(sends[1..]);
      EchoesSamples(sends[1..]);
    }
  }

  /**
   * Streaming a file through a pass-through pipeline, with a TX streamer that accepts
   * every offer and no interrupt, ends the RX worker on the final end-of-burst
   * transfer; an opened output file then holds exactly the input's whole samples, so
   * its bytes are the input's bytes up to the last whole sample, and all of them when
   * the file length is a multiple of the sample size. This is exact for `short`
   * samples only; see the module comment on the wire conversion.
   */
  lemma RoundTrip(bytes: seq<byte>, inName: string, width: nat, capacity: nat,
                  accepted: seq<nat>, txStop: seq<bool>, outName: string, rxStop: seq<bool>)
    requires width > 0 && capacity > 0
    requires ConformingCounts(|bytes|, width, capacity) <= accepted
    requires NoStop(txStop) && NoStopBefore(rxStop, |bytes| / ChunkBytes(width, capacity) + 1)
    requires outName != []
    ensures var tx := SendFromFile(Some(bytes), inName, width, capacity, accepted, txStop);
            var rx := RxWorker.RecvToFile(outName, true, Echoes(tx.sends), rxStop);
            && rx.run.outcome == RxWorker.EndOfBurst
            && rx.file == Some(Decode(bytes, width))
            && Flatten(rx.file.value) == bytes[..WholeBytes(|bytes|, width)]
            && (|bytes| % width == 0 ==> Flatten(rx.file.value) == bytes)
  {
    var tx := SendFromFile(Some(bytes), inName, width, capacity, accepted, txStop);
    SendFromFileCompletes(bytes, inName, width, capacity, accepted, txStop);
    var ts := Echoes(tx.sends);
    var e := |tx.sends| - 1;
    forall j | 0 <= j < e
      ensures RxWorker.Continues(ts[j])
    {
      assert !tx.sends[j].md.endOfBurst;
    }
    RxWorker.RecvEndsAtFirstEndOfBurst(ts, rxStop, e);
    assert ts[..e + 1] == ts;
    EchoesSamples(tx.sends);
    FlattenDecode(bytes, width);
    if |bytes| % width == 0 {
      WholeBytesExact(|bytes|, width);
    }
  }
}
