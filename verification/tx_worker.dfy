/**
 * The transmit worker of the FIR-filter application: it reads a sample file in
 * chunks of at most `capacity` samples with `std::istream::read`, sends each chunk
 * to the TX streamer, and marks end-of-burst from the stream's end-of-file bit.
 *
 * The file is a byte sequence. The streamer is the sequence of counts its `send`
 * calls return, one per call; past the end of that sequence the streamer is stalled
 * and accepts nothing. The interrupt flag is the sequence of values the loop head
 * observes, one per iteration; past its end the flag reads false.
 */
module TxWorker {
  import opened Wrappers
  import opened Cancellation
  import opened Records

  /** The TX metadata the worker passes with every `send`. */
  datatype TxMetadata = TxMetadata(startOfBurst: bool, endOfBurst: bool)

  /** One `send` call: the samples offered and the metadata that goes with them. */
  datatype Send = Send(samples: seq<Record>, md: TxMetadata)

  /** Why the worker throws. */
  datatype TxError = InputOpenFailed(file: string) | SendTimedOut

  datatype TxOutcome = Completed | Cancelled | Failed(error: TxError)

  /** Every `send` the worker issued, in order, and how the worker ended. */
  datatype TxRun = TxRun(sends: seq<Send>, outcome: TxOutcome)

  /** The fixed words before and after the file name in the open error's text. */
  const OpenErrorHead: string := "Input samples file '"
  const OpenErrorTail: string := "' failed to open"

  /** The text the worker prints and throws for each error. */
  function Message(e: TxError): string
  {
    match e
    case InputOpenFailed(file) => OpenErrorHead + file + OpenErrorTail
    case SendTimedOut => "TX streamer timed out while streaming"
  }

  /**
   * Each error is reported with its own text: the two kinds start differently, and the
   * open error quotes the file name between fixed words, so it names the file.
   */
  lemma MessagesDistinct(a: TxError, b: TxError)
    ensures Message(a) == Message(b) ==> a == b
  {
    if Message(a) == Message(b) {
      assert Message(a)[0] == Message(b)[0];
      if a.InputOpenFailed? && b.InputOpenFailed? {
        QuotedFile(a.file);
        QuotedFile(b.file);
      }
    }
  }

  /** The open error's text holds the file name between its fixed opening and closing words. */
  lemma QuotedFile(file: string)
    ensures var m := Message(InputOpenFailed(file));
            |m| == |OpenErrorHead| + |file| + |OpenErrorTail|
            && m[|OpenErrorHead|..|m| - |OpenErrorTail|] == file
  {
  }

  /** What one `std::istream::read` call delivers: the bytes read and the eof bit after it. */
  datatype Chunk = Chunk(bytes: seq<byte>, eof: bool)

  /**
   * `read(buf, n)` on a stream with `rest` still unread. It sets eof only when fewer
   * than `n` bytes remain; a read that exactly drains the stream leaves eof clear.
   */
  function Read(rest: seq<byte>, n: nat): (c: Chunk)
    ensures c.bytes <= rest
    ensures c.eof <==> |c.bytes| < n
    ensures !c.eof ==> |c.bytes| == n
    ensures c.eof ==> c.bytes == rest
  {
    if |rest| < n then Chunk(rest, true) else Chunk(rest[..n], false)
  }

  /** The count the streamer returns from its `k`-th `send`; a stalled streamer returns 0. */
  function AcceptedCount(accepted: seq<nat>, k: nat): nat
  {
    if k < |accepted| then accepted[k] else 0
  }

  /** The samples of all sends, in send order. */
  function Payload(sends: seq<Send>): seq<Record>
  {
    if |sends| == 0 then [] else sends[0].samples + Payload(sends[1..])
  }

  /** The size of one chunk in bytes. */
  function ChunkBytes(width: nat, capacity: nat): nat
  {
    capacity * width
  }

  /**
   * The worker's loop from iteration `k` on, with `rest` the part of the file not yet
   * read. The contract is what the loop guarantees for every streamer and every
   * interrupt pattern: no send exceeds the capacity; every send before the last is a
   * full chunk without end-of-burst; start-of-burst is never set; the interrupt flag
   * is consulted only at loop heads; a short count from the streamer ends the loop
   * with the timeout error; only a completed run ends on an end-of-burst send that
   * the streamer fully accepted.
   */
  function SendLoop(rest: seq<byte>, width: nat, capacity: nat, accepted: seq<nat>,
                    stop: seq<bool>, k: nat): (r: TxRun)
    requires width > 0 && capacity > 0
    ensures forall i :: 0 <= i < |r.sends| ==>
              |r.sends[i].samples| <= capacity && !r.sends[i].md.startOfBurst
    ensures forall i :: 0 <= i < |r.sends| ==>
              (!r.sends[i].md.endOfBurst ==> |r.sends[i].samples| == capacity)
    ensures forall i :: 0 <= i < |r.sends| - 1 ==> !r.sends[i].md.endOfBurst
    ensures forall j :: k <= j < k + |r.sends| ==> !StopSeen(stop, j)
    ensures r.outcome.Cancelled? ==> StopSeen(stop, k + |r.sends|)
    ensures !r.outcome.Cancelled? ==> |r.sends| > 0
    ensures forall j :: k <= j < k + |r.sends| - 1 ==>
              AcceptedCount(accepted, j) == |r.sends[j - k].samples|
    ensures r.outcome.Failed? ==>
              (r.outcome.error == SendTimedOut
               && AcceptedCount(accepted, k + |r.sends| - 1) != |r.sends[|r.sends| - 1].samples|)
    ensures !r.outcome.Failed? && |r.sends| > 0 ==>
              AcceptedCount(accepted, k + |r.sends| - 1) == |r.sends[|r.sends| - 1].samples|
    ensures r.outcome.Completed? ==> r.sends[|r.sends| - 1].md.endOfBurst
    ensures |r.sends| > 0 && r.sends[|r.sends| - 1].md.endOfBurst ==> !r.outcome.Cancelled?
    decreases |rest|
  {
    if StopSeen(stop, k) then TxRun([], Cancelled)
    else
      var chunk := Read(rest, ChunkBytes(width, capacity));
      var n := |chunk.bytes| / width;
      DivBound(|chunk.bytes|, capacity, width);
      DivExact(capacity, width);
      var s := Send(Decode(chunk.bytes, width), TxMetadata(false, chunk.eof));
      if AcceptedCount(accepted, k) != n then TxRun([s], Failed(SendTimedOut))
      else if chunk.eof then TxRun([s], Completed)
      else
        MulAtLeast(capacity, width);
        var tail := SendLoop(rest[ChunkBytes(width, capacity)..], width, capacity, accepted, stop, k + 1);
        TxRun([s] + tail.sends, tail.outcome)
  }

  /**
   * The worker's whole run on the input file: a file that fails to open ends it with
   * the open error before any send; otherwise the loop starts at iteration 0 with the
   * whole file unread.
   */
  function SendFromFile(file: Option<seq<byte>>, name: string, width: nat, capacity: nat,
                        accepted: seq<nat>, stop: seq<bool>): (r: TxRun)
    requires width > 0 && capacity > 0
    ensures r.outcome == Failed(InputOpenFailed(name)) <==> file.None?
    ensures file.None? ==> r.sends == []
    ensures file.Some? ==> r == SendLoop(file.value, width, capacity, accepted, stop, 0)
  {
    match file
    case None => TxRun([], Failed(InputOpenFailed(name)))
    case Some(bytes) => SendLoop(bytes, width, capacity, accepted, stop, 0)
  }

  lemma {:induction false} PayloadCons(s: Send, tail: seq<Send>)
    ensures Payload([s] + tail) == s.samples + Payload(tail)
  {
    assert ([s] + tail)[0] == s;
    assert ([s] + tail)[1..] == tail;
  }

  /**
   * Whatever the streamer and the interrupt flag do, the samples sent so far are the
   * leading whole samples of the unread file, in file order.
   */
  lemma {:induction false} SendLoopPayloadPrefix(rest: seq<byte>, width: nat, capacity: nat,
                                                 accepted: seq<nat>, stop: seq<bool>, k: nat)
    requires width > 0 && capacity > 0
    ensures Payload(SendLoop(rest, width, capacity, accepted, stop, k).sends) <= Decode(rest, width)
    decreases |rest|
  {
    var cb := ChunkBytes(width, capacity);
    if StopSeen(stop, k) || |rest| < cb || AcceptedCount(accepted, k) != capacity {
      PrefixLast(rest, width, capacity, accepted, stop, k);
    } else {
      MulAtLeast(capacity, width);
      SendLoopPayloadPrefix(rest[cb..], width, capacity, accepted, stop, k + 1);
      PrefixStep(rest, width, capacity, accepted, stop, k);
    }
  }

  /** A run that stops at its first loop head, or after its first send, sends a prefix. */
  lemma PrefixLast(rest: seq<byte>, width: nat, capacity: nat, accepted: seq<nat>,
                   stop: seq<bool>, k: nat)
    requires width > 0 && capacity > 0
    requires StopSeen(stop, k) || |rest| < ChunkBytes(width, capacity) || AcceptedCount(accepted, k) != capacity
    ensures Payload(SendLoop(rest, width, capacity, accepted, stop, k).sends) <= Decode(rest, width)
  {
    if !StopSeen(stop, k) {
      var cb := ChunkBytes(width, capacity);
      var chunk := Read(rest, cb);
      var s := Send(Decode(chunk.bytes, width), TxMetadata(false, chunk.eof));
      DivExact(capacity, width);
      assert SendLoop(rest, width, capacity, accepted, stop, k).sends == [s];
      PayloadCons(s, []);
      DecodePrefix(chunk.bytes, rest, width, cb);
    }
  }

  /** A full chunk accepted in full, followed by a prefix of the rest, is a prefix. */
  lemma PrefixStep(rest: seq<byte>, width: nat, capacity: nat, accepted: seq<nat>,
                   stop: seq<bool>, k: nat)
    requires width > 0 && capacity > 0
    requires !StopSeen(stop, k) && |rest| >= ChunkBytes(width, capacity) && AcceptedCount(accepted, k) == capacity
    requires Payload(SendLoop(rest[ChunkBytes(width, capacity)..], width, capacity, accepted, stop, k + 1).sends)
             <= Decode(rest[ChunkBytes(width, capacity)..], width)
    ensures Payload(SendLoop(rest, width, capacity, accepted, stop, k).sends) <= Decode(rest, width)
  {
    var cb := ChunkBytes(width, capacity);
    var chunk := Read(rest, cb);
    var s := Send(Decode(chunk.bytes, width), TxMetadata(false, chunk.eof));
    DivExact(capacity, width);
    var tail := SendLoop(rest[cb..], width, capacity, accepted, stop, k + 1);
    assert chunk.bytes == rest[..cb];
    assert SendLoop(rest, width, capacity, accepted, stop, k).sends == [s] + tail.sends;
    PayloadCons(s, tail.sends);
    SplitAtChunk(rest, width, capacity);
    PrefixConcat(s.samples, Payload(tail.sends), Decode(rest[cb..], width));
  }

  lemma PrefixConcat<T>(x: seq<T>, a: seq<T>, b: seq<T>)
    requires a <= b
    ensures x + a <= x + b
  {
    assert (x + b)[..|x + a|] == x + a;
  }

  /** A chunk read from the stream decodes to a prefix of the stream's samples. */
  lemma DecodePrefix(bytes: seq<byte>, rest: seq<byte>, width: nat, cb: nat)
    requires width > 0 && bytes <= rest
    requires bytes == rest || |bytes| == cb
    requires cb % width == 0
    ensures Decode(bytes, width) <= Decode(rest, width)
  {
    if bytes != rest {
      var after := rest[|bytes|..];
      assert rest == bytes + after;
      DecodeAppend(bytes, after, width);
      var head := Decode(bytes, width);
      assert Decode(rest, width)[..|head|] == head;
    }
  }

  /** Splitting the unread file after one full chunk splits its samples there too. */
  lemma SplitAtChunk(rest: seq<byte>, width: nat, capacity: nat)
    requires width > 0 && capacity > 0
    requires |rest| >= ChunkBytes(width, capacity)
    ensures Decode(rest, width)
            == Decode(rest[..ChunkBytes(width, capacity)], width)
               + Decode(rest[ChunkBytes(width, capacity)..], width)
  {
    var cb := ChunkBytes(width, capacity);
    DivExact(capacity, width);
    assert rest == rest[..cb] + rest[cb..];
    DecodeAppend(rest[..cb], rest[cb..], width);
  }

  /**
   * The counts a streamer returns when it accepts every offer, call by call: one full
   * chunk for every whole chunk of the file, then the whole samples of the final short
   * read, which may be none.
   */
  function ConformingCounts(len: nat, width: nat, capacity: nat): seq<nat>
    requires width > 0 && capacity > 0
  {
    Repeat(capacity, len / ChunkBytes(width, capacity))
      + [(len % ChunkBytes(width, capacity)) / width]
  }

  /** `n` copies of `x`. */
  function Repeat(x: nat, n: nat): (xs: seq<nat>)
    ensures |xs| == n
    ensures forall i :: 0 <= i < n ==> xs[i] == x
  {
    if n == 0 then [] else [x] + Repeat(x, n - 1)
  }

  /** From call `k` on, the streamer returns the counts `cs`. */
  predicate AcceptsFrom(accepted: seq<nat>, k: nat, cs: seq<nat>)
  {
    k + |cs| <= |accepted| && accepted[k..k + |cs|] == cs
  }

  /** The facts a run completed by a fully accepting streamer satisfies. */
  predicate CompletedAsConforming(r: TxRun, rest: seq<byte>, width: nat, capacity: nat)
    requires width > 0 && capacity > 0
  {
    var cs := ConformingCounts(|rest|, width, capacity);
    && r.outcome == Completed
    && |r.sends| == |cs|
    && (forall i :: 0 <= i < |r.sends| ==> |r.sends[i].samples| == cs[i])
    && Payload(r.sends) == Decode(rest, width)
  }

  lemma {:induction false} SendLoopCompletes(rest: seq<byte>, width: nat, capacity: nat,
                                             accepted: seq<nat>, stop: seq<bool>, k: nat)
    requires width > 0 && capacity > 0
    requires AcceptsFrom(accepted, k, ConformingCounts(|rest|, width, capacity))
    requires NoStop(stop)
    ensures CompletedAsConforming(SendLoop(rest, width, capacity, accepted, stop, k), rest, width, capacity)
    decreases |rest|
  {
    var cb := ChunkBytes(width, capacity);
    if |rest| < cb {
      CompletesLast(rest, width, capacity, accepted, stop, k);
    } else {
      var cs := ConformingCounts(|rest|, width, capacity);
      var tcs := ConformingCounts(|rest| - cb, width, capacity);
      ConformingCountsStep(|rest|, width, capacity);
      MulAtLeast(capacity, width);
      assert AcceptsFrom(accepted, k + 1, tcs) by {
        assert accepted[k + 1..k + 1 + |tcs|] == accepted[k..k + |cs|][1..];
      }
      SendLoopCompletes(rest[cb..], width, capacity, accepted, stop, k + 1);
      CompletesStep(rest, width, capacity, accepted, stop, k);
    }
  }

  lemma CompletesLast(rest: seq<byte>, width: nat, capacity: nat,
                      accepted: seq<nat>, stop: seq<bool>, k: nat)
    requires width > 0 && capacity > 0 && |rest| < ChunkBytes(width, capacity)
    requires AcceptsFrom(accepted, k, ConformingCounts(|rest|, width, capacity))
    requires NoStop(stop)
    ensures CompletedAsConforming(SendLoop(rest, width, capacity, accepted, stop, k), rest, width, capacity)
  {
    var cs := ConformingCounts(|rest|, width, capacity);
    var r := SendLoop(rest, width, capacity, accepted, stop, k);
    var chunk := Read(rest, ChunkBytes(width, capacity));
    var s := Send(Decode(chunk.bytes, width), TxMetadata(false, chunk.eof));
    assert !StopSeen(stop, k);
    assert accepted[k..k + |cs|][0] == accepted[k];
    ConformingCountsLast(|rest|, width, capacity);
    assert r.sends == [s];
    PayloadCons(s, []);
  }

  lemma CompletesStep(rest: seq<byte>, width: nat, capacity: nat,
                      accepted: seq<nat>, stop: seq<bool>, k: nat)
    requires width > 0 && capacity > 0 && |rest| >= ChunkBytes(width, capacity)
    requires AcceptsFrom(accepted, k, ConformingCounts(|rest|, width, capacity))
    requires NoStop(stop)
    requires CompletedAsConforming(SendLoop(rest[ChunkBytes(width, capacity)..], width, capacity, accepted, stop, k + 1),
                                   rest[ChunkBytes(width, capacity)..], width, capacity)
    ensures CompletedAsConforming(SendLoop(rest, width, capacity, accepted, stop, k), rest, width, capacity)
  {
    var cb := ChunkBytes(width, capacity);
    var cs := ConformingCounts(|rest|, width, capacity);
    assert accepted[k..k + |cs|][0] == accepted[k];
    ConformingCountsStep(|rest|, width, capacity);
    assert !StopSeen(stop, k);
    FullChunkStep(rest, width, capacity, accepted, stop, k);
    var s := Send(Decode(rest[..cb], width), TxMetadata(false, false));
    var r := SendLoop(rest, width, capacity, accepted, stop, k);
    var tail := SendLoop(rest[cb..], width, capacity, accepted, stop, k + 1);
    var tcs := ConformingCounts(|rest| - cb, width, capacity);
    assert r.outcome == Completed;
    assert |r.sends| == |cs|;
    DivExact(capacity, width);
    assert |s.samples| == capacity;
    forall i | 0 <= i < |r.sends|
      ensures |r.sends[i].samples| == cs[i]
    {
      if i > 0 {
        assert r.sends[i] == tail.sends[i - 1];
        assert cs[i] == tcs[i - 1];
      }
    }
    PayloadCons(s, tail.sends);
    SplitAtChunk(rest, width, capacity);
    assert Payload(r.sends) == Decode(rest, width);
  }

  /**
   * One iteration that reads a full chunk which the streamer accepts in full: the run
   * is that chunk's send followed by the run from the next iteration.
   */
  lemma FullChunkStep(rest: seq<byte>, width: nat, capacity: nat,
                      accepted: seq<nat>, stop: seq<bool>, k: nat)
    requires width > 0 && capacity > 0
    requires !StopSeen(stop, k) && |rest| >= ChunkBytes(width, capacity) && AcceptedCount(accepted, k) == capacity
    ensures var cb := ChunkBytes(width, capacity);
            var r := SendLoop(rest, width, capacity, accepted, stop, k);
            var tail := SendLoop(rest[cb..], width, capacity, accepted, stop, k + 1);
            && r.sends == [Send(Decode(rest[..cb], width), TxMetadata(false, false))] + tail.sends
            && r.outcome == tail.outcome
  {
    DivExact(capacity, width);
    MulAtLeast(capacity, width);
  }

  /** A file shorter than one chunk gets a single send of its whole samples. */
  lemma ConformingCountsLast(len: nat, width: nat, capacity: nat)
    requires width > 0 && capacity > 0 && len < ChunkBytes(width, capacity)
    ensures ConformingCounts(len, width, capacity) == [len / width]
  {
    DivUnique(len, ChunkBytes(width, capacity), 0, len);
  }

  /** A file of at least one chunk gets a full send, then the sends of the rest. */
  lemma ConformingCountsStep(len: nat, width: nat, capacity: nat)
    requires width > 0 && capacity > 0 && len >= ChunkBytes(width, capacity)
    ensures ConformingCounts(len, width, capacity)
            == [capacity] + ConformingCounts(len - ChunkBytes(width, capacity), width, capacity)
  {
    DivStep(len, ChunkBytes(width, capacity));
  }

  /**
   * A streamer that accepts every offer, with no interrupt: the run completes after
   * `len / chunk + 1` sends whose samples are exactly the file's whole samples in
   * order; the partial sample at the end of the file is never sent; the last send is
   * the only one with end-of-burst; and it carries no samples exactly when the file
   * ends on a chunk boundary (up to a trailing partial sample).
   */
  lemma SendFromFileCompletes(bytes: seq<byte>, name: string, width: nat, capacity: nat,
                              accepted: seq<nat>, stop: seq<bool>)
    requires width > 0 && capacity > 0
    requires ConformingCounts(|bytes|, width, capacity) <= accepted
    requires NoStop(stop)
    ensures var r := SendFromFile(Some(bytes), name, width, capacity, accepted, stop);
            && r.outcome == Completed
            && |r.sends| == |bytes| / ChunkBytes(width, capacity) + 1
            && Payload(r.sends) == Decode(bytes, width)
            && Flatten(Payload(r.sends)) == bytes[..WholeBytes(|bytes|, width)]
            && (forall i :: 0 <= i < |r.sends| ==> (r.sends[i].md.endOfBurst <==> i == |r.sends| - 1))
            && (|r.sends[|r.sends| - 1].samples| == 0 <==> |bytes| % ChunkBytes(width, capacity) < width)
  {
    var cs := ConformingCounts(|bytes|, width, capacity);
    assert AcceptsFrom(accepted, 0, cs) by {
      assert accepted[0..|cs|] == accepted[..|cs|];
    }
    SendLoopCompletes(bytes, width, capacity, accepted, stop, 0);
    var r := SendLoop(bytes, width, capacity, accepted, stop, 0);
    assert SendFromFile(Some(bytes), name, width, capacity, accepted, stop) == r;
    ConformingRunShape(r, bytes, width, capacity);
  }

  /**
   * The shape of a run that completed with the conforming counts: its length, its
   * samples, its one end-of-burst send, and when the last send is empty.
   */
  lemma ConformingRunShape(r: TxRun, bytes: seq<byte>, width: nat, capacity: nat)
    requires width > 0 && capacity > 0
    requires CompletedAsConforming(r, bytes, width, capacity)
    requires forall i :: 0 <= i < |r.sends| - 1 ==> !r.sends[i].md.endOfBurst
    requires r.outcome.Completed? ==> |r.sends| > 0 && r.sends[|r.sends| - 1].md.endOfBurst
    ensures |r.sends| == |bytes| / ChunkBytes(width, capacity) + 1
    ensures Flatten(Payload(r.sends)) == bytes[..WholeBytes(|bytes|, width)]
    ensures forall i :: 0 <= i < |r.sends| ==> (r.sends[i].md.endOfBurst <==> i == |r.sends| - 1)
    ensures |r.sends[|r.sends| - 1].samples| == 0 <==> |bytes| % ChunkBytes(width, capacity) < width
  {
    var cs := ConformingCounts(|bytes|, width, capacity);
    FlattenDecode(bytes, width);
    var rem := |bytes| % ChunkBytes(width, capacity);
    assert |r.sends[|r.sends| - 1].samples| == cs[|cs| - 1] == rem / width;
    DivZero(rem, width);
  }

  /**
   * For a file of whole samples, a fully accepting streamer with no interrupt gets an
   * empty final end-of-burst send exactly when the file length is a multiple of the
   * chunk size.
   */
  lemma EmptyFinalSend(bytes: seq<byte>, name: string, width: nat, capacity: nat,
                       accepted: seq<nat>, stop: seq<bool>)
    requires width > 0 && capacity > 0
    requires ConformingCounts(|bytes|, width, capacity) <= accepted
    requires NoStop(stop)
    requires |bytes| % width == 0
    ensures var r := SendFromFile(Some(bytes), name, width, capacity, accepted, stop);
            && |r.sends| > 0
            && (|r.sends[|r.sends| - 1].samples| == 0 <==> |bytes| % ChunkBytes(width, capacity) == 0)
  {
    SendFromFileCompletes(bytes, name, width, capacity, accepted, stop);
    RemainderBelowWidth(|bytes|, width, capacity);
  }

  /**
   * When the length is a whole number of samples, so is its remainder modulo the
   * chunk size, which is therefore below one sample only when it is zero.
   */
  lemma RemainderBelowWidth(len: nat, width: nat, capacity: nat)
    requires width > 0 && capacity > 0
    requires len % width == 0
    ensures len % ChunkBytes(width, capacity) < width <==> len % ChunkBytes(width, capacity) == 0
  {
    var cb := ChunkBytes(width, capacity);
    var q, rem := len / cb, len % cb;
    var p := len / width;
    assert len == q * cb + rem;
    assert len == p * width;
    assert rem == (p - q * capacity) * width;
    DivUnique(rem, width, p - q * capacity, 0);
    if rem < width {
      DivUnique(rem, width, 0, rem);
    }
  }

  /**
   * The program as written never installs its interrupt handler, so the flag is never
   * set; then the loop never ends cancelled: it completes or it fails.
   */
  lemma NeverCancelled(rest: seq<byte>, width: nat, capacity: nat, accepted: seq<nat>,
                       stop: seq<bool>, k: nat)
    requires width > 0 && capacity > 0
    requires NoStop(stop)
    ensures var r := SendLoop(rest, width, capacity, accepted, stop, k);
            !r.outcome.Cancelled? && |r.sends| > 0
  {
  }
}
