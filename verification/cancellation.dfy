/**
 * The interrupt flag both workers read at the head of every loop iteration. It is
 * modelled as the sequence of values the loop heads observe, one per iteration;
 * past the end of the sequence the flag reads false.
 *
 * Only the Ctrl-C handler sets the flag, and the application never installs that
 * handler, so as written every loop head reads false (`NoStop`). The flag stays an
 * input so that the behaviour the loops are written for, stopping at the first loop
 * head after an interrupt, is stated too.
 */
module Cancellation {

  /** Whether the loop head of iteration `k` sees the flag set. */
  predicate StopSeen(stop: seq<bool>, k: nat)
  {
    k < |stop| && stop[k]
  }

  /** The flag is never seen set, as in the application as written. */
  predicate NoStop(stop: seq<bool>)
  {
    forall i :: 0 <= i < |stop| ==> !stop[i]
  }

  /** The flag is not seen set by the first `n` loop heads. */
  predicate NoStopBefore(stop: seq<bool>, n: nat)
  {
    forall j :: 0 <= j < n ==> !StopSeen(stop, j)
  }
}
