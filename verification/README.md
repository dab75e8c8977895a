# rfnoc-apps streaming and configuration core, modelled in Dafny

This project models the logic inside the two RFNoC example applications.

The FIR-filter application (`rfnoc_fir_filter_samples_from_file.cpp`) works in
these steps:

- It parses the sample type (`double`, `float` or `short`).
- It loads and checks a file of 16-bit filter coefficients and applies them to the
  FIR filter block.
- It runs two workers. The TX worker (`send_from_file`) streams a sample file to the
  block in chunks. The RX worker (`recv_to_file`) writes what the block returns to
  an output file.

The signal-generator application (`rfnoc_siggen_example.cpp`) parses a waveform
name. It then configures the Radio, DUC and SigGen blocks in a fixed order, enables
the generator for a while and disables it.

Environments become inputs, so every operation is a pure function:

- A file is a byte sequence, or `None` when it fails to open.
- The TX streamer is the sequence of counts its `send` calls return. Past the end of
  that sequence the streamer is stalled and accepts 0 samples.
- The RX streamer is the sequence of transfers its `recv` calls return. Past the end,
  `recv` reports a timeout, which is what a `recv` that receives no data within its
  5-second wait does.
- The interrupt flag is the sequence of values the loop heads observe.
- The device graph is a set of booleans: whether each block or controller was found.

Files (one module each):

- `wrappers.dfy`: `Option` and `Result`.
- `records.dfy`: bytes, fixed-width sample records, and decoding a file into records.
- `sample_format.dfy`: the `--type` parse, the host format and the record width.
- `cancellation.dfy`: the interrupt flag.
- `tx_worker.dfy`: `send_from_file`.
- `rx_worker.dfy`: `recv_to_file`.
- `loopback.dfy`: the round trip from the TX worker through a pass-through pipeline to
  the RX worker.
- `coefficients.dfy`: coefficient file decoding, checks and the round trip.
- `fir_app.dfy`: the FIR application's main flow.
- `siggen.dfy`: the signal-generator run as a trace of setter calls.

Notes on the code as written:

- The code never sets `start_of_burst` on any TX send (lines 40-41).
- The final end-of-burst send carries no samples exactly when `len % chunk < width`.
  Here `len` is the file length in bytes, `chunk` is the chunk size in bytes and
  `width` is the sample size. For a file of whole samples this is `len % chunk == 0`
  (`TxWorker.EmptyFinalSend`). A file that ends with a partial sample right after a
  chunk boundary also gets an empty final send.
- The interrupt handler `sig_int_handler` (lines 29-32) is never installed: `main`
  (lines 123-252) makes no `std::signal` call. So `stop_signal_called` stays false,
  neither worker loop ever stops on Ctrl-C, and Ctrl-C ends the process instead. The
  comments at lines 51 and 83 say the loops stop on Ctrl-C. The model keeps the flag
  as an input so that the intended behaviour is stated. `TxWorker.NeverCancelled` and
  `RxWorker.NeverCancelled` state the behaviour as written: with the flag never set,
  neither loop ends cancelled.
- The RX worker never reports a failed open of the output file (lines 79-81). It only
  tests `is_open()` before each write (line 113), so received samples are dropped
  silently.
- The signal generator is disabled only on the normal path (line 143). No cleanup
  runs on error paths.

## Model

| member | source | states |
|---|---|---|
| Records.Decode | apps/rfnoc_fir_filter_samples_from_file.cpp:53-54 | a byte buffer holds `bytes / sizeof(sample)` whole samples, each exactly one sample wide |
| Records.FlattenDecode | apps/rfnoc_fir_filter_samples_from_file.cpp:53-54 | the decoded samples are exactly the buffer's bytes up to the last whole sample; only a trailing partial sample is lost |
| Records.DecodeFlatten | apps/rfnoc_fir_filter_samples_from_file.cpp:113-115 | samples written back to back with no framing decode to the same samples |
| Records.DecodeAppend | apps/rfnoc_fir_filter_samples_from_file.cpp:52-54 | reading a file in pieces that end on sample boundaries yields the same samples as reading it whole |
| SampleFormat.ParseSampleType | apps/rfnoc_fir_filter_samples_from_file.cpp:154-165 | exactly `double`, `float` and `short` are accepted, and each accepted name is the name of the type it selects |
| SampleFormat.ParseTypeName | apps/rfnoc_fir_filter_samples_from_file.cpp:156-161 | every sample type parses back from its own name |
| SampleFormat.SampleBytes | apps/rfnoc_fir_filter_samples_from_file.cpp:230-245 | a sample record is the two components of the worker's complex element with no padding, so it is 4, 8 or 16 bytes |
| SampleFormat.FormatTable | apps/rfnoc_fir_filter_samples_from_file.cpp:155-165 | `double`/`float`/`short` select `fc64`/`fc32`/`sc16`, complex double/float/int16 workers, and 16/8/4-byte records |
| SampleFormat.CpuFormatInjective | apps/rfnoc_fir_filter_samples_from_file.cpp:155-165 | different sample types select different host formats |
| TxWorker.Read | apps/rfnoc_fir_filter_samples_from_file.cpp:53-56 | a read returns a prefix of the unread bytes; eof is set exactly when the read comes up short, and a read that drains the stream exactly leaves eof clear |
| TxWorker.SendLoop | apps/rfnoc_fir_filter_samples_from_file.cpp:52-64 | for every streamer and interrupt pattern: no send exceeds the capacity; a send without end-of-burst is a full chunk; only the last send can carry end-of-burst; start-of-burst is never set; the interrupt is seen only at loop heads; a short accepted count ends the loop with the timeout error after that send; a completed run ends on a fully accepted end-of-burst send |
| TxWorker.SendFromFile | apps/rfnoc_fir_filter_samples_from_file.cpp:43-49 | an input file that fails to open ends the worker with the open error before any send, and this is the only way to get that error |
| TxWorker.SendLoopPayloadPrefix | apps/rfnoc_fir_filter_samples_from_file.cpp:53-58 | however the run ends, the samples sent so far are the file's leading whole samples, in file order |
| TxWorker.SendLoopCompletes | apps/rfnoc_fir_filter_samples_from_file.cpp:52-64 | when the streamer accepts every offer and no interrupt is seen, the run completes, one send per conforming count, and sends exactly the file's whole samples |
| TxWorker.SendFromFileCompletes | apps/rfnoc_fir_filter_samples_from_file.cpp:52-58 | for a fully accepting streamer and no interrupt: `len / chunk + 1` sends; the sent samples are all the file's whole samples; the trailing partial sample is never sent; end-of-burst is on the last send only; that send is empty exactly when `len % chunk < width` |
| TxWorker.EmptyFinalSend | apps/rfnoc_fir_filter_samples_from_file.cpp:52-58 | for a file of whole samples sent to a fully accepting streamer with no interrupt, the final end-of-burst send carries no samples exactly when the file length is a multiple of the chunk size |
| TxWorker.MessagesDistinct | apps/rfnoc_fir_filter_samples_from_file.cpp:45-60 | the open error and the send timeout are reported with different texts, and the open error's text names the file, so two open errors read alike only for the same file |
| TxWorker.NeverCancelled | apps/rfnoc_fir_filter_samples_from_file.cpp:51-52 | with the interrupt flag never set, as in the program where no handler is installed, the TX loop never ends cancelled: it completes or fails after at least one send |
| RxWorker.Classify | apps/rfnoc_fir_filter_samples_from_file.cpp:88-111 | timeout wins over everything; overflow is a sequence error when `out_of_sequence` is set and the "impossible" overflow otherwise; every other code except none is a generic stream error; only no-error transfers pass |
| RxWorker.MessagesDistinct | apps/rfnoc_fir_filter_samples_from_file.cpp:88-111 | each RX error is reported with its own text |
| RxWorker.RecvLoop | apps/rfnoc_fir_filter_samples_from_file.cpp:84-117 | its run satisfies `RxWorker.RunConforms`: every call before the last, and every call of an interrupted run, returned an error-free transfer without end-of-burst; the run ends at the first interrupt, error or end-of-burst; a failed run's outcome is its last transfer's verdict; the received samples are those of the accepted transfers, never the failing one |
| RxWorker.RecvToFile | apps/rfnoc_fir_filter_samples_from_file.cpp:71-121 | a file is written only for a non-empty name that opened, and it holds the samples of the accepted transfers in order; an empty name discards everything |
| RxWorker.RecvEndsAtFirstEndOfBurst | apps/rfnoc_fir_filter_samples_from_file.cpp:84-117 | with error-free transfers up to the first end-of-burst and no interrupt, the run stops there and keeps every sample up to and including that transfer |
| RxWorker.NeverCancelled | apps/rfnoc_fir_filter_samples_from_file.cpp:83-84 | with the interrupt flag never set, as in the program where no handler is installed, the RX loop never ends cancelled: it ends at an end-of-burst or an error after at least one call |
| RxWorker.RecvStopsAtFirstError | apps/rfnoc_fir_filter_samples_from_file.cpp:88-111 | at the first erroneous transfer the run fails with that transfer's verdict and keeps only the samples of earlier transfers |
| Loopback.RoundTrip | apps/rfnoc_fir_filter_samples_from_file.cpp:34-121 | through a pass-through pipeline, with the host-to-`sc16` wire conversion taken as the identity (exact for `short`), the output file holds the input's whole samples byte for byte, and all of the input when its length is a multiple of the sample size |
| Coefficients.EncodeDecodeInt16 | apps/rfnoc_fir_filter_samples_from_file.cpp:223-224 | a coefficient survives being stored as two bytes and read back |
| Coefficients.DecodeEncodeInt16 | apps/rfnoc_fir_filter_samples_from_file.cpp:223-224 | any two bytes read as a coefficient are that coefficient's stored form |
| Coefficients.DecodeCoefficients | apps/rfnoc_fir_filter_samples_from_file.cpp:223-224 | a file holds one coefficient per whole byte pair, in file order; an odd trailing byte is ignored |
| Coefficients.DecodeEncodeCoefficients | apps/rfnoc_fir_filter_samples_from_file.cpp:223-224 | a coefficient file written from a set reads back as that set |
| Coefficients.LoadCoefficients | apps/rfnoc_fir_filter_samples_from_file.cpp:194-226 | the count is `bytes / 2`; an unopened file, a count of 0 and a count above the maximum fail in that order, the last reporting both counts; otherwise exactly that many values are applied, in file order |
| Coefficients.LoadRoundTrip | apps/rfnoc_fir_filter_samples_from_file.cpp:204-225 | any set of 1 to `max` coefficients written to a file loads back as exactly that set |
| Coefficients.LoadBoundaries | apps/rfnoc_fir_filter_samples_from_file.cpp:207-221 | exactly `max` coefficients are accepted; `max + 1` fail reporting `max + 1` and `max`; a file with fewer than two bytes is empty |
| FirApp.FirMain | apps/rfnoc_fir_filter_samples_from_file.cpp:144-251 | an unknown type fails before the graph is created; a missing block or a rejected coefficient file fails before any coefficients are applied; success applies the coefficients exactly once, strictly before the workers start with the parsed type, its host format and its record width |
| FirApp.SessionSetup | apps/rfnoc_fir_filter_samples_from_file.cpp:194-245 | a valid run applies the file's decoded coefficients and starts workers of the parsed type, whose records are two of that type's components wide and whose host format belongs to no other type |
| Siggen.ParseWaveform | apps/rfnoc_siggen_example.cpp:69-80 | exactly `noise`, `constant` and `sine` are accepted, and each selects the waveform of that name |
| Siggen.ParseWaveformName | apps/rfnoc_siggen_example.cpp:71-77 | every waveform parses back from its own name |
| Siggen.SiggenMain | apps/rfnoc_siggen_example.cpp:61-113 | an unknown waveform returns -1 before the graph is created; a missing Radio, DUC or SigGen controller returns failure after creating the graph only |
| Siggen.FailedRunHasNoSetters | apps/rfnoc_siggen_example.cpp:85-113 | a run that does not succeed makes no setter call |
| Siggen.ConfigurationOrder | apps/rfnoc_siggen_example.cpp:120-129 | after the graph: TX frequency, TX gain, DUC output rate 200 MHz, DUC input rate, all on the configured channel, then the waveform on port 0, in that order |
| Siggen.EnableBracketsRun | apps/rfnoc_siggen_example.cpp:136-143 | enable and disable each occur exactly once; enable follows every configuration call, then the hold for the duration, and disable is the last call |
| Siggen.WaveformExtras | apps/rfnoc_siggen_example.cpp:128-137 | amplitude 0.99 is set only for constant, the 1 kHz tone only for sine, neither for noise; the extra call sits between the waveform and the enable |

## Left out

- Threads: the model does not cover creating or joining the two worker threads, or
  their parallel interleaving. Each worker is modelled on its own.
- Worker failures: an exception thrown inside a worker escapes its `std::thread` and
  calls `std::terminate`. `FirApp.FirMain` therefore stops at starting the workers. Its
  `status` is the value `main` returns when neither worker throws. It is not the exit
  status of a process that a worker terminates.
- The interrupt flag: the program never installs its handler, so the flag never changes
  (see the notes above). The model keeps the flag as an input: the sequence of values
  the loop heads would observe if the handler were installed. The unsynchronised write
  to a non-atomic `bool` from a signal handler is concurrency and is not modelled.
- Loopback.RoundTrip: both streamers use the `sc16` wire format (line 184). The model
  takes the conversion from host to wire samples and back as the identity. That is exact
  only for `short`; for `float` and `double` every sample is rounded to 16-bit integers,
  so the output file only approximates the input. Rounding floating point is not
  modelled.
- RxWorker.RecvToFile: the modelled output file is the sequence of `write` calls the
  worker makes, not what reaches the disk. On a failed run the exception escapes the
  thread and calls `std::terminate`, so the `ofstream` is never flushed or closed.
- I/O: the model does not cover real file and stream I/O (`ifstream`, `ofstream`,
  `tx_streamer::send`, `rx_streamer::recv`). They are inputs, as described above.
- Buffer size: the RX buffer size (`get_max_num_samps`) is not modelled. Each transfer
  carries exactly the `num_rx_samps` samples that are written, because nothing beyond
  them is ever written.
- The UHD graph: the model does not cover `rfnoc_graph::make`, `find_blocks`,
  `get_block`, streamer creation, `connect` or `commit`. Only the lookups
  (`find_blocks`, `get_block`) have their outcome modelled, as a boolean.
  `rfnoc_graph::make`, streamer creation, `connect` and `commit` are taken to succeed;
  an exception thrown by any of them is not modelled.
- Option parsing: `boost::program_options` parsing and the option defaults are library
  behaviour. Options are parameters, and `--help` is a boolean.
- Waiting: the `sleep_for` wait is a `Hold(duration)` event only.
- Floating point: rate, frequency, gain, 0.99 and 1e3 are opaque `real` values.
  Conversions such as storing `rate` in a `float` are not modelled.
- Error text: `md.strerror()` text belongs to the library. `RxWorker.CodeName` stands
  in for it in the generic RX error message.
- Byte order: the host byte order is taken to be little-endian when coefficients are
  decoded. The source reads native `int16_t`.
- `tellg` failure: a failing `tellg` returns -1 on a coefficient file that opened. This
  is not modelled; the count is the file length divided by 2.
- TxWorker.SendLoop: requires `capacity > 0` and `width > 0`. A zero capacity makes
  `&buff.front()` undefined behaviour, and every sample type has a non-zero size.
- RxWorker.RecvLoop: requires the starting call index `k <= |ts|`. Every call from the
  worker starts at 0, and each recursive step keeps the index within bounds.
- The Python scripts: `gen_filter_coeffs.py`, `gen_chirp.py`, `gen_sine_wave.py`,
  `gen_window_coeffs.py` and `plot_samps.py` only generate or plot signals with numpy
  and matplotlib.
- Siggen.SiggenMain: a setter that throws after enable leaves the generator running,
  because the source has no cleanup. Setter failures are not modelled, so there is no
  error path after enable.
