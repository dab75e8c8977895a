/**
 * The signal-generator example application: it parses the waveform name, finds the
 * Radio, DUC and SigGen block controllers, configures them from the radio back to
 * the generator (downstream first), enables the generator for the requested duration
 * and disables it again. The run is modelled as the trace of setter calls it makes;
 * rates, frequencies, gains and amplitudes are carried as opaque real values.
 */
module Siggen {
  import opened Wrappers

  const ExitSuccess: int := 0
  const ExitFailure: int := 1
  /** What the application returns for an unknown waveform name. */
  const ExitBadWaveform: int := -1

  /** The DUC's fixed output rate, 200 MHz. */
  const DucOutputRate: real := 200000000.0
  /** The amplitude set for the constant waveform. */
  const ConstantAmplitude: real := 0.99
  /** The tone frequency set for the sine waveform, 1 kHz. */
  const SineFrequency: real := 1000.0

  datatype Waveform = Noise | Constant | SineWave

  /** The `--waveform` spelling of each waveform. */
  function WaveformName(w: Waveform): string
  {
    match w
    case Noise => "noise"
    case Constant => "constant"
    case SineWave => "sine"
  }

  /** Parses `--waveform`: exactly `noise`, `constant` and `sine` are accepted. */
  function ParseWaveform(name: string): (r: Option<Waveform>)
    ensures r.Some? <==> name in {"noise", "constant", "sine"}
    ensures r.Some? ==> WaveformName(r.value) == name
  {
    if name == "noise" then Some(Noise)
    else if name == "constant" then Some(Constant)
    else if name == "sine" then Some(SineWave)
    else None
  }

  /** The command-line options the run uses. */
  datatype Options = Options(rate: real, duration: nat, freq: real, gain: real,
                             radioChan: nat, waveform: string)

  /** The calls the run makes on the graph and the block controllers, and the wait. */
  datatype Event =
    | GraphCreated
    | SetTxFrequency(freq: real, chan: nat)
    | SetTxGain(gain: real, chan: nat)
    | SetOutputRate(rate: real, chan: nat)
    | SetInputRate(rate: real, chan: nat)
    | SetWaveform(waveform: Waveform, port: nat)
    | SetAmplitude(amplitude: real, port: nat)
    | SetSineFrequency(freq: real, rate: real, port: nat)
    | SetEnable(enable: bool, port: nat)
    | Hold(seconds: nat)

  /** Calls that configure a block, as opposed to enabling or disabling the generator. */
  predicate IsConfiguration(e: Event)
  {
    e.SetTxFrequency? || e.SetTxGain? || e.SetOutputRate? || e.SetInputRate?
    || e.SetWaveform? || e.SetAmplitude? || e.SetSineFrequency?
  }

  /** Calls on a block controller. */
  predicate IsSetter(e: Event)
  {
    IsConfiguration(e) || e.SetEnable?
  }

  datatype SiggenExit = SiggenExit(status: int, events: seq<Event>)

  /** The generator's extra setting for a waveform, if it needs one. */
  function WaveformSettings(w: Waveform, rate: real): seq<Event>
  {
    match w
    case Noise => []
    case Constant => [SetAmplitude(ConstantAmplitude, 0)]
    case SineWave => [SetSineFrequency(SineFrequency, rate, 0)]
  }

  /**
   * The run. `radioFound`, `ducFound` and `siggenFound` say whether each block
   * controller was found in the graph; they are looked up in that order and the
   * first missing one ends the run. An unknown waveform ends it before the graph is
   * created.
   */
  function SiggenMain(help: bool, opts: Options, radioFound: bool, ducFound: bool, siggenFound: bool): (r: SiggenExit)
    ensures help ==> r == SiggenExit(ExitSuccess, [])
    ensures !help && ParseWaveform(opts.waveform).None? ==> r == SiggenExit(ExitBadWaveform, [])
    ensures !help && ParseWaveform(opts.waveform).Some? && !(radioFound && ducFound && siggenFound) ==>
              r == SiggenExit(ExitFailure, [GraphCreated])
    ensures r.status == ExitSuccess && !help ==> r.events != [] && r.events[0] == GraphCreated
  {
    if help then SiggenExit(ExitSuccess, [])
    else
      match ParseWaveform(opts.waveform)
      case None => SiggenExit(ExitBadWaveform, [])
      case Some(wf) =>
        if !radioFound || !ducFound || !siggenFound then SiggenExit(ExitFailure, [GraphCreated])
        else
          var chan := opts.radioChan;
          SiggenExit(ExitSuccess,
                     [GraphCreated,
                      SetTxFrequency(opts.freq, chan), SetTxGain(opts.gain, chan),
                      SetOutputRate(DucOutputRate, chan), SetInputRate(opts.rate, chan),
                      SetWaveform(wf, 0)]
                     + WaveformSettings(wf, opts.rate)
                     + [SetEnable(true, 0), Hold(opts.duration), SetEnable(false, 0)])
  }

  /** How many times `e` occurs in `es`. */
  function Occurrences(es: seq<Event>, e: Event): nat
  {
    if |es| == 0 then 0 else (if es[0] == e then 1 else 0) + Occurrences(es[1..], e)
  }

  /** Parsing is a left inverse of printing. */
  lemma ParseWaveformName(w: Waveform)
    ensures ParseWaveform(WaveformName(w)) == Some(w)
  {
  }

  /** A run that fails emits no setter call at all. */
  lemma FailedRunHasNoSetters(help: bool, opts: Options, radioFound: bool, ducFound: bool, siggenFound: bool)
    ensures var r := SiggenMain(help, opts, radioFound, ducFound, siggenFound);
            r.status != ExitSuccess ==> forall i :: 0 <= i < |r.events| ==> !IsSetter(r.events[i])
  {
  }

  /**
   * The order of a successful run: the radio's frequency and gain, the DUC's output
   * rate (200 MHz) and input rate, then the waveform, all on the configured channel
   * (the generator on port 0).
   */
  lemma ConfigurationOrder(opts: Options)
    requires ParseWaveform(opts.waveform).Some?
    ensures var r := SiggenMain(false, opts, true, true, true);
            var c := opts.radioChan;
            && r.status == ExitSuccess
            && |r.events| >= 9
            && r.events[..6] == [GraphCreated, SetTxFrequency(opts.freq, c), SetTxGain(opts.gain, c),
                                 SetOutputRate(DucOutputRate, c), SetInputRate(opts.rate, c),
                                 SetWaveform(ParseWaveform(opts.waveform).value, 0)]
  {
  }

  lemma {:induction false} OccurrencesAppend(a: seq<Event>, b: seq<Event>, e: Event)
    ensures Occurrences(a + b, e) == Occurrences(a, e) + Occurrences(b, e)
    decreases |a|
  {
    if |a| == 0 {
      assert a + b == b;
    } else {
      assert (a + b)[1..] == a[1..] + b;
      OccurrencesAppend(a[1..], b, e);
    }
  }

  lemma {:induction false} OccurrencesAbsent(es: seq<Event>, e: Event)
    requires forall i :: 0 <= i < |es| ==> es[i] != e
    ensures Occurrences(es, e) == 0
    decreases |es|
  {
    if |es| > 0 {
      OccurrencesAbsent(es[1..], e);
    }
  }

  /**
   * In a successful run the generator is enabled exactly once, after every
   * configuration call, held for the requested duration, and disabled exactly once,
   * as the very last call.
   */
  lemma EnableBracketsRun(opts: Options)
    requires ParseWaveform(opts.waveform).Some?
    ensures var es := SiggenMain(false, opts, true, true, true).events;
            && |es| >= 9
            && Occurrences(es, SetEnable(true, 0)) == 1
            && Occurrences(es, SetEnable(false, 0)) == 1
            && es[|es| - 3] == SetEnable(true, 0)
            && es[|es| - 2] == Hold(opts.duration)
            && es[|es| - 1] == SetEnable(false, 0)
            && (forall i :: 0 <= i < |es| && IsConfiguration(es[i]) ==> i < |es| - 3)
  {
    var wf := ParseWaveform(opts.waveform).value;
    var c := opts.radioChan;
    var config := [GraphCreated, SetTxFrequency(opts.freq, c), SetTxGain(opts.gain, c),
                   SetOutputRate(DucOutputRate, c), SetInputRate(opts.rate, c),
                   SetWaveform(wf, 0)] + WaveformSettings(wf, opts.rate);
    var tail := [SetEnable(true, 0), Hold(opts.duration), SetEnable(false, 0)];
    var es := SiggenMain(false, opts, true, true, true).events;
    assert es == config + tail;
    OccurrencesAppend(config, tail, SetEnable(true, 0));
    OccurrencesAppend(config, tail, SetEnable(false, 0));
    OccurrencesAbsent(config, SetEnable(true, 0));
    OccurrencesAbsent(config, SetEnable(false, 0));
    var last := [SetEnable(false, 0)];
    assert tail[1..] == [Hold(opts.duration)] + last && tail[1..][1..] == last && last[1..] == [];
    assert Occurrences(last, SetEnable(true, 0)) == 0 && Occurrences(last, SetEnable(false, 0)) == 1;
    assert Occurrences(tail[1..], SetEnable(true, 0)) == 0;
    assert Occurrences(tail[1..], SetEnable(false, 0)) == 1;
  }

  /**
   * The waveform decides the extra generator call: the amplitude (0.99) is set only
   * for the constant waveform, the 1 kHz tone only for the sine waveform, and noise
   * sets neither; each extra call comes after the waveform and before the enable.
   */
  lemma WaveformExtras(opts: Options)
    requires ParseWaveform(opts.waveform).Some?
    ensures var wf := ParseWaveform(opts.waveform).value;
            var es := SiggenMain(false, opts, true, true, true).events;
            && ((exists i :: 0 <= i < |es| && es[i].SetAmplitude?) <==> wf == Constant)
            && ((exists i :: 0 <= i < |es| && es[i].SetSineFrequency?) <==> wf == SineWave)
            && (wf == Constant ==> es[6] == SetAmplitude(ConstantAmplitude, 0) && es[7] == SetEnable(true, 0))
            && (wf == SineWave ==> es[6] == SetSineFrequency(SineFrequency, opts.rate, 0)
                                   && es[7] == SetEnable(true, 0))
            && (wf == Noise ==> es[6] == SetEnable(true, 0))
  {
    var wf := ParseWaveform(opts.waveform).value;
    var es := SiggenMain(false, opts, true, true, true).events;
    if wf == Constant {
      assert es[6].SetAmplitude?;
    } else if wf == SineWave {
      assert es[6].SetSineFrequency?;
    }
  }
}
