/**
 * The main flow of the FIR-filter application, as the sequence of externally
 * visible steps it takes: parse the sample type, create the graph and find the
 * filter block, load and apply the coefficients, then start the two streaming
 * workers with the element type the sample type selects.
 */
module FirApp {
  import opened Wrappers
  import opened SampleFormat
  import opened Coefficients
  import opened Records

  const ExitSuccess: int := 0
  const ExitFailure: int := 1

  /** The steps of the main flow that touch the device or the filter block. */
  datatype Step =
    | GraphCreated
    | CoefficientsSet(coeffs: seq<Int16>)
    | WorkersStarted(sampleType: SampleType, format: string, recordBytes: nat)

  /**
   * The value `main` returns and the steps taken before returning. When the workers are
   * started, `status` is what `main` returns once both join; a worker that throws
   * terminates the process instead, which this value does not describe.
   */
  datatype FirExit = FirExit(status: int, steps: seq<Step>)

  /**
   * The application's main flow. `help` is whether `--help` was given; `filterFound`
   * whether the graph holds a FIR filter block; `controllerMade` whether its block
   * controller could be instantiated; `maxCoeffs` the block's maximum coefficient
   * count; `coeffFile` the coefficient file's contents (none if it fails to open).
   * An unknown type name fails before the graph is created; a missing block or a
   * rejected coefficient file fails before any coefficients are applied; otherwise
   * the coefficients are applied exactly once, strictly before both workers start
   * with the element type the name selects.
   */
  function FirMain(help: bool, typeName: string, filterFound: bool, controllerMade: bool,
                   maxCoeffs: nat, coeffName: string, coeffFile: Option<seq<byte>>): (r: FirExit)
    ensures help ==> r == FirExit(ExitSuccess, [])
    ensures !help && ParseSampleType(typeName).None? ==> r == FirExit(ExitFailure, [])
    ensures r.status == ExitSuccess || r.status == ExitFailure
    ensures r.status == ExitSuccess && !help <==> |r.steps| == 3
    ensures |r.steps| == 3 ==>
              && ParseSampleType(typeName).Some?
              && filterFound && controllerMade
              && LoadCoefficients(coeffFile, coeffName, maxCoeffs).Success?
              && r.steps == [GraphCreated,
                             CoefficientsSet(LoadCoefficients(coeffFile, coeffName, maxCoeffs).value),
                             WorkersStarted(ParseSampleType(typeName).value,
                                            CpuFormat(ParseSampleType(typeName).value),
                                            SampleBytes(ParseSampleType(typeName).value))]
    ensures r.steps != [] && |r.steps| != 3 ==> r == FirExit(ExitFailure, [GraphCreated])
  {
    if help then FirExit(ExitSuccess, [])
    else
      match ParseSampleType(typeName)
      case None => FirExit(ExitFailure, [])
      case Some(t) =>
        if !filterFound || !controllerMade then FirExit(ExitFailure, [GraphCreated])
        else
          match LoadCoefficients(coeffFile, coeffName, maxCoeffs)
          case Failure(_) => FirExit(ExitFailure, [GraphCreated])
          case Success(coeffs) =>
            FirExit(ExitSuccess, [GraphCreated, CoefficientsSet(coeffs),
                                  WorkersStarted(t, CpuFormat(t), SampleBytes(t))])
  }

  /**
   * The workers started by a successful run stream records whose width is that of
   * the selected type's complex element, in the host format that identifies the type,
   * and the coefficients applied are the file's values read in file order.
   */
  lemma SessionSetup(typeName: string, maxCoeffs: nat, coeffName: string, bytes: seq<byte>)
    requires ParseSampleType(typeName).Some?
    requires 1 <= |bytes| / 2 <= maxCoeffs
    ensures var r := FirMain(false, typeName, true, true, maxCoeffs, coeffName, Some(bytes));
            var t := ParseSampleType(typeName).value;
            && r.status == ExitSuccess
            && r.steps[1].CoefficientsSet?
            && |r.steps[1].coeffs| == |bytes| / 2
            && r.steps[1].coeffs == DecodeCoefficients(bytes)
            && r.steps[2].WorkersStarted?
            && r.steps[2].sampleType == t
            && r.steps[2].recordBytes == 2 * ComponentBytes(WorkerElement(t))
            && (forall u :: r.steps[2].format == CpuFormat(u) ==> u == t)
  {
    forall u | FirMain(false, typeName, true, true, maxCoeffs, coeffName, Some(bytes)).steps[2].format == CpuFormat(u)
      ensures u == ParseSampleType(typeName).value
    {
      CpuFormatInjective(u, ParseSampleType(typeName).value);
    }
  }
}
