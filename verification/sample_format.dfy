/**
 * The sample types the FIR-filter application accepts on its command line, the
 * host ("CPU") format each one selects for the streamers, and the width of one
 * sample record in the input and output files.
 */
module SampleFormat {
  import opened Wrappers

  /** The `--type` choices: a complex pair of doubles, of floats, or of 16-bit integers. */
  datatype SampleType = Double | Float | Short

  /** The command-line spelling of each sample type. */
  function TypeName(t: SampleType): string
  {
    match t
    case Double => "double"
    case Float => "float"
    case Short => "short"
  }

  /**
   * Parses the `--type` option. Exactly the three spellings above are accepted; any
   * other name is rejected, which ends the program before the graph or any file is
   * opened.
   */
  function ParseSampleType(name: string): (r: Option<SampleType>)
    ensures r.Some? <==> name in {"double", "float", "short"}
    ensures r.Some? ==> TypeName(r.value) == name
  {
    if name == "double" then Some(Double)
    else if name == "float" then Some(Float)
    else if name == "short" then Some(Short)
    else None
  }

  /** The host sample format handed to the TX and RX streamers. */
  function CpuFormat(t: SampleType): string
  {
    match t
    case Double => "fc64"
    case Float => "fc32"
    case Short => "sc16"
  }

  /** The scalar type of the real and imaginary parts of a worker's complex element. */
  datatype Component = Float64 | Float32 | Int16Bits

  /** The component type of the complex element the worker threads are instantiated with. */
  function WorkerElement(t: SampleType): Component
  {
    match t
    case Double => Float64
    case Float => Float32
    case Short => Int16Bits
  }

  /** Bytes in one scalar component. */
  function ComponentBytes(c: Component): nat
  {
    match c
    case Float64 => 8
    case Float32 => 4
    case Int16Bits => 2
  }

  /**
   * Bytes in one sample record: `sizeof(samp_type)` of the worker's complex element,
   * two components with no padding.
   */
  function SampleBytes(t: SampleType): (w: nat)
    ensures w == 2 * ComponentBytes(WorkerElement(t))
    ensures w in {4, 8, 16}
  {
    match t
    case Double => 16
    case Float => 8
    case Short => 4
  }

  /** Parsing is a left inverse of printing: every type round-trips through its name. */
  lemma ParseTypeName(t: SampleType)
    ensures ParseSampleType(TypeName(t)) == Some(t)
  {
  }

  /**
   * The host format a name selects, and the record width, are those of the matching
   * element type: `double` is `fc64` with `std::complex<double>` workers in 16-byte
   * records, `float` is `fc32` with `std::complex<float>` in 8-byte records, `short` is
   * `sc16` with `std::complex<int16_t>` in 4-byte records.
   */
  lemma FormatTable(name: string)
    ensures name == "double" ==>
              (ParseSampleType(name) == Some(Double) && CpuFormat(Double) == "fc64"
               && SampleBytes(Double) == 16 && WorkerElement(Double) == Float64)
    ensures name == "float" ==>
              (ParseSampleType(name) == Some(Float) && CpuFormat(Float) == "fc32"
               && SampleBytes(Float) == 8 && WorkerElement(Float) == Float32)
    ensures name == "short" ==>
              (ParseSampleType(name) == Some(Short) && CpuFormat(Short) == "sc16"
               && SampleBytes(Short) == 4 && WorkerElement(Short) == Int16Bits)
  {
  }

  /** Distinct sample types select distinct host formats, so the format identifies the type. */
  lemma CpuFormatInjective(a: SampleType, b: SampleType)
    ensures CpuFormat(a) == CpuFormat(b) ==> a == b
  {
  }
}
