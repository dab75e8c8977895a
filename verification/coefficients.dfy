/**
 * Loading the FIR filter's coefficients: the coefficient file is a raw sequence of
 * 16-bit signed integers in the host's byte order (modelled as little-endian), with
 * no header. Its length fixes the count, which must be at least one and at most the
 * maximum the filter block reports; the whole set is then applied in one call.
 */
module Coefficients {
  import opened Wrappers
  import opened Records

  /** A 16-bit signed coefficient. */
  type Int16 = x: int | -32768 <= x < 32768

  /** The coefficient stored in two consecutive bytes, low byte first, two's complement. */
  function DecodeInt16(lo: byte, hi: byte): Int16
  {
    var u := lo as int + 256 * hi as int;
    if u >= 32768 then u - 65536 else u
  }

  /** The two bytes that store a coefficient, low byte first. */
  function EncodeInt16(v: Int16): (bs: seq<byte>)
    ensures |bs| == 2
  {
    var u := if v < 0 then v + 65536 else v;
    [(u % 256) as byte, (u / 256) as byte]
  }

  lemma EncodeDecodeInt16(v: Int16)
    ensures DecodeInt16(EncodeInt16(v)[0], EncodeInt16(v)[1]) == v
  {
  }

  lemma DecodeEncodeInt16(lo: byte, hi: byte)
    ensures EncodeInt16(DecodeInt16(lo, hi)) == [lo, hi]
  {
  }

  /**
   * The coefficients a file's bytes hold: one per whole pair of bytes, in file order;
   * an odd trailing byte is ignored.
   */
  function DecodeCoefficients(bytes: seq<byte>): (cs: seq<Int16>)
    ensures |cs| == |bytes| / 2
    ensures forall i :: 0 <= i < |cs| ==> cs[i] == DecodeInt16(bytes[2 * i], bytes[2 * i + 1])
    decreases |bytes|
  {
    if |bytes| < 2 then [] else [DecodeInt16(bytes[0], bytes[1])] + DecodeCoefficients(bytes[2..])
  }

  /** The coefficient file that holds `cs`. */
  function EncodeCoefficients(cs: seq<Int16>): (bytes: seq<byte>)
    ensures |bytes| == 2 * |cs|
  {
    if |cs| == 0 then [] else EncodeInt16(cs[0]) + EncodeCoefficients(cs[1..])
  }

  /** Decoding a file written from a coefficient set gives that set back. */
  lemma {:induction false} DecodeEncodeCoefficients(cs: seq<Int16>)
    ensures DecodeCoefficients(EncodeCoefficients(cs)) == cs
    decreases |cs|
  {
    if |cs| > 0 {
      var bytes := EncodeCoefficients(cs);
      EncodeDecodeInt16(cs[0]);
      assert bytes[2..] == EncodeCoefficients(cs[1..]);
      DecodeEncodeCoefficients(cs[1..]);
    }
  }

  /** Why loading stops the application. */
  datatype CoeffError =
    | OpenFailed(file: string)
    | Empty(file: string)
    | TooMany(provided: nat, maximum: nat)

  /**
   * Loads and checks the coefficients of the file named `name`, whose contents are
   * `file` (none if it failed to open), against the block's maximum `maxCount`.
   * A file that opens yields exactly the values `set_coefficients` receives, or the
   * first failed check: empty (fewer than two bytes) before too many, the latter
   * carrying both the supplied and the maximum count.
   */
  function LoadCoefficients(file: Option<seq<byte>>, name: string, maxCount: nat): (r: Result<seq<Int16>, CoeffError>)
    ensures file.None? <==> r == Failure(OpenFailed(name))
    ensures file.Some? ==> (r.Success? <==> 1 <= |file.value| / 2 <= maxCount)
    ensures file.Some? && |file.value| / 2 == 0 ==> r == Failure(Empty(name))
    ensures file.Some? && |file.value| / 2 > maxCount ==> r == Failure(TooMany(|file.value| / 2, maxCount))
    ensures r.Success? ==> 1 <= |r.value| <= maxCount && |r.value| == |file.value| / 2
    ensures r.Success? ==> forall i :: 0 <= i < |r.value| ==>
              r.value[i] == DecodeInt16(file.value[2 * i], file.value[2 * i + 1])
  {
    match file
    case None => Failure(OpenFailed(name))
    case Some(bytes) =>
      var count := |bytes| / 2;
      if count == 0 then Failure(Empty(name))
      else if count > maxCount then Failure(TooMany(count, maxCount))
      else Success(DecodeCoefficients(bytes[..2 * count]))
  }

  /** A file written from any admissible coefficient set loads as exactly that set. */
  lemma LoadRoundTrip(cs: seq<Int16>, name: string, maxCount: nat)
    requires 1 <= |cs| <= maxCount
    ensures LoadCoefficients(Some(EncodeCoefficients(cs)), name, maxCount) == Success(cs)
  {
    var bytes := EncodeCoefficients(cs);
    DivExact(|cs|, 2);
    assert |bytes| == |cs| * 2;
    LoadWholeFile(bytes, name, maxCount);
    DecodeEncodeCoefficients(cs);
  }

  /** A file of whole coefficients within the limit loads as all of its coefficients. */
  lemma LoadWholeFile(bytes: seq<byte>, name: string, maxCount: nat)
    requires |bytes| % 2 == 0 && 1 <= |bytes| / 2 <= maxCount
    ensures LoadCoefficients(Some(bytes), name, maxCount) == Success(DecodeCoefficients(bytes))
  {
    assert 2 * (|bytes| / 2) == |bytes|;
    assert bytes[..2 * (|bytes| / 2)] == bytes;
  }

  /**
   * The boundaries: a file of exactly `maxCount` coefficients is accepted, one of
   * `maxCount + 1` is rejected reporting both counts, and a file with no whole
   * coefficient is rejected as empty.
   */
  lemma LoadBoundaries(cs: seq<Int16>, name: string, maxCount: nat, short: seq<byte>)
    requires |short| < 2
    ensures |cs| == maxCount && maxCount > 0 ==>
              LoadCoefficients(Some(EncodeCoefficients(cs)), name, maxCount) == Success(cs)
    ensures |cs| == maxCount + 1 ==>
              LoadCoefficients(Some(EncodeCoefficients(cs)), name, maxCount)
                == Failure(TooMany(maxCount + 1, maxCount))
    ensures LoadCoefficients(Some(short), name, maxCount) == Failure(Empty(name))
  {
    if |cs| == maxCount && maxCount > 0 {
      LoadRoundTrip(cs, name, maxCount);
    }
  }
}
