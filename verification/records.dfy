/**
 * Sample files as the two example applications see them: a raw sequence of bytes
 * holding fixed-width sample records (an interleaved real/imaginary pair in the
 * host's native layout), with no header and no framing.
 */
module Records {

  newtype byte = x: int | 0 <= x < 256

  /** One sample as stored in a file: `width` consecutive bytes. */
  type Record = seq<byte>

  /**
   * Splits `bytes` into whole records of `width` bytes each. Trailing bytes that do
   * not make up a full record are dropped, as a truncating division of a byte count
   * by the sample size drops them.
   */
  function Decode(bytes: seq<byte>, width: nat): (rs: seq<Record>)
    requires width > 0
    ensures |rs| == |bytes| / width
    ensures forall i :: 0 <= i < |rs| ==> |rs[i]| == width
    decreases |bytes|
  {
    if |bytes| < width then []
    else
      DivStep(|bytes|, width);
      [bytes[..width]] + Decode(bytes[width..], width)
  }

  /** The number of leading bytes of an `n`-byte file that make up whole records. */
  function WholeBytes(n: nat, width: nat): (m: nat)
    requires width > 0
    ensures m <= n && n - m < width
  {
    (n / width) * width
  }

  /** A length that is a whole number of records is all whole records. */
  lemma WholeBytesExact(n: nat, width: nat)
    requires width > 0 && n % width == 0
    ensures WholeBytes(n, width) == n
  {
    assert n == (n / width) * width + n % width;
  }

  /** The bytes of a sequence of records, written back to back. */
  function Flatten(rs: seq<Record>): seq<byte>
  {
    if |rs| == 0 then [] else rs[0] + Flatten(rs[1..])
  }

  /** Every record of `rs` is exactly `width` bytes long. */
  predicate Uniform(rs: seq<Record>, width: nat)
  {
    forall i :: 0 <= i < |rs| ==> |rs[i]| == width
  }

  /** Euclidean division is determined by any quotient/remainder pair. */
  lemma DivUnique(n: int, w: int, q: int, r: int)
    requires w > 0 && 0 <= r < w && n == q * w + r
    ensures n / w == q && n % w == r
  {
    var q', r' := n / w, n % w;
    assert n == q' * w + r';
    var d := q - q';
    assert d * w == r' - r by {
      assert d * w == q * w - q' * w;
    }
    if d >= 1 {
      MulAtLeast(d, w);
      assert false;
    } else if d <= -1 {
      MulAtLeast(-d, w);
      assert false;
    }
  }

  /** A positive multiple of `w` is at least `w`. */
  lemma MulAtLeast(a: int, w: int)
    requires a >= 1 && w > 0
    ensures a * w >= w
  {
    assert a * w == (a - 1) * w + w;
  }

  /** Removing one record's worth of bytes removes exactly one whole record. */
  lemma DivStep(n: nat, w: nat)
    requires 0 < w <= n
    ensures n / w == 1 + (n - w) / w
    ensures n % w == (n - w) % w
  {
    var q, r := (n - w) / w, (n - w) % w;
    assert n - w == q * w + r;
    DivUnique(n, w, q + 1, r);
  }

  /** A count of at most `c` records' worth of bytes holds at most `c` whole records. */
  lemma DivBound(n: nat, c: nat, w: nat)
    requires w > 0 && n <= c * w
    ensures n / w <= c
  {
    var q, r := n / w, n % w;
    assert n == q * w + r;
    if q > c {
      assert false;
    }
  }

  /** Fewer bytes than one record hold no whole record, and otherwise at least one. */
  lemma DivZero(n: nat, w: nat)
    requires w > 0
    ensures n / w == 0 <==> n < w
  {
    if n < w {
      DivUnique(n, w, 0, n);
    } else {
      DivStep(n, w);
    }
  }

  /** Exactly `c` records' worth of bytes is `c` whole records with nothing left over. */
  lemma DivExact(c: nat, w: nat)
    requires w > 0
    ensures (c * w) / w == c && (c * w) % w == 0
  {
    DivUnique(c * w, w, c, 0);
  }

  /** Flattening uniform records gives back `width` bytes per record. */
  lemma {:induction false} FlattenLength(rs: seq<Record>, width: nat)
    requires Uniform(rs, width)
    ensures |Flatten(rs)| == |rs| * width
    decreases |rs|
  {
    if |rs| > 0 {
      FlattenLength(rs[1..], width);
    }
  }

  /** Decoding keeps every whole record and loses only the trailing partial one. */
  lemma {:induction false} FlattenDecode(bytes: seq<byte>, width: nat)
    requires width > 0
    ensures Flatten(Decode(bytes, width)) == bytes[..WholeBytes(|bytes|, width)]
    decreases |bytes|
  {
    if |bytes| < width {
      DivUnique(|bytes|, width, 0, |bytes|);
    } else {
      var rs := Decode(bytes, width);
      var rest := bytes[width..];
      var k := |rest| / width;
      DivStep(|bytes|, width);
      FlattenDecode(rest, width);
      assert Flatten(rs) == bytes[..width] + rest[..k * width] by {
        assert rs[1..] == Decode(rest, width);
      }
      var m := width + k * width;
      assert WholeBytes(|bytes|, width) == m by {
        assert |bytes| / width == 1 + k;
        assert (1 + k) * width == width + k * width;
      }
      assert m <= |bytes|;
      assert bytes[..m] == bytes[..width] + rest[..k * width];
    }
  }

  /** Decoding inverts flattening for uniform records. */
  lemma {:induction false} DecodeFlatten(rs: seq<Record>, width: nat)
    requires width > 0
    requires Uniform(rs, width)
    ensures Decode(Flatten(rs), width) == rs
    decreases |rs|
  {
    if |rs| > 0 {
      var bytes := Flatten(rs);
      FlattenLength(rs, width);
      assert bytes == rs[0] + Flatten(rs[1..]);
      assert bytes[..width] == rs[0];
      assert bytes[width..] == Flatten(rs[1..]);
      DecodeFlatten(rs[1..], width);
    }
  }

  /** Decoding splits at any record boundary. */
  lemma {:induction false} DecodeAppend(a: seq<byte>, b: seq<byte>, width: nat)
    requires width > 0
    requires |a| % width == 0
    ensures Decode(a + b, width) == Decode(a, width) + Decode(b, width)
    decreases |a|
  {
    if |a| == 0 {
      assert a + b == b;
    } else {
      assert |a| >= width by {
        if |a| < width { DivUnique(|a|, width, 0, |a|); }
      }
      DivStep(|a|, width);
      assert (a + b)[..width] == a[..width];
      assert (a + b)[width..] == a[width..] + b;
      assert |a[width..]| % width == 0;
      DecodeAppend(a[width..], b, width);
    }
  }
}
