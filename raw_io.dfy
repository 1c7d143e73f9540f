/**
 * Raw stream I/O of plain-old-data values (util.h, `ostream_write` and
 * `istream_read`): a value of static size `width` travels as its in-memory
 * byte image.  The image is native-format; this model fixes the byte order as
 * little-endian (the x86-64 layout), which is the only place the order shows.
 */
module RawIO {
  import opened Wrappers

  type Byte = b: int | 0 <= b < 256

  /** 256^n: the number of distinct values a `width`-byte image can hold. */
  function Pow256(n: nat): (r: nat)
    ensures r > 0
  {
    if n == 0 then 1 else 256 * Pow256(n - 1)
  }

  /** The `width`-byte little-endian image of `v`. */
  function Image(v: nat, width: nat): (bs: seq<Byte>)
    requires v < Pow256(width)
    ensures |bs| == width
  {
    if width == 0 then [] else [v % 256] + Image(v / 256, width - 1)
  }

  /** The unsigned value whose little-endian image is `bs`. */
  function Value(bs: seq<Byte>): nat
  {
    if bs == [] then 0 else bs[0] + 256 * Value(bs[1..])
  }

  lemma {:induction false} ValueBound(bs: seq<Byte>)
    ensures Value(bs) < Pow256(|bs|)
  {
    if bs != [] {
      ValueBound(bs[1..]);
    }
  }

  lemma {:induction false} ValueOfImage(v: nat, width: nat)
    requires v < Pow256(width)
    ensures Value(Image(v, width)) == v
  {
    if width > 0 {
      ValueOfImage(v / 256, width - 1);
    }
  }

  lemma {:induction false} ImageOfValue(bs: seq<Byte>)
    ensures Value(bs) < Pow256(|bs|)
    ensures Image(Value(bs), |bs|) == bs
  {
    ValueBound(bs);
    if bs != [] {
      ImageOfValue(bs[1..]);
      DivMod256(bs[0], Value(bs[1..]));
      assert [bs[0]] + bs[1..] == bs;
    }
  }

  /** Splitting a value into its low byte and the rest. */
  lemma DivMod256(lo: Byte, hi: nat)
    ensures (lo + 256 * hi) % 256 == lo && (lo + 256 * hi) / 256 == hi
  {
  }

  /** `ostream_write(os, v)`: appends exactly `width` bytes, the image of `v`. */
  function OstreamWrite(os: seq<Byte>, v: nat, width: nat): (r: seq<Byte>)
    requires v < Pow256(width)
    ensures |r| == |os| + width
    ensures r[..|os|] == os
  {
    os + Image(v, width)
  }

  /** What `ostream_write` appended is read back by `istream_read`, whatever was before or after it. */
  lemma WriteThenRead(os: seq<Byte>, v: nat, width: nat, rest: seq<Byte>)
    requires v < Pow256(width)
    ensures IstreamRead(OstreamWrite(os, v, width)[|os|..] + rest, width) == Some((v, rest))
  {
    assert OstreamWrite(os, v, width)[|os|..] == Image(v, width);
    ReadImage(v, width, rest);
  }

  /**
   * `istream_read(input, v)`: reads `width` bytes into `v`.  A read that finds
   * fewer than `width` bytes left fails the stream (None).
   */
  function IstreamRead(input: seq<Byte>, width: nat): (r: Option<(nat, seq<Byte>)>)
    ensures r.None? <==> |input| < width
    ensures r.Some? ==> r.value.0 < Pow256(width) && r.value.1 == input[width..]
    ensures r.Some? ==> Image(r.value.0, width) == input[..width]
  {
    if |input| < width then None
    else
      ImageOfValue(input[..width]);
      Some((Value(input[..width]), input[width..]))
  }

  /** Reading back what `ostream_write` wrote restores the value and leaves the rest of the stream. */
  lemma ReadImage(v: nat, width: nat, rest: seq<Byte>)
    requires v < Pow256(width)
    ensures IstreamRead(Image(v, width) + rest, width) == Some((v, rest))
  {
    var s := Image(v, width) + rest;
    assert s[..width] == Image(v, width);
    assert s[width..] == rest;
    ValueOfImage(v, width);
  }
}
