/**
 * The codec layer (serialize.h).  `Serializer<T>` writes a value to a binary
 * stream and reads it back; `TextSerializer<T>` does the same in text form.
 * The unspecialised templates abort; plain-old-data types get a
 * specialisation that copies the raw in-memory image (binary) or uses the
 * formatted stream operators (text).  Composite types (see AdRecordJob)
 * build their own specialisation from these per field.
 *
 * A stream is modelled as the sequence of symbols still to be read (input)
 * or already written (output): bytes for the binary codec, characters for
 * the text codec.
 */
module Serialize {
  import opened Wrappers
  import opened RawIO

  const TWO_64: nat := 0x1_0000_0000_0000_0000

  /** `uint64_t`, and `size_t` on the 64-bit targets this code is built for. */
  type U64 = x: int | 0 <= x < TWO_64

  /** A `double`, carried as its 64-bit IEEE-754 bit pattern (its raw image). */
  datatype F64 = F64(bits: U64)

  /** The bit pattern of the `double` literal 0. */
  const F64Zero: F64 := F64(0)

  datatype CodecError = NotImplemented

  /**
   * One `Serializer<T>` or `TextSerializer<T>` instantiation over symbols S.
   * `Implemented` is a specialisation: `enc` is what `serialize` writes for a
   * value, `dec` is what `deserialize` reads from a stream (None when the
   * stream fails) together with the unread rest of the stream.
   * `Unimplemented` is the generic template, which has no encoding.
   */
  datatype Codec<!S, !T> =
    | Implemented(enc: T -> seq<S>, dec: seq<S> -> Option<(T, seq<S>)>)
    | Unimplemented

  /** `serialize(os, d)`: a specialisation appends `d`'s encoding; the generic template aborts. */
  function Serialize<S, T>(c: Codec<S, T>, os: seq<S>, d: T): (r: Result<seq<S>, CodecError>)
    ensures r.Err? <==> c.Unimplemented?
    ensures r.Ok? ==> |r.value| >= |os| && r.value[..|os|] == os
  {
    match c
    case Implemented(enc, _) => Ok(os + enc(d))
    case Unimplemented => Err(NotImplemented)
  }

  /** `deserialize(input, d)`: a specialisation reads one value (Ok(None) when the stream fails); the generic template aborts. */
  function Deserialize<S, T>(c: Codec<S, T>, input: seq<S>): (r: Result<Option<(T, seq<S>)>, CodecError>)
    ensures r.Err? <==> c.Unimplemented?
  {
    match c
    case Implemented(_, dec) => Ok(dec(input))
    case Unimplemented => Err(NotImplemented)
  }

  /** Every successful read takes at least one symbol off the stream. */
  ghost predicate Consumes<S(!new), T(!new)>(c: Codec<S, T>)
  {
    c.Implemented? &&
    forall s :: c.dec(s).Some? ==> |c.dec(s).value.1| < |s|
  }

  /** A binary codec reads back exactly what it wrote, whatever follows it in the stream. */
  ghost predicate ValidCodec<S(!new), T(!new)>(c: Codec<S, T>)
  {
    Consumes(c) &&
    forall x, rest :: c.dec(c.enc(x) + rest) == Some((x, rest))
  }

  /**
   * A text codec writes the value's text and a newline; reading skips
   * leading white space and stops in front of the newline, so the newline is
   * what is left for the next read to skip.
   */
  ghost predicate ValidTextCodec<T(!new)>(c: Codec<char, T>)
  {
    c.Implemented? &&
    (forall x, rest :: c.dec(c.enc(x) + rest) == Some((x, "\n" + rest))) &&
    (forall s :: c.dec("\n" + s) == c.dec(s))
  }

  /** Serializing then deserializing through a valid binary codec is the identity. */
  lemma SerializeRoundTrip<S(!new), T(!new)>(c: Codec<S, T>, os: seq<S>, d: T, rest: seq<S>)
    requires ValidCodec(c)
    ensures Serialize(c, os, d).Ok?
    ensures Deserialize(c, Serialize(c, os, d).value[|os|..] + rest) == Ok(Some((d, rest)))
  {
    assert Serialize(c, os, d).value[|os|..] == c.enc(d);
  }

  /** Both entry points of the unspecialised `TextSerializer` abort, whatever the stream and value. */
  lemma UnspecialisedTextAborts<T>(os: string, input: string, d: T)
    ensures Serialize(Unimplemented, os, d) == Err(NotImplemented)
    ensures Deserialize<char, T>(Unimplemented, input) == Err(NotImplemented)
  {
  }

  // ---------------------------------------------------------------------
  // Binary specialisation for plain-old-data types: the raw image.

  lemma Pow256Of8()
    ensures Pow256(8) == TWO_64
  {
    calc {
      Pow256(8);
      256 * Pow256(7);
      256 * 256 * Pow256(6);
      256 * 256 * 256 * 256 * Pow256(4);
      256 * 256 * 256 * 256 * 256 * 256 * 256 * 256 * Pow256(0);
    }
  }

  /** `Serializer<uint64_t>::serialize`: appends the 8-byte image of `d`. */
  function SerializeU64(os: seq<Byte>, d: U64): (r: seq<Byte>)
    ensures |r| == |os| + 8
    ensures r[..|os|] == os
  {
    Pow256Of8();
    OstreamWrite(os, d, 8)
  }

  /** Writing to a stream that already holds `os` leaves `os` in front of the value's own image. */
  lemma SerializeU64Appends(os: seq<Byte>, d: U64)
    ensures SerializeU64(os, d) == os + SerializeU64([], d)
  {
    assert [] + Image(d, 8) == Image(d, 8);
  }

  /** `Serializer<uint64_t>::deserialize`: reads 8 bytes; fails when fewer are left. */
  function DeserializeU64(input: seq<Byte>): (r: Option<(U64, seq<Byte>)>)
    ensures r.None? <==> |input| < 8
    ensures r.Some? ==> r.value.1 == input[8..]
  {
    Pow256Of8();
    match IstreamRead(input, 8)
    case None => None
    case Some((v, rest)) => Some((v, rest))
  }

  lemma U64RoundTrip(d: U64, rest: seq<Byte>)
    ensures DeserializeU64(SerializeU64([], d) + rest) == Some((d, rest))
  {
    Pow256Of8();
    WriteThenRead([], d, 8, rest);
  }

  function U64Codec(): Codec<Byte, U64>
  {
    Implemented(d => SerializeU64([], d), DeserializeU64)
  }

  lemma U64CodecValid()
    ensures ValidCodec(U64Codec())
  {
    var c := U64Codec();
    forall x: U64, rest ensures c.dec(c.enc(x) + rest) == Some((x, rest)) {
      U64RoundTrip(x, rest);
    }
  }

  /** `Serializer<double>`: the raw image of the bit pattern. */
  function F64Codec(): Codec<Byte, F64>
  {
    Implemented((d: F64) => SerializeU64([], d.bits),
                s => match DeserializeU64(s)
                     case None => None
                     case Some((bits, rest)) => Some((F64(bits), rest)))
  }

  lemma F64CodecValid()
    ensures ValidCodec(F64Codec())
  {
    var c := F64Codec();
    forall x: F64, rest ensures c.dec(c.enc(x) + rest) == Some((x, rest)) {
      U64RoundTrip(x.bits, rest);
    }
  }

  // ---------------------------------------------------------------------
  // Text specialisation for unsigned integers: `os << d << std::endl` and
  // `is >> d`.

  predicate IsSpace(c: char)
  {
    c == ' ' || c == '\t' || c == '\n' || c == '\U{B}' || c == '\U{C}' || c == '\r'
  }

  predicate IsDigit(c: char)
  {
    '0' <= c <= '9'
  }

  function DigitChar(d: nat): (c: char)
    requires d < 10
    ensures IsDigit(c)
  {
    (48 + d) as char
  }

  /** The decimal text of `n`, most significant digit first, no leading zeros. */
  function Decimal(n: nat): (s: string)
    ensures |s| > 0
    ensures forall i :: 0 <= i < |s| ==> IsDigit(s[i])
  {
    if n < 10 then [DigitChar(n)] else Decimal(n / 10) + [DigitChar(n % 10)]
  }

  /** The number a string of decimal digits denotes. */
  function DigitsValue(s: string): nat
    requires forall i :: 0 <= i < |s| ==> IsDigit(s[i])
  {
    if s == [] then 0
    else
      assert IsDigit(s[|s| - 1]);
      DigitsValue(s[..|s| - 1]) * 10 + (s[|s| - 1] as int - '0' as int)
  }

  lemma {:induction false} DecimalValue(n: nat)
    ensures DigitsValue(Decimal(n)) == n
  {
    if n >= 10 {
      DecimalValue(n / 10);
      var s := Decimal(n);
      assert s[..|s| - 1] == Decimal(n / 10);
    }
  }

  /** White space skipped in front of a formatted read. */
  function SkipSpace(s: string): (r: string)
    ensures |r| <= |s| && r == s[|s| - |r|..]
    ensures r == [] || !IsSpace(r[0])
  {
    if s != [] && IsSpace(s[0]) then SkipSpace(s[1..]) else s
  }

  /** The number of decimal digits at the front of `s`. */
  function DigitRun(s: string): (k: nat)
    ensures k <= |s|
    ensures forall i :: 0 <= i < k ==> IsDigit(s[i])
    ensures k < |s| ==> !IsDigit(s[k])
  {
    if s == [] || !IsDigit(s[0]) then 0 else 1 + DigitRun(s[1..])
  }

  lemma {:induction false} DigitRunOfDigits(t: string, u: string)
    requires forall i :: 0 <= i < |t| ==> IsDigit(t[i])
    requires u == [] || !IsDigit(u[0])
    ensures DigitRun(t + u) == |t|
  {
    if t != [] {
      assert (t + u)[1..] == t[1..] + u;
      DigitRunOfDigits(t[1..], u);
    }
  }

  /** `TextSerializer<uint64_t>::serialize`: the decimal text of `d`, then a newline. */
  function TextSerializeU64(os: string, d: U64): (r: string)
    ensures |r| >= |os| + 2 && r[..|os|] == os
    ensures forall i :: |os| <= i < |r| - 1 ==> IsDigit(r[i])
    ensures r[|r| - 1] == '\n'
  {
    os + Decimal(d) + "\n"
  }

  /**
   * `TextSerializer<uint64_t>::deserialize`: skips white space and reads the
   * longest run of digits.  It fails when there is no digit or the number does
   * not fit in 64 bits.
   */
  function TextDeserializeU64(input: string): (r: Option<(U64, string)>)
    ensures r.Some? ==> |r.value.1| < |input|
  {
    var s := SkipSpace(input);
    var k := DigitRun(s);
    if k == 0 then None
    else
      var v := DigitsValue(s[..k]);
      if v < TWO_64 then Some((v, s[k..])) else None
  }

  lemma TextU64RoundTrip(d: U64, rest: string)
    ensures TextDeserializeU64(Decimal(d) + "\n" + rest) == Some((d, "\n" + rest))
  {
    var t := Decimal(d);
    var s := t + "\n" + rest;
    assert s == t + ("\n" + rest);
    assert SkipSpace(s) == s;
    DigitRunOfDigits(t, "\n" + rest);
    assert s[..|t|] == t;
    DecimalValue(d);
  }

  /**
   * `TextSerializer<double>`: the same specialisation at `double`.  `os << d`
   * formats with the stream's default precision of six significant digits and
   * `is >> d` parses a floating-point number after white space.  Neither
   * conversion is modelled, so both are given as `show` and `read`; nothing
   * is assumed about `read` giving back what `show` wrote, which in general it
   * does not.  Unlike a string codec this one always exists.
   */
  datatype DoubleText = DoubleText(show: F64 -> string, read: string -> Option<(F64, string)>)

  function TextU64Codec(): Codec<char, U64>
  {
    Implemented(d => TextSerializeU64([], d), TextDeserializeU64)
  }

  lemma TextU64CodecValid()
    ensures ValidTextCodec(TextU64Codec())
  {
    var c := TextU64Codec();
    forall x: U64, rest ensures c.dec(c.enc(x) + rest) == Some((x, "\n" + rest)) {
      assert c.enc(x) + rest == Decimal(x) + "\n" + rest;
      TextU64RoundTrip(x, rest);
    }
    forall s ensures c.dec("\n" + s) == c.dec(s) {
      assert ("\n" + s)[1..] == s;
    }
  }
}
