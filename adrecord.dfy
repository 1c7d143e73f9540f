/**
 * The sample job of tests/adrecord: ad-view records, their binary and text
 * serializers, and the map and reduce functions of `HistogramMR`, which
 * group the records of a tab-separated input by view id.
 *
 * The string fields go through `Serializer<string>` and
 * `TextSerializer<string>`; neither is defined by the headers this model
 * covers, so each is a codec parameter, which may be `Unimplemented` (the
 * aborting generic template).  The revenue's text goes through
 * `TextSerializer<double>`, which always exists but whose floating-point
 * formatting and parsing are given (`DoubleText`).  Parsing a field (`str2T`)
 * and adding two doubles are function parameters too.
 */
module AdRecordJob {
  import opened Wrappers
  import opened RawIO
  import opened Serialize
  import opened Strings
  import opened StdString
  import opened Iterators

  datatype AdRecord = AdRecord(viewId: string, state: string, adId: string, clicks: U64, revenue: F64)

  // ---------------------------------------------------------------------
  // Serializer<AdRecord>

  /**
   * `Serializer<AdRecord>::serialize`: ViewID, State, AdId, Clicks, Revenue,
   * one after another; it aborts at the first field if strings have no
   * serializer.
   */
  function SerializeAdRecord(sc: Codec<Byte, string>, os: seq<Byte>, d: AdRecord): (r: Result<seq<Byte>, CodecError>)
    ensures r.Err? <==> sc.Unimplemented?
    ensures r.Ok? ==> |r.value| >= |os| && r.value[..|os|] == os
  {
    match sc
    case Unimplemented => Err(NotImplemented)
    case Implemented(enc, _) =>
      var strings := os + enc(d.viewId) + enc(d.state) + enc(d.adId);
      Ok(SerializeU64(strings, d.clicks) + F64Codec().enc(d.revenue))
  }

  /**
   * `Serializer<AdRecord>::deserialize`: the fields in the same order; the
   * stream fails (None) as soon as one of them cannot be read.
   */
  function DeserializeAdRecord(sc: Codec<Byte, string>, input: seq<Byte>): (r: Result<Option<(AdRecord, seq<Byte>)>, CodecError>)
    ensures r.Err? <==> sc.Unimplemented?
  {
    match sc
    case Unimplemented => Err(NotImplemented)
    case Implemented(_, dec) =>
      Ok(match dec(input)
        case None => None
        case Some((viewId, r1)) =>
          match dec(r1)
          case None => None
          case Some((state, r2)) =>
            match dec(r2)
            case None => None
            case Some((adId, r3)) =>
              match DeserializeU64(r3)
              case None => None
              case Some((clicks, r4)) =>
                match F64Codec().dec(r4)
                case None => None
                case Some((revenue, r5)) => Some((AdRecord(viewId, state, adId, clicks, revenue), r5)))
  }

  /** Reading back what `SerializeAdRecord` wrote gives the record and leaves what followed it. */
  lemma AdRecordRoundTrip(sc: Codec<Byte, string>, os: seq<Byte>, d: AdRecord, rest: seq<Byte>)
    requires ValidCodec(sc)
    ensures SerializeAdRecord(sc, os, d).Ok?
    ensures DeserializeAdRecord(sc, SerializeAdRecord(sc, os, d).value[|os|..] + rest) == Ok(Some((d, rest)))
  {
    var enc := sc.enc;
    var r4 := F64Codec().enc(d.revenue) + rest;
    var r3 := SerializeU64([], d.clicks) + r4;
    var r2 := enc(d.adId) + r3;
    var r1 := enc(d.state) + r2;
    var strings := os + enc(d.viewId) + enc(d.state) + enc(d.adId);
    SerializeU64Appends(strings, d.clicks);
    assert SerializeAdRecord(sc, os, d).value
      == os + enc(d.viewId) + enc(d.state) + enc(d.adId) + SerializeU64([], d.clicks) + F64Codec().enc(d.revenue);
    FieldsLayout(os, enc(d.viewId), enc(d.state), enc(d.adId), SerializeU64([], d.clicks),
      F64Codec().enc(d.revenue), rest);
    DecodeEncoded(sc, d.viewId, r1);
    DecodeEncoded(sc, d.state, r2);
    DecodeEncoded(sc, d.adId, r3);
    NumbersRoundTrip(d.clicks, d.revenue, rest);
    DecodeFields(sc, enc(d.viewId) + r1, d, r1, r2, r3, r4, rest);
  }

  lemma DecodeEncoded<S(!new), T(!new)>(c: Codec<S, T>, x: T, rest: seq<S>)
    requires ValidCodec(c)
    ensures c.dec(c.enc(x) + rest) == Some((x, rest))
  {
  }

  /** When each field in turn reads back, the record reads back. */
  lemma DecodeFields(sc: Codec<Byte, string>, input: seq<Byte>, d: AdRecord,
                     r1: seq<Byte>, r2: seq<Byte>, r3: seq<Byte>, r4: seq<Byte>, rest: seq<Byte>)
    requires sc.Implemented?
    requires sc.dec(input) == Some((d.viewId, r1))
    requires sc.dec(r1) == Some((d.state, r2))
    requires sc.dec(r2) == Some((d.adId, r3))
    requires DeserializeU64(r3) == Some((d.clicks, r4))
    requires F64Codec().dec(r4) == Some((d.revenue, rest))
    ensures DeserializeAdRecord(sc, input) == Ok(Some((d, rest)))
  {
  }

  /** Five fields written after `os`, with `rest` following them, read as one field then the others. */
  lemma FieldsLayout<T>(os: seq<T>, a: seq<T>, b: seq<T>, c: seq<T>, u: seq<T>, f: seq<T>, rest: seq<T>)
    ensures (os + a + b + c + u + f)[|os|..] + rest == a + (b + (c + (u + (f + rest))))
  {
    var w := os + a + b + c + u + f;
    assert w == os + (a + b + c + u + f);
    assert w[|os|..] == a + b + c + u + f;
  }

  /** The two numeric fields, clicks then revenue, read back as written. */
  lemma NumbersRoundTrip(clicks: U64, revenue: F64, rest: seq<Byte>)
    ensures DeserializeU64(SerializeU64([], clicks) + (F64Codec().enc(revenue) + rest))
              == Some((clicks, F64Codec().enc(revenue) + rest))
    ensures F64Codec().dec(F64Codec().enc(revenue) + rest) == Some((revenue, rest))
  {
    U64RoundTrip(clicks, F64Codec().enc(revenue) + rest);
    F64CodecValid();
  }

  /** `Serializer<AdRecord>` as a codec, given a string codec. */
  function AdRecordCodec(sc: Codec<Byte, string>): Codec<Byte, AdRecord>
    requires sc.Implemented?
  {
    Implemented(d => SerializeAdRecord(sc, [], d).value, s => DeserializeAdRecord(sc, s).value)
  }

  /** With a valid string codec the record codec is valid: records can key or fill a debugger log. */
  lemma AdRecordCodecValid(sc: Codec<Byte, string>)
    requires ValidCodec(sc)
    ensures ValidCodec(AdRecordCodec(sc))
  {
    var c := AdRecordCodec(sc);
    forall s | c.dec(s).Some? ensures |c.dec(s).value.1| < |s| {
      DeserializeAdRecordConsumes(sc, s);
    }
    forall x, rest ensures c.dec(c.enc(x) + rest) == Some((x, rest)) {
      AdRecordRoundTrip(sc, [], x, rest);
      assert SerializeAdRecord(sc, [], x).value[0..] == c.enc(x);
    }
  }

  /** A record read takes at least the bytes of its first string off the stream. */
  lemma DeserializeAdRecordConsumes(sc: Codec<Byte, string>, s: seq<Byte>)
    requires Consumes(sc)
    ensures DeserializeAdRecord(sc, s).value.Some? ==> |DeserializeAdRecord(sc, s).value.value.1| < |s|
  {
    var r := DeserializeAdRecord(sc, s).value;
    if r.Some? {
      var r1 := sc.dec(s).value.1;
      var r2 := sc.dec(r1).value.1;
      var r3 := sc.dec(r2).value.1;
      var r4 := DeserializeU64(r3).value.1;
      assert |r1| < |s| && |r2| < |r1| && |r3| < |r2| && |r4| < |r3|;
    }
  }

  // ---------------------------------------------------------------------
  // TextSerializer<AdRecord>

  /**
   * `TextSerializer<AdRecord>::serialize`: the same five fields, each as text
   * followed by a newline; it aborts at the first field if strings have no
   * text serializer.
   */
  function TextSerializeAdRecord(sc: Codec<char, string>, dt: DoubleText, os: string, d: AdRecord)
    : (r: Result<string, CodecError>)
    ensures r.Err? <==> sc.Unimplemented?
    ensures r.Ok? ==> |r.value| > |os| && r.value[..|os|] == os && r.value[|r.value| - 1] == '\n'
  {
    if sc.Unimplemented? then Err(NotImplemented)
    else
      var strings := os + sc.enc(d.viewId) + sc.enc(d.state) + sc.enc(d.adId);
      Ok(TextSerializeU64(strings, d.clicks) + (dt.show(d.revenue) + "\n"))
  }

  /** `TextSerializer<AdRecord>::deserialize`: the fields in the same order. */
  function TextDeserializeAdRecord(sc: Codec<char, string>, dt: DoubleText, input: string)
    : (r: Result<Option<(AdRecord, string)>, CodecError>)
    ensures r.Err? <==> sc.Unimplemented?
  {
    if sc.Unimplemented? then Err(NotImplemented)
    else
      Ok(match sc.dec(input)
        case None => None
        case Some((viewId, r1)) =>
          match sc.dec(r1)
          case None => None
          case Some((state, r2)) =>
            match sc.dec(r2)
            case None => None
            case Some((adId, r3)) =>
              match TextDeserializeU64(r3)
              case None => None
              case Some((clicks, r4)) =>
                match dt.read(r4)
                case None => None
                case Some((revenue, r5)) => Some((AdRecord(viewId, state, adId, clicks, revenue), r5)))
  }

  /** `d` with the revenue that a read of the revenue text produced, if it produced one. */
  function WithRevenue(d: AdRecord, read: Option<(F64, string)>): Option<(AdRecord, string)>
  {
    match read
    case None => None
    case Some((revenue, rest)) => Some((d.(revenue := revenue), rest))
  }

  /** A field written after a previous one is read back once the previous newline is skipped. */
  lemma TextFieldAfterNewline<T(!new)>(c: Codec<char, T>, x: T, tail: string)
    requires ValidTextCodec(c)
    ensures c.dec("\n" + (c.enc(x) + tail)) == Some((x, "\n" + tail))
  {
    assert c.dec("\n" + (c.enc(x) + tail)) == c.dec(c.enc(x) + tail);
  }

  /**
   * Reading back the text of a record gives its view id, state, ad id and
   * clicks unchanged; the revenue is whatever `is >> d` makes of the text
   * `os << d` wrote for it (after the newline that ends the clicks), and the
   * read stops where that read stops.
   */
  lemma TextAdRecordRoundTrip(sc: Codec<char, string>, dt: DoubleText, os: string, d: AdRecord, rest: string)
    requires ValidTextCodec(sc)
    ensures TextSerializeAdRecord(sc, dt, os, d).Ok?
    ensures TextDeserializeAdRecord(sc, dt, TextSerializeAdRecord(sc, dt, os, d).value[|os|..] + rest)
              == Ok(WithRevenue(d, dt.read("\n" + (dt.show(d.revenue) + "\n" + rest))))
  {
    var clicks := TextSerializeU64([], d.clicks);
    var revenue := dt.show(d.revenue) + "\n";
    var t4 := revenue + rest;
    var t3 := clicks + t4;
    var t2 := sc.enc(d.adId) + t3;
    var t1 := sc.enc(d.state) + t2;
    assert TextSerializeAdRecord(sc, dt, os, d).value[|os|..] + rest == sc.enc(d.viewId) + t1 by {
      var strings := os + sc.enc(d.viewId) + sc.enc(d.state) + sc.enc(d.adId);
      assert TextSerializeU64(strings, d.clicks) == strings + clicks;
      FieldsLayout(os, sc.enc(d.viewId), sc.enc(d.state), sc.enc(d.adId), clicks, revenue, rest);
    }
    TextFieldFirst(sc, d.viewId, t1);
    TextFieldAfterNewline(sc, d.state, t2);
    TextFieldAfterNewline(sc, d.adId, t3);
    TextClicksAfterNewline(d.clicks, t4);
    TextDecodeFields(sc, dt, sc.enc(d.viewId) + t1, d, "\n" + t1, "\n" + t2, "\n" + t3, "\n" + t4);
  }

  /**
   * For a record whose revenue text reads back to the same `double`, the
   * whole record reads back, and the last field's newline is left in front of
   * what followed.
   */
  lemma TextAdRecordReadsBack(sc: Codec<char, string>, dt: DoubleText, os: string, d: AdRecord, rest: string)
    requires ValidTextCodec(sc)
    requires dt.read("\n" + (dt.show(d.revenue) + "\n" + rest)) == Some((d.revenue, "\n" + rest))
    ensures TextSerializeAdRecord(sc, dt, os, d).Ok?
    ensures TextDeserializeAdRecord(sc, dt, TextSerializeAdRecord(sc, dt, os, d).value[|os|..] + rest)
              == Ok(Some((d, "\n" + rest)))
  {
    TextAdRecordRoundTrip(sc, dt, os, d, rest);
    assert d.(revenue := d.revenue) == d;
  }

  /** The clicks are read back after the newline that ends the field before them. */
  lemma TextClicksAfterNewline(c: U64, tail: string)
    ensures TextDeserializeU64("\n" + (TextSerializeU64([], c) + tail)) == Some((c, "\n" + tail))
  {
    TextU64CodecValid();
    TextFieldAfterNewline(TextU64Codec(), c, tail);
  }

  lemma TextFieldFirst<T(!new)>(c: Codec<char, T>, x: T, tail: string)
    requires ValidTextCodec(c)
    ensures c.dec(c.enc(x) + tail) == Some((x, "\n" + tail))
  {
  }

  /** When the string fields and the clicks read back, the record reads back with the revenue `dt.read` yields. */
  lemma TextDecodeFields(sc: Codec<char, string>, dt: DoubleText, input: string, d: AdRecord,
                         r1: string, r2: string, r3: string, r4: string)
    requires sc.Implemented?
    requires sc.dec(input) == Some((d.viewId, r1))
    requires sc.dec(r1) == Some((d.state, r2))
    requires sc.dec(r2) == Some((d.adId, r3))
    requires TextDeserializeU64(r3) == Some((d.clicks, r4))
    ensures TextDeserializeAdRecord(sc, dt, input) == Ok(WithRevenue(d, dt.read(r4)))
  {
  }

  // ---------------------------------------------------------------------
  // HistogramMR::reduce

  /** The clicks of `vs` added up, without wrap-around. */
  function ClicksTotal(vs: seq<AdRecord>): nat
  {
    if vs == [] then 0 else ClicksTotal(vs[..|vs| - 1]) + vs[|vs| - 1].clicks
  }

  /** The revenues of `vs` added from the left, starting at 0, with the double addition `fadd`. */
  function RevenueTotal(vs: seq<AdRecord>, fadd: (F64, F64) -> F64): F64
  {
    if vs == [] then F64Zero else fadd(RevenueTotal(vs[..|vs| - 1], fadd), vs[|vs| - 1].revenue)
  }

  /**
   * The record `reduce` emits for `vs`: the string fields of the last value
   * (empty when there is none), the clicks added up modulo 2^64, and the
   * revenues added up.
   */
  function Summary(vs: seq<AdRecord>, fadd: (F64, F64) -> F64): AdRecord
  {
    var last := if vs == [] then AdRecord("", "", "", 0, F64Zero) else vs[|vs| - 1];
    AdRecord(last.viewId, last.state, last.adId, ClicksTotal(vs) % TWO_64, RevenueTotal(vs, fadd))
  }

  /** The clicks total is a true sum: splitting the values anywhere adds up the two parts. */
  lemma {:induction false} ClicksTotalAppend(a: seq<AdRecord>, b: seq<AdRecord>)
    ensures ClicksTotal(a + b) == ClicksTotal(a) + ClicksTotal(b)
    decreases |b|
  {
    if b == [] {
      assert a + b == a;
    } else {
      var b' := b[..|b| - 1];
      assert (a + b)[..|a + b| - 1] == a + b';
      ClicksTotalAppend(a, b');
    }
  }

  /**
   * Reducing one more value: its string fields replace the summary's, and the
   * clicks wrap around modulo 2^64 exactly as a `uint64_t` accumulator does.
   */
  lemma SummaryStep(vs: seq<AdRecord>, x: AdRecord, fadd: (F64, F64) -> F64)
    ensures var s := Summary(vs, fadd);
      Summary(vs + [x], fadd) == AdRecord(x.viewId, x.state, x.adId, (s.clicks + x.clicks) % TWO_64, fadd(s.revenue, x.revenue))
  {
    assert (vs + [x])[..|vs + [x]| - 1] == vs;
    ModAdd(ClicksTotal(vs), x.clicks);
  }

  /** The summary of a single value is that value, its revenue added to 0. */
  lemma SummaryOfOne(x: AdRecord, fadd: (F64, F64) -> F64)
    ensures Summary([x], fadd) == x.(revenue := fadd(F64Zero, x.revenue))
  {
    assert [x][..0] == [];
    assert ClicksTotal([x]) == x.clicks;
    assert RevenueTotal([x], fadd) == fadd(F64Zero, x.revenue);
    assert Summary([x], fadd).clicks == x.clicks % TWO_64 == x.clicks;
  }

  lemma ModAdd(a: nat, b: nat)
    ensures (a % TWO_64 + b) % TWO_64 == (a + b) % TWO_64
  {
  }

  /**
   * `HistogramMR::reduce(key, values, out)`: drains `values`, then appends
   * one key/value pair, the key and the summary of what `values` handed out.
   */
  method Reduce(key: string, values: ProxyIterator<AdRecord>, fadd: (F64, F64) -> F64, out: seq<(string, AdRecord)>)
    returns (result: seq<(string, AdRecord)>)
    requires values.Valid()
    modifies values.Repr()
    ensures values.Valid() && values.Remaining() == []
    ensures result == out + [(key, Summary(old(values.Remaining()), fadd))]
  {
    var val := AdRecord("", "", "", 0, F64Zero);
    var clicks: U64 := 0;
    var revenue := F64Zero;
    var viewId, state, adId := "", "", "";
    ghost var all := values.Remaining();
    ghost var seen: seq<AdRecord> := [];
    while true
      invariant values.Valid() && |seen| <= |all|
      invariant seen == all[..|seen|] && values.Remaining() == all[|seen|..]
      invariant Summary(seen, fadd) == AdRecord(viewId, state, adId, clicks, revenue)
      decreases |all| - |seen|
    {
      var more;
      more, val := values.Next(val);
      if !more {
        break;
      }
      TakeOneMore(all, |seen|);
      SummaryStep(seen, val, fadd);
      viewId := val.viewId;
      state := val.state;
      adId := val.adId;
      clicks := (clicks + val.clicks) % TWO_64;
      revenue := fadd(revenue, val.revenue);
      seen := seen + [val];
    }
    assert seen == all;
    var summary := AdRecord(viewId, state, adId, clicks, revenue);
    result := out + [(key, summary)];
  }

  // ---------------------------------------------------------------------
  // HistogramMR::map

  /**
   * `HistogramMR::map(line, out)`: splits the line at tabs into the five
   * fields of a record and emits the record under its view id.  The source
   * asserts that there are exactly five fields.
   */
  method Map(line: string, parseU64: string -> U64, parseF64: string -> F64, out: seq<(string, AdRecord)>)
    returns (result: seq<(string, AdRecord)>)
    requires |Split(line, "\t")| == 5
    ensures var f := Split(line, "\t");
      result == out + [(f[0], AdRecord(f[0], f[1], f[2], parseU64(f[3]), parseF64(f[4])))]
    ensures |result[|out|].0| > 0 && !Contains(result[|out|].0, "\t")
  {
    var parts := SplitStr(line, "\t");
    var record := AdRecord(parts[0], parts[1], parts[2], parseU64(parts[3]), parseF64(parts[4]));
    result := out + [(parts[0], record)];
  }
}
