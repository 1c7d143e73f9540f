/**
 * The reduce-phase debugger of debug.h.  Which of its three modes a build
 * uses is fixed by two template flags:
 *   - passthrough (no logging, no replaying): the reducer sees the live
 *     iterator;
 *   - recording: each `get_iterator` call appends a record
 *     `key ‖ count ‖ v1 … vn` to the log, the values being read from a copy
 *     of the live iterator so that the reducer still sees all of them;
 *   - replaying: the constructor reads the whole log into a table from key
 *     to values, and `get_iterator` hands out a cursor over the table's
 *     entry, ignoring the live iterator.
 * The log file is the byte sequence `log`; keys and values go through their
 * `Serializer` specialisations, the count through `Serializer<size_t>`.
 */
module Debugger {
  import opened Wrappers
  import opened RawIO
  import opened Serialize
  import opened Container
  import opened Iterators

  // ---------------------------------------------------------------------
  // The log format

  /** The values of one record, each through the value codec, in order. */
  function EncodeValues<V>(vc: Codec<Byte, V>, vs: seq<V>): seq<Byte>
    requires vc.Implemented?
  {
    if vs == [] then [] else vc.enc(vs[0]) + EncodeValues(vc, vs[1..])
  }

  /** Encoding one more value extends the encoding by that value's bytes. */
  lemma {:induction false} EncodeValuesSnoc<V>(vc: Codec<Byte, V>, vs: seq<V>, v: V)
    requires vc.Implemented?
    ensures EncodeValues(vc, vs + [v]) == EncodeValues(vc, vs) + vc.enc(v)
  {
    if vs == [] {
      assert [v][1..] == [];
    } else {
      assert (vs + [v])[1..] == vs[1..] + [v];
      EncodeValuesSnoc(vc, vs[1..], v);
    }
  }

  lemma AppendAssoc<T>(a: seq<T>, b: seq<T>, c: seq<T>)
    ensures (a + b) + c == a + (b + c)
  {
  }

  /** One record as the recording debugger writes it: key, 8-byte count, values. */
  function EncodeRecord<K, V>(kc: Codec<Byte, K>, vc: Codec<Byte, V>, key: K, count: U64, vs: seq<V>): seq<Byte>
    requires kc.Implemented? && vc.Implemented?
  {
    SerializeU64(kc.enc(key), count) + EncodeValues(vc, vs)
  }

  /** Every record's value count fits in a `size_t`. */
  predicate CountsFit<K, V>(recs: seq<(K, seq<V>)>)
  {
    forall i :: 0 <= i < |recs| ==> |recs[i].1| < TWO_64
  }

  /** The log left by recording `recs` in order, each with its own length as count. */
  function EncodeLog<K, V>(kc: Codec<Byte, K>, vc: Codec<Byte, V>, recs: seq<(K, seq<V>)>): seq<Byte>
    requires kc.Implemented? && vc.Implemented? && CountsFit(recs)
  {
    if recs == [] then []
    else EncodeRecord(kc, vc, recs[0].0, |recs[0].1|, recs[0].1) + EncodeLog(kc, vc, recs[1..])
  }

  /** No key is recorded twice. */
  predicate DistinctKeys<K(==), V>(recs: seq<(K, seq<V>)>)
  {
    forall i, j :: 0 <= i < j < |recs| ==> recs[i].0 != recs[j].0
  }

  /** The table a replay should build from `recs`. */
  function TableOf<K, V>(recs: seq<(K, seq<V>)>): map<K, seq<V>>
  {
    if recs == [] then map[] else map[recs[0].0 := recs[0].1] + TableOf(recs[1..])
  }

  /** Recording one more key extends the log by that key's record. */
  lemma {:induction false} EncodeLogSnoc<K, V>(kc: Codec<Byte, K>, vc: Codec<Byte, V>, recs: seq<(K, seq<V>)>, r: (K, seq<V>))
    requires kc.Implemented? && vc.Implemented? && CountsFit(recs) && |r.1| < TWO_64
    ensures CountsFit(recs + [r])
    ensures EncodeLog(kc, vc, recs + [r]) == EncodeLog(kc, vc, recs) + EncodeRecord(kc, vc, r.0, |r.1|, r.1)
  {
    var all := recs + [r];
    assert CountsFit(all) by {
      forall i | 0 <= i < |all| ensures |all[i].1| < TWO_64 {
        if i < |recs| { assert all[i] == recs[i]; }
      }
    }
    var last := EncodeRecord(kc, vc, r.0, |r.1|, r.1);
    if recs == [] {
      assert all[1..] == [];
      assert last + [] == last;
    } else {
      var first := EncodeRecord(kc, vc, recs[0].0, |recs[0].1|, recs[0].1);
      assert all[0] == recs[0] && all[1..] == recs[1..] + [r];
      assert CountsFit(recs[1..]) by {
        forall i | 0 <= i < |recs[1..]| ensures |recs[1..][i].1| < TWO_64 {
          assert recs[1..][i] == recs[i + 1];
        }
      }
      EncodeLogSnoc(kc, vc, recs[1..], r);
      AppendAssoc(first, EncodeLog(kc, vc, recs[1..]), last);
    }
  }

  /** With distinct keys, the table maps every recorded key to exactly its own values. */
  lemma {:induction false} TableOfLookup<K, V>(recs: seq<(K, seq<V>)>)
    requires DistinctKeys(recs)
    ensures forall i :: 0 <= i < |recs| ==> recs[i].0 in TableOf(recs) && TableOf(recs)[recs[i].0] == recs[i].1
    ensures forall k :: k in TableOf(recs) ==> exists i :: 0 <= i < |recs| && recs[i].0 == k
  {
    if recs != [] {
      var tail := recs[1..];
      assert DistinctKeys(tail) by {
        forall i, j | 0 <= i < j < |tail| ensures tail[i].0 != tail[j].0 {
          assert tail[i] == recs[i + 1] && tail[j] == recs[j + 1];
        }
      }
      TableOfLookup(tail);
      forall i | 0 <= i < |recs| ensures recs[i].0 in TableOf(recs) && TableOf(recs)[recs[i].0] == recs[i].1 {
        if i > 0 {
          assert recs[i] == tail[i - 1];
        } else {
          forall j | 0 <= j < |tail| ensures tail[j].0 != recs[0].0 {
            assert tail[j] == recs[j + 1];
          }
        }
      }
      forall k | k in TableOf(recs) ensures exists i :: 0 <= i < |recs| && recs[i].0 == k {
        if k != recs[0].0 {
          var j :| 0 <= j < |tail| && tail[j].0 == k;
          assert recs[j + 1].0 == k;
        }
      }
    }
  }

  // ---------------------------------------------------------------------
  // Reading the log back

  datatype LoadError<K> =
    | DuplicateKey(key: K)  // the `assert` that a key is not in the table yet
    | Truncated             // a record cut short after its key

  /**
   * The inner `for` loop of the replay constructor: `n` values read one after
   * another, appended to `acc`; None when the stream fails before the last.
   */
  function DecodeValues<V(!new)>(vc: Codec<Byte, V>, s: seq<Byte>, n: nat, acc: seq<V>): (r: Option<(seq<V>, seq<Byte>)>)
    requires Consumes(vc)
    ensures r.Some? ==> |r.value.0| == |acc| + n && r.value.0[..|acc|] == acc
    ensures r.Some? ==> |r.value.1| <= |s|
    decreases n
  {
    if n == 0 then Some((acc, s))
    else match vc.dec(s)
      case None => None
      case Some((v, rest)) => DecodeValues(vc, rest, n - 1, acc + [v])
  }

  /**
   * The replay constructor's `while (file.good())` loop, run on the unread
   * part `data` of the log with the table built so far.  A failed key read
   * ends the load; a key already in the table fails the assertion; a count
   * or a value that cannot be read leaves the record truncated.
   */
  function ParseLog<K(==,!new), V(!new)>(kc: Codec<Byte, K>, vc: Codec<Byte, V>, data: seq<Byte>, table: map<K, seq<V>>)
    : (r: Result<map<K, seq<V>>, LoadError<K>>)
    requires Consumes(kc) && Consumes(vc)
    ensures data == [] ==> r == Ok(table)
    ensures r.Ok? ==> forall k :: k in table ==> k in r.value && r.value[k] == table[k]
    decreases |data|
  {
    match kc.dec(data)
    case None => Ok(table)
    case Some((key, afterKey)) =>
      if key in table then Err(DuplicateKey(key))
      else match DeserializeU64(afterKey)
        case None => Err(Truncated)
        case Some((count, afterCount)) =>
          match DecodeValues(vc, afterCount, count, [])
          case None => Err(Truncated)
          case Some((vs, rest)) => ParseLog(kc, vc, rest, table[key := vs])
  }

  // ---------------------------------------------------------------------
  // The three modes

  /**
   * `get_iterator` with logging and replaying both off: a view that borrows
   * the live iterator, and no log at all.
   */
  function PassthroughGetIterator<K, V>(key: K, it: ReduceIterator<V>): (view: ProxyIterator<V>)
    reads it
    requires it.Valid()
    ensures view.Borrowed? && view.Repr() == {it}
    ensures view.Valid() && view.Remaining() == it.Remaining() && view.Size() == it.Size()
  {
    Borrowed(it)
  }

  class RecordingDebugger<K, V(0)> {
    const kc: Codec<Byte, K>
    const vc: Codec<Byte, V>
    /** What has been written to the log file so far. */
    var log: seq<Byte>

    ghost predicate Valid()
      reads this
    {
      kc.Implemented? && vc.Implemented?
    }

    /** Opens an empty log. */
    constructor(kc: Codec<Byte, K>, vc: Codec<Byte, V>)
      requires kc.Implemented? && vc.Implemented?
      ensures Valid() && this.kc == kc && this.vc == vc && log == []
    {
      this.kc := kc;
      this.vc := vc;
      log := [];
    }

    /**
     * Appends the record for `key`: its encoding, the iterator's item count,
     * then every value a copy of `it` hands out.  `it` itself is left where
     * it was, and the reducer is given a view of it.
     */
    method GetIterator(key: K, it: ReduceIterator<V>) returns (view: ProxyIterator<V>)
      requires Valid() && it.Valid()
      modifies this
      ensures Valid()
      ensures log == old(log) + EncodeRecord(kc, vc, key, it.Size(), it.Remaining())
      ensures unchanged(it)
      ensures view == Borrowed(it)
    {
      var count := it.Size();
      WriteHeader(key, count);
      var tmp := it.Copy();
      WriteValues(tmp);
      view := Borrowed(it);
    }

    /** The first two writes of `get_iterator`: the key, then the item count. */
    method WriteHeader(key: K, count: U64)
      requires Valid()
      modifies this
      ensures Valid() && log == old(log) + SerializeU64(kc.enc(key), count)
    {
      log := log + kc.enc(key);
      log := SerializeU64(log, count);
      SerializeU64Appends(old(log) + kc.enc(key), count);
      SerializeU64Appends(kc.enc(key), count);
      AppendAssoc(old(log), kc.enc(key), SerializeU64([], count));
    }

    /**
     * The `while (tmp.next(v))` loop of `get_iterator`: writes every value
     * `tmp` has still to hand out, in order, and leaves `tmp` drained.
     */
    method WriteValues(tmp: ReduceIterator<V>)
      requires Valid() && tmp.Valid()
      modifies this, tmp
      ensures Valid() && tmp.Valid() && tmp.Remaining() == []
      ensures log == old(log) + EncodeValues(vc, old(tmp.Remaining()))
    {
      ghost var all := tmp.Remaining();
      ghost var done: seq<V> := [];
      var v: V := *;
      while true
        invariant Valid() && tmp.Valid() && |done| <= |all|
        invariant done == all[..|done|] && tmp.Remaining() == all[|done|..]
        invariant log == old(log) + EncodeValues(vc, done)
        decreases |all| - |done|
      {
        var more;
        more, v := tmp.Next(v);
        if !more {
          break;
        }
        TakeOneMore(all, |done|);
        EncodeValuesSnoc(vc, done, v);
        AppendAssoc(old(log), EncodeValues(vc, done), vc.enc(v));
        log := log + vc.enc(v);
        done := done + [v];
      }
      assert done == all;
    }
  }

  class ReplayingDebugger<K(==,!new), V(!new)> {
    const kc: Codec<Byte, K>
    const vc: Codec<Byte, V>
    /** `_kvs`: the values recorded for each key. */
    const kvs: map<K, seq<V>>

    /**
     * Loads the whole log.  The source asserts that no key comes twice; a
     * log that fails that assertion, or that is cut short inside a record,
     * is not one this constructor may be given.
     */
    constructor(kc: Codec<Byte, K>, vc: Codec<Byte, V>, data: seq<Byte>)
      requires Consumes(kc) && Consumes(vc)
      requires ParseLog(kc, vc, data, map[]).Ok?
      ensures this.kc == kc && this.vc == vc
      ensures kvs == ParseLog(kc, vc, data, map[]).value
    {
      this.kc := kc;
      this.vc := vc;
      var table: map<K, seq<V>> := map[];
      var rest := data;
      while true
        invariant ParseLog(kc, vc, rest, table) == ParseLog(kc, vc, data, map[])
        decreases |rest|
      {
        var k := kc.dec(rest);
        if k.None? {
          break;
        }
        var key := k.value.0;
        if key in table {
          assert false;
        }
        var c := DeserializeU64(k.value.1);
        if c.None? {
          assert false;
        }
        var vs, input := ReadValues(vc, c.value.1, c.value.0);
        table := table[key := vs];
        rest := input;
      }
      kvs := table;
    }

    /** The constructor's inner loop: reads the `count` values of one record. */
    static method ReadValues(vc: Codec<Byte, V>, input: seq<Byte>, count: nat) returns (vs: seq<V>, rest: seq<Byte>)
      requires Consumes(vc) && DecodeValues(vc, input, count, []).Some?
      ensures DecodeValues(vc, input, count, []) == Some((vs, rest))
    {
      vs := [];
      rest := input;
      for i := 0 to count
        invariant DecodeValues(vc, rest, count - i, vs) == DecodeValues(vc, input, count, [])
      {
        var x := vc.dec(rest);
        if x.None? {
          assert false;
        }
        vs := vs + [x.value.0];
        rest := x.value.1;
      }
    }

    /**
     * Hands out a fresh cursor over the values recorded for `key`; the live
     * iterator is not looked at.  The source asserts that `key` was recorded.
     */
    method GetIterator(key: K, it: ReduceIterator<V>) returns (view: ProxyIterator<V>)
      requires key in kvs
      ensures view.Owned? && fresh(view.cursor)
      ensures view.Valid() && view.Remaining() == kvs[key] && view.Size() == |kvs[key]|
    {
      var cursor := new LoggedIterator(kvs[key]);
      view := Owned(cursor);
    }
  }

  // ---------------------------------------------------------------------
  // Record, then replay

  /** The values of a record are read back as written, whatever follows them. */
  lemma {:induction false} DecodeEncodedValues<V(!new)>(vc: Codec<Byte, V>, vs: seq<V>, rest: seq<Byte>, acc: seq<V>)
    requires ValidCodec(vc)
    ensures DecodeValues(vc, EncodeValues(vc, vs) + rest, |vs|, acc) == Some((acc + vs, rest))
  {
    if vs == [] {
      assert EncodeValues(vc, vs) + rest == rest;
      assert acc + vs == acc;
    } else {
      var tail := EncodeValues(vc, vs[1..]) + rest;
      assert EncodeValues(vc, vs) + rest == vc.enc(vs[0]) + tail;
      assert vc.dec(vc.enc(vs[0]) + tail) == Some((vs[0], tail));
      assert DecodeValues(vc, EncodeValues(vc, vs) + rest, |vs|, acc)
          == DecodeValues(vc, tail, |vs[1..]|, acc + [vs[0]]);
      DecodeEncodedValues(vc, vs[1..], rest, acc + [vs[0]]);
      assert acc + [vs[0]] + vs[1..] == acc + vs;
    }
  }

  /**
   * Reading one recorded record off the front of the log: the key is refused
   * if the table has it already, and otherwise enters the table with exactly
   * the recorded values, the load going on with what follows the record.
   */
  lemma ParseRecord<K(!new), V(!new)>(
    kc: Codec<Byte, K>, vc: Codec<Byte, V>, key: K, vs: seq<V>, later: seq<Byte>, table: map<K, seq<V>>)
    requires ValidCodec(kc) && ValidCodec(vc) && |vs| < TWO_64
    ensures key in table ==>
              ParseLog(kc, vc, EncodeRecord(kc, vc, key, |vs|, vs) + later, table) == Err(DuplicateKey(key))
    ensures key !in table ==>
              ParseLog(kc, vc, EncodeRecord(kc, vc, key, |vs|, vs) + later, table)
                == ParseLog(kc, vc, later, table[key := vs])
  {
    var afterCount := EncodeValues(vc, vs) + later;
    var afterKey := SerializeU64([], |vs|) + afterCount;
    assert EncodeRecord(kc, vc, key, |vs|, vs) + later == kc.enc(key) + afterKey by {
      assert SerializeU64(kc.enc(key), |vs|) == kc.enc(key) + SerializeU64([], |vs|);
    }
    assert kc.dec(kc.enc(key) + afterKey) == Some((key, afterKey));
    U64RoundTrip(|vs|, afterCount);
    DecodeEncodedValues(vc, vs, later, []);
    assert [] + vs == vs;
  }

  /**
   * Replaying a log recorded for distinct keys, none of them already in the
   * table, adds exactly the recorded values under each key.
   */
  lemma {:induction false} ParseEncodedLog<K(!new), V(!new)>(
    kc: Codec<Byte, K>, vc: Codec<Byte, V>, recs: seq<(K, seq<V>)>, table: map<K, seq<V>>)
    requires ValidCodec(kc) && ValidCodec(vc)
    requires CountsFit(recs) && DistinctKeys(recs)
    requires forall i :: 0 <= i < |recs| ==> recs[i].0 !in table
    ensures ParseLog(kc, vc, EncodeLog(kc, vc, recs), table) == Ok(table + TableOf(recs))
  {
    if recs == [] {
      assert table + map[] == table;
    } else {
      var key, vs := recs[0].0, recs[0].1;
      var later := EncodeLog(kc, vc, recs[1..]);
      ParseRecord(kc, vc, key, vs, later, table);
      TailStillFresh(recs, table);
      ParseEncodedLog(kc, vc, recs[1..], table[key := vs]);
      InsertThenMerge(table, key, vs, TableOf(recs[1..]));
    }
  }

  lemma InsertThenMerge<K, V>(table: map<K, V>, key: K, v: V, later: map<K, V>)
    ensures table[key := v] + later == table + (map[key := v] + later)
  {
  }

  /** What `ParseEncodedLog` asks of its records still holds of the later ones once the first is in the table. */
  lemma TailStillFresh<K, V>(recs: seq<(K, seq<V>)>, table: map<K, seq<V>>)
    requires |recs| > 0 && CountsFit(recs) && DistinctKeys(recs)
    requires forall i :: 0 <= i < |recs| ==> recs[i].0 !in table
    ensures CountsFit(recs[1..]) && DistinctKeys(recs[1..])
    ensures forall i :: 0 <= i < |recs[1..]| ==> recs[1..][i].0 !in table[recs[0].0 := recs[0].1]
  {
    forall i | 0 <= i < |recs[1..]| ensures recs[1..][i].0 !in table[recs[0].0 := recs[0].1] {
      assert recs[1..][i] == recs[i + 1];
    }
    forall i, j | 0 <= i < j < |recs[1..]| ensures recs[1..][i].0 != recs[1..][j].0 {
      assert recs[1..][i] == recs[i + 1] && recs[1..][j] == recs[j + 1];
    }
    forall i | 0 <= i < |recs[1..]| ensures |recs[1..][i].1| < TWO_64 {
      assert recs[1..][i] == recs[i + 1];
    }
  }

  /**
   * The replay refuses a log as soon as it meets a key it has already
   * loaded: when record `j` repeats the key of an earlier record `i`, and the
   * records before `j` have distinct keys, loading stops with that key.
   */
  lemma RepeatedKeyRejected<K(!new), V(!new)>(
    kc: Codec<Byte, K>, vc: Codec<Byte, V>, recs: seq<(K, seq<V>)>, i: nat, j: nat)
    requires ValidCodec(kc) && ValidCodec(vc) && CountsFit(recs)
    requires i < j < |recs| && recs[i].0 == recs[j].0 && DistinctKeys(recs[..j])
    ensures ParseLog(kc, vc, EncodeLog(kc, vc, recs), map[]) == Err(DuplicateKey(recs[j].0))
  {
    RepeatedKeyRejectedFrom(kc, vc, recs, j, map[]);
  }

  /** The same, loading into a table that may already hold the repeated key. */
  lemma {:induction false} RepeatedKeyRejectedFrom<K(!new), V(!new)>(
    kc: Codec<Byte, K>, vc: Codec<Byte, V>, recs: seq<(K, seq<V>)>, j: nat, table: map<K, seq<V>>)
    requires ValidCodec(kc) && ValidCodec(vc) && CountsFit(recs) && j < |recs|
    requires DistinctKeys(recs[..j])
    requires forall i :: 0 <= i < j ==> recs[i].0 !in table
    requires recs[j].0 in table || exists i :: 0 <= i < j && recs[i].0 == recs[j].0
    ensures ParseLog(kc, vc, EncodeLog(kc, vc, recs), table) == Err(DuplicateKey(recs[j].0))
    decreases j
  {
    var key, vs := recs[0].0, recs[0].1;
    var tail := recs[1..];
    assert |vs| < TWO_64;
    ParseRecord(kc, vc, key, vs, EncodeLog(kc, vc, tail), table);
    if j > 0 {
      var next := table[key := vs];
      PrefixTailFresh(recs, j, table);
      RepeatedKeyRejectedFrom(kc, vc, tail, j - 1, next);
    }
  }

  /** What `RepeatedKeyRejectedFrom` asks of its records still holds of the later ones once the first is loaded. */
  lemma PrefixTailFresh<K, V>(recs: seq<(K, seq<V>)>, j: nat, table: map<K, seq<V>>)
    requires CountsFit(recs) && 0 < j < |recs| && DistinctKeys(recs[..j])
    requires forall i :: 0 <= i < j ==> recs[i].0 !in table
    requires recs[j].0 in table || exists i :: 0 <= i < j && recs[i].0 == recs[j].0
    ensures var tail, next := recs[1..], table[recs[0].0 := recs[0].1];
      CountsFit(tail) && DistinctKeys(tail[..j - 1]) &&
      (forall a :: 0 <= a < j - 1 ==> tail[a].0 !in next) &&
      (tail[j - 1].0 in next || exists a :: 0 <= a < j - 1 && tail[a].0 == tail[j - 1].0)
  {
    var tail, next := recs[1..], table[recs[0].0 := recs[0].1];
    var pre, head := tail[..j - 1], recs[..j];
    forall a | 0 <= a < |tail| ensures |tail[a].1| < TWO_64 {
      assert tail[a] == recs[a + 1];
    }
    forall a, b | 0 <= a < b < j - 1 ensures pre[a].0 != pre[b].0 {
      assert pre[a] == head[a + 1] && pre[b] == head[b + 1];
    }
    forall a | 0 <= a < j - 1 ensures tail[a].0 !in next {
      assert tail[a] == head[a + 1] && recs[0] == head[0];
    }
    assert tail[j - 1] == recs[j];
    if recs[j].0 !in table {
      var a :| 0 <= a < j && recs[a].0 == recs[j].0;
      if a > 0 {
        assert tail[a - 1] == recs[a];
      }
    }
  }

  /** A reducer that only collects, in order, every value its view hands out. */
  method Collect<V(0)>(view: ProxyIterator<V>) returns (seen: seq<V>)
    requires view.Valid()
    modifies view.Repr()
    ensures view.Valid() && seen == old(view.Remaining())
  {
    seen := [];
    ghost var all := view.Remaining();
    var v: V := *;
    while true
      invariant view.Valid() && |seen| <= |all|
      invariant seen == all[..|seen|] && view.Remaining() == all[|seen|..]
      decreases |all| - |seen|
    {
      var more;
      more, v := view.Next(v);
      if !more {
        break;
      }
      TakeOneMore(all, |seen|);
      seen := seen + [v];
    }
  }

  /**
   * One key recorded by the recording debugger and replayed by the
   * replaying one: the reducer sees the same values in both runs.
   */
  method RecordThenReplay<K(==,!new), V(0,!new)>(kc: Codec<Byte, K>, vc: Codec<Byte, V>, key: K, values: seq<V>)
    returns (replayed: seq<V>)
    requires ValidCodec(kc) && ValidCodec(vc) && |values| < TWO_64
    ensures replayed == values
  {
    var recorder := new RecordingDebugger(kc, vc);
    var live := new ReduceIterator(values);
    assert live.Remaining() == values && live.Size() == |values|;
    var _ := recorder.GetIterator(key, live);
    assert recorder.log == EncodeRecord(kc, vc, key, |values|, values);
    OneRecordLog(kc, vc, key, values);
    var replayer := new ReplayingDebugger(kc, vc, recorder.log);
    var view := replayer.GetIterator(key, live);
    replayed := Collect(view);
  }

  /** The log of a single recorded key loads as a table holding just that key. */
  lemma OneRecordLog<K(!new), V(!new)>(kc: Codec<Byte, K>, vc: Codec<Byte, V>, key: K, values: seq<V>)
    requires ValidCodec(kc) && ValidCodec(vc) && |values| < TWO_64
    ensures ParseLog(kc, vc, EncodeRecord(kc, vc, key, |values|, values), map[]) == Ok(map[key := values])
  {
    var recs := [(key, values)];
    assert EncodeRecord(kc, vc, key, |values|, values) == EncodeLog(kc, vc, recs) by {
      assert recs[1..] == [];
    }
    ParseEncodedLog(kc, vc, recs, map[]);
    assert map[] + TableOf(recs) == map[key := values];
  }

  lemma PrefixCountsFit<K, V>(recs: seq<(K, seq<V>)>, n: nat)
    requires CountsFit(recs) && n <= |recs|
    ensures CountsFit(recs[..n])
  {
    forall i | 0 <= i < n ensures |recs[..n][i].1| < TWO_64 {
      assert recs[..n][i] == recs[i];
    }
  }

  /** Replaying a whole log from an empty table rebuilds exactly the recorded table. */
  lemma ParseEncodedLogFromEmpty<K(!new), V(!new)>(kc: Codec<Byte, K>, vc: Codec<Byte, V>, recs: seq<(K, seq<V>)>)
    requires ValidCodec(kc) && ValidCodec(vc) && CountsFit(recs) && DistinctKeys(recs)
    ensures ParseLog(kc, vc, EncodeLog(kc, vc, recs), map[]) == Ok(TableOf(recs))
  {
    ParseEncodedLog(kc, vc, recs, map[]);
    assert map[] + TableOf(recs) == TableOf(recs);
  }

  /** The reducer asks the recorder for the `n`-th key's values, over a fresh container iterator. */
  method RecordNext<K, V(0)>(recorder: RecordingDebugger<K, V>, recs: seq<(K, seq<V>)>, n: nat)
    requires recorder.Valid() && CountsFit(recs) && n < |recs|
    requires recorder.log == EncodeLog(recorder.kc, recorder.vc, recs[..n])
    modifies recorder
    ensures recorder.Valid() && recorder.log == EncodeLog(recorder.kc, recorder.vc, recs[..n + 1])
  {
    var live := new ReduceIterator(recs[n].1);
    assert live.Remaining() == recs[n].1 && live.Size() == |recs[n].1|;
    var _ := recorder.GetIterator(recs[n].0, live);
    assert recs[..n + 1] == recs[..n] + [recs[n]];
    PrefixCountsFit(recs, n);
    EncodeLogSnoc(recorder.kc, recorder.vc, recs[..n], recs[n]);
  }

  /**
   * A whole recording run, one `get_iterator` call per key, followed by a
   * replaying run over the log it left: for distinct keys the replayer's
   * table holds every key with exactly the values recorded for it.
   */
  method RecordAllThenReplay<K(==,!new), V(0,!new)>(kc: Codec<Byte, K>, vc: Codec<Byte, V>, recs: seq<(K, seq<V>)>)
    returns (replayer: ReplayingDebugger<K, V>)
    requires ValidCodec(kc) && ValidCodec(vc) && CountsFit(recs) && DistinctKeys(recs)
    ensures replayer.kvs == TableOf(recs)
    ensures forall i :: 0 <= i < |recs| ==> recs[i].0 in replayer.kvs && replayer.kvs[recs[i].0] == recs[i].1
  {
    var recorder := new RecordingDebugger(kc, vc);
    for n := 0 to |recs|
      invariant recorder.Valid() && recorder.kc == kc && recorder.vc == vc
      invariant recorder.log == EncodeLog(kc, vc, recs[..n])
    {
      RecordNext(recorder, recs, n);
    }
    assert recs[..|recs|] == recs;
    ParseEncodedLogFromEmpty(kc, vc, recs);
    replayer := new ReplayingDebugger(kc, vc, recorder.log);
    TableOfLookup(recs);
  }
}
