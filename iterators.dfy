/**
 * The value cursors of debug.h: `LoggedIterator`, a single-pass cursor over
 * a vector it owns, and `ProxyIterator`, the view a reducer is handed,
 * which either borrows the live reduce iterator or owns a `LoggedIterator`
 * over values replayed from a log.
 */
module Iterators {
  import opened Container

  class LoggedIterator<T> {
    /** `_values`, the vector's own copy of the values. */
    const values: seq<T>
    /** `_it`, as an index into `values`. */
    var pos: nat

    ghost predicate Valid()
      reads this
    {
      pos <= |values|
    }

    /** The values `next` has still to hand out. */
    function Remaining(): seq<T>
      reads this
      requires Valid()
    {
      values[pos..]
    }

    /** Takes a copy of `vs` and starts at its beginning. */
    constructor(vs: seq<T>)
      ensures Valid() && values == vs && Remaining() == vs
    {
      values := vs;
      pos := 0;
    }

    /**
     * `next(v)`: hands out the stored values in order, then answers false,
     * leaving `v` as it was, on this and every later call.
     */
    method Next(v0: T) returns (more: bool, v: T)
      requires Valid()
      modifies this
      ensures Valid()
      ensures more <==> old(Remaining()) != []
      ensures more ==> v == old(Remaining())[0] && Remaining() == old(Remaining())[1..]
      ensures !more ==> v == v0 && Remaining() == old(Remaining()) == []
    {
      if pos < |values| {
        v := values[pos];
        pos := pos + 1;
        more := true;
      } else {
        v := v0;
        more := false;
      }
    }

    /** `size()`: the length of the stored vector, however far `next` has gone. */
    function Size(): (n: nat)
      reads this
      requires Valid()
      ensures n == pos + |Remaining()|
    {
      |values|
    }
  }

  /**
   * Handing out one more value of `all` after the first `n`: the values
   * handed out grow by `all[n]` and the rest shrinks by it.
   */
  lemma TakeOneMore<T>(all: seq<T>, n: nat)
    requires n < |all|
    ensures all[..n] + [all[n]] == all[..n + 1] && all[n..][1..] == all[n + 1..]
  {
  }

  /**
   * `ProxyIterator`: `Borrowed` is the shape built from the live iterator
   * (`_it1`), `Owned` the shape built from a vector (`_it2`).
   */
  datatype ProxyIterator<V> =
    | Borrowed(live: ReduceIterator<V>)
    | Owned(cursor: LoggedIterator<V>)
  {
    /** The one object the view reaches. */
    function Repr(): set<object>
    {
      match this
      case Borrowed(it) => {it}
      case Owned(it) => {it}
    }

    ghost predicate Valid()
      reads Repr()
    {
      match this
      case Borrowed(it) => it.Valid()
      case Owned(it) => it.Valid()
    }

    /** The values `next` has still to hand out, whichever shape the view has. */
    function Remaining(): seq<V>
      reads Repr()
      requires Valid()
    {
      match this
      case Borrowed(it) => it.Remaining()
      case Owned(it) => it.Remaining()
    }

    /** `size()`: delegated to whichever iterator the view holds. */
    function Size(): (n: nat)
      reads Repr()
      requires Valid()
      ensures Borrowed? ==> n == live.Size()
      ensures Owned? ==> n == cursor.Size()
    {
      match this
      case Borrowed(it) => it.Size()
      case Owned(it) => it.Size()
    }

    /** `next(v)`: delegated to whichever iterator the view holds. */
    method Next(v0: V) returns (more: bool, v: V)
      requires Valid()
      modifies Repr()
      ensures Valid()
      ensures more <==> old(Remaining()) != []
      ensures more ==> v == old(Remaining())[0] && Remaining() == old(Remaining())[1..]
      ensures !more ==> v == v0 && Remaining() == old(Remaining())
    {
      match this
      case Borrowed(it) => more, v := it.Next(v0);
      case Owned(it) => more, v := it.Next(v0);
    }
  }
}
