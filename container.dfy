/**
 * The reduce iterator that the map-reduce containers hand to a reducer.
 * Its defining header, container.h, is not part of this model; what the
 * debugger relies on is that it walks a sequence of values once with
 * `next`, reports how many values it walks with `size`/`num_items`, and
 * can be copied, the copy walking on independently.
 */
module Container {
  import Serialize

  class ReduceIterator<V> {
    /** The values the iterator walks, in order. */
    const values: seq<V>
    /** How many of them `next` has handed out. */
    var pos: nat

    ghost predicate Valid()
      reads this
    {
      pos <= |values| && |values| < Serialize.TWO_64
    }

    /** The values `next` has still to hand out. */
    function Remaining(): seq<V>
      reads this
      requires Valid()
    {
      values[pos..]
    }

    constructor(vs: seq<V>)
      requires |vs| < Serialize.TWO_64
      ensures Valid() && values == vs && pos == 0
    {
      values := vs;
      pos := 0;
    }

    /** `size()` and `num_items()`: the number of values walked, consumed or not. */
    function Size(): (n: nat)
      reads this
      requires Valid()
      ensures n == pos + |Remaining()| && n < Serialize.TWO_64
    {
      |values|
    }

    /** `next(v)`: the next value and true, or false with `v` untouched once the values are used up. */
    method Next(v0: V) returns (more: bool, v: V)
      requires Valid()
      modifies this
      ensures Valid()
      ensures more <==> old(Remaining()) != []
      ensures more ==> v == old(Remaining())[0] && Remaining() == old(Remaining())[1..]
      ensures !more ==> v == v0 && pos == old(pos)
    {
      if pos < |values| {
        v := values[pos];
        pos := pos + 1;
        more := true;
      } else {
        v := v0;
        more := false;
      }
    }

    /** The copy constructor: a new iterator at the same place, which walks on independently. */
    method Copy() returns (c: ReduceIterator<V>)
      requires Valid()
      ensures fresh(c) && c.Valid() && c.values == values && c.pos == pos
    {
      c := new ReduceIterator(values);
      c.pos := pos;
    }
  }
}
