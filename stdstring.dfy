/**
 * The one member of the C++ standard library's `std::string` that the
 * string helpers lean on: `find`.  Its "not found" result `npos` is `None`.
 */
module StdString {
  import opened Wrappers

  predicate OccursAt(s: string, p: string, k: nat)
  {
    k + |p| <= |s| && s[k..k + |p|] == p
  }

  ghost predicate Contains(s: string, p: string)
  {
    exists k :: OccursAt(s, p, k)
  }

  /** `s.find(p, from)`: the first position at or after `from` where `p` occurs; None is `npos`. */
  function Find(s: string, p: string, from: nat): (r: Option<nat>)
    ensures r.Some? ==> from <= r.value && r.value + |p| <= |s|
    decreases |s| - from
  {
    if from + |p| > |s| then None
    else if s[from..from + |p|] == p then Some(from)
    else Find(s, p, from + 1)
  }

  /** `Find` returns the first occurrence at or after `from`, and `npos` exactly when there is none. */
  lemma {:induction false} FindFirst(s: string, p: string, from: nat)
    ensures Find(s, p, from).Some? ==> OccursAt(s, p, Find(s, p, from).value)
    ensures Find(s, p, from).Some? ==>
              forall k :: from <= k < Find(s, p, from).value ==> !OccursAt(s, p, k)
    ensures Find(s, p, from).None? ==> forall k :: from <= k ==> !OccursAt(s, p, k)
    decreases |s| - from
  {
    if from + |p| <= |s| && s[from..from + |p|] != p {
      FindFirst(s, p, from + 1);
    }
  }
}
