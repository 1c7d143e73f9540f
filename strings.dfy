/**
 * The string helpers of util.h: `strip`, `to_lower`, the delimiter form of
 * `split_str` and `starts_with`.  A C++ `std::string` is a `string` here.
 */
module Strings {
  import opened Wrappers
  import opened StdString

  // ---------------------------------------------------------------------
  // strip

  /**
   * `strip(str, c)`: the slice of `str` left after dropping every leading
   * and every trailing `c`.  The source walks an index up from the front and
   * another down from the back; if `str` holds nothing but `c` (or is empty)
   * the back index runs below zero, so callers must pass a string with some
   * other character in it.
   */
  method Strip(s: string, c: char) returns (r: string)
    requires exists k :: 0 <= k < |s| && s[k] != c
    ensures |r| > 0 && r[0] != c && r[|r| - 1] != c
    ensures exists i :: 0 <= i <= |s| - |r| && r == s[i..i + |r|] && OnlyOutside(s, c, i, |r|)
    ensures s[0] != c && s[|s| - 1] != c ==> r == s
  {
    ghost var w :| 0 <= w < |s| && s[w] != c;
    var i := 0;
    while s[i] == c
      invariant 0 <= i <= w
      invariant forall k :: 0 <= k < i ==> s[k] == c
      decreases w - i
    {
      i := i + 1;
    }
    var j := |s| - 1;
    while s[j] == c
      invariant w <= j < |s|
      invariant forall k :: j < k < |s| ==> s[k] == c
      decreases j
    {
      j := j - 1;
    }
    assert i <= w <= j;
    r := s[i..j + 1];
    assert r == s[i..i + |r|] && OnlyOutside(s, c, i, |r|);
  }

  /** Every character of `s` before position `i` or from `i + n` on is `c`. */
  ghost predicate OnlyOutside(s: string, c: char, i: nat, n: nat)
  {
    (forall k :: 0 <= k < i && k < |s| ==> s[k] == c) &&
    (forall k :: i + n <= k < |s| ==> s[k] == c)
  }

  // ---------------------------------------------------------------------
  // to_lower

  predicate IsUpper(c: char)
  {
    'A' <= c <= 'Z'
  }

  /** `tolower` in the "C" locale: upper-case ASCII letters map to lower case, everything else is kept. */
  function Lower(c: char): (r: char)
    ensures IsUpper(c) ==> 'a' <= r <= 'z' && r as int == c as int + 32
    ensures !IsUpper(c) ==> r == c
  {
    if IsUpper(c) then (c as int + 32) as char else c
  }

  /** `to_lower(str)`: a copy of `str` lowered character by character. */
  method ToLower(s: string) returns (r: string)
    ensures |r| == |s|
    ensures forall i :: 0 <= i < |s| ==> r[i] == Lower(s[i])
    ensures forall i :: 0 <= i < |r| ==> !IsUpper(r[i])
  {
    r := s;
    for i := 0 to |r|
      invariant |r| == |s|
      invariant forall k :: 0 <= k < i ==> r[k] == Lower(s[k])
      invariant forall k :: i <= k < |s| ==> r[k] == s[k]
    {
      r := r[i := Lower(r[i])];
    }
  }

  // ---------------------------------------------------------------------
  // find and split_str

  /**
   * The fields of `s[from..]` between successive occurrences of `d`, empty
   * fields included: the plain split that `split_str` filters.
   */
  function SplitFrom(s: string, d: string, from: nat): (r: seq<string>)
    requires |d| > 0 && from <= |s|
    ensures |r| > 0
    decreases |s| - from
  {
    match Find(s, d, from)
    case None => [s[from..]]
    case Some(e) => [s[from..e]] + SplitFrom(s, d, e + |d|)
  }

  /** The fields joined back together with `d` between them. */
  function Join(pieces: seq<string>, d: string): string
    requires |pieces| > 0
  {
    if |pieces| == 1 then pieces[0] else pieces[0] + d + Join(pieces[1..], d)
  }

  /** Joining the fields with the delimiter gives back the string: nothing is lost or reordered. */
  lemma {:induction false} JoinSplit(s: string, d: string, from: nat)
    requires |d| > 0 && from <= |s|
    ensures Join(SplitFrom(s, d, from), d) == s[from..]
    decreases |s| - from
  {
    var f := Find(s, d, from);
    if f.None? {
      assert SplitFrom(s, d, from) == [s[from..]];
    } else {
      var e := f.value;
      JoinStep(s, d, from);
      JoinSplit(s, d, e + |d|);
    }
  }

  /** Unfolding the split once, at the first delimiter. */
  lemma JoinStep(s: string, d: string, from: nat)
    requires |d| > 0 && from <= |s| && Find(s, d, from).Some?
    ensures var e := Find(s, d, from).value;
      && Join(SplitFrom(s, d, from), d) == s[from..e] + d + Join(SplitFrom(s, d, e + |d|), d)
      && s[from..] == s[from..e] + d + s[e + |d|..]
  {
    var e := Find(s, d, from).value;
    FindFirst(s, d, from);
    SliceAround(s, d, from, e);
    var later := SplitFrom(s, d, e + |d|);
    assert SplitFrom(s, d, from) == [s[from..e]] + later;
    JoinCons(s[from..e], later, d);
  }

  lemma JoinCons(x: string, rest: seq<string>, d: string)
    requires |rest| > 0
    ensures Join([x] + rest, d) == x + d + Join(rest, d)
  {
    assert ([x] + rest)[0] == x && ([x] + rest)[1..] == rest;
  }

  /** The text from `from` on, cut around an occurrence of `d` at `e`. */
  lemma SliceAround(s: string, d: string, from: nat, e: nat)
    requires from <= e && OccursAt(s, d, e)
    ensures s[from..] == s[from..e] + d + s[e + |d|..]
  {
    assert s[from..] == s[from..e] + s[e..e + |d|] + s[e + |d|..];
  }

  /** No field contains the delimiter. */
  lemma {:induction false} SplitFieldsFree(s: string, d: string, from: nat)
    requires |d| > 0 && from <= |s|
    ensures forall x :: x in SplitFrom(s, d, from) ==> !Contains(x, d)
    decreases |s| - from
  {
    FindFirst(s, d, from);
    match Find(s, d, from)
    case None =>
      forall k: nat ensures !OccursAt(s[from..], d, k) {
        if k + |d| <= |s| - from {
          assert s[from..][k..k + |d|] == s[from + k..from + k + |d|];
          assert !OccursAt(s, d, from + k);
        }
      }
    case Some(e) =>
      SplitFieldsFree(s, d, e + |d|);
      forall k: nat ensures !OccursAt(s[from..e], d, k) {
        if k + |d| <= e - from {
          assert from + k < e <= |s|;
          assert s[from..e][k..k + |d|] == s[from + k..from + k + |d|];
          assert !OccursAt(s, d, from + k);
        }
      }
  }

  /**
   * The fields `split_str` keeps from `s[from..]`, appended to `acc`: the
   * source's loop run as a recursion, one turn per call.
   */
  function Kept(s: string, d: string, from: nat, acc: seq<string>): seq<string>
    requires |d| > 0 && from <= |s|
    decreases |s| - from
  {
    if from == |s| then acc
    else match Find(s, d, from)
      case None => acc + [s[from..]]
      case Some(e) => Kept(s, d, e + |d|, if e > from then acc + [s[from..e]] else acc)
  }

  /** The non-empty members of `xs`, in order. */
  function NonEmpty(xs: seq<string>): seq<string>
  {
    if xs == [] then []
    else (if |xs[0]| > 0 then [xs[0]] else []) + NonEmpty(xs[1..])
  }

  lemma {:induction false} NonEmptyMembers(xs: seq<string>)
    ensures forall x :: x in NonEmpty(xs) ==> x in xs && |x| > 0
  {
    if xs != [] {
      NonEmptyMembers(xs[1..]);
    }
  }

  /** `split_str` keeps exactly the non-empty fields of the plain split, in order. */
  lemma {:induction false} KeptIsNonEmptySplit(s: string, d: string, from: nat, acc: seq<string>)
    requires |d| > 0 && from <= |s|
    ensures Kept(s, d, from, acc) == acc + NonEmpty(SplitFrom(s, d, from))
    decreases |s| - from
  {
    var f := Find(s, d, from);
    if f.None? {
      KeptLast(s, d, from, acc);
    } else {
      var field := KeptStep(s, d, from, acc);
      var later := SplitFrom(s, d, f.value + |d|);
      KeptIsNonEmptySplit(s, d, f.value + |d|, acc + field);
      Regroup(acc, field, NonEmpty(later), Kept(s, d, from, acc), Kept(s, d, f.value + |d|, acc + field),
        NonEmpty(SplitFrom(s, d, from)));
    }
  }

  /** The bookkeeping of one step of the induction above. */
  lemma Regroup<T>(acc: seq<T>, field: seq<T>, later: seq<T>, kept: seq<T>, keptLater: seq<T>, all: seq<T>)
    requires kept == keptLater && keptLater == (acc + field) + later && all == field + later
    ensures kept == acc + all
  {
  }

  /** The last turn of the loop: no delimiter is left, and the tail, if any, is kept. */
  lemma KeptLast(s: string, d: string, from: nat, acc: seq<string>)
    requires |d| > 0 && from <= |s| && Find(s, d, from).None?
    ensures Kept(s, d, from, acc) == acc + NonEmpty(SplitFrom(s, d, from))
  {
    assert SplitFrom(s, d, from) == [s[from..]];
    NonEmptyCons(s[from..], []);
    assert [s[from..]] + [] == [s[from..]];
    if from == |s| {
      assert acc + [] == acc;
    }
  }

  /** One turn of the loop that meets a delimiter: the field before it is kept when it is not empty. */
  lemma KeptStep(s: string, d: string, from: nat, acc: seq<string>) returns (field: seq<string>)
    requires |d| > 0 && from <= |s| && Find(s, d, from).Some?
    ensures var e := Find(s, d, from).value;
      && field == (if e > from then [s[from..e]] else [])
      && Kept(s, d, from, acc) == Kept(s, d, e + |d|, acc + field)
      && NonEmpty(SplitFrom(s, d, from)) == field + NonEmpty(SplitFrom(s, d, e + |d|))
  {
    var e := Find(s, d, from).value;
    field := if e > from then [s[from..e]] else [];
    assert from < |s|;
    assert acc + [] == acc;
    NonEmptyCons(s[from..e], SplitFrom(s, d, e + |d|));
  }

  lemma NonEmptyCons(x: string, xs: seq<string>)
    ensures NonEmpty([x] + xs) == (if |x| > 0 then [x] else []) + NonEmpty(xs)
  {
    assert ([x] + xs)[0] == x && ([x] + xs)[1..] == xs;
  }

  /** What `split_str(s, d)` returns: the non-empty fields of `s` between occurrences of `d`. */
  function Split(s: string, d: string): seq<string>
    requires |d| > 0
  {
    NonEmpty(SplitFrom(s, d, 0))
  }

  /** Every field `split_str` keeps is non-empty and free of the delimiter. */
  lemma SplitPiecesFree(s: string, d: string)
    requires |d| > 0
    ensures forall x :: x in Split(s, d) ==> |x| > 0 && !Contains(x, d)
  {
    NonEmptyMembers(SplitFrom(s, d, 0));
    SplitFieldsFree(s, d, 0);
  }

  /** The loop of `split_str` moving past a delimiter keeps what `Kept` describes. */
  lemma KeptAdvance(s: string, d: string, from: nat, before: seq<string>, after: seq<string>)
    requires |d| > 0 && from <= |s| && Find(s, d, from).Some?
    requires var e := Find(s, d, from).value; after == if e > from then before + [s[from..e]] else before
    ensures Kept(s, d, Find(s, d, from).value + |d|, after) == Kept(s, d, from, before)
  {
    var field := KeptStep(s, d, from, before);
    assert before + [] == before;
  }

  /** A non-empty string without the delimiter comes back whole. */
  lemma SplitWithoutDelimiter(s: string, d: string)
    requires |d| > 0 && |s| > 0 && !Contains(s, d)
    ensures Split(s, d) == [s]
  {
    FindFirst(s, d, 0);
    assert s[0..] == s;
    assert SplitFrom(s, d, 0) == [s];
    assert NonEmpty([s]) == [s] + NonEmpty([]);
  }

  /**
   * `split_str(str, splitter)`: the non-empty fields of `str` between
   * occurrences of `splitter`, left to right.  With an empty `splitter` the
   * source's loop never advances, so callers must pass a non-empty one.
   */
  method SplitStr(s: string, d: string) returns (pieces: seq<string>)
    requires |d| > 0
    ensures pieces == Split(s, d)
    ensures forall i :: 0 <= i < |pieces| ==> |pieces[i]| > 0 && !Contains(pieces[i], d)
    ensures |s| > 0 && !Contains(s, d) ==> pieces == [s]
  {
    pieces := [];
    var start := 0;
    while start < |s|
      invariant 0 <= start <= |s|
      invariant Kept(s, d, start, pieces) == Kept(s, d, 0, [])
      decreases |s| - start
    {
      ghost var before := pieces;
      var end := Find(s, d, start);
      if end.None? || end.value > start {
        var stop := if end.None? then |s| else end.value;
        pieces := pieces + [s[start..stop]];
      }
      if end.None? {
        assert s[start..|s|] == s[start..];
        assert Kept(s, d, start, before) == pieces;
        break;
      }
      KeptAdvance(s, d, start, before, pieces);
      start := end.value + |d|;
    }
    KeptIsNonEmptySplit(s, d, 0, []);
    SplitPiecesFree(s, d);
    if |s| > 0 && !Contains(s, d) {
      SplitWithoutDelimiter(s, d);
    }
  }

  // ---------------------------------------------------------------------
  // starts_with

  /** `starts_with(str, pattern)`: whether `pattern` is a prefix of `str`. */
  function StartsWith(s: string, p: string): (b: bool)
    ensures b <==> exists t :: s == p + t
  {
    if |s| >= |p| && s[..|p|] == p then
      assert s == p + s[|p|..];
      true
    else
      false
  }
}
