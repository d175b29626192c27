/**
 * Searching inside sequences, the way JavaScript's `indexOf`, `lastIndexOf`,
 * `includes`, `startsWith` and `split` search strings and `Buffer`s.
 */
module Seqs {
  import opened Wrappers

  /** `needle` occurs in `s` starting at index `k`. */
  predicate OccursAt<T(==)>(s: seq<T>, needle: seq<T>, k: nat) {
    k + |needle| <= |s| && s[k..k + |needle|] == needle
  }

  /**
   * `s.indexOf(needle, from)`: the first index at or after `from` where
   * `needle` occurs, or nothing when it does not occur there.
   */
  function IndexOf<T(==)>(s: seq<T>, needle: seq<T>, from: nat): (r: Option<nat>)
    ensures r.Some? ==> from <= r.value && OccursAt(s, needle, r.value)
    ensures r.Some? ==> forall k :: from <= k < r.value ==> !OccursAt(s, needle, k)
    ensures r.None? ==> forall k :: from <= k ==> !OccursAt(s, needle, k)
    decreases |s| - from
  {
    if from + |needle| > |s| then None
    else if s[from..from + |needle|] == needle then Some(from)
    else IndexOf(s, needle, from + 1)
  }

  /** `s.includes(needle)`. */
  predicate Includes<T(==)>(s: seq<T>, needle: seq<T>) {
    IndexOf(s, needle, 0).Some?
  }

  /** `Includes` holds exactly when the needle occurs somewhere. */
  lemma IncludesMeansOccurs<T>(s: seq<T>, needle: seq<T>)
    ensures Includes(s, needle) <==> exists k :: OccursAt(s, needle, k)
  {
    if !Includes(s, needle) {
      forall k: nat ensures !OccursAt(s, needle, k) {
      }
    }
  }

  /** `s.lastIndexOf(x)` for a one-element needle: the last index holding `x`. */
  function LastIndexOf<T(==)>(s: seq<T>, x: T): (r: Option<nat>)
    ensures r.Some? ==> r.value < |s| && s[r.value] == x
    ensures r.Some? ==> forall k :: r.value < k < |s| ==> s[k] != x
    ensures r.None? <==> x !in s
  {
    if |s| == 0 then None
    else if s[|s| - 1] == x then Some(|s| - 1)
    else LastIndexOf(s[..|s| - 1], x)
  }

  /** `s.startsWith(prefix)`. */
  predicate StartsWith<T(==)>(s: seq<T>, prefix: seq<T>) {
    |prefix| <= |s| && s[..|prefix|] == prefix
  }

  /** An occurrence inside a slice is an occurrence in the whole sequence. */
  lemma OccursInSlice<T>(s: seq<T>, needle: seq<T>, a: nat, b: nat, k: nat)
    requires a <= b <= |s|
    requires OccursAt(s[a..b], needle, k)
    ensures OccursAt(s, needle, a + k) && a + k + |needle| <= b
  {
    assert k + |needle| <= b - a;
    var inner := s[a..b][k..k + |needle|];
    var outer := s[a + k..a + k + |needle|];
    assert forall t :: 0 <= t < |inner| ==> inner[t] == outer[t];
    assert inner == outer;
  }

  /**
   * Where the piece that starts at `start` ends: at the next occurrence of
   * `sep`, or at the end of `s` when there is none.
   */
  function PieceEnd<T(==)>(s: seq<T>, sep: seq<T>, start: nat): (e: nat)
    requires start <= |s|
    ensures start <= e <= |s|
    ensures e == |s| || OccursAt(s, sep, e)
    ensures forall k: nat :: start <= k < e ==> !OccursAt(s, sep, k)
  {
    match IndexOf(s, sep, start)
    case None => |s|
    case Some(j) => j
  }

  /** A slice of `s` no occurrence of `sep` starts in does not contain `sep`. */
  lemma NoneInPiece<T>(s: seq<T>, sep: seq<T>, start: nat, e: nat)
    requires |sep| > 0 && start <= e <= |s|
    requires forall k: nat :: start <= k < e ==> !OccursAt(s, sep, k)
    ensures forall k: nat :: !OccursAt(s[start..e], sep, k)
  {
    forall k: nat | OccursAt(s[start..e], sep, k) ensures false {
      OccursInSlice(s, sep, start, e, k);
    }
  }

  /**
   * `s.split(sep)[1]`: the piece between the first and the second occurrence
   * of a non-empty `sep` (or the end of `s`), nothing when `sep` does not occur.
   */
  function SecondPiece<T(==)>(s: seq<T>, sep: seq<T>): (r: Option<seq<T>>)
    requires |sep| > 0
    ensures r.None? <==> forall k: nat :: !OccursAt(s, sep, k)
    ensures r.Some? ==> (
      && IndexOf(s, sep, 0).Some?
      && var start := IndexOf(s, sep, 0).value + |sep|;
      && start + |r.value| <= |s|
      && s[start..start + |r.value|] == r.value
      && (start + |r.value| == |s| || OccursAt(s, sep, start + |r.value|))
      && (forall k: nat :: start <= k < start + |r.value| ==> !OccursAt(s, sep, k)))
    ensures r.Some? ==> forall k: nat :: !OccursAt(r.value, sep, k)
  {
    match IndexOf(s, sep, 0)
    case None => None
    case Some(i) =>
      var start := i + |sep|;
      var e := PieceEnd(s, sep, start);
      NoneInPiece(s, sep, start, e);
      Some(s[start..e])
  }

  /** Past a prefix, a needle occurs where it occurs in what follows the prefix. */
  lemma OccursPastPrefix<T>(prefix: seq<T>, s: seq<T>, needle: seq<T>, k: nat)
    requires k >= |prefix|
    ensures OccursAt(prefix + s, needle, k) <==> OccursAt(s, needle, k - |prefix|)
  {
    if k + |needle| <= |prefix + s| {
      assert (prefix + s)[k..k + |needle|] == s[k - |prefix|..k - |prefix| + |needle|];
    }
  }

  /** A needle does not occur where its first element is missing. */
  lemma Mismatch<T>(s: seq<T>, needle: seq<T>, k: nat)
    requires |needle| > 0 && k < |s| && s[k] != needle[0]
    ensures !OccursAt(s, needle, k)
  {
    if k + |needle| <= |s| {
      assert s[k..k + |needle|][0] == s[k];
    }
  }

  /** Element `k` of a non-empty sequence is element `k - 1` of its tail. */
  lemma TailIndex<T>(s: seq<T>)
    requires |s| > 0
    ensures forall k :: 1 <= k < |s| ==> s[k] == s[1..][k - 1]
  {
  }

  /** Searching behind a prefix finds what searching the rest finds, shifted by the prefix. */
  lemma {:induction false} IndexOfShift<T>(prefix: seq<T>, s: seq<T>, needle: seq<T>, from: nat)
    ensures IndexOf(s, needle, from).None? ==> IndexOf(prefix + s, needle, |prefix| + from).None?
    ensures IndexOf(s, needle, from).Some? ==>
              && IndexOf(prefix + s, needle, |prefix| + from).Some?
              && IndexOf(prefix + s, needle, |prefix| + from).value == |prefix| + IndexOf(s, needle, from).value
    decreases |s| - from
  {
    var whole := prefix + s;
    var at := |prefix| + from;
    if from + |needle| > |s| {
    } else {
      assert whole[at..at + |needle|] == s[from..from + |needle|];
      if s[from..from + |needle|] != needle {
        IndexOfShift(prefix, s, needle, from + 1);
      }
    }
  }

  /** The first occurrence in `s` stays the first occurrence when `s` is extended. */
  lemma IndexOfExtend<T>(s: seq<T>, t: seq<T>, needle: seq<T>)
    requires IndexOf(s, needle, 0).Some?
    ensures IndexOf(s + t, needle, 0).Some?
    ensures IndexOf(s + t, needle, 0).value == IndexOf(s, needle, 0).value
  {
    var i := IndexOf(s, needle, 0).value;
    assert (s + t)[i..i + |needle|] == s[i..i + |needle|];
    assert OccursAt(s + t, needle, i);
    var r := IndexOf(s + t, needle, 0);
    if r.Some? && r.value < i {
      assert (s + t)[r.value..r.value + |needle|] == s[r.value..r.value + |needle|];
      assert OccursAt(s, needle, r.value);
    }
  }
}
