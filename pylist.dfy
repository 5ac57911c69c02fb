/**
 * The parts of Python's list semantics that the table operations rely on:
 * subscripting with negative indices, clamped slicing, `list.index`,
 * `list.remove`, and a comprehension that keeps the positions not listed.
 */
module PyList {
  import opened Wrappers

  /** The position that `s[i]` designates in a list of length `n`, or None
      when Python raises IndexError. Negative indices count from the end. */
  function NormIndex(i: int, n: nat): (r: Option<nat>)
    ensures r.Some? <==> -(n as int) <= i < n
    ensures r.Some? ==> r.value < n && (r.value == i || r.value == n + i)
  {
    if 0 <= i < n then Some(i) else if -(n as int) <= i < 0 then Some(n + i) else None
  }

  /** A slice bound adjusted for a list of length `n` (step 1): a negative
      bound counts from the end, and the result is clamped into [0, n]. */
  function SliceBound(i: int, n: nat): (r: nat)
    ensures r <= n
    ensures 0 <= i ==> r == if i < n then i else n
    ensures i < 0 ==> r == if n + i > 0 then n + i else 0
  {
    if i < 0 then (if n + i > 0 then n + i else 0)
    else if i < n then i
    else n
  }

  /** `s[start:stop]`: out-of-range bounds are clamped, and a window whose
      start is not before its stop is empty. */
  function Slice<T>(s: seq<T>, start: int, stop: int): seq<T>
  {
    var lo, hi := SliceBound(start, |s|), SliceBound(stop, |s|);
    if lo < hi then s[lo..hi] else []
  }

  /** Cutting a list at any bound `b` and joining the two slices gives the
      list back: `s[:b] + s[b:] == s` for every integer `b`. */
  lemma SliceSplit<T>(s: seq<T>, b: int)
    ensures Slice(s, 0, b) + Slice(s, b, |s|) == s
  {
    var m := SliceBound(b, |s|);
    assert Slice(s, 0, b) == s[..m];
    assert Slice(s, b, |s|) == s[m..];
    assert s[..m] + s[m..] == s;
  }

  /** `s.index(x)`: the first position holding `x`, or None where Python
      raises ValueError. */
  function IndexOf<T(==)>(s: seq<T>, x: T): (r: Option<nat>)
    ensures r.Some? <==> x in s
    ensures r.Some? ==> r.value < |s| && s[r.value] == x && x !in s[..r.value]
  {
    if |s| == 0 then None
    else if s[0] == x then Some(0)
    else match IndexOf(s[1..], x)
      case None => None
      case Some(k) => Some(k + 1)
  }

  /** In a list without repeated elements `.index` undoes subscripting. */
  lemma IndexOfDistinct<T>(s: seq<T>, j: nat)
    requires forall a, b :: 0 <= a < b < |s| ==> s[a] != s[b]
    requires j < |s|
    ensures IndexOf(s, s[j]) == Some(j)
  {
  }

  /** `s.remove(x)` for an `x` that occurs in `s`: drops its first occurrence. */
  function RemoveFirst<T(==)>(s: seq<T>, x: T): (r: seq<T>)
    requires x in s
    ensures |r| == |s| - 1
    ensures r == s[..IndexOf(s, x).value] + s[IndexOf(s, x).value + 1..]
  {
    if s[0] == x then s[1..]
    else
      var t := s[1..];
      assert x in t;
      var k := IndexOf(t, x).value;
      assert IndexOf(s, x).value == k + 1;
      assert [s[0]] + t[..k] == s[..k + 1];
      assert t[k + 1..] == s[k + 2..];
      [s[0]] + RemoveFirst(t, x)
  }

  /** The number of positions below `i` that are not listed in `drop`. */
  function KeptBefore(drop: seq<nat>, i: nat): (r: nat)
    ensures r <= i
  {
    if i == 0 then 0 else KeptBefore(drop, i - 1) + (if i - 1 in drop then 0 else 1)
  }

  /** `[s[i] for i in range(len(s)) if i not in drop]`. */
  function Keep<T>(s: seq<T>, drop: seq<nat>): (r: seq<T>)
    ensures |r| == KeptBefore(drop, |s|)
  {
    if |s| == 0 then []
    else Keep(s[..|s| - 1], drop) + (if |s| - 1 in drop then [] else [s[|s| - 1]])
  }

  /** The value at a kept position `i` lands at slot KeptBefore(drop, i). */
  lemma {:induction false} KeepAt<T>(s: seq<T>, drop: seq<nat>, i: nat)
    requires i < |s| && i !in drop
    ensures KeptBefore(drop, i) < |Keep(s, drop)| && Keep(s, drop)[KeptBefore(drop, i)] == s[i]
  {
    var p := s[..|s| - 1];
    if i < |p| {
      KeepAt(p, drop, i);
      KeptBeforeMono(drop, i + 1, |p|);
      assert Keep(s, drop)[KeptBefore(drop, i)] == Keep(p, drop)[KeptBefore(drop, i)];
    }
  }

  /** Every slot of Keep holds the value of some kept position. */
  lemma {:induction false} KeepFrom<T>(s: seq<T>, drop: seq<nat>, k: nat)
    requires k < |Keep(s, drop)|
    ensures exists i :: 0 <= i < |s| && i !in drop && KeptBefore(drop, i) == k && Keep(s, drop)[k] == s[i]
  {
    var p := s[..|s| - 1];
    if k < |Keep(p, drop)| {
      KeepFrom(p, drop, k);
      var i :| 0 <= i < |p| && i !in drop && KeptBefore(drop, i) == k && Keep(p, drop)[k] == p[i];
      assert Keep(s, drop)[k] == s[i];
    } else {
      assert |p| !in drop && KeptBefore(drop, |p|) == k && Keep(s, drop)[k] == s[|p|];
    }
  }

  /** Kept positions keep their order: a later kept position lands in a
      later slot. With KeepAt and KeepFrom, Keep lists exactly the values at
      the unlisted positions, in their original order. */
  lemma KeepOrder(drop: seq<nat>, i: nat, j: nat)
    requires i < j && i !in drop
    ensures KeptBefore(drop, i) < KeptBefore(drop, j)
  {
    KeptBeforeMono(drop, i + 1, j);
  }

  lemma {:induction false} KeptBeforeMono(drop: seq<nat>, i: nat, j: nat)
    requires i <= j
    ensures KeptBefore(drop, i) <= KeptBefore(drop, j)
    decreases j - i
  {
    if i < j {
      KeptBeforeMono(drop, i, j - 1);
    }
  }

  /** Keep depends only on which positions of `s` are listed. */
  lemma {:induction false} KeepSame<T>(s: seq<T>, d1: seq<nat>, d2: seq<nat>)
    requires forall p :: 0 <= p < |s| ==> (p in d1 <==> p in d2)
    ensures Keep(s, d1) == Keep(s, d2)
  {
    if |s| > 0 {
      KeepSame(s[..|s| - 1], d1, d2);
    }
  }

  /** `[x for x in s if x not in xs]`. */
  function FilterOut<T(==)>(s: seq<T>, xs: seq<T>): (r: seq<T>)
    ensures forall k :: 0 <= k < |r| ==> r[k] in s && r[k] !in xs
    ensures forall i :: 0 <= i < |s| && s[i] !in xs ==> s[i] in r
  {
    if |s| == 0 then []
    else
      var p := s[..|s| - 1];
      assert s == p + [s[|s| - 1]];
      FilterOut(p, xs) + (if s[|s| - 1] in xs then [] else [s[|s| - 1]])
  }

  /** The positions of `s` whose element occurs in `xs`, in increasing order. */
  function Matching<T(==)>(s: seq<T>, xs: seq<T>): (r: seq<nat>)
    ensures forall p :: 0 <= p < |s| ==> (p in r <==> s[p] in xs)
    ensures forall p :: p in r ==> p < |s|
  {
    if |s| == 0 then []
    else Matching(s[..|s| - 1], xs) + (if s[|s| - 1] in xs then [|s| - 1] else [])
  }

  /** Filtering by value is the positional Keep that drops the matching
      positions, so the survivors keep their relative order (KeepAt, KeepFrom,
      KeepOrder). */
  lemma {:induction false} FilterOutIsKeep<T>(s: seq<T>, xs: seq<T>)
    ensures FilterOut(s, xs) == Keep(s, Matching(s, xs))
  {
    if |s| > 0 {
      var p := s[..|s| - 1];
      FilterOutIsKeep(p, xs);
      KeepSame(p, Matching(p, xs), Matching(s, xs));
    }
  }
}
