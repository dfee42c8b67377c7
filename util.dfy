/** Bounded arithmetic and small list helpers: fairmath, distinct, groupBy,
    shuffle and sum. */
module Util {
  import opened Wrappers

  // ---------------------------------------------------------------------------
  // fairmath
  // ---------------------------------------------------------------------------

  /** The argument object of fairmath; a missing `min` or `max` is `None`. */
  datatype FairmathParams = FairmathParams(to: real, add: real, min: Option<real>, max: Option<real>)

  /** JavaScript's `bound || default`: a missing or zero bound falls back to the default. */
  function BoundOr(bound: Option<real>, default: real): real
  {
    if bound.Some? && bound.value != 0.0 then bound.value else default
  }

  function LowerBound(p: FairmathParams): real { BoundOr(p.min, 0.0) }

  function UpperBound(p: FairmathParams): real { BoundOr(p.max, 100.0) }

  function Clamp(x: real, lo: real, hi: real): real
  {
    var capped := if x < hi then x else hi;
    if lo < capped then capped else lo
  }

  /** The change fairmath applies before clamping: the delta scaled by the share of
      the range left between the value and the edge it moves toward. */
  function FairDelta(p: FairmathParams): real
    requires LowerBound(p) != UpperBound(p)
  {
    var lo, hi := LowerBound(p), UpperBound(p);
    var distanceFromEdge := if p.add >= 0.0 then hi - p.to else p.to - lo;
    (p.add / (hi - lo)) * distanceFromEdge
  }

  /** ChoiceScript-style bounded addition. The result lies in the range when the range
      is well formed; with the bounds swapped the final clamp always yields the lower bound. */
  function Fairmath(p: FairmathParams): (r: real)
    requires LowerBound(p) != UpperBound(p)
    ensures LowerBound(p) < UpperBound(p) ==> LowerBound(p) <= r <= UpperBound(p)
    ensures LowerBound(p) > UpperBound(p) ==> r == LowerBound(p)
  {
    Clamp(p.to + FairDelta(p), LowerBound(p), UpperBound(p))
  }

  /** The sign of the scaled delta follows the sign of `add` for an in-range start. */
  lemma FairDeltaSign(p: FairmathParams)
    requires LowerBound(p) < UpperBound(p)
    requires LowerBound(p) <= p.to <= UpperBound(p)
    ensures p.add >= 0.0 ==> FairDelta(p) >= 0.0
    ensures p.add < 0.0 ==> FairDelta(p) <= 0.0
    ensures p.add > 0.0 && p.to < UpperBound(p) ==> FairDelta(p) > 0.0
    ensures p.add < 0.0 && p.to > LowerBound(p) ==> FairDelta(p) < 0.0
  {
    var lo, hi := LowerBound(p), UpperBound(p);
    var scale := p.add / (hi - lo);
    assert p.add >= 0.0 ==> scale >= 0.0;
    assert p.add > 0.0 ==> scale > 0.0;
    assert p.add < 0.0 ==> scale < 0.0;
    if p.add >= 0.0 {
      assert FairDelta(p) == scale * (hi - p.to);
    } else {
      assert FairDelta(p) == scale * (p.to - lo);
    }
  }

  /** For an in-range start, a non-negative add never lowers the value and a negative
      add never raises it; a strictly positive (negative) add strictly moves the value
      unless it already sits on the edge it moves toward. */
  lemma FairmathMonotone(p: FairmathParams)
    requires LowerBound(p) < UpperBound(p)
    requires LowerBound(p) <= p.to <= UpperBound(p)
    ensures p.add >= 0.0 ==> Fairmath(p) >= p.to
    ensures p.add < 0.0 ==> Fairmath(p) <= p.to
    ensures p.add > 0.0 && p.to < UpperBound(p) ==> Fairmath(p) > p.to
    ensures p.add < 0.0 && p.to > LowerBound(p) ==> Fairmath(p) < p.to
  {
    FairDeltaSign(p);
  }

  /** An add of zero leaves an in-range value where it is. */
  lemma FairmathZeroAdd(p: FairmathParams)
    requires LowerBound(p) < UpperBound(p)
    requires LowerBound(p) <= p.to <= UpperBound(p)
    requires p.add == 0.0
    ensures Fairmath(p) == p.to
  {
    FairDeltaSign(p);
  }

  /** A value on the edge it moves toward stays on that edge. */
  lemma FairmathEdgeSticks(p: FairmathParams)
    requires LowerBound(p) < UpperBound(p)
    ensures p.to == UpperBound(p) && p.add >= 0.0 ==> Fairmath(p) == UpperBound(p)
    ensures p.to == LowerBound(p) && p.add < 0.0 ==> Fairmath(p) == LowerBound(p)
  {
    if p.to == UpperBound(p) && p.add >= 0.0 {
      assert FairDelta(p) == (p.add / (UpperBound(p) - LowerBound(p))) * 0.0;
    }
    if p.to == LowerBound(p) && p.add < 0.0 {
      assert FairDelta(p) == (p.add / (UpperBound(p) - LowerBound(p))) * 0.0;
    }
  }

  /** The worked example of the original's documentation comment: 10 plus 20 on 0..100 is 28. */
  lemma FairmathExample()
    ensures Fairmath(FairmathParams(10.0, 20.0, Some(0.0), Some(100.0))) == 28.0
  {
    var p := FairmathParams(10.0, 20.0, Some(0.0), Some(100.0));
    assert FairDelta(p) == (20.0 / 100.0) * 90.0;
  }

  /** A missing or zero `min` means 0 and a missing or zero `max` means 100, so an
      explicit `max: 0` is read as 100. */
  lemma FairmathDefaults(to: real, add: real, min: Option<real>, max: Option<real>)
    ensures min == None || min == Some(0.0) ==> LowerBound(FairmathParams(to, add, min, max)) == 0.0
    ensures max == None || max == Some(0.0) ==> UpperBound(FairmathParams(to, add, min, max)) == 100.0
    ensures min.Some? && min.value != 0.0 ==> LowerBound(FairmathParams(to, add, min, max)) == min.value
    ensures max.Some? && max.value != 0.0 ==> UpperBound(FairmathParams(to, add, min, max)) == max.value
  {
  }

  // ---------------------------------------------------------------------------
  // distinct
  // ---------------------------------------------------------------------------

  predicate NoDuplicates<T(==)>(s: seq<T>)
  {
    forall i, j :: 0 <= i < j < |s| ==> s[i] != s[j]
  }

  /** `Array.prototype.indexOf`: the first index holding `x`, or -1. */
  function IndexOf<T(==)>(s: seq<T>, x: T): (r: int)
    ensures -1 <= r < |s|
    ensures r >= 0 ==> s[r] == x && x !in s[..r]
    ensures r == -1 <==> x !in s
  {
    if |s| == 0 then -1
    else if s[0] == x then 0
    else
      var k := IndexOf(s[1..], x);
      if k == -1 then -1 else k + 1
  }

  /** The elements of `s[..n]` that sit at their own first occurrence in `s`: the
      filter of `distinct` run over a prefix. */
  function FirstOccurrences<T(==)>(s: seq<T>, n: nat): seq<T>
    requires n <= |s|
  {
    if n == 0 then []
    else FirstOccurrences(s, n - 1) + (if IndexOf(s, s[n - 1]) == n - 1 then [s[n - 1]] else [])
  }

  lemma {:induction false} FirstOccurrencesProps<T>(s: seq<T>, n: nat)
    requires n <= |s|
    ensures forall x :: x in FirstOccurrences(s, n) <==> x in s[..n]
    ensures forall i :: 0 <= i < |FirstOccurrences(s, n)| ==> IndexOf(s, FirstOccurrences(s, n)[i]) < n
    ensures forall i, j :: 0 <= i < j < |FirstOccurrences(s, n)| ==>
      IndexOf(s, FirstOccurrences(s, n)[i]) < IndexOf(s, FirstOccurrences(s, n)[j])
  {
    if n > 0 {
      FirstOccurrencesProps(s, n - 1);
      var prev := FirstOccurrences(s, n - 1);
      var x := s[n - 1];
      assert s[..n] == s[..n - 1] + [x];
      if IndexOf(s, x) != n - 1 {
        var k := IndexOf(s, x);
        assert 0 <= k < n - 1 && s[k] == x;
        assert x in s[..n - 1] by { assert s[..n - 1][k] == x; }
      }
    }
  }

  /** `distinct`: no duplicates, exactly the input's elements, each kept at its first
      occurrence so the output follows the order of first appearance. */
  function Distinct<T(==,!new)>(items: seq<T>): (r: seq<T>)
    ensures NoDuplicates(r)
    ensures forall x :: x in r <==> x in items
    ensures forall i, j :: 0 <= i < j < |r| ==> IndexOf(items, r[i]) < IndexOf(items, r[j])
  {
    FirstOccurrencesProps(items, |items|);
    assert items[..|items|] == items;
    FirstOccurrences(items, |items|)
  }

  // ---------------------------------------------------------------------------
  // groupBy
  // ---------------------------------------------------------------------------

  /** The elements of `xs` classified as `k`, in input order. */
  ghost function Select<T, K>(f: T -> K, xs: seq<T>, k: K): seq<T>
  {
    if xs == [] then []
    else Select(f, xs[..|xs| - 1], k) + (if f(xs[|xs| - 1]) == k then [xs[|xs| - 1]] else [])
  }

  /** The group object that groupBy returns: one key per class that occurs. */
  ghost function Groups<T, K>(f: T -> K, xs: seq<T>): map<K, seq<T>>
  {
    map k | k in (set x | x in xs :: f(x)) :: Select(f, xs, k)
  }

  lemma GroupsSnoc<T, K>(f: T -> K, xs: seq<T>, x: T)
    ensures Groups(f, xs + [x]) ==
      Groups(f, xs)[f(x) := (if f(x) in Groups(f, xs) then Groups(f, xs)[f(x)] else []) + [x]]
  {
    var ys := xs + [x];
    assert ys[..|ys| - 1] == xs;
    var g, g' := Groups(f, xs), Groups(f, ys);
    var h := g[f(x) := (if f(x) in g then g[f(x)] else []) + [x]];
    assert (set y | y in ys :: f(y)) == (set y | y in xs :: f(y)) + {f(x)};
    forall k | k in g'
      ensures k in h && g'[k] == h[k]
    {
      if k != f(x) {
        assert k in (set y | y in xs :: f(y));
      } else if f(x) !in g {
        assert Select(f, xs, k) == [] by { SelectEmpty(f, xs, k); }
      }
    }
    assert g'.Keys == h.Keys;
  }

  lemma {:induction false} SelectEmpty<T, K>(f: T -> K, xs: seq<T>, k: K)
    requires k !in (set y | y in xs :: f(y))
    ensures Select(f, xs, k) == []
  {
    if xs != [] {
      var init := xs[..|xs| - 1];
      assert forall y :: y in init ==> y in xs;
      assert k !in (set y | y in init :: f(y));
      SelectEmpty(f, init, k);
      assert xs[|xs| - 1] in xs;
    }
  }

  /** Group membership: `x` is in the group keyed `k` exactly when it is an input
      element classified as `k`. */
  lemma {:induction false} SelectMembers<T, K>(f: T -> K, xs: seq<T>, k: K)
    ensures forall x :: x in Select(f, xs, k) <==> x in xs && f(x) == k
  {
    if xs != [] {
      var init := xs[..|xs| - 1];
      SelectMembers(f, init, k);
      assert xs == init + [xs[|xs| - 1]];
    }
  }

  /** `groupBy`: every element lands in the group keyed by its class, and a key exists
      exactly for the classes that occur. */
  lemma GroupsMembership<T, K>(f: T -> K, xs: seq<T>)
    ensures forall k :: k in Groups(f, xs) <==> exists x :: x in xs && f(x) == k
    ensures forall x :: x in xs ==> f(x) in Groups(f, xs) && x in Groups(f, xs)[f(x)]
    ensures forall k, x :: k in Groups(f, xs) && x in Groups(f, xs)[k] ==> x in xs && f(x) == k
  {
    forall k, x | k in Groups(f, xs) && x in Groups(f, xs)[k]
      ensures x in xs && f(x) == k
    {
      GroupMemberSound(f, xs, k, x);
    }
    forall x | x in xs
      ensures f(x) in Groups(f, xs) && x in Groups(f, xs)[f(x)]
    {
      SelectMembers(f, xs, f(x));
    }
  }

  lemma GroupMemberSound<T, K>(f: T -> K, xs: seq<T>, k: K, x: T)
    requires k in Groups(f, xs) && x in Groups(f, xs)[k]
    ensures x in xs && f(x) == k
  {
    SelectMembers(f, xs, k);
    assert x in Select(f, xs, k);
  }

  /** The sum of the sizes of the groups named by `ks`. */
  ghost function GroupSizes<T, K>(f: T -> K, xs: seq<T>, ks: seq<K>): nat
  {
    if ks == [] then 0 else |Select(f, xs, ks[0])| + GroupSizes(f, xs, ks[1..])
  }

  lemma {:induction false} GroupSizesSnoc<T, K>(f: T -> K, xs: seq<T>, x: T, ks: seq<K>)
    requires NoDuplicates(ks)
    ensures GroupSizes(f, xs + [x], ks) == GroupSizes(f, xs, ks) + (if f(x) in ks then 1 else 0)
  {
    var ys := xs + [x];
    assert ys[..|ys| - 1] == xs;
    if ks != [] {
      assert NoDuplicates(ks[1..]);
      GroupSizesSnoc(f, xs, x, ks[1..]);
      if ks[0] == f(x) {
        assert f(x) !in ks[1..];
      } else {
        assert f(x) in ks <==> f(x) in ks[1..];
      }
    }
  }

  /** The group sizes add up to the input length, for any duplicate-free listing of
      the keys of the group object. */
  lemma {:induction false} GroupSizesSum<T, K>(f: T -> K, xs: seq<T>, ks: seq<K>)
    requires NoDuplicates(ks)
    requires forall k :: k in ks <==> k in Groups(f, xs)
    ensures GroupSizes(f, xs, ks) == |xs|
  {
    if xs == [] {
      GroupSizesEmpty(f, ks);
    } else {
      var init, x := xs[..|xs| - 1], xs[|xs| - 1];
      assert xs == init + [x];
      var ks' := Remove(ks, f(x));
      GroupsSnoc(f, init, x);
      assert Groups(f, xs).Keys == Groups(f, init).Keys + {f(x)};
      assert f(x) in ks;
      if f(x) in Groups(f, init) {
        GroupSizesSum(f, init, ks);
        GroupSizesSnoc(f, init, x, ks);
      } else {
        // `f(x)` is a class that only the last element introduces.
        RemoveProps(ks, f(x));
        assert forall k :: k in ks' <==> k in Groups(f, init);
        GroupSizesSum(f, init, ks');
        SelectEmpty(f, init, f(x));
        GroupSizesRemove(f, xs, ks, f(x));
        GroupSizesSnoc(f, init, x, ks');
        assert f(x) !in ks';
        GroupSizesNoKey(f, init, x, ks');
      }
    }
  }

  lemma {:induction false} GroupSizesEmpty<T, K>(f: T -> K, ks: seq<K>)
    ensures GroupSizes(f, [], ks) == 0
  {
    if ks != [] { GroupSizesEmpty(f, ks[1..]); }
  }

  lemma {:induction false} GroupSizesNoKey<T, K>(f: T -> K, xs: seq<T>, x: T, ks: seq<K>)
    requires f(x) !in ks
    ensures GroupSizes(f, xs + [x], ks) == GroupSizes(f, xs, ks)
  {
    var ys := xs + [x];
    assert ys[..|ys| - 1] == xs;
    if ks != [] {
      GroupSizesNoKey(f, xs, x, ks[1..]);
    }
  }

  /** Taking one key out of the listing removes exactly its group's size. */
  lemma {:induction false} GroupSizesRemove<T, K>(f: T -> K, xs: seq<T>, ks: seq<K>, k: K)
    requires NoDuplicates(ks) && k in ks
    ensures GroupSizes(f, xs, ks) == GroupSizes(f, xs, Remove(ks, k)) + |Select(f, xs, k)|
  {
    assert NoDuplicates(ks[1..]);
    if ks[0] != k {
      GroupSizesRemove(f, xs, ks[1..], k);
    } else {
      RemoveAbsent(ks[1..], k);
    }
  }

  lemma {:induction false} RemoveAbsent<K>(ks: seq<K>, k: K)
    requires k !in ks
    ensures Remove(ks, k) == ks
  {
    if ks != [] {
      RemoveAbsent(ks[1..], k);
    }
  }

  ghost function Remove<K>(ks: seq<K>, k: K): seq<K>
  {
    if ks == [] then [] else if ks[0] == k then Remove(ks[1..], k) else [ks[0]] + Remove(ks[1..], k)
  }

  lemma {:induction false} RemoveProps<K>(ks: seq<K>, k: K)
    requires NoDuplicates(ks)
    ensures NoDuplicates(Remove(ks, k))
    ensures forall x :: x in Remove(ks, k) <==> x in ks && x != k
  {
    if ks != [] {
      assert NoDuplicates(ks[1..]);
      RemoveProps(ks[1..], k);
      if ks[0] != k {
        assert ks[0] !in ks[1..];
      }
    }
  }

  /** `groupBy`: builds the group object by appending each element to the group of
      its class, in input order. */
  method GroupBy<T, K(==)>(f: T -> K, xs: seq<T>) returns (groups: map<K, seq<T>>)
    ensures groups == Groups(f, xs)
  {
    groups := map[];
    var i := 0;
    assert xs[..0] == [];
    while i < |xs|
      invariant 0 <= i <= |xs|
      invariant groups == Groups(f, xs[..i])
    {
      var x := xs[i];
      var k := f(x);
      var group := if k in groups then groups[k] else [];
      GroupsSnoc(f, xs[..i], x);
      assert xs[..i + 1] == xs[..i] + [x];
      groups := groups[k := group + [x]];
      i := i + 1;
    }
    assert xs[..|xs|] == xs;
  }

  // ---------------------------------------------------------------------------
  // shuffle
  // ---------------------------------------------------------------------------

  /** Swap indices for a list of length `n`: the draw for step `i` (i from n-1 down to
      1) is in `[0, i]`. Entry 0 is never used. */
  predicate ValidSwaps(n: nat, swaps: seq<nat>)
  {
    |swaps| >= n && forall i :: 0 < i < n ==> swaps[i] <= i
  }

  function Swap<T>(s: seq<T>, i: nat, j: nat): (r: seq<T>)
    requires i < |s| && j < |s|
    ensures |r| == |s| && multiset(r) == multiset(s)
  {
    s[i := s[j]][j := s[i]]
  }

  /** The swaps of steps `i` down to 1 applied to `s`. */
  function ShuffleSteps<T>(s: seq<T>, swaps: seq<nat>, i: nat): (r: seq<T>)
    requires i < |s| && ValidSwaps(|s|, swaps)
    ensures |r| == |s| && multiset(r) == multiset(s)
    decreases i
  {
    if i == 0 then s else ShuffleSteps(Swap(s, i, swaps[i]), swaps, i - 1)
  }

  /** The list shuffle produces for the given swap draws: always a permutation. */
  function Shuffled<T>(s: seq<T>, swaps: seq<nat>): (r: seq<T>)
    requires ValidSwaps(|s|, swaps)
    ensures |r| == |s| && multiset(r) == multiset(s)
  {
    if |s| == 0 then s else ShuffleSteps(s, swaps, |s| - 1)
  }

  /** A permutation has the same members. */
  lemma PermutationKeepsMembers<T>(s: seq<T>, r: seq<T>)
    requires multiset(r) == multiset(s)
    ensures forall x :: x in r <==> x in s
  {
    forall x ensures x in r <==> x in s {
      assert x in r <==> x in multiset(r);
      assert x in s <==> x in multiset(s);
    }
  }

  lemma {:induction false} NoDuplicatesCount<T>(s: seq<T>, x: T)
    requires NoDuplicates(s)
    ensures multiset(s)[x] <= 1
  {
    if s != [] {
      assert s == [s[0]] + s[1..];
      assert NoDuplicates(s[1..]) by {
        forall i, j | 0 <= i < j < |s[1..]| ensures s[1..][i] != s[1..][j] {
          assert s[1..][i] == s[i + 1] && s[1..][j] == s[j + 1];
        }
      }
      NoDuplicatesCount(s[1..], x);
      if x == s[0] {
        assert forall k :: 0 <= k < |s[1..]| ==> s[1..][k] == s[k + 1];
        assert x !in s[1..];
        assert multiset(s[1..])[x] == 0;
      }
      assert multiset(s) == multiset{s[0]} + multiset(s[1..]);
    }
  }

  /** A permutation of a list without duplicates has none either. */
  lemma PermutationKeepsNoDuplicates<T>(s: seq<T>, r: seq<T>)
    requires NoDuplicates(s) && multiset(r) == multiset(s)
    ensures NoDuplicates(r)
  {
    forall i, j | 0 <= i < j < |r| ensures r[i] != r[j] {
      if r[i] == r[j] {
        var x := r[i];
        assert r == r[..i] + [x] + r[i + 1..j] + [x] + r[j + 1..];
        assert multiset(r)[x] >= 2;
        NoDuplicatesCount(s, x);
        assert false;
      }
    }
  }

  /** Takes some member of a nonempty set, such as the next key of an object whose
      iteration order is not specified. */
  method PickMember<T>(s: set<T>) returns (x: T)
    requires s != {}
    ensures x in s
  {
    x :| x in s;
  }

  /** The destructuring swap `[a[i], a[j]] = [a[j], a[i]]`. */
  method SwapInPlace<T>(a: array<T>, i: nat, j: nat)
    requires i < a.Length && j < a.Length
    modifies a
    ensures a[..] == Swap(old(a[..]), i, j)
  {
    var t := a[i];
    a[i] := a[j];
    a[j] := t;
  }

  /** The copy loop `for (i ...) newItems[i] = items[i]` into a fresh array. */
  method CopyArray<T(0)>(items: array<T>) returns (newItems: array<T>)
    ensures fresh(newItems) && newItems[..] == items[..]
  {
    newItems := new T[items.Length];
    for i := 0 to items.Length
      invariant newItems[..i] == items[..i]
    {
      newItems[i] := items[i];
    }
  }

  /** `shuffle`: copies the list into a fresh array and swaps from the back, leaving the
      input untouched. */
  method Shuffle<T(0)>(items: array<T>, swaps: seq<nat>) returns (newItems: array<T>)
    requires ValidSwaps(items.Length, swaps)
    ensures fresh(newItems)
    ensures newItems[..] == Shuffled(old(items[..]), swaps)
    ensures multiset(newItems[..]) == multiset(old(items[..]))
  {
    var n := items.Length;
    newItems := CopyArray(items);
    ghost var s := newItems[..];
    if n == 0 {
      return;
    }
    assert ShuffleSteps(s, swaps, n - 1) == Shuffled(s, swaps);
    var i := n - 1;
    while i > 0
      invariant 0 <= i < n == newItems.Length
      invariant ShuffleSteps(newItems[..], swaps, i) == Shuffled(s, swaps)
    {
      ghost var before := newItems[..];
      SwapInPlace(newItems, i, swaps[i]);
      assert ShuffleSteps(before, swaps, i) == ShuffleSteps(newItems[..], swaps, i - 1);
      i := i - 1;
    }
  }

  // ---------------------------------------------------------------------------
  // sum
  // ---------------------------------------------------------------------------

  /** The reference sum: zero for the empty list. */
  function Total(xs: seq<int>): int
  {
    if xs == [] then 0 else xs[0] + Total(xs[1..])
  }

  function ReduceAdd(acc: int, rest: seq<int>): int
    decreases |rest|
  {
    if rest == [] then acc else ReduceAdd(acc + rest[0], rest[1..])
  }

  lemma {:induction false} ReduceAddTotal(acc: int, rest: seq<int>)
    ensures ReduceAdd(acc, rest) == acc + Total(rest)
    decreases |rest|
  {
    if rest != [] {
      ReduceAddTotal(acc + rest[0], rest[1..]);
    }
  }

  /** `sum`: `reduce` with no initial value, so the empty list is an error (`None`);
      otherwise the total of the list. */
  function Sum(xs: seq<int>): (r: Option<int>)
    ensures r.None? <==> xs == []
    ensures r.Some? ==> r.value == Total(xs)
  {
    if xs == [] then None
    else
      ReduceAddTotal(xs[0], xs[1..]);
      Some(ReduceAdd(xs[0], xs[1..]))
  }

  lemma {:induction false} TotalAppend(xs: seq<int>, ys: seq<int>)
    ensures Total(xs + ys) == Total(xs) + Total(ys)
  {
    if xs == [] {
      assert xs + ys == ys;
    } else {
      assert (xs + ys)[0] == xs[0];
      assert (xs + ys)[1..] == xs[1..] + ys;
      TotalAppend(xs[1..], ys);
    }
  }
}
