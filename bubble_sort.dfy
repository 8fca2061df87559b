/** `Swap` and `BubbleSort` from the math extensions. `BubbleSort` takes a
    list (an array here, `None` standing for null) and a `compare` function
    that says when two neighbours must trade places; it always makes the
    full n·(n-1) comparisons, without stopping early. */
module MathExtensions {
  import opened Common

  /** `Swap(ref a, ref b)`: the two referenced values trade places. */
  method Swap<T>(a: T, b: T) returns (a': T, b': T)
    ensures a' == b && b' == a
  {
    a', b' := b, a;
  }

  /** Swapping twice puts both values back. */
  method SwapTwiceRestores<T>(a: T, b: T) returns (a'': T, b'': T)
    ensures a'' == a && b'' == b
  {
    var a', b' := Swap(a, b);
    a'', b'' := Swap(a', b');
  }

  /** `compare` says "x must come after y". On the elements of `s` it is a
      strict weak order when it is asymmetric and its negation ("x may stay
      before y") is transitive, as with "greater than" on numbers or on a
      sort key. */
  ghost predicate StrictWeakOrder<T>(s: seq<T>, compare: (T, T) -> bool)
  {
    (forall i, j {:trigger s[i], s[j]} :: 0 <= i < |s| && 0 <= j < |s| && compare(s[i], s[j]) ==> !compare(s[j], s[i])) &&
    (forall i, j, k {:trigger s[i], s[j], s[k]} ::
      0 <= i < |s| && 0 <= j < |s| && 0 <= k < |s| && !compare(s[i], s[j]) && !compare(s[j], s[k]) ==>
        !compare(s[i], s[k]))
  }

  /** Whether `compare` is a strict weak order depends only on which
      elements there are. */
  lemma StrictWeakOrderOfPermutation<T>(s: seq<T>, t: seq<T>, compare: (T, T) -> bool)
    requires multiset(s) == multiset(t) && StrictWeakOrder(s, compare)
    ensures StrictWeakOrder(t, compare)
  {
    forall i, j | 0 <= i < |t| && 0 <= j < |t| && compare(t[i], t[j])
      ensures !compare(t[j], t[i])
    {
      var i' := Occurrence(s, t, i);
      var j' := Occurrence(s, t, j);
      assert compare(s[i'], s[j']);
    }
    forall i, j, k | 0 <= i < |t| && 0 <= j < |t| && 0 <= k < |t| && !compare(t[i], t[j]) && !compare(t[j], t[k])
      ensures !compare(t[i], t[k])
    {
      var i' := Occurrence(s, t, i);
      var j' := Occurrence(s, t, j);
      var k' := Occurrence(s, t, k);
      assert !compare(s[i'], s[j']) && !compare(s[j'], s[k']);
    }
  }

  /** A position of `s` holding the element at `i` in the permutation `t`. */
  lemma Occurrence<T>(s: seq<T>, t: seq<T>, i: int) returns (i': int)
    requires multiset(s) == multiset(t) && 0 <= i < |t|
    ensures 0 <= i' < |s| && s[i'] == t[i]
  {
    assert t[i] in multiset(s);
    i' :| 0 <= i' < |s| && s[i'] == t[i];
  }

  /** Every pair in `s[lo..hi]` is in order: no earlier element must come
      after a later one. */
  ghost predicate SortedBetween<T>(s: seq<T>, lo: int, hi: int, compare: (T, T) -> bool)
    requires 0 <= lo <= hi <= |s|
  {
    forall p, q :: lo <= p < q < hi ==> !compare(s[p], s[q])
  }

  /** No element before `m` must come after an element from `m` on. */
  ghost predicate Partitioned<T>(s: seq<T>, m: int, compare: (T, T) -> bool)
    requires 0 <= m <= |s|
  {
    forall p, q :: 0 <= p < m <= q < |s| ==> !compare(s[p], s[q])
  }

  /** No neighbours are left that `compare` would exchange. */
  ghost predicate NoAdjacentInversion<T>(s: seq<T>, compare: (T, T) -> bool)
  {
    forall j :: 0 <= j < |s| - 1 ==> !compare(s[j], s[j + 1])
  }

  /** A list in order has no neighbours left to exchange. */
  lemma SortedHasNoAdjacentInversion<T>(s: seq<T>, compare: (T, T) -> bool)
    requires SortedBetween(s, 0, |s|, compare)
    ensures NoAdjacentInversion(s, compare)
  {
    forall j | 0 <= j < |s| - 1
      ensures !compare(s[j], s[j + 1])
    {
    }
  }

  /** `s` with the neighbours at `j` and `j + 1` exchanged. */
  function Exchanged<T>(s: seq<T>, j: int): (r: seq<T>)
    requires 0 <= j < |s| - 1
    ensures |r| == |s| && r[j] == s[j + 1] && r[j + 1] == s[j]
    ensures forall p :: 0 <= p < |s| && p != j && p != j + 1 ==> r[p] == s[p]
    ensures multiset(r) == multiset(s)
  {
    s[j := s[j + 1]][j + 1 := s[j]]
  }

  /** One comparison of a pass: the neighbours at `j` and `j + 1` are
      exchanged when `compare` holds for them. */
  function CompareAt<T>(s: seq<T>, j: int, compare: (T, T) -> bool): (r: seq<T>)
    requires 0 <= j < |s| - 1
    ensures |r| == |s| && multiset(r) == multiset(s)
  {
    if compare(s[j], s[j + 1]) then Exchanged(s, j) else s
  }

  /** The rest of one pass from position `j`: each neighbour pair, from the
      front, is compared once. */
  function Pass<T>(s: seq<T>, j: nat, compare: (T, T) -> bool): (r: seq<T>)
    ensures |r| == |s|
    decreases |s| - j
  {
    if j + 1 >= |s| then s else Pass(CompareAt(s, j, compare), j + 1, compare)
  }

  /** `i` full passes over `s`. */
  function Passes<T>(s: seq<T>, i: nat, compare: (T, T) -> bool): (r: seq<T>)
    ensures |r| == |s|
  {
    if i == 0 then s else Pass(Passes(s, i - 1, compare), 0, compare)
  }

  /** `BubbleSort(arr, compare)`: a null, empty or one-element list is left
      alone; otherwise `compare` is called exactly n·(n-1) times (the count
      is returned as `calls`) in n full passes, the list ends as a
      permutation of itself (only neighbours are exchanged), and when
      `compare` is a strict weak order on its elements the list ends in
      order, so no neighbours satisfy `compare`. */
  method BubbleSort<T>(arr: Option<array<T>>, compare: (T, T) -> bool) returns (calls: nat)
    modifies if arr.Some? then {arr.value} else {}
    ensures arr.None? || arr.value.Length <= 1 ==> calls == 0
    ensures arr.Some? ==> arr.value[..] == Passes(old(arr.value[..]), arr.value.Length, compare)
    ensures arr.Some? ==> calls == arr.value.Length * (arr.value.Length - 1)
    ensures arr.Some? ==> multiset(arr.value[..]) == multiset(old(arr.value[..]))
    ensures arr.Some? && StrictWeakOrder(old(arr.value[..]), compare) ==>
      SortedBetween(arr.value[..], 0, arr.value.Length, compare) && NoAdjacentInversion(arr.value[..], compare)
  {
    if arr.None? || arr.value.Length == 0 || arr.value.Length == 1 {
      if arr.Some? {
        PassesOfShort(arr.value[..], arr.value.Length, compare);
      }
      return 0;
    }
    calls := SortInPlace(arr.value, compare);
  }

  /** The two nested loops of `BubbleSort`, on a list of two or more. */
  method SortInPlace<T>(a: array<T>, compare: (T, T) -> bool) returns (calls: nat)
    requires a.Length >= 2
    modifies a
    ensures a[..] == Passes(old(a[..]), a.Length, compare)
    ensures calls == a.Length * (a.Length - 1)
    ensures multiset(a[..]) == multiset(old(a[..]))
    ensures StrictWeakOrder(old(a[..]), compare) ==>
      SortedBetween(a[..], 0, a.Length, compare) && NoAdjacentInversion(a[..], compare)
  {
    ghost var original := a[..];
    calls := 0;
    for i := 0 to a.Length
      invariant calls == i * (a.Length - 1)
      invariant a[..] == Passes(original, i, compare)
    {
      var passCalls := PassInPlace(a, compare);
      assert (i + 1) * (a.Length - 1) == i * (a.Length - 1) + (a.Length - 1);
      calls := calls + passCalls;
    }
    PassesPermute(original, a.Length, compare);
    if StrictWeakOrder(original, compare) {
      PassesSort(original, a.Length, compare);
      SortedHasNoAdjacentInversion(a[..], compare);
    }
  }

  /** The inner loop of `BubbleSort`: one pass, `compare` being called once
      for each of the `Length - 1` neighbour pairs. */
  method PassInPlace<T>(a: array<T>, compare: (T, T) -> bool) returns (calls: nat)
    requires a.Length >= 2
    modifies a
    ensures a[..] == Pass(old(a[..]), 0, compare)
    ensures calls == a.Length - 1
  {
    ghost var start := a[..];
    calls := 0;
    for j := 0 to a.Length - 1
      invariant calls == j
      invariant Pass(a[..], j, compare) == Pass(start, 0, compare)
    {
      calls := calls + 1;
      ghost var before := a[..];
      if compare(a[j], a[j + 1]) {
        ExchangeAt(a, j);
      }
      PassUnfold(before, j, compare);
    }
    assert Pass(a[..], a.Length - 1, compare) == a[..];
  }

  /** `(arr[j + 1], arr[j]) = (arr[j], arr[j + 1])`. */
  method ExchangeAt<T>(a: array<T>, j: nat)
    requires j + 1 < a.Length
    modifies a
    ensures a[..] == Exchanged(old(a[..]), j)
  {
    a[j + 1], a[j] := a[j], a[j + 1];
  }

  /** A pass from `j` is the comparison at `j` followed by the pass from
      `j + 1`. */
  lemma PassUnfold<T>(s: seq<T>, j: nat, compare: (T, T) -> bool)
    requires j + 1 < |s|
    ensures Pass(s, j, compare) == Pass(CompareAt(s, j, compare), j + 1, compare)
  {
  }

  /** A list of at most one element has no neighbours to exchange. */
  lemma {:induction false} PassesOfShort<T>(s: seq<T>, i: nat, compare: (T, T) -> bool)
    requires |s| <= 1
    ensures Passes(s, i, compare) == s
  {
    if i > 0 {
      PassesOfShort(s, i - 1, compare);
    }
  }

  /** A pass only exchanges neighbours, so it permutes the list. */
  lemma {:induction false} PassPermutes<T>(s: seq<T>, j: nat, compare: (T, T) -> bool)
    ensures multiset(Pass(s, j, compare)) == multiset(s)
    decreases |s| - j
  {
    if j + 1 < |s| {
      if compare(s[j], s[j + 1]) {
        PassPermutes(Exchanged(s, j), j + 1, compare);
      } else {
        PassPermutes(s, j + 1, compare);
      }
    }
  }

  /** Any number of passes permutes the list. */
  lemma {:induction false} PassesPermute<T>(s: seq<T>, i: nat, compare: (T, T) -> bool)
    ensures multiset(Passes(s, i, compare)) == multiset(s)
  {
    if i > 0 {
      PassesPermute(s, i - 1, compare);
      PassPermutes(Passes(s, i - 1, compare), 0, compare);
    }
  }

  /** What holds in the middle of a pass at position `j`: the part from `m`
      on is in order and behind everything before it, and a greatest
      element of the front part seen so far sits at `j` (at `m - 1` once
      the pass has gone past the front part). */
  ghost predicate PassInvariant<T>(s: seq<T>, j: int, m: int, compare: (T, T) -> bool)
    requires 0 <= j < |s| && 1 <= m <= |s|
  {
    SortedBetween(s, m, |s|, compare) && Partitioned(s, m, compare) &&
    forall p :: 0 <= p <= j && p < m ==> !compare(s[p], s[if j < m then j else m - 1])
  }

  /** With a strict weak order on the elements, a pass over a list whose
      part from `m` on is in order and behind everything before it moves a
      greatest element of the front part up to `m - 1`. */
  lemma {:induction false} PassMovesBoundary<T>(original: seq<T>, s: seq<T>, j: nat, m: int, compare: (T, T) -> bool)
    requires StrictWeakOrder(original, compare) && multiset(s) == multiset(original)
    requires j < |s| && 1 <= m <= |s|
    requires PassInvariant(s, j, m, compare)
    ensures SortedBetween(Pass(s, j, compare), m - 1, |s|, compare)
    ensures Partitioned(Pass(s, j, compare), m - 1, compare)
    decreases |s| - j
  {
    if j + 1 >= |s| {
      PassDone(original, s, m, compare);
    } else {
      PassStep(original, s, j, m, compare);
      PassMovesBoundary(original, CompareAt(s, j, compare), j + 1, m, compare);
    }
  }

  /** One comparison keeps `PassInvariant`, one position further on. */
  lemma PassStep<T>(original: seq<T>, s: seq<T>, j: int, m: int, compare: (T, T) -> bool)
    requires StrictWeakOrder(original, compare) && multiset(s) == multiset(original)
    requires 0 <= j < |s| - 1 && 1 <= m <= |s|
    requires PassInvariant(s, j, m, compare)
    ensures PassInvariant(CompareAt(s, j, compare), j + 1, m, compare)
  {
    if compare(s[j], s[j + 1]) {
      Asymmetric(original, s, j, j + 1, compare);
      PassStepSwapped(s, j, m, compare);
    } else {
      PassStepKept(original, s, j, m, compare);
    }
  }

  /** With a strict weak order, after `i` passes the last `i` positions hold
      the greatest elements, in order. */
  lemma {:induction false} PassesSort<T>(s: seq<T>, i: nat, compare: (T, T) -> bool)
    requires StrictWeakOrder(s, compare) && i <= |s|
    ensures SortedBetween(Passes(s, i, compare), |s| - i, |s|, compare)
    ensures Partitioned(Passes(s, i, compare), |s| - i, compare)
  {
    if i > 0 {
      PassesSort(s, i - 1, compare);
      var t := Passes(s, i - 1, compare);
      PassesPermute(s, i - 1, compare);
      StartOfPass(s, t, |s| - i + 1, compare);
      PassMovesBoundary(s, t, 0, |s| - i + 1, compare);
    }
  }

  /** At the start of a pass nothing of the front part has been seen but its
      first element, which is never strictly behind itself. */
  lemma StartOfPass<T>(original: seq<T>, t: seq<T>, m: int, compare: (T, T) -> bool)
    requires StrictWeakOrder(original, compare) && multiset(t) == multiset(original)
    requires 1 <= m <= |t|
    requires SortedBetween(t, m, |t|, compare) && Partitioned(t, m, compare)
    ensures PassInvariant(t, 0, m, compare)
  {
    StrictWeakOrderOfPermutation(original, t, compare);
    assert !compare(t[0], t[0]);
  }

  /** A strict weak order on the elements is asymmetric on any permutation
      of them. */
  lemma Asymmetric<T>(original: seq<T>, s: seq<T>, a: nat, b: nat, compare: (T, T) -> bool)
    requires StrictWeakOrder(original, compare) && multiset(s) == multiset(original)
    requires a < |s| && b < |s| && compare(s[a], s[b])
    ensures !compare(s[b], s[a])
  {
    StrictWeakOrderOfPermutation(original, s, compare);
  }

  /** After an exchange at `j` (which only happens inside the front part)
      the front part still holds a greatest element at `j + 1`. */
  lemma PassStepSwapped<T>(s: seq<T>, j: int, m: int, compare: (T, T) -> bool)
    requires 0 <= j < |s| - 1 && 1 <= m <= |s|
    requires compare(s[j], s[j + 1]) && !compare(s[j + 1], s[j])
    requires PassInvariant(s, j, m, compare)
    ensures PassInvariant(Exchanged(s, j), j + 1, m, compare)
  {
    var after := Exchanged(s, j);
    assert j + 1 < m;
    forall p, q | 0 <= p < m <= q < |after|
      ensures !compare(after[p], after[q])
    {
      if p == j {
        assert after[p] == s[j + 1];
      } else if p == j + 1 {
        assert after[p] == s[j];
      }
    }
    forall p | 0 <= p <= j + 1 && p < m
      ensures !compare(after[p], after[j + 1])
    {
      if p == j + 1 {
      } else if p == j {
        assert !compare(s[j + 1], s[j]);
      } else {
        assert !compare(s[p], s[j]);
      }
    }
  }

  /** Without an exchange at `j`, a greatest element of the front part seen
      so far is at `j + 1` (or stays at `m - 1` once the pass has left the
      front part). */
  lemma PassStepKept<T>(original: seq<T>, s: seq<T>, j: int, m: int, compare: (T, T) -> bool)
    requires StrictWeakOrder(original, compare) && multiset(s) == multiset(original)
    requires 0 <= j < |s| - 1 && 1 <= m <= |s|
    requires !compare(s[j], s[j + 1])
    requires PassInvariant(s, j, m, compare)
    ensures PassInvariant(s, j + 1, m, compare)
  {
    StrictWeakOrderOfPermutation(original, s, compare);
    if j + 1 < m {
      forall p | 0 <= p <= j + 1 && p < m
        ensures !compare(s[p], s[j + 1])
      {
        if p <= j {
          assert !compare(s[p], s[j]);
        }
      }
    }
  }

  /** When a pass ends, the boundary moves down by one. */
  lemma PassDone<T>(original: seq<T>, s: seq<T>, m: int, compare: (T, T) -> bool)
    requires StrictWeakOrder(original, compare) && multiset(s) == multiset(original)
    requires 1 <= m <= |s|
    requires PassInvariant(s, |s| - 1, m, compare)
    ensures SortedBetween(s, m - 1, |s|, compare) && Partitioned(s, m - 1, compare)
  {
    StrictWeakOrderOfPermutation(original, s, compare);
  }

  /** Sorting numbers with "greater than" leaves them in ascending order. */
  method BubbleSortAscending(arr: array<int>) returns (calls: nat)
    modifies arr
    ensures multiset(arr[..]) == multiset(old(arr[..]))
    ensures forall p, q :: 0 <= p < q < arr.Length ==> arr[p] <= arr[q]
  {
    calls := BubbleSort(Some(arr), (x: int, y: int) => x > y);
  }
}
