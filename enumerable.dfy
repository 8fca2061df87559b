/** Collection helpers: inserting a slot into an array, circular indexing,
    dictionary get-or-add, predicate search, in-place filling, the seeded
    Fisher–Yates shuffle and the "is shuffled" test. Arrays and lists
    (`T[]`, `IList<T>`) are Dafny arrays; a lazily enumerated `IEnumerable<T>`
    is a sequence value. */
module Enumerables {
  import opened Common

  // ---------------------------------------------------------------------
  // InsertAt

  /** `s` with `x` inserted before position `index`. */
  function Inserted<T>(s: seq<T>, index: nat, x: T): (r: seq<T>)
    requires index <= |s|
  {
    s[..index] + [x] + s[index..]
  }

  /** Taking the inserted slot out again gives back the original. */
  lemma InsertedRemoved<T>(s: seq<T>, index: nat, x: T)
    requires index <= |s|
    ensures |Inserted(s, index, x)| == |s| + 1
    ensures Inserted(s, index, x)[index] == x
    ensures Inserted(s, index, x)[..index] + Inserted(s, index, x)[index + 1..] == s
  {
    var r := Inserted(s, index, x);
    assert r[..index] == s[..index];
    assert r[index + 1..] == s[index..];
    assert s[..index] + s[index..] == s;
  }

  /** `InsertAt`: for an index outside 0..Length the same array is returned
      (after logging); otherwise a new array one longer, holding `default(T)`
      (passed in as `zero`) at `index`, the elements before it in place and
      the ones from it on shifted up by one. */
  method InsertAt<T>(arr: array<T>, index: int, zero: T) returns (r: array<T>)
    ensures (index < 0 || index > arr.Length) ==> r == arr
    ensures 0 <= index <= arr.Length ==> fresh(r) && r[..] == Inserted(arr[..], index, zero)
  {
    if index < 0 || index > arr.Length {
      return arr;
    }
    var newArray := new T[arr.Length + 1](_ => zero);
    var index1 := 0;
    for index2 := 0 to newArray.Length
      invariant index1 == if index2 <= index then index2 else index2 - 1
      invariant forall k :: 0 <= k < index2 && k < index ==> newArray[k] == arr[k]
      invariant forall k :: index < k < index2 ==> newArray[k] == arr[k - 1]
      invariant newArray[index] == zero
    {
      if index2 == index {
        continue;
      }
      newArray[index2] := arr[index1];
      index1 := index1 + 1;
    }
    assert newArray[..] == Inserted(arr[..], index, zero) by {
      var want := Inserted(arr[..], index, zero);
      forall k | 0 <= k < newArray.Length
        ensures newArray[k] == want[k]
      {
        if k < index {
          assert want[k] == arr[..index][k];
        } else if k == index {
          assert want[k] == ([zero] + arr[index..])[0];
        } else {
          assert want[k] == arr[index..][k - index - 1];
        }
      }
    }
    return newArray;
  }

  // ---------------------------------------------------------------------
  // IsNullOrEmpty

  /** `IsNullOrEmpty` for arrays, lists and other enumerables (`None` is a
      null reference): true exactly when there is nothing to enumerate. */
  function IsNullOrEmpty<T>(collection: Option<seq<T>>): (b: bool)
    ensures b <==> collection.None? || forall x :: x !in collection.value
  {
    if collection.None? then true
    else
      assert |collection.value| > 0 ==> collection.value[0] in collection.value;
      |collection.value| == 0
  }

  // ---------------------------------------------------------------------
  // NextIndexInCircle

  /** C#'s `%` on `int`: the remainder takes the sign of the dividend. */
  function TruncatedRemainder(a: int, n: int): (r: int)
    requires n > 0
    ensures -n < r < n
    ensures a >= 0 ==> r >= 0
    ensures a < 0 ==> r <= 0
  {
    if a >= 0 then a % n else -((-a) % n)
  }

  /** `NextIndexInCircle`: -1 for a null or empty array, 0 for a single
      element, and otherwise `(position % length + length) % length` with
      C#'s truncating `%`. Whatever the length, a non-empty array gets the
      index in 0..length-1 that is congruent to the position modulo the
      length, which is Dafny's (Euclidean) `%`. */
  function NextIndexInCircle<T>(collection: Option<seq<T>>, desiredPosition: int): (i: int)
    ensures IsNullOrEmpty(collection) ==> i == -1
    ensures !IsNullOrEmpty(collection) ==> 0 <= i < |collection.value| && i == desiredPosition % |collection.value|
  {
    if IsNullOrEmpty(collection) then -1
    else
      var length := |collection.value|;
      if length == 1 then 0
      else
        ShiftedRemainder(desiredPosition, length);
        (TruncatedRemainder(desiredPosition, length) + length) % length
  }

  /** The quotient-remainder decomposition determines the remainder. */
  lemma RemainderUnique(x: int, q: int, r: int, n: int)
    requires n > 0 && 0 <= r < n && x == q * n + r
    ensures x % n == r
  {
    var q0, r0 := x / n, x % n;
    assert x == q0 * n + r0;
    assert (q - q0) * n == r0 - r;
    MultipleBound(q - q0, n);
    assert q == q0;
  }

  /** A non-zero multiple of `n` is at least `n` away from zero. */
  lemma MultipleBound(d: int, n: int)
    requires n > 0
    ensures d >= 1 ==> d * n >= n
    ensures d <= -1 ==> d * n <= -n
  {
    if d >= 1 {
      assert d * n == (d - 1) * n + n;
    } else if d <= -1 {
      assert d * n == (d + 1) * n - n;
    }
  }

  /** Shifting the truncated remainder up by `n` and reducing again gives
      the Euclidean remainder. */
  lemma ShiftedRemainder(a: int, n: int)
    requires n > 0
    ensures (TruncatedRemainder(a, n) + n) % n == a % n
  {
    if a >= 0 {
      RemainderUnique(a % n + n, 1, a % n, n);
    } else {
      var q, m := (-a) / n, (-a) % n;
      assert -a == q * n + m;
      if m == 0 {
        RemainderUnique(a, -q, 0, n);
        RemainderUnique(n, 1, 0, n);
      } else {
        RemainderUnique(a, -q - 1, n - m, n);
        RemainderUnique(n - m, 0, n - m, n);
      }
    }
  }

  /** Stepping one before the first element wraps to the last one, one past
      the last wraps to the first, and a whole turn lands where it began. */
  lemma NextIndexInCircleWraps<T>(items: seq<T>)
    requires |items| >= 1
    ensures NextIndexInCircle(Some(items), -1) == |items| - 1
    ensures NextIndexInCircle(Some(items), |items|) == 0
    ensures forall p :: NextIndexInCircle(Some(items), p + |items|) == NextIndexInCircle(Some(items), p)
  {
    var n := |items|;
    RemainderUnique(-1, -1, n - 1, n);
    RemainderUnique(n, 1, 0, n);
    forall p ensures NextIndexInCircle(Some(items), p + n) == NextIndexInCircle(Some(items), p) {
      var q, r := p / n, p % n;
      assert p == q * n + r;
      assert p + n == (q + 1) * n + r;
      RemainderUnique(p + n, q + 1, r, n);
    }
  }

  // ---------------------------------------------------------------------
  // GetOrAdd

  /** An `IDictionary<TKey, TValue>` whose entries are updated in place. */
  class Dictionary<K(==), V> {
    var items: map<K, V>

    constructor (items: map<K, V>)
      ensures this.items == items
    {
      this.items := items;
    }
  }

  /** `GetOrAdd(key, value)`: a missing key is added with `value`; an
      existing entry is never overwritten; the stored entry is returned. */
  method GetOrAdd<K(==), V>(source: Dictionary<K, V>, key: K, value: V) returns (stored: V)
    modifies source
    ensures key in old(source.items) ==> source.items == old(source.items)
    ensures key !in old(source.items) ==> source.items == old(source.items)[key := value]
    ensures key in source.items && stored == source.items[key]
  {
    if key !in source.items {
      source.items := source.items[key := value];
    }
    return source.items[key];
  }

  /** `GetOrAdd(key, valueFactory)`: as above, the factory being consulted
      only for a missing key. */
  method GetOrAddBy<K(==), V>(source: Dictionary<K, V>, key: K, valueFactory: K -> V) returns (stored: V)
    modifies source
    ensures key in old(source.items) ==> source.items == old(source.items)
    ensures key !in old(source.items) ==> source.items == old(source.items)[key := valueFactory(key)]
    ensures key in source.items && stored == source.items[key]
  {
    if key !in source.items {
      source.items := source.items[key := valueFactory(key)];
    }
    return source.items[key];
  }

  /** `GetOrAdd(key, valueFactory, factoryArgument)`: the factory receives
      the key and the extra argument. */
  method GetOrAddWith<K(==), V, A>(source: Dictionary<K, V>, key: K, valueFactory: (K, A) -> V, factoryArgument: A)
    returns (stored: V)
    modifies source
    ensures key in old(source.items) ==> source.items == old(source.items)
    ensures key !in old(source.items) ==> source.items == old(source.items)[key := valueFactory(key, factoryArgument)]
    ensures key in source.items && stored == source.items[key]
  {
    if key !in source.items {
      source.items := source.items[key := valueFactory(key, factoryArgument)];
    }
    return source.items[key];
  }

  /** A second `GetOrAdd` of the same key returns the first one's entry,
      whatever value it offers, and leaves the dictionary as it was. */
  method GetOrAddTwice<K(==), V>(items: map<K, V>, key: K, first: V, second: V) returns (a: V, b: V, after: map<K, V>)
    ensures a == b
    ensures key in items ==> a == items[key] && after == items
    ensures key !in items ==> a == first && after == items[key := first]
  {
    var d := new Dictionary(items);
    a := GetOrAdd(d, key, first);
    b := GetOrAdd(d, key, second);
    after := d.items;
  }

  // ---------------------------------------------------------------------
  // FirstIndex / LastIndex

  /** `FirstIndex`: the smallest index whose element matches, or -1. */
  method FirstIndex<T>(source: seq<T>, matches: T -> bool) returns (index: int)
    ensures -1 <= index < |source|
    ensures index == -1 <==> forall k :: 0 <= k < |source| ==> !matches(source[k])
    ensures index >= 0 ==> matches(source[index]) && forall k :: 0 <= k < index ==> !matches(source[k])
  {
    for i := 0 to |source|
      invariant forall k :: 0 <= k < i ==> !matches(source[k])
    {
      if matches(source[i]) {
        return i;
      }
    }
    return -1;
  }

  /** `LastIndex`: the largest index whose element matches, or -1. */
  method LastIndex<T>(source: seq<T>, matches: T -> bool) returns (index: int)
    ensures -1 <= index < |source|
    ensures index == -1 <==> forall k :: 0 <= k < |source| ==> !matches(source[k])
    ensures index >= 0 ==> matches(source[index]) && forall k :: index < k < |source| ==> !matches(source[k])
  {
    var i := |source| - 1;
    while i >= 0
      invariant -1 <= i < |source|
      invariant forall k :: i < k < |source| ==> !matches(source[k])
    {
      if matches(source[i]) {
        return i;
      }
      i := i - 1;
    }
    return -1;
  }

  /** The first match never comes after the last one, and both searches
      agree on whether there is a match at all. */
  method FirstIndexAtMostLastIndex<T>(source: seq<T>, matches: T -> bool) returns (first: int, last: int)
    ensures first <= last
    ensures first == -1 <==> last == -1
    ensures first == last ==> forall k :: 0 <= k < |source| && k != first ==> !matches(source[k])
  {
    first := FirstIndex(source, matches);
    last := LastIndex(source, matches);
  }

  // ---------------------------------------------------------------------
  // FillBy

  /** `FillBy`: every element `i` becomes `valueFactory(i)`, in place; the
      same collection is returned. */
  method FillBy<T>(source: array<T>, valueFactory: int -> T) returns (r: array<T>)
    modifies source
    ensures r == source
    ensures forall i :: 0 <= i < source.Length ==> source[i] == valueFactory(i)
  {
    for i := 0 to source.Length
      invariant forall k :: 0 <= k < i ==> source[k] == valueFactory(k)
    {
      source[i] := valueFactory(i);
    }
    return source;
  }

  // ---------------------------------------------------------------------
  // GetList and the seeded Shuffle

  /** What `GetList` is given: an array or `IList<T>`, which it returns as
      it is, or any other enumerable, which it copies into a new list. */
  datatype Enumerable<T> = Collection(items: array<T>) | Sequence(elements: seq<T>)

  function Footprint<T>(e: Enumerable<T>): set<object>
  {
    if e.Collection? then {e.items} else {}
  }

  /** The elements an enumerable yields. */
  function Contents<T>(e: Enumerable<T>): seq<T>
    reads Footprint(e)
  {
    if e.Collection? then e.items[..] else e.elements
  }

  /** `GetList`: the caller's own array or list, or a fresh list holding
      the enumerated elements. */
  method GetList<T>(list: Enumerable<T>) returns (r: array<T>)
    ensures list.Collection? ==> r == list.items
    ensures list.Sequence? ==> fresh(r) && r[..] == list.elements
  {
    if list.Collection? {
      return list.items;
    }
    var s := list.elements;
    r := new T[|s|](i requires 0 <= i < |s| => s[i]);
  }

  /** `s` with the elements at `i` and `j` exchanged. */
  function Swapped<T>(s: seq<T>, i: nat, j: nat): (r: seq<T>)
    requires i < |s| && j < |s|
    ensures |r| == |s| && r[i] == s[j] && r[j] == s[i]
    ensures forall k :: 0 <= k < |s| && k != i && k != j ==> r[k] == s[k]
    ensures multiset(r) == multiset(s)
  {
    s[i := s[j]][j := s[i]]
  }

  /** Whether `draws` can feed the shuffle of the first `n` positions:
      draw `t` (for `t` from 0) answers `Next(n - t)`, so it lies in
      0..n-1-t, and one draw is made for each `n` from the top down to 2. */
  predicate ValidDraws(n: nat, draws: seq<int>)
  {
    |draws| == (if n <= 1 then 0 else n - 1) &&
    forall t :: 0 <= t < |draws| ==> 0 <= draws[t] < n - t
  }

  /** The seeded Fisher–Yates shuffle of the first `n` positions of `s`:
      while `n > 1`, `n` is decremented and position `n` is exchanged with
      the drawn position `k` in 0..n. */
  function ShuffleSteps<T>(s: seq<T>, n: nat, draws: seq<int>): (r: seq<T>)
    requires n <= |s| && ValidDraws(n, draws)
    ensures |r| == |s|
    decreases n
  {
    if n <= 1 then s
    else ShuffleSteps(Swapped(s, draws[0], n - 1), n - 1, draws[1..])
  }

  /** The shuffle is a permutation and leaves positions from `n` on alone. */
  lemma {:induction false} ShuffleStepsPermutes<T>(s: seq<T>, n: nat, draws: seq<int>)
    requires n <= |s| && ValidDraws(n, draws)
    ensures multiset(ShuffleSteps(s, n, draws)) == multiset(s)
    ensures ShuffleSteps(s, n, draws)[n..] == s[n..]
    decreases n
  {
    if n > 1 {
      var s' := Swapped(s, draws[0], n - 1);
      ShuffleStepsPermutes(s', n - 1, draws[1..]);
      assert s'[n..] == s[n..];
      assert ShuffleSteps(s', n - 1, draws[1..])[n..] == ShuffleSteps(s', n - 1, draws[1..])[n - 1..][1..];
    }
  }

  /** Drawing the top position every time exchanges nothing. */
  lemma {:induction false} ShuffleStepsIdentity<T>(s: seq<T>, n: nat, draws: seq<int>)
    requires n <= |s| && ValidDraws(n, draws)
    requires forall t :: 0 <= t < |draws| ==> draws[t] == n - 1 - t
    ensures ShuffleSteps(s, n, draws) == s
    decreases n
  {
    if n > 1 {
      assert Swapped(s, draws[0], n - 1) == s;
      ShuffleStepsIdentity(s, n - 1, draws[1..]);
    }
  }

  /** A two-element shuffle swaps exactly when the draw is 0. */
  lemma ShuffleStepsOfTwo<T>(a: T, b: T, k: int)
    requires 0 <= k < 2
    ensures ShuffleSteps([a, b], 2, [k]) == if k == 0 then [b, a] else [a, b]
  {
    assert ValidDraws(2, [k]);
    var s' := Swapped([a, b], k, 1);
    assert [k][1..] == [];
    assert ShuffleSteps([a, b], 2, [k]) == ShuffleSteps(s', 1, []);
    if k == 0 {
      assert s' == [b, a];
    } else {
      assert s' == [a, b];
    }
  }

  /** One round of the shuffle, taking the draw at `t`. */
  lemma ShuffleStep<T>(s: seq<T>, n: nat, draws: seq<int>, t: nat)
    requires 1 < n <= |s| && t <= |draws| && ValidDraws(n, draws[t..])
    ensures 0 <= draws[t] < n && ValidDraws(n - 1, draws[t + 1..])
    ensures ShuffleSteps(s, n, draws[t..]) == ShuffleSteps(Swapped(s, draws[t], n - 1), n - 1, draws[t + 1..])
  {
    assert draws[t..][0] == draws[t];
    assert draws[t..][1..] == draws[t + 1..];
  }

  /** The seeded `Shuffle(list, Random)`, with the values `Random.Next`
      returns supplied as `draws`: the list `GetList` yields is permuted in
      place and returned, so an array or `IList<T>` argument is itself
      shuffled and returned. */
  method Shuffle<T>(list: Enumerable<T>, draws: seq<int>) returns (r: array<T>)
    requires ValidDraws(|Contents(list)|, draws)
    modifies Footprint(list)
    ensures list.Collection? ==> r == list.items
    ensures list.Sequence? ==> fresh(r)
    ensures r.Length == |old(Contents(list))|
    ensures r[..] == ShuffleSteps(old(Contents(list)), r.Length, draws)
    ensures multiset(r[..]) == multiset(old(Contents(list)))
  {
    var newList := GetList(list);
    ShuffleInPlace(newList, draws);
    return newList;
  }

  /** The swap loop of `Shuffle`, on the list `GetList` returned. */
  method ShuffleInPlace<T>(newList: array<T>, draws: seq<int>)
    requires ValidDraws(newList.Length, draws)
    modifies newList
    ensures newList[..] == ShuffleSteps(old(newList[..]), newList.Length, draws)
    ensures multiset(newList[..]) == multiset(old(newList[..]))
  {
    ghost var original := newList[..];
    var n := newList.Length;
    var t := 0;
    while n > 1
      invariant 0 <= n <= newList.Length
      invariant t + n == newList.Length || (t == 0 && newList.Length <= 1)
      invariant t <= |draws| && ValidDraws(n, draws[t..])
      invariant ShuffleSteps(newList[..], n, draws[t..]) == ShuffleSteps(original, newList.Length, draws)
    {
      ghost var before := newList[..];
      ShuffleStep(before, n, draws, t);
      n := n - 1;
      var k := draws[t];
      SwapAt(newList, k, n);
      t := t + 1;
    }
    assert draws[t..] == [];
    ShuffleStepsPermutes(original, newList.Length, draws);
  }

  /** Exchanges two elements of an array in place. */
  method SwapAt<T>(a: array<T>, i: nat, j: nat)
    requires i < a.Length && j < a.Length
    modifies a
    ensures a[..] == Swapped(old(a[..]), i, j)
  {
    a[i], a[j] := a[j], a[i];
  }

  // ---------------------------------------------------------------------
  // IsShuffled

  /** How many positions hold an element equal to the original one there. */
  function FixedPoints<T(==)>(shuffled: seq<T>, original: seq<T>): (n: nat)
    requires |shuffled| == |original|
    ensures n <= |shuffled|
    ensures n == 0 <==> forall i :: 0 <= i < |shuffled| ==> shuffled[i] != original[i]
  {
    if shuffled == [] then 0
    else FixedPoints(shuffled[1..], original[1..]) + (if shuffled[0] == original[0] then 1 else 0)
  }

  /** `IsShuffled`: a length mismatch throws; zero or one element counts as
      shuffled; otherwise an even-length list must have no element left in
      place and an odd-length one at most one. */
  function IsShuffled<T(==)>(shuffled: seq<T>, original: seq<T>): (r: Result<bool>)
    ensures r.Failure? <==> |shuffled| != |original|
    ensures r.Failure? ==> r.error == Failed("Exception of type 'System.Exception' was thrown.")
    ensures r.Success? && |original| <= 1 ==> r.value
    ensures r.Success? && |original| >= 2 && |original| % 2 == 0 ==>
      (r.value <==> forall i :: 0 <= i < |original| ==> shuffled[i] != original[i])
    ensures r.Success? && |original| % 2 == 1 ==>
      (r.value <==> FixedPoints(shuffled, original) <= 1)
  {
    if |shuffled| != |original| then Failure(Failed("Exception of type 'System.Exception' was thrown."))
    else if |original| == 1 || |original| == 0 then Success(true)
    else
      var sameCount := FixedPoints(shuffled, original);
      Success(if |original| % 2 == 0 then sameCount == 0 else sameCount - 1 <= 0)
  }

  /** Every element left where it was: the count of fixed points is the
      whole length. */
  lemma {:induction false} FixedPointsOfSelf<T>(s: seq<T>)
    ensures FixedPoints(s, s) == |s|
  {
    if s != [] {
      FixedPointsOfSelf(s[1..]);
    }
  }

  /** A list of two or more elements is never "shuffled" against itself. */
  lemma SelfIsNotShuffled<T>(s: seq<T>)
    requires |s| >= 2
    ensures IsShuffled(s, s) == Success(false)
  {
    FixedPointsOfSelf(s);
  }

  /** Rotating a list of distinct elements by one moves every element, so
      the rotation counts as shuffled. */
  lemma RotationIsShuffled<T>(s: seq<T>)
    requires |s| >= 2
    requires forall i, j :: 0 <= i < j < |s| ==> s[i] != s[j]
    ensures IsShuffled(s[1..] + [s[0]], s) == Success(true)
  {
    var rotated := s[1..] + [s[0]];
    forall i | 0 <= i < |s|
      ensures rotated[i] != s[i]
    {
      if i < |s| - 1 {
        assert rotated[i] == s[i + 1];
      }
    }
  }
}
