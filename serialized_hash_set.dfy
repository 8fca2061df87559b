/** A hash set that can be saved as a list of its elements and restored
    from one. `Serialize` replaces the list with the elements of the set,
    each once; `Deserialize` clears the set and adds every element of the
    list, so duplicates in the list collapse. The engine callbacks that
    trigger the two are modelled as explicit calls. */
module SerializedHashSets {

  /** The elements occurring in `s`. */
  function Elements<T>(s: seq<T>): set<T>
  {
    set i | 0 <= i < |s| :: s[i]
  }

  /** No element occurs twice in `s`. */
  predicate Distinct<T(==)>(s: seq<T>)
  {
    forall i, j :: 0 <= i < j < |s| ==> s[i] != s[j]
  }

  /** A list has at most as many distinct elements as entries, and exactly
      as many when no element is repeated. */
  lemma {:induction false} DistinctCount<T>(s: seq<T>)
    ensures |Elements(s)| <= |s|
    ensures |Elements(s)| == |s| <==> Distinct(s)
  {
    if s != [] {
      var n := |s|;
      var init, last := s[..n - 1], s[n - 1];
      DistinctCount(init);
      assert Elements(s) == Elements(init) + {last} by {
        assert forall i :: 0 <= i < n - 1 ==> init[i] == s[i];
      }
      if last in Elements(init) {
        var i :| 0 <= i < n - 1 && init[i] == last;
        assert s[i] == s[n - 1];
        assert !Distinct(s);
      } else {
        assert Elements(s) - {last} == Elements(init);
        if Distinct(init) {
          forall i, j | 0 <= i < j < n ensures s[i] != s[j] {
            if j < n - 1 {
              assert init[i] == s[i] && init[j] == s[j];
            } else {
              assert init[i] in Elements(init);
            }
          }
        } else {
          var i, j :| 0 <= i < j < n - 1 && init[i] == init[j];
          assert s[i] == s[j];
        }
      }
    }
  }

  /** Appending an element not yet listed keeps the list free of
      repetitions and adds that element. */
  lemma AppendNew<T>(s: seq<T>, x: T)
    requires Distinct(s) && x !in Elements(s)
    ensures Distinct(s + [x]) && Elements(s + [x]) == Elements(s) + {x}
  {
    var t := s + [x];
    forall i | 0 <= i < |s| ensures s[i] != x {
      assert s[i] in Elements(s);
    }
    assert forall j :: 0 <= j < |s| ==> t[j] == s[j];
    assert t[|s|] == x;
  }

  class SerializedHashSet<T(==)> {
    /** `values`, the saved element list. */
    var values: seq<T>
    /** `hashSet`, the live set. */
    var hashSet: set<T>

    /** `SerializedHashSet()`: empty, with an empty element list. */
    constructor ()
      ensures values == [] && hashSet == {}
    {
      values, hashSet := [], {};
    }

    /** `SerializedHashSet(hashSet)`: starts from the given set. */
    constructor FromHashSet(hashSet: set<T>)
      ensures values == [] && this.hashSet == hashSet
    {
      values, this.hashSet := [], hashSet;
    }

    /** `Count`: the number of distinct elements; zero exactly when no
        element is contained. */
    function Count(): (n: nat)
      reads this
      ensures n == 0 <==> forall x :: x !in hashSet
    {
      |hashSet|
    }

    /** `Contains`: a contained item makes the count positive. */
    function Contains(item: T): (b: bool)
      reads this
      ensures b ==> Count() > 0
    {
      item in hashSet
    }

    /** `ISet<T>.Add`: adds the item and returns true exactly when it was
        absent. */
    method TryAdd(item: T) returns (added: bool)
      modifies this
      ensures added <==> !old(Contains(item))
      ensures Contains(item)
      ensures hashSet == old(hashSet) + {item}
      ensures Count() == old(Count()) + (if added then 1 else 0)
      ensures values == old(values)
    {
      added := item !in hashSet;
      if added {
        assert hashSet !! {item};
      } else {
        assert hashSet + {item} == hashSet;
      }
      hashSet := hashSet + {item};
    }

    /** The public `Add`: `ISet<T>.Add` with its result discarded. */
    method Add(item: T)
      modifies this
      ensures Contains(item)
      ensures hashSet == old(hashSet) + {item}
      ensures values == old(values)
    {
      var _ := TryAdd(item);
    }

    /** `ICollection<T>.Remove`: removes the item and returns true exactly
        when it was present. */
    method Remove(item: T) returns (removed: bool)
      modifies this
      ensures removed <==> old(Contains(item))
      ensures !Contains(item)
      ensures hashSet == old(hashSet) - {item}
      ensures Count() == old(Count()) - (if removed then 1 else 0)
      ensures values == old(values)
    {
      removed := item in hashSet;
      hashSet := hashSet - {item};
    }

    /** `Clear`: no element is left. */
    method Clear()
      modifies this
      ensures Count() == 0 && forall x :: !Contains(x)
      ensures values == old(values)
    {
      hashSet := {};
    }

    /** `Deserialize`: the set becomes the elements of the list, which is
        kept; it has as many elements as the list has entries exactly when
        the list repeats none. */
    method Deserialize()
      modifies this
      ensures values == old(values)
      ensures hashSet == Elements(values)
      ensures Count() <= |values|
      ensures Count() == |values| <==> Distinct(values)
    {
      Clear();
      for i := 0 to |values|
        invariant values == old(values)
        invariant hashSet == Elements(values[..i])
      {
        assert Elements(values[..i + 1]) == Elements(values[..i]) + {values[i]} by {
          assert forall j :: 0 <= j < i ==> values[..i + 1][j] == values[..i][j];
          assert values[..i + 1][i] == values[i];
        }
        Add(values[i]);
      }
      assert values[..|values|] == values;
      DistinctCount(values);
    }

    /** `Serialize`: the list becomes the elements of the set, each once,
        in some enumeration order. */
    method Serialize()
      modifies this
      ensures hashSet == old(hashSet)
      ensures Distinct(values) && Elements(values) == hashSet
      ensures |values| == Count()
    {
      values := [];
      var rest := hashSet;
      while rest != {}
        invariant hashSet == old(hashSet)
        invariant rest <= hashSet
        invariant Distinct(values) && Elements(values) == hashSet - rest
        decreases |rest|
      {
        var x :| x in rest;
        AppendNew(values, x);
        values := values + [x];
        rest := rest - {x};
      }
      DistinctCount(values);
    }
  }

  /** Saving and then restoring gives back the same set, with no entry of
      the saved list collapsed. */
  method SerializeThenDeserialize<T(==)>(h: SerializedHashSet<T>)
    modifies h
    ensures h.hashSet == old(h.hashSet)
    ensures h.Count() == |h.values|
  {
    h.Serialize();
    h.Deserialize();
  }

  /** Restoring a list that names an element twice gives a set with one
      element fewer than the list has entries. */
  method DuplicatesCollapse<T(==)>(x: T, y: T) returns (count: nat, entries: nat)
    requires x != y
    ensures entries == 3 && count == 2
  {
    var h := new SerializedHashSet();
    h.values := [x, y, x];
    h.Deserialize();
    assert h.hashSet == {x, y} by {
      assert h.values[0] == x && h.values[1] == y && h.values[2] == x;
    }
    count, entries := h.Count(), |h.values|;
  }
}
