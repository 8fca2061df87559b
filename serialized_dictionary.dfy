/** A dictionary that can be saved as a list of key/value entries and
    restored from one. `Serialize` replaces the list with one entry per
    pair of the dictionary; `Deserialize` clears the dictionary and inserts
    the entries of the list in order, so that a later entry for a key
    overrides an earlier one. The engine callbacks that trigger the two are
    modelled as explicit calls. */
module SerializedDictionaries {

  /** `Kvp`: a key/value entry with properties over its two fields. */
  datatype Kvp<K, V> = Kvp(key: K, val: V)
  {
    /** The `Key` getter. */
    function Key(): K { key }

    /** The `Value` getter. */
    function Value(): V { val }

    /** The `Key` setter, on a copy of the entry. */
    function WithKey(k: K): (r: Kvp<K, V>)
      ensures r.Key() == k && r.Value() == Value()
    {
      this.(key := k)
    }

    /** The `Value` setter, on a copy of the entry. */
    function WithValue(v: V): (r: Kvp<K, V>)
      ensures r.Value() == v && r.Key() == Key()
    {
      this.(val := v)
    }
  }

  /** `Create`: an entry built through the two setters from a pair. */
  function Create<K, V>(key: K, value: V, blank: Kvp<K, V>): (r: Kvp<K, V>)
    ensures r.Key() == key && r.Value() == value
  {
    blank.WithKey(key).WithValue(value)
  }

  /** An entry is determined by its two getters: writing back what a
      getter returns changes nothing, and `Create` from the two getters
      rebuilds the entry. */
  lemma GettersDetermineEntry<K, V>(e: Kvp<K, V>, blank: Kvp<K, V>)
    ensures e.WithKey(e.Key()) == e && e.WithValue(e.Value()) == e
    ensures Create(e.Key(), e.Value(), blank) == e
  {
  }

  /** The keys named by `entries`. */
  function KeysOf<K, V>(entries: seq<Kvp<K, V>>): set<K>
  {
    set i | 0 <= i < |entries| :: entries[i].Key()
  }

  /** The dictionary obtained by inserting the entries of `entries` in
      order into an empty one, each overwriting any earlier value. */
  function ToMap<K, V>(entries: seq<Kvp<K, V>>): (m: map<K, V>)
    ensures m.Keys == KeysOf(entries)
  {
    if entries == [] then map[]
    else
      var last := entries[|entries| - 1];
      var m := ToMap(entries[..|entries| - 1])[last.Key() := last.Value()];
      assert KeysOf(entries) == KeysOf(entries[..|entries| - 1]) + {last.Key()} by {
        assert forall i :: 0 <= i < |entries| - 1 ==> entries[..|entries| - 1][i] == entries[i];
      }
      m
  }

  /** `entries` lists `m`: no key twice, every entry a pair of `m`, and
      every key of `m` present. */
  ghost predicate IsListing<K, V>(entries: seq<Kvp<K, V>>, m: map<K, V>)
  {
    (forall i, j :: 0 <= i < j < |entries| ==> entries[i].Key() != entries[j].Key())
    && (forall i :: 0 <= i < |entries| ==> entries[i].Key() in m && m[entries[i].Key()] == entries[i].Value())
    && (forall k :: k in m ==> exists i :: 0 <= i < |entries| && entries[i].Key() == k)
  }

  /** The last entry for a key decides its value after insertion in order. */
  lemma {:induction false} LastWins<K, V>(entries: seq<Kvp<K, V>>, i: nat)
    requires i < |entries|
    requires forall j :: i < j < |entries| ==> entries[j].Key() != entries[i].Key()
    ensures entries[i].Key() in ToMap(entries)
    ensures ToMap(entries)[entries[i].Key()] == entries[i].Value()
  {
    var n := |entries|;
    if i < n - 1 {
      var init := entries[..n - 1];
      assert init[i] == entries[i];
      forall j | i < j < |init| ensures init[j].Key() != init[i].Key() {
        assert init[j] == entries[j];
      }
      LastWins(init, i);
    }
  }

  /** Dropping the last entry of a listing lists the rest of the map. */
  lemma ListingInit<K, V>(entries: seq<Kvp<K, V>>, m: map<K, V>)
    requires IsListing(entries, m) && entries != []
    ensures var last := entries[|entries| - 1];
      last.Key() in m && m[last.Key()] == last.Value()
      && IsListing(entries[..|entries| - 1], m - {last.Key()})
  {
    var n := |entries|;
    var init, last := entries[..n - 1], entries[n - 1];
    var rest := m - {last.Key()};
    assert forall i :: 0 <= i < |init| ==> init[i] == entries[i];
    forall k | k in rest ensures exists i :: 0 <= i < |init| && init[i].Key() == k {
      var i :| 0 <= i < n && entries[i].Key() == k;
      assert init[i].Key() == k;
    }
  }

  /** Inserting a listing of `m` in order rebuilds `m` exactly. */
  lemma {:induction false} ListingRoundTrip<K, V>(entries: seq<Kvp<K, V>>, m: map<K, V>)
    requires IsListing(entries, m)
    ensures ToMap(entries) == m
  {
    if entries == [] {
      assert forall k :: k !in m;
    } else {
      var n := |entries|;
      var last := entries[n - 1];
      ListingInit(entries, m);
      ListingRoundTrip(entries[..n - 1], m - {last.Key()});
      RemoveRestore(m, last.Key());
    }
  }

  /** Taking a key out of a map and putting its value back restores the
      map. */
  lemma RemoveRestore<K, V>(m: map<K, V>, k: K)
    requires k in m
    ensures (m - {k})[k := m[k]] == m
  {
  }

  /** A listing has exactly one entry per pair. */
  lemma {:induction false} ListingSize<K, V>(entries: seq<Kvp<K, V>>, m: map<K, V>)
    requires IsListing(entries, m)
    ensures |entries| == |m|
  {
    if entries == [] {
      assert forall k :: k !in m;
      assert m == map[];
    } else {
      var n := |entries|;
      var last := entries[n - 1];
      ListingInit(entries, m);
      ListingSize(entries[..n - 1], m - {last.Key()});
      RemoveCount(m, last.Key());
    }
  }

  /** Taking a present key out of a map leaves one pair fewer. */
  lemma RemoveCount<K, V>(m: map<K, V>, k: K)
    requires k in m
    ensures |m - {k}| == |m| - 1
  {
    assert m.Keys == (m - {k}).Keys + {k};
  }

  class SerializedDictionary<K(==), V> {
    /** The inherited `Dictionary` contents. */
    var items: map<K, V>
    /** `data`, the saved entry list. */
    var data: seq<Kvp<K, V>>
    /** `new Kvp()`, the all-default entry `Create` starts from. */
    const blank: Kvp<K, V>

    /** `SerializedDictionary()`: empty, with an empty entry list. */
    constructor (blank: Kvp<K, V>)
      ensures items == map[] && data == [] && this.blank == blank
    {
      items, data, this.blank := map[], [], blank;
    }

    /** `SerializedDictionary(dictionary)`: a copy of the given pairs. */
    constructor FromDictionary(dictionary: map<K, V>, blank: Kvp<K, V>)
      ensures items == dictionary && data == [] && this.blank == blank
    {
      items, data, this.blank := dictionary, [], blank;
    }

    /** `Dictionary.TryAdd`: inserts only an absent key and says whether it
        did. */
    method TryAdd(key: K, value: V) returns (added: bool)
      modifies this
      ensures added <==> key !in old(items)
      ensures added ==> items == old(items)[key := value]
      ensures !added ==> items == old(items)
      ensures data == old(data)
    {
      added := key !in items;
      if added {
        items := items[key := value];
      }
    }

    /** `Set`: an upsert; afterwards the key maps to `value` and every other
        key keeps its value. */
    method Set(key: K, value: V)
      modifies this
      ensures key in items && items[key] == value
      ensures items.Keys == old(items).Keys + {key}
      ensures forall k :: k in old(items) && k != key ==> items[k] == old(items)[k]
      ensures data == old(data)
    {
      var added := TryAdd(key, value);
      if !added {
        items := items[key := value];
      }
    }

    /** `Get`: the stored value, or `default(V)` (passed in as `zero`) for
        an absent key; nothing changes. */
    function Get(key: K, zero: V): (r: V)
      reads this
      ensures key in items ==> r == items[key]
      ensures key !in items ==> r == zero
    {
      if key in items then items[key] else zero
    }

    /** `Deserialize`: the dictionary becomes the in-order insertion of the
        entry list, which is kept. */
    method Deserialize()
      modifies this
      ensures data == old(data)
      ensures items == ToMap(data)
    {
      items := map[];
      for i := 0 to |data|
        invariant data == old(data)
        invariant items == ToMap(data[..i])
      {
        var kvp := data[i];
        assert data[..i + 1][..i] == data[..i];
        items := items[kvp.Key() := kvp.Value()];
      }
      assert data[..|data|] == data;
    }

    /** `Serialize`: the entry list becomes a listing of the dictionary,
        one entry per pair, in some enumeration order. */
    method Serialize()
      modifies this
      ensures items == old(items)
      ensures IsListing(data, items)
      ensures |data| == |items|
    {
      data := [];
      var rest := items.Keys;
      while rest != {}
        invariant items == old(items)
        invariant rest <= items.Keys
        invariant IsListing(data, items - rest)
        invariant |data| + |rest| == |items|
        decreases |rest|
      {
        var k :| k in rest;
        var listed := items - rest;
        var kvp := Create(k, items[k], blank);
        forall j | 0 <= j < |data| ensures data[j].Key() != k {
          assert data[j].Key() in listed;
        }
        var before := data;
        data := before + [kvp];
        rest := rest - {k};
        forall k' | k' in items - rest ensures exists i :: 0 <= i < |data| && data[i].Key() == k' {
          if k' != k {
            assert k' in listed;
            var i :| 0 <= i < |before| && before[i].Key() == k';
            assert data[i] == before[i];
          } else {
            assert data[|before|].Key() == k';
          }
        }
      }
      assert items - {} == items;
    }
  }

  /** Saving and then restoring gives back the same dictionary, and the
      saved list is a listing of it. */
  method SerializeThenDeserialize<K(==), V>(d: SerializedDictionary<K, V>)
    modifies d
    ensures d.items == old(d.items)
    ensures IsListing(d.data, d.items)
  {
    d.Serialize();
    d.Deserialize();
    ListingRoundTrip(d.data, old(d.items));
  }

  /** Restoring a list that names a key twice keeps the later value. */
  method LaterDuplicateWins<K(==), V>(key: K, first: V, second: V, blank: Kvp<K, V>) returns (restored: V)
    ensures restored == second
  {
    var d := new SerializedDictionary(blank);
    d.data := [Create(key, first, blank), Create(key, second, blank)];
    d.Deserialize();
    LastWins(d.data, 1);
    restored := d.Get(key, first);
  }
}
