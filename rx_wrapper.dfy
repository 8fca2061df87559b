/** A wrapper around an observable field that re-broadcasts each of its
    notifications to its own listeners, passing the field itself, so that a
    listener subscribed to several wrappers can tell which field changed.
    Only `RxField` sources are modelled. */
module RxWrappers {
  import opened Common
  import opened RxFields

  /** Occurrences of `h` in `listeners`. */
  function CountOf(listeners: seq<Handler>, h: Handler): (n: nat)
    ensures n <= |listeners|
    ensures n == 0 <==> h !in listeners
  {
    if listeners == [] then 0
    else CountOf(listeners[..|listeners| - 1], h) + (if listeners[|listeners| - 1] == h then 1 else 0)
  }

  /** `n` copies of `s`, one after another. */
  function Repeat<X>(s: seq<X>, n: nat): (r: seq<X>)
    ensures |r| == n * |s|
  {
    if n == 0 then [] else Repeat(s, n - 1) + s
  }

  class RxFieldSelfArgumentWrapper<T(==)> {
    /** `_field`, the wrapped source. */
    const field: RxField<T>
    /** The `OnValueUpdate` delegate the wrapper subscribes to its field. */
    const onValueUpdate: Handler
    /** `_listeners`, as its invocation list. */
    var listeners: seq<Handler>
    /** Every call of the wrapper's listeners, with the field passed to it. */
    var notifications: seq<(Handler, RxField<T>)>

    /** Wraps the given field, or a fresh field holding `default(T)` (passed
        in as `zero`) when none is given, and subscribes `OnValueUpdate` to
        it exactly once. */
    constructor (source: Option<RxField<T>>, zero: T)
      modifies if source.Some? then {source.value} else {}
      ensures source.Some? ==> field == source.value
      ensures source.Some? ==> field.value == old(source.value.value)
      ensures source.Some? ==> field.listeners == old(source.value.listeners) + [onValueUpdate]
      ensures source.Some? ==> field.notifications == old(source.value.notifications)
      ensures source.None? ==> fresh(field) && field.value == zero && field.listeners == [onValueUpdate]
      ensures source.None? ==> field.notifications == []
      ensures fresh(onValueUpdate)
      ensures listeners == [] && notifications == []
    {
      var f: RxField<T>;
      if source.Some? {
        f := source.value;
      } else {
        f := new RxField.Empty(zero);
      }
      var h := new Handler();
      field := f;
      onValueUpdate := h;
      listeners, notifications := [], [];
      new;
      f.Subscribe(h);
    }

    /** `Value`: always the wrapped field's current value. */
    function Value(): T
      reads field
    {
      field.value
    }

    /** Appends to the wrapper's own listeners; the field is not touched. */
    method Subscribe(l: Handler)
      modifies this
      ensures listeners == old(listeners) + [l]
      ensures notifications == old(notifications)
    {
      listeners := listeners + [l];
    }

    /** Removes the last occurrence from the wrapper's own listeners. */
    method Unsubscribe(l: Handler)
      modifies this
      ensures listeners == RemoveLast(old(listeners), l)
      ensures notifications == old(notifications)
    {
      listeners := RemoveLast(listeners, l);
    }

    /** `OnValueUpdate`: the value received is ignored; every listener is
        called once, in order, with the wrapped field itself. */
    method OnValueUpdate()
      modifies this
      ensures listeners == old(listeners)
      ensures notifications == old(notifications) + Calls(listeners, field)
    {
      notifications := notifications + Calls(listeners, field);
    }
  }

  /** Assigning the wrapped field and delivering its notifications: each
      call the field makes to the wrapper's `OnValueUpdate` becomes one
      round of calls to the wrapper's listeners, so a change is
      re-broadcast once per subscription of the wrapper to the field, and
      an assignment of the current value is not re-broadcast at all. */
  method AssignThroughWrapper<T(==)>(w: RxFieldSelfArgumentWrapper<T>, v: T)
    modifies w, w.field
    ensures w.field.value == v
    ensures v == old(w.field.value) ==> w.notifications == old(w.notifications)
    ensures v != old(w.field.value) ==>
      w.notifications == old(w.notifications) + Repeat(Calls(w.listeners, w.field), CountOf(w.field.listeners, w.onValueUpdate))
    ensures w.listeners == old(w.listeners) && w.field.listeners == old(w.field.listeners)
  {
    var previous := w.field.value;
    w.field.SetValue(v);
    if v == previous {
      return;
    }
    // The field has just called its listeners in order; the wrapper
    // handles the calls addressed to its own `OnValueUpdate`.
    var fired := w.field.listeners;
    var round := Calls(w.listeners, w.field);
    var i := 0;
    while i < |fired|
      invariant 0 <= i <= |fired|
      invariant w.listeners == old(w.listeners) && fired == w.field.listeners == old(w.field.listeners)
      invariant w.field.value == v
      invariant w.notifications == old(w.notifications) + Repeat(round, CountOf(fired[..i], w.onValueUpdate))
    {
      CountOfStep(fired, i, w.onValueUpdate);
      if fired[i] == w.onValueUpdate {
        w.OnValueUpdate();
      }
      i := i + 1;
    }
    assert fired[..|fired|] == fired;
  }

  lemma CountOfStep(s: seq<Handler>, i: nat, h: Handler)
    requires i < |s|
    ensures CountOf(s[..i + 1], h) == CountOf(s[..i], h) + (if s[i] == h then 1 else 0)
  {
    assert s[..i + 1][..i] == s[..i];
  }

  /** A wrapper built around a field re-broadcasts each change exactly once
      to each of its listeners, passing that field. */
  method WrapperRebroadcastsOnce<T(==)>(f: RxField<T>, v: T) returns (calls: seq<(Handler, RxField<T>)>)
    requires f.listeners == [] && v != f.value
    modifies f
    ensures |calls| == 2 && calls[0].1 == f && calls[1].1 == f && calls[0].0 != calls[1].0
  {
    var w := new RxFieldSelfArgumentWrapper(Some(f), v);
    var a := new Handler();
    var b := new Handler();
    w.Subscribe(a);
    w.Subscribe(b);
    assert CountOf(w.field.listeners, w.onValueUpdate) == 1 by {
      assert w.field.listeners == [w.onValueUpdate];
      assert w.field.listeners[..0] == [];
    }
    AssignThroughWrapper(w, v);
    assert Repeat(Calls(w.listeners, w.field), 1) == Calls([a, b], f);
    calls := w.notifications;
  }

  /** `Value` reads through to the wrapped field rather than keeping a copy:
      it follows a later assignment of the field. A wrapper given no field
      reads `default(T)` (passed in as `zero`). */
  method WrapperValueReadsThrough<T(==)>(initial: T, v: T, zero: T)
    returns (before: T, after: T, ofDefault: T)
    ensures before == initial && after == v && ofDefault == zero
  {
    var f := new RxField(initial);
    var w := new RxFieldSelfArgumentWrapper(Some(f), zero);
    before := w.Value();
    f.SetValue(v);
    after := w.Value();
    var d := new RxFieldSelfArgumentWrapper(None, zero);
    ofDefault := d.Value();
  }
}
