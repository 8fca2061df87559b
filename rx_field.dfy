/** An observable value: assigning a different value stores it and notifies
    every subscribed listener with the new value. Listeners are `Handler`
    objects kept in subscription order (a C# multicast delegate's invocation
    list); the calls they receive are recorded in `notifications`. */
module RxFields {
  import opened Common

  /** One call of each listener in `listeners`, in order, with `v`. */
  function Calls<T>(listeners: seq<Handler>, v: T): (calls: seq<(Handler, T)>)
    ensures |calls| == |listeners|
    ensures forall i :: 0 <= i < |listeners| ==> calls[i] == (listeners[i], v)
  {
    seq(|listeners|, i requires 0 <= i < |listeners| => (listeners[i], v))
  }

  /** The index of the last occurrence of `l`, or -1. */
  function LastIndexOf(listeners: seq<Handler>, l: Handler): (k: int)
    ensures -1 <= k < |listeners|
    ensures k == -1 <==> l !in listeners
    ensures k >= 0 ==> listeners[k] == l && l !in listeners[k + 1..]
  {
    if listeners == [] then -1
    else if listeners[|listeners| - 1] == l then |listeners| - 1
    else
      var init := listeners[..|listeners| - 1];
      assert listeners == init + [listeners[|listeners| - 1]];
      var k := LastIndexOf(init, l);
      assert k >= 0 ==> listeners[k + 1..] == init[k + 1..] + [listeners[|listeners| - 1]];
      k
  }

  /** Delegate removal `-=`: the last occurrence of `l` is taken out; a list
      without `l` is returned unchanged. */
  function RemoveLast(listeners: seq<Handler>, l: Handler): (rest: seq<Handler>)
    ensures l !in listeners ==> rest == listeners
    ensures l in listeners ==>
      var k := LastIndexOf(listeners, l);
      rest == listeners[..k] + listeners[k + 1..]
    ensures multiset(rest) == multiset(listeners) - multiset{l}
  {
    var k := LastIndexOf(listeners, l);
    if k < 0 then listeners
    else
      assert listeners == listeners[..k] + [l] + listeners[k + 1..];
      listeners[..k] + listeners[k + 1..]
  }

  /** Unsubscribing right after subscribing restores the listener list. */
  lemma SubscribeUnsubscribe(listeners: seq<Handler>, l: Handler)
    ensures RemoveLast(listeners + [l], l) == listeners
  {
    assert (listeners + [l])[..|listeners|] == listeners;
  }

  class RxField<T(==)> {
    /** `_value`. */
    var value: T
    /** `_listeners`, as its invocation list. */
    var listeners: seq<Handler>
    /** Every listener call made so far, in order. */
    var notifications: seq<(Handler, T)>

    /** `RxField(defaultValue)`: starts at the given value; no one notified. */
    constructor (initial: T)
      ensures value == initial && listeners == [] && notifications == []
    {
      value, listeners, notifications := initial, [], [];
    }

    /** `RxField()`: starts at `default(T)`, passed in as `zero`. */
    constructor Empty(zero: T)
      ensures value == zero && listeners == [] && notifications == []
    {
      value, listeners, notifications := zero, [], [];
    }

    /** The `Value` setter: an equal value changes nothing and notifies no
        one; a different value is stored and then every listener is called
        once with it, in subscription order. */
    method SetValue(v: T)
      modifies this
      ensures listeners == old(listeners)
      ensures v == old(value) ==> value == old(value) && notifications == old(notifications)
      ensures v != old(value) ==> value == v && notifications == old(notifications) + Calls(listeners, v)
    {
      if value == v {
        return;
      }
      value := v;
      notifications := notifications + Calls(listeners, value);
    }

    /** Calls every listener with the current value, which does not change. */
    method ForceInvoke()
      modifies this
      ensures value == old(value) && listeners == old(listeners)
      ensures notifications == old(notifications) + Calls(listeners, value)
    {
      notifications := notifications + Calls(listeners, value);
    }

    /** Appends the listener, even when it is already subscribed. */
    method Subscribe(l: Handler)
      modifies this
      ensures listeners == old(listeners) + [l]
      ensures value == old(value) && notifications == old(notifications)
    {
      listeners := listeners + [l];
    }

    /** Removes the last occurrence of the listener, if any. */
    method Unsubscribe(l: Handler)
      modifies this
      ensures listeners == RemoveLast(old(listeners), l)
      ensures value == old(value) && notifications == old(notifications)
    {
      listeners := RemoveLast(listeners, l);
    }
  }

  /** Setting the same value twice notifies once: the second assignment is
      a no-op. A listener subscribed twice is called twice. */
  method SetTwiceNotifiesOnce<T(==)>(initial: T, v: T) returns (calls: nat)
    requires v != initial
    ensures calls == 2
  {
    var field := new RxField(initial);
    var l := new Handler();
    field.Subscribe(l);
    field.Subscribe(l);
    field.SetValue(v);
    field.SetValue(v);
    calls := |field.notifications|;
  }

  /** After unsubscribing the only listener, a change notifies no one. */
  method UnsubscribedIsSilent<T(==)>(initial: T, v: T) returns (calls: nat)
    ensures calls == 0
  {
    var field := new RxField(initial);
    var l := new Handler();
    field.Subscribe(l);
    field.Unsubscribe(l);
    field.SetValue(v);
    calls := |field.notifications|;
  }
}
