/** A derived boolean observable over several source fields: one cached
    `condition(source value)` per source, combined with All (conjunction) or
    Any (disjunction). A cached result is recomputed when its source
    re-broadcasts, and the aggregate is reassigned only when that result
    flips.

    As written, the constructor never creates the derived field
    `_isConditionMet`, so it stays null (`None` here): `Value`, `Subscribe`,
    `Unsubscribe`, `ForceInvoke` and every update that flips a cached result
    fail with a null reference. The constructor `Fixed` is the evidently
    intended one, which creates the field holding the initial aggregate. */
module RxConditions {
  import opened Common
  import opened RxFields
  import opened RxWrappers

  /** `RxConditionType`: the enum's two named values. Any other int is a
      valid C# enum value too and is kept as such. */
  const All: int := 1
  const Any: int := 2

  /** One source: its wrapper and the cached condition result. */
  datatype ConditionResult<P(==)> = ConditionResult(wrapper: RxFieldSelfArgumentWrapper<P>, value: bool)

  predicate AllMet<P(==)>(rs: seq<ConditionResult<P>>)
  {
    forall i :: 0 <= i < |rs| ==> rs[i].value
  }

  predicate AnyMet<P(==)>(rs: seq<ConditionResult<P>>)
  {
    exists i :: 0 <= i < |rs| && rs[i].value
  }

  /** What `IsConditionMet` computes: the switch on the mode, where a mode
      other than All and Any throws. */
  function Aggregate<P(==)>(conditionType: int, rs: seq<ConditionResult<P>>): (r: Result<bool>)
    ensures r.Success? <==> conditionType == All || conditionType == Any
    ensures r.Failure? ==> r.error == ArgumentOutOfRange
  {
    if conditionType == All then Success(AllMet(rs))
    else if conditionType == Any then Success(AnyMet(rs))
    else Failure(ArgumentOutOfRange)
  }

  /** `_conditionResults.Find(r => r.wrapper.Field == field)`: the index of
      the first entry wrapping `field`, or -1 (a null result). */
  function FirstEntry<P(==)>(rs: seq<ConditionResult<P>>, field: RxField<P>): (k: int)
    ensures -1 <= k < |rs|
    ensures k == -1 <==> forall i :: 0 <= i < |rs| ==> rs[i].wrapper.field != field
    ensures k >= 0 ==> rs[k].wrapper.field == field && forall i :: 0 <= i < k ==> rs[i].wrapper.field != field
  {
    if rs == [] then -1
    else if rs[0].wrapper.field == field then 0
    else
      var k := FirstEntry(rs[1..], field);
      if k == -1 then -1 else k + 1
  }

  /** The derived field, as a frame. */
  function ObjectsOf(o: Option<RxField<bool>>): set<object>
  {
    if o.Some? then {o.value} else {}
  }

  /** The `OnValueUpdate` handlers of the entries wrapping `f`, in order:
      what the constructor subscribes to `f`. */
  function HandlersOn<P>(rs: seq<ConditionResult<P>>, f: RxField<P>): (hs: seq<Handler>)
    ensures |hs| <= |rs|
  {
    if rs == [] then []
    else
      var last := rs[|rs| - 1];
      HandlersOn(rs[..|rs| - 1], f) + (if last.wrapper.field == f then [last.wrapper.onValueUpdate] else [])
  }

  lemma HandlersOnSnoc<P>(rs: seq<ConditionResult<P>>, r: ConditionResult<P>, f: RxField<P>)
    ensures HandlersOn(rs + [r], f)
         == HandlersOn(rs, f) + (if r.wrapper.field == f then [r.wrapper.onValueUpdate] else [])
  {
    assert (rs + [r])[..|rs|] == rs;
  }

  /** The constructor's loop: for each source in order, a wrapper around it
      (which subscribes to the source), the condition on the source's
      current value, and the handler subscribed to the wrapper. */
  method BuildResults<P(==)>(fields: seq<RxField<P>>, condition: P -> bool, onUpdateValue: Handler)
    returns (results: seq<ConditionResult<P>>)
    modifies fields
    ensures |results| == |fields|
    ensures forall i :: 0 <= i < |fields| ==>
      results[i].wrapper.field == fields[i] && results[i].value == condition(fields[i].value)
    ensures forall i :: 0 <= i < |fields| ==>
      fresh(results[i].wrapper) && results[i].wrapper.listeners == [onUpdateValue]
    ensures forall f :: f in fields ==> f.listeners == old(f.listeners) + HandlersOn(results, f)
    ensures forall i, j :: 0 <= i < j < |fields| ==> results[i].wrapper != results[j].wrapper
    ensures forall i :: 0 <= i < |fields| ==> fields[i].value == old(fields[i].value)
  {
    results := [];
    ghost var before := map f | f in fields :: f.listeners;
    var i := 0;
    while i < |fields|
      invariant 0 <= i <= |fields| && |results| == i
      invariant forall j :: 0 <= j < i ==>
        results[j].wrapper.field == fields[j] && results[j].value == condition(fields[j].value)
      invariant forall j :: 0 <= j < i ==>
        fresh(results[j].wrapper) && results[j].wrapper.listeners == [onUpdateValue]
      invariant forall f :: f in before ==> before[f] == old(f.listeners)
      invariant ListenersGrown(fields, before, results)
      invariant forall j, k :: 0 <= j < k < i ==> results[j].wrapper != results[k].wrapper
      invariant forall j :: 0 <= j < |fields| ==> fields[j].value == old(fields[j].value)
    {
      var r := NextResult(fields, i, condition, onUpdateValue, results, before);
      results := results + [r];
      i := i + 1;
    }
  }

  /** Each source's listener list is its list `before` the loop followed by
      the handlers of the entries wrapping it so far. */
  ghost predicate ListenersGrown<P>(fields: seq<RxField<P>>, before: map<RxField<P>, seq<Handler>>,
                                     results: seq<ConditionResult<P>>)
    reads fields
  {
    forall f :: f in fields ==> f in before && f.listeners == before[f] + HandlersOn(results, f)
  }

  /** One iteration of the constructor's loop, for `fields[i]`. */
  method NextResult<P(==)>(fields: seq<RxField<P>>, i: nat, condition: P -> bool, onUpdateValue: Handler,
                           ghost results: seq<ConditionResult<P>>, ghost before: map<RxField<P>, seq<Handler>>)
    returns (r: ConditionResult<P>)
    requires i < |fields| && ListenersGrown(fields, before, results)
    modifies fields[i]
    ensures r.wrapper.field == fields[i] && r.value == condition(fields[i].value)
    ensures fresh(r.wrapper) && r.wrapper.listeners == [onUpdateValue]
    ensures ListenersGrown(fields, before, results + [r])
    ensures forall j :: 0 <= j < |fields| ==> fields[j].value == old(fields[j].value)
  {
    r := MakeResult(fields[i], condition, onUpdateValue);
    forall f | f in fields
      ensures f in before && f.listeners == before[f] + HandlersOn(results + [r], f)
    {
      HandlersOnSnoc(results, r, f);
    }
  }

  /** One step of the constructor's loop, for the source `field`. */
  method MakeResult<P(==)>(field: RxField<P>, condition: P -> bool, onUpdateValue: Handler)
    returns (r: ConditionResult<P>)
    modifies field
    ensures r.wrapper.field == field && r.value == condition(field.value)
    ensures fresh(r.wrapper) && r.wrapper.listeners == [onUpdateValue]
    ensures field.listeners == old(field.listeners) + [r.wrapper.onValueUpdate]
    ensures field.value == old(field.value)
  {
    var wrapper := new RxFieldSelfArgumentWrapper(Some(field), field.value);
    var value := condition(field.value);
    wrapper.Subscribe(onUpdateValue);
    r := ConditionResult(wrapper, value);
  }

  class RxCondition<P(==)> {
    /** `_isConditionMet`, null until some constructor creates it. */
    var isConditionMet: Option<RxField<bool>>
    /** `_conditionResults`. */
    var results: seq<ConditionResult<P>>
    /** `_condition`. */
    const condition: P -> bool
    /** `_conditionType`. */
    const conditionType: int
    /** The `OnUpdateValue` delegate subscribed to every wrapper. */
    const onUpdateValue: Handler

    /** The derived field exists and, when the mode is valid, holds the
        aggregate of the cached results. */
    predicate Consistent()
      reads this, ObjectsOf(isConditionMet)
    {
      isConditionMet.Some? &&
      (Aggregate(conditionType, results).Success? ==>
         isConditionMet.value.value == Aggregate(conditionType, results).value)
    }

    /** Each cached result wraps the source at its position and holds the
        condition on that source's current value. */
    ghost predicate Tracks(fields: seq<RxField<P>>)
      reads this, fields
    {
      |results| == |fields| &&
      forall i :: 0 <= i < |fields| ==>
        results[i].wrapper.field == fields[i] && results[i].value == condition(fields[i].value)
    }

    /** The constructor as written: one entry per source, in order, each
        caching the condition on the source's current value and subscribed
        through its wrapper. The mode is not checked, and `_isConditionMet`
        is left null. */
    constructor (fields: seq<RxField<P>>, condition: P -> bool, conditionType: int)
      modifies fields
      ensures isConditionMet == None
      ensures this.condition == condition && this.conditionType == conditionType
      ensures |results| == |fields|
      ensures forall i :: 0 <= i < |fields| ==>
        results[i].wrapper.field == fields[i] && results[i].value == condition(fields[i].value)
      ensures forall i :: 0 <= i < |fields| ==> results[i].wrapper.listeners == [onUpdateValue]
      ensures forall f :: f in fields ==> f.listeners == old(f.listeners) + HandlersOn(results, f)
      ensures forall i :: 0 <= i < |fields| ==> fields[i].value == old(fields[i].value)
    {
      var h := new Handler();
      var rs := BuildResults(fields, condition, h);
      this.condition := condition;
      this.conditionType := conditionType;
      onUpdateValue := h;
      results := rs;
      isConditionMet := None;
    }

    /** The evidently intended constructor: as above, and the derived field
        is created holding the aggregate of the initial results (false when
        the mode is not All or Any, so that construction still never
        throws). */
    constructor Fixed(fields: seq<RxField<P>>, condition: P -> bool, conditionType: int)
      modifies fields
      ensures Consistent() && fresh(isConditionMet.value)
      ensures isConditionMet.value.listeners == [] && isConditionMet.value.notifications == []
      ensures this.condition == condition && this.conditionType == conditionType
      ensures |results| == |fields|
      ensures forall i :: 0 <= i < |fields| ==>
        results[i].wrapper.field == fields[i] && results[i].value == condition(fields[i].value)
      ensures forall i :: 0 <= i < |fields| ==> results[i].wrapper.listeners == [onUpdateValue]
      ensures forall f :: f in fields ==> f.listeners == old(f.listeners) + HandlersOn(results, f)
      ensures forall i :: 0 <= i < |fields| ==> fields[i].value == old(fields[i].value)
    {
      var h := new Handler();
      var rs := BuildResults(fields, condition, h);
      var initial := Aggregate(conditionType, rs);
      var derived := new RxField(if initial.Success? then initial.value else false);
      this.condition := condition;
      this.conditionType := conditionType;
      onUpdateValue := h;
      results := rs;
      isConditionMet := Some(derived);
    }

    /** `Value`: the derived field's value, or a null reference failure. */
    function Value(): (r: Result<bool>)
      reads this, ObjectsOf(isConditionMet)
      ensures r.Failure? <==> isConditionMet.None?
      ensures r.Failure? ==> r.error == NullReference
      ensures Consistent() && Aggregate(conditionType, results).Success? ==> r == Aggregate(conditionType, results)
    {
      if isConditionMet.None? then Failure(NullReference) else Success(isConditionMet.value.value)
    }

    /** Delegates to the derived field, failing when it is null. */
    method Subscribe(l: Handler) returns (outcome: Outcome)
      modifies ObjectsOf(isConditionMet)
      ensures outcome == Fail(NullReference) <==> isConditionMet.None?
      ensures isConditionMet.Some? ==> isConditionMet.value.listeners == old(isConditionMet.value.listeners) + [l]
      ensures isConditionMet.Some? ==> isConditionMet.value.value == old(isConditionMet.value.value)
      ensures isConditionMet.Some? ==> isConditionMet.value.notifications == old(isConditionMet.value.notifications)
    {
      if isConditionMet.None? {
        return Fail(NullReference);
      }
      isConditionMet.value.Subscribe(l);
      outcome := Pass;
    }

    /** Delegates to the derived field, failing when it is null. */
    method Unsubscribe(l: Handler) returns (outcome: Outcome)
      modifies ObjectsOf(isConditionMet)
      ensures outcome == Fail(NullReference) <==> isConditionMet.None?
      ensures isConditionMet.Some? ==> isConditionMet.value.listeners == RemoveLast(old(isConditionMet.value.listeners), l)
      ensures isConditionMet.Some? ==> isConditionMet.value.value == old(isConditionMet.value.value)
      ensures isConditionMet.Some? ==> isConditionMet.value.notifications == old(isConditionMet.value.notifications)
    {
      if isConditionMet.None? {
        return Fail(NullReference);
      }
      isConditionMet.value.Unsubscribe(l);
      outcome := Pass;
    }

    /** Delegates to the derived field, failing when it is null. */
    method ForceInvoke() returns (outcome: Outcome)
      modifies ObjectsOf(isConditionMet)
      ensures outcome == Fail(NullReference) <==> isConditionMet.None?
      ensures isConditionMet.Some? ==>
        isConditionMet.value.notifications ==
          old(isConditionMet.value.notifications) + Calls(isConditionMet.value.listeners, isConditionMet.value.value)
      ensures isConditionMet.Some? ==> isConditionMet.value.value == old(isConditionMet.value.value)
      ensures isConditionMet.Some? ==> isConditionMet.value.listeners == old(isConditionMet.value.listeners)
    {
      if isConditionMet.None? {
        return Fail(NullReference);
      }
      isConditionMet.value.ForceInvoke();
      outcome := Pass;
    }

    /** `IsConditionAll`: false at the first false cached result. */
    method IsConditionAll() returns (r: bool)
      ensures r == AllMet(results)
    {
      var i := 0;
      while i < |results|
        invariant 0 <= i <= |results|
        invariant forall j :: 0 <= j < i ==> results[j].value
      {
        if !results[i].value {
          return false;
        }
        i := i + 1;
      }
      return true;
    }

    /** `IsConditionAny`: true at the first true cached result. */
    method IsConditionAny() returns (r: bool)
      ensures r == AnyMet(results)
    {
      var i := 0;
      while i < |results|
        invariant 0 <= i <= |results|
        invariant forall j :: 0 <= j < i ==> !results[j].value
      {
        if results[i].value {
          return true;
        }
        i := i + 1;
      }
      return false;
    }

    /** `IsConditionMet`: the switch on the mode. */
    method IsConditionMet() returns (r: Result<bool>)
      ensures r == Aggregate(conditionType, results)
    {
      if conditionType == All {
        var b := IsConditionAll();
        return Success(b);
      } else if conditionType == Any {
        var b := IsConditionAny();
        return Success(b);
      }
      return Failure(ArgumentOutOfRange);
    }

    /** `OnUpdateValue(field)`, the handler the wrappers call with their
        source: the first entry wrapping `field` is recomputed. An unchanged
        result stops there. A flipped one is written to the cache, then the
        aggregate is computed (failing for an unknown mode) and assigned to
        the derived field (failing when it is null). A field no entry wraps
        fails on the null entry. Consistency is preserved. */
    method OnUpdateValue(field: RxField<P>) returns (outcome: Outcome)
      modifies this, ObjectsOf(isConditionMet)
      ensures isConditionMet == old(isConditionMet)
      ensures var k := FirstEntry(old(results), field);
              k == -1 ==> outcome == Fail(NullReference) && results == old(results)
      ensures var k := FirstEntry(old(results), field);
              k >= 0 && old(results)[k].value == condition(old(field.value)) ==>
                outcome == Pass && results == old(results)
      ensures var k := FirstEntry(old(results), field);
              k >= 0 && old(results)[k].value != condition(old(field.value)) ==>
                results == old(results)[k := ConditionResult(old(results)[k].wrapper, condition(old(field.value)))]
      ensures results != old(results) && Aggregate(conditionType, results).Failure? ==>
                outcome == Fail(ArgumentOutOfRange)
      ensures results != old(results) && Aggregate(conditionType, results).Success? && isConditionMet.None? ==>
                outcome == Fail(NullReference)
      ensures results != old(results) && Aggregate(conditionType, results).Success? && isConditionMet.Some? ==>
                outcome == Pass && isConditionMet.value.value == Aggregate(conditionType, results).value
      ensures isConditionMet.Some? ==> isConditionMet.value.listeners == old(isConditionMet.value.listeners)
      ensures results != old(results) && Aggregate(conditionType, results).Success? && isConditionMet.Some? ==>
                var v := Aggregate(conditionType, results).value;
                isConditionMet.value.notifications == old(isConditionMet.value.notifications)
                  + (if old(isConditionMet.value.value) != v then Calls(isConditionMet.value.listeners, v) else [])
      ensures results == old(results) || outcome.Fail? ==> unchanged(ObjectsOf(isConditionMet))
      ensures old(Consistent()) ==> Consistent()
    {
      var k := FirstEntry(results, field);
      var isConditionMetCurrent := condition(field.value);
      if k == -1 {
        return Fail(NullReference);
      }
      if results[k].value == isConditionMetCurrent {
        return Pass;
      }
      results := results[k := ConditionResult(results[k].wrapper, isConditionMetCurrent)];
      var aggregate := IsConditionMet();
      if aggregate.Failure? {
        return Fail(aggregate.error);
      }
      if isConditionMet.None? {
        return Fail(NullReference);
      }
      isConditionMet.value.SetValue(aggregate.value);
      outcome := Pass;
    }
  }

  /** As written, the derived value is unreadable right after construction,
      and subscribing to the condition fails too. */
  method AsWrittenValueFails<P(==)>(fields: seq<RxField<P>>, condition: P -> bool)
    returns (value: Result<bool>, subscribed: Outcome)
    modifies fields
    ensures value == Failure(NullReference)
    ensures subscribed == Fail(NullReference)
  {
    var c := new RxCondition(fields, condition, All);
    value := c.Value();
    var l := new Handler();
    subscribed := c.Subscribe(l);
  }

  /** Cached results that are the condition on the given values aggregate
      to the conjunction (All) or the disjunction (Any) of the condition over
      those values. */
  lemma AggregateOfValues<P>(rs: seq<ConditionResult<P>>, condition: P -> bool, values: seq<P>)
    requires |rs| == |values|
    requires forall i :: 0 <= i < |rs| ==> rs[i].value == condition(values[i])
    ensures Aggregate(All, rs) == Success(forall i :: 0 <= i < |values| ==> condition(values[i]))
    ensures Aggregate(Any, rs) == Success(exists i :: 0 <= i < |values| && condition(values[i]))
  {
    if exists i :: 0 <= i < |values| && condition(values[i]) {
      var i :| 0 <= i < |values| && condition(values[i]);
      assert rs[i].value;
    }
  }

  /** A cache that tracks the sources aggregates to the condition over the
      sources' current values. */
  lemma TrackedAggregate<P>(c: RxCondition<P>, fields: seq<RxField<P>>)
    requires c.Tracks(fields)
    ensures Aggregate(All, c.results) == Success(forall i :: 0 <= i < |fields| ==> c.condition(fields[i].value))
    ensures Aggregate(Any, c.results) == Success(exists i :: 0 <= i < |fields| && c.condition(fields[i].value))
  {
    if exists i :: 0 <= i < |fields| && c.condition(fields[i].value) {
      var i :| 0 <= i < |fields| && c.condition(fields[i].value);
      assert c.results[i].value;
    }
  }

  /** Reassigning one of several distinct sources and delivering its
      wrapper's update to a consistent condition: the cache tracks the new
      values again, and the derived field is reassigned (notifying its
      listeners once if it changed). */
  method AssignSource<P(==)>(c: RxCondition<P>, fields: seq<RxField<P>>, k: nat, v: P)
    returns (outcome: Outcome)
    requires c.Consistent() && c.Tracks(fields) && (c.conditionType == All || c.conditionType == Any)
    requires k < |fields|
    requires forall i, j :: 0 <= i < j < |fields| ==> fields[i] != fields[j]
    requires forall i :: 0 <= i < |fields| ==> fields[i] as object != c.isConditionMet.value
    modifies c, c.isConditionMet.value, fields[k]
    ensures c.isConditionMet == old(c.isConditionMet) && c.Consistent() && c.Tracks(fields)
    ensures fields[k].value == v
    ensures forall i :: 0 <= i < |fields| && i != k ==> fields[i].value == old(fields[i].value)
    ensures outcome == Pass
    ensures var d := c.isConditionMet.value;
            d.listeners == old(d.listeners) &&
            d.notifications == old(d.notifications) + (if old(d.value) != d.value then Calls(d.listeners, d.value) else [])
  {
    fields[k].SetValue(v);
    assert fields[k].value == v;
    assert FirstEntry(c.results, fields[k]) == k;
    ghost var cached := c.results;
    outcome := c.OnUpdateValue(fields[k]);
    if cached[k].value == c.condition(v) {
      assert c.results == cached;
    } else {
      assert c.results == cached[k := ConditionResult(cached[k].wrapper, c.condition(v))];
    }
  }

  /** The fixed constructor over given sources, followed by one listener
      subscribing to the condition: the value is the aggregate of the
      sources' conditions. */
  method SubscribedCondition<P(==)>(fields: seq<RxField<P>>, condition: P -> bool, conditionType: int, l: Handler)
    returns (c: RxCondition<P>, before: Result<bool>)
    requires conditionType == All || conditionType == Any
    modifies fields
    ensures fresh(c) && c.Consistent() && c.Tracks(fields) && fresh(c.isConditionMet.value)
    ensures c.condition == condition && c.conditionType == conditionType
    ensures c.isConditionMet.value.listeners == [l] && c.isConditionMet.value.notifications == []
    ensures before == Success(c.isConditionMet.value.value)
    ensures forall i :: 0 <= i < |fields| ==> fields[i].value == old(fields[i].value)
    ensures conditionType == All ==>
      before == Success(forall i :: 0 <= i < |fields| ==> condition(old(fields[i].value)))
    ensures conditionType == Any ==>
      before == Success(exists i :: 0 <= i < |fields| && condition(old(fields[i].value)))
  {
    c := new RxCondition.Fixed(fields, condition, conditionType);
    AggregateOfValues(c.results, condition, seq(|fields|, i requires 0 <= i < |fields| => old(fields[i].value)));
    before := c.Value();
    var _ := c.Subscribe(l);
  }

  /** With the fixed constructor over distinct sources, the value is the
      aggregate of the sources' conditions from the start; after one source
      is reassigned and its wrapper's update is delivered, the value is the
      aggregate of the sources' new conditions, and a listener of the
      condition is called once with it exactly when it changed. */
  method FixedValueTracksAggregate<P(==)>(fields: seq<RxField<P>>, condition: P -> bool, conditionType: int,
                                          k: nat, v: P, l: Handler)
    returns (before: Result<bool>, outcome: Outcome, after: Result<bool>, calls: seq<(Handler, bool)>)
    requires conditionType == All || conditionType == Any
    requires k < |fields|
    requires forall i, j :: 0 <= i < j < |fields| ==> fields[i] != fields[j]
    modifies fields
    ensures conditionType == All ==>
      before == Success(forall i :: 0 <= i < |fields| ==> condition(old(fields[i].value)))
    ensures conditionType == Any ==>
      before == Success(exists i :: 0 <= i < |fields| && condition(old(fields[i].value)))
    ensures fields[k].value == v
    ensures forall i :: 0 <= i < |fields| && i != k ==> fields[i].value == old(fields[i].value)
    ensures outcome == Pass
    ensures conditionType == All ==>
      after == Success(forall i :: 0 <= i < |fields| ==> condition(fields[i].value))
    ensures conditionType == Any ==>
      after == Success(exists i :: 0 <= i < |fields| && condition(fields[i].value))
    ensures calls == if before != after then [(l, after.value)] else []
  {
    var c;
    c, before := SubscribedCondition(fields, condition, conditionType, l);
    outcome := AssignSource(c, fields, k, v);
    TrackedAggregate(c, fields);
    after := c.Value();
    calls := c.isConditionMet.value.notifications;
  }
}
