/** `ControlledWidget`: resets one session value to its default whenever the
    fields it watches change, or whenever a custom predicate says so. */
module Controllers {
  import opened Wrappers
  import opened Session

  /** A zero-argument predicate over the session, such as
      `lambda: st.session_state['field1'] == 'reset'`. */
  type Trigger<!V> = map<string, V> -> bool

  /** `trigger_fields or []`: an unset field list watches nothing. */
  function FieldList(fields: Option<seq<string>>): seq<string> {
    if fields.Some? then fields.value else []
  }

  /** None of the watched fields is one of the registries' reserved names. */
  predicate FieldsAllowed(fields: Option<seq<string>>) {
    forall f :: f in FieldList(fields) ==> !IsReserved(f)
  }

  /** The snapshot comprehension: each watched field mapped to its current value. */
  function Capture<V>(values: map<string, V>, fields: Option<seq<string>>): FieldValues<V> {
    map f | f in FieldList(fields) :: Lookup(values, f)
  }

  /** Some recorded field now holds a different value; a field that appeared
      or disappeared since it was recorded counts as different. */
  predicate Changed<V(==)>(snapshot: FieldValues<V>, values: map<string, V>) {
    exists f :: f in snapshot && Lookup(values, f) != snapshot[f]
  }

  /** The reset decision in its priority order: the predicate when one is set,
      otherwise a change in the snapshot when a field list is set, otherwise always. */
  function ShouldReset<V(==)>(func: Option<Trigger<V>>, fields: Option<seq<string>>,
                              snapshot: FieldValues<V>, values: map<string, V>): bool
  {
    if func.Some? then func.value(values)
    else if fields.Some? then Changed(snapshot, values)
    else true
  }

  /** Right after a snapshot is taken, nothing it recorded has changed. */
  lemma CaptureSettles<V>(values: map<string, V>, fields: Option<seq<string>>)
    ensures !Changed(Capture(values, fields), values)
  {
  }

  /** A snapshot taken of `before` reports a change against `after` exactly
      when some watched field reads differently in the two. */
  lemma ChangedSinceCapture<V>(before: map<string, V>, after: map<string, V>,
                                   fields: Option<seq<string>>)
    ensures Changed(Capture(before, fields), after)
        <==> exists f :: f in FieldList(fields) && Lookup(after, f) != Lookup(before, f)
  {
  }

  /** Writing a key that is not watched (the controlled widget's own value,
      say) does not make a fresh snapshot report a change. */
  lemma UnwatchedWriteKeepsSettled<V>(values: map<string, V>, fields: Option<seq<string>>,
                                         k: string, v: V)
    requires k !in FieldList(fields)
    ensures !Changed(Capture(values, fields), values[k := v])
  {
  }

  /** The check compares the recorded snapshot, not the current field list:
      a widget built again with other fields over a snapshot that is already
      there keeps answering for the fields the snapshot recorded, whatever
      happens to the new ones. */
  lemma SnapshotFieldsDecide<V>(before: map<string, V>, after: map<string, V>,
                                recorded: Option<seq<string>>, current: seq<string>)
    requires forall f :: f in FieldList(recorded) ==> Lookup(after, f) == Lookup(before, f)
    ensures !ShouldReset(None, Some(current), Capture(before, recorded), after)
  {
  }

  class ControlledWidget<V(==)> {
    const store: SessionState<V>
    const key: string
    const defaultValue: V
    var triggerFields: Option<seq<string>>
    var triggerFunc: Option<Trigger<V>>

    /** What construction establishes and every operation keeps: the key holds a
        value, both registries exist and the key has a snapshot. */
    ghost predicate Valid()
      reads this, store
    {
      && store.Valid()
      && !IsReserved(key)
      && FieldsAllowed(triggerFields)
      && key in store.values
      && store.defaults.Some?
      && store.controlled.Some?
      && key in store.controlled.value
    }

    /** The snapshot recorded for this widget's key. */
    ghost function Snapshot(): FieldValues<V>
      reads this, store
      requires Valid()
    {
      store.controlled.value[key]
    }

    /** The decision `HasTriggered` reports in the current state. */
    ghost predicate Triggered()
      reads this, store
      requires Valid()
    {
      ShouldReset(triggerFunc, triggerFields, Snapshot(), store.values)
    }

    /** Binds the widget to `key`: gives the key its default value unless it
        already holds one, always records the default in the registry, and
        takes a snapshot only when the key has none yet. */
    constructor (store: SessionState<V>, key: string, defaultValue: V,
                 triggerFields: Option<seq<string>>, triggerFunc: Option<Trigger<V>>)
      requires store.Valid()
      requires !IsReserved(key) && FieldsAllowed(triggerFields)
      modifies store
      ensures this.store == store && this.key == key && this.defaultValue == defaultValue
      ensures this.triggerFields == triggerFields && this.triggerFunc == triggerFunc
      ensures Valid()
      ensures store.values == if key in old(store.values) then old(store.values)
                              else old(store.values)[key := defaultValue]
      ensures store.defaults == Some(Entries(old(store.defaults))[key := defaultValue])
      ensures store.controlled ==
                Some(if key in Entries(old(store.controlled)) then Entries(old(store.controlled))
                     else Entries(old(store.controlled))[key := Capture(store.values, triggerFields)])
    {
      this.store := store;
      this.key := key;
      this.defaultValue := defaultValue;
      this.triggerFields := triggerFields;
      this.triggerFunc := triggerFunc;
      new;
      if store.defaults.None? {
        store.defaults := Some(map[]);
      }
      if key !in store.values {
        store.values := store.values[key := defaultValue];
      }
      store.defaults := Some(store.defaults.value[key := defaultValue]);
      if store.controlled.None? {
        store.controlled := Some(map[]);
      }
      if key !in store.controlled.value {
        RecordTriggerFields();
      }
    }

    /** Replaces this key's snapshot with the watched fields' current values. */
    method RecordTriggerFields()
      requires store.controlled.Some?
      modifies store`controlled
      ensures store.controlled == Some(old(store.controlled.value)[key := Capture(store.values, triggerFields)])
    {
      store.controlled := Some(store.controlled.value[key := Capture(store.values, triggerFields)]);
    }

    /** Watches `fields` from now on and records their current values. */
    method SetTriggerFields(fields: seq<string>)
      requires Valid() && FieldsAllowed(Some(fields))
      modifies this`triggerFields, store`controlled
      ensures Valid()
      ensures triggerFields == Some(fields) && triggerFunc == old(triggerFunc)
      ensures store.controlled == Some(old(store.controlled.value)[key := Capture(store.values, Some(fields))])
      ensures triggerFunc.None? ==> !Triggered()
    {
      triggerFields := Some(fields);
      RecordTriggerFields();
      CaptureSettles(store.values, triggerFields);
    }

    /** Replaces the predicate; the session, snapshot included, is untouched. */
    method SetTriggerFunc(func: Trigger<V>)
      requires Valid()
      modifies this`triggerFunc
      ensures Valid()
      ensures triggerFunc == Some(func) && triggerFields == old(triggerFields)
      ensures unchanged(store)
    {
      triggerFunc := Some(func);
    }

    /** The recorded snapshot; `None` is the lookup failure of a key that has
        none, which cannot happen to a constructed widget. */
    function TriggerFieldValues(): (r: Option<FieldValues<V>>)
      reads this, store
      ensures r.Some? <==> store.controlled.Some? && key in store.controlled.value
      ensures Valid() ==> r == Some(Snapshot())
    {
      if store.controlled.Some? && key in store.controlled.value
      then Some(store.controlled.value[key]) else None
    }

    /** The key's current value, `None` when it has never been set; a
        constructed widget's key always holds one. */
    function Value(): (r: Option<V>)
      reads this, store
      ensures r.Some? <==> key in store.values
      ensures Valid() ==> r == Some(store.values[key])
    {
      Lookup(store.values, key)
    }

    /** Puts the default back and records the watched fields afresh. */
    method Reset()
      requires Valid()
      modifies store`values, store`controlled
      ensures Valid()
      ensures store.values == old(store.values)[key := defaultValue]
      ensures store.controlled == Some(old(store.controlled.value)[key := Capture(store.values, triggerFields)])
      ensures triggerFunc.None? && triggerFields.Some? ==> !Triggered()
    {
      store.values := store.values[key := defaultValue];
      RecordTriggerFields();
      CaptureSettles(store.values, triggerFields);
    }

    /** Whether the widget should be reset: asks the predicate if there is one,
        otherwise walks the snapshot and stops at the first field whose value
        changed, otherwise answers yes. */
    method HasTriggered() returns (r: bool)
      requires Valid()
      ensures r == ShouldReset(triggerFunc, triggerFields, Snapshot(), store.values)
    {
      if triggerFunc.Some? {
        return triggerFunc.value(store.values);
      } else if triggerFields.Some? {
        var snapshot := TriggerFieldValues().value;
        var pending := snapshot.Keys;
        while pending != {}
          invariant pending <= snapshot.Keys
          invariant forall f :: f in snapshot && f !in pending ==> Lookup(store.values, f) == snapshot[f]
          decreases pending
        {
          var f :| f in pending;
          if Lookup(store.values, f) != snapshot[f] {
            return true;
          }
          pending := pending - {f};
        }
        return false;
      } else {
        return true;
      }
    }

    /** Entry of the scoped block: resets the value when triggered and leaves
        the snapshot alone. */
    method Enter()
      requires Valid()
      modifies store`values
      ensures Valid()
      ensures store.values == if old(Triggered()) then old(store.values)[key := defaultValue]
                              else old(store.values)
    {
      var triggered := HasTriggered();
      if triggered {
        store.values := store.values[key := defaultValue];
      }
    }

    /** Exit of the scoped block, on every path out of it: records the watched
        fields afresh and leaves the value alone. */
    method Exit()
      requires Valid()
      modifies store`controlled
      ensures Valid()
      ensures store.controlled == Some(old(store.controlled.value)[key := Capture(store.values, triggerFields)])
      ensures triggerFunc.None? && triggerFields.Some? ==> !Triggered()
    {
      RecordTriggerFields();
      CaptureSettles(store.values, triggerFields);
    }
  }
}
