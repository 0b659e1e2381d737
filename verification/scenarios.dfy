/** Clients of `ControlledWidget` across page executions: what a caller can
    prove from the widget's contracts alone. */
module Scenarios {
  import opened Wrappers
  import opened Session
  import opened Controllers

  /** One scoped block with the predicate unset and a field list set: entry,
      the UI writing the user's edit of the controlled value, exit, and the
      user's next edit of the controlled value before the next execution.
      As long as the controlled key is not a watched field, the next check
      does not report a trigger. */
  method ScopedEditIsNotATrigger<V(==)>(w: ControlledWidget<V>, edit: V, nextEdit: V)
    returns (triggered: bool)
    requires w.Valid()
    requires w.triggerFunc.None? && w.triggerFields.Some?
    requires w.key !in FieldList(w.triggerFields)
    modifies w.store
    ensures w.Valid()
    ensures w.Value() == Some(nextEdit)
    ensures !triggered
  {
    w.Enter();
    w.store.Put(w.key, edit);
    w.Exit();
    UnwatchedWriteKeepsSettled(w.store.values, w.triggerFields, w.key, nextEdit);
    w.store.Put(w.key, nextEdit);
    triggered := w.HasTriggered();
  }

  /** Constructing a widget again for a key that already has a snapshot keeps
      both the current value and the old snapshot, so a change made to a
      watched field between executions is still seen. */
  method RebuildKeepsSnapshot<V(==)>(w: ControlledWidget<V>, field: string, v: V)
    returns (again: ControlledWidget<V>, triggered: bool)
    requires w.Valid() && w.triggerFunc.None?
    requires w.triggerFields == Some([field]) && !IsReserved(field) && field != w.key
    requires w.Snapshot() == Capture(w.store.values, w.triggerFields)
    requires Lookup(w.store.values, field) != Some(v)
    modifies w.store
    ensures again.Valid() && again.Snapshot() == old(w.Snapshot())
    ensures again.Value() == old(w.Value())
    ensures triggered
  {
    w.store.Put(field, v);
    again := new ControlledWidget(w.store, w.key, w.defaultValue, w.triggerFields, None);
    assert field in again.Snapshot() && Lookup(again.store.values, field) != again.Snapshot()[field];
    triggered := again.HasTriggered();
  }

  /** Building a widget again with a different field list, over a snapshot
      that is already there, keeps the old snapshot; a write to a newly listed
      field that the snapshot did not record is not seen as a trigger. */
  method RebuildWithOtherFields<V(==)>(w: ControlledWidget<V>, current: seq<string>, field: string, v: V)
    returns (again: ControlledWidget<V>, triggered: bool)
    requires w.Valid() && w.triggerFunc.None? && w.triggerFields.Some?
    requires w.Snapshot() == Capture(w.store.values, w.triggerFields)
    requires FieldsAllowed(Some(current)) && field in current
    requires field !in FieldList(w.triggerFields)
    modifies w.store
    ensures again.Valid() && again.triggerFields == Some(current)
    ensures again.Snapshot() == old(w.Snapshot())
    ensures !triggered
  {
    ghost var before := w.store.values;
    w.store.Put(field, v);
    SnapshotFieldsDecide(before, w.store.values, w.triggerFields, current);
    again := new ControlledWidget(w.store, w.key, w.defaultValue, Some(current), None);
    triggered := again.HasTriggered();
  }

  /** The page of the demo application over two executions: the controlled
      input starts at its default, the user types into it, then edits a
      watched field, and on the next execution the scoped block puts the
      default back before the input is drawn, without any explicit reset. */
  method EditedFieldResetsInput() returns (shown: Option<string>)
    ensures shown == Some("initial value")
  {
    var s := new SessionState<string>();

    // First execution.
    var field1 := new ControlledWidget(s, "field1", "", None, None);
    var field2 := new ControlledWidget(s, "field2", "", None, None);
    var input := new ControlledWidget(s, "my_text_input", "initial value", Some(["field1", "field2"]), None);
    assert input.Value() == Some("initial value");
    input.Enter();
    s.Put("my_text_input", "typed");
    input.Exit();

    // The user edits field 1; the framework stores it before re-running the page.
    s.Put("field1", "hello");

    // Second execution.
    field1 := new ControlledWidget(s, "field1", "", None, None);
    field2 := new ControlledWidget(s, "field2", "", None, None);
    input := new ControlledWidget(s, "my_text_input", "initial value", Some(["field1", "field2"]), None);
    assert input.Value() == Some("typed");
    assert "field1" in input.Snapshot() && input.Snapshot()["field1"] == Some("");
    var triggered := input.HasTriggered();
    assert triggered;
    input.Enter();
    shown := input.Value();
    input.Exit();
  }

  /** A predicate takes priority over everything else: the widget resets
      exactly when field 1 reads "reset". */
  method PredicateDecides(v: string) returns (triggered: bool)
    ensures triggered <==> v == "reset"
  {
    var s := new SessionState<string>();
    var other := new ControlledWidget(s, "another_widget", "another initial value", Some(["field1"]),
                                      Some((m: map<string, string>) => "field1" in m && m["field1"] == "reset"));
    s.Put("field1", v);
    triggered := other.HasTriggered();
  }
}
