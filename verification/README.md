# streamlit-control in Dafny

A model of `ControlledWidget`, a helper for Streamlit pages. It binds one
session key to a default value and puts that default back whenever
designated "trigger" fields change, or whenever a custom predicate says so.

The per-session store `st.session_state` is the class
`Session.SessionState`. Ordinary entries live in its `values` map. The two
registries the controller keeps in the session have fields of their own:
`defaults` for `__default_values__` and `controlled` for
`__controlled_widgets__`. Each is `None` until the first controller creates
it. A snapshot (`FieldValues`) maps each watched field to the value it held
when it was recorded, with `None` for an absent field, since that is what
`session_state.get` returns.

`Controllers.ControlledWidget` is a class over that shared store. Its
methods change the store in place, and `SetTriggerFields` and
`SetTriggerFunc` change the instance's own fields. The context-manager
protocol is the pair `Enter` / `Exit`. `HasTriggered` keeps the source's
loop over the snapshot with its early return. The loop is proved against
`ShouldReset`, a pure statement of the decision in its priority order:
1. the predicate, when one is set;
2. otherwise, whether some recorded field changed;
3. otherwise, always true.

`Capture` is the snapshot comprehension. The lemmas about it say when a
snapshot reports a change. `Scenarios` holds clients that prove what a page
can rely on across executions.

The docstring of `has_triggered` (`st_control/controllers.py:85`) says the
trigger fields are checked to see if their values have changed. The code
iterates over the recorded snapshot (line 90), not over the current
`trigger_fields`. The model follows the code;
`Controllers.SnapshotFieldsDecide` and `Scenarios.RebuildWithOtherFields`
state what that means.

## Model

| member | source | states |
|---|---|---|
| `Controllers.ControlledWidget.constructor` | st_control/controllers.py:24-47 | The key gets the default only if it holds no value yet. The default-values registry is created if absent, and the default is always written into it. A snapshot of the current field values is recorded only when the key has none yet; an existing snapshot is kept. Afterwards the key holds a value and has a snapshot (`Valid`). |
| `Controllers.ControlledWidget.RecordTriggerFields` | st_control/controllers.py:49-55 | The key's registry entry becomes the watched fields' current values (empty when the list is unset). Other entries and the session's values are unchanged. |
| `Controllers.ControlledWidget.SetTriggerFields` | st_control/controllers.py:57-60 | The field list is replaced and recorded afresh. Values, defaults and the predicate are unchanged. Without a predicate, the widget is then not triggered. |
| `Controllers.ControlledWidget.SetTriggerFunc` | st_control/controllers.py:62-64 | Only the predicate changes; the session, snapshot included, is unchanged. |
| `Controllers.ControlledWidget.TriggerFieldValues` | st_control/controllers.py:66-69 | Gives the recorded snapshot. It is the lookup failure (`None`) exactly when the key has no snapshot, and never fails on a constructed widget. |
| `Controllers.ControlledWidget.Value` | st_control/controllers.py:71-74 | Gives the key's value, or `None` when it was never set. A constructed widget's key always holds a value. |
| `Controllers.ControlledWidget.Reset` | st_control/controllers.py:76-79 | The key holds the default and the snapshot equals the fields' values after that write. Nothing else changes. Without a predicate and with a field list, the widget is then not triggered. |
| `Controllers.ControlledWidget.HasTriggered` | st_control/controllers.py:81-95 | Returns the predicate's verdict when one is set. Otherwise, when a field list is set, returns true iff some snapshot entry differs from the field's current value (absent vs present counts). Otherwise returns true. It changes nothing. |
| `Controllers.ControlledWidget.Enter` | st_control/controllers.py:97-101 | The key gets the default iff the widget was triggered on entry; the snapshot and every other entry are unchanged. |
| `Controllers.ControlledWidget.Exit` | st_control/controllers.py:103-105 | The snapshot is recorded afresh and the values are unchanged. Without a predicate and with a field list, the widget is then not triggered. |
| `Controllers.CaptureSettles` | st_control/controllers.py:49-55 | A snapshot compared against the values it was taken from reports no change. |
| `Controllers.ChangedSinceCapture` | st_control/controllers.py:89-93 | A snapshot taken of one state reports a change against a later one iff some watched field reads differently, counting a field that appeared or disappeared. |
| `Controllers.UnwatchedWriteKeepsSettled` | st_control/controllers.py:103-105 | After a snapshot, a write to a key that is not watched does not make the snapshot report a change. Example: the UI storing the controlled value itself. |
| `Controllers.SnapshotFieldsDecide` | st_control/controllers.py:89-93 | Without a predicate and with any field list set, only the fields the snapshot recorded are compared: while they keep their values, the widget is not triggered, whatever the current list holds. |
| `Scenarios.RebuildWithOtherFields` | st_control/controllers.py:44-47 | A widget built again with a different field list over an existing snapshot keeps that snapshot, and a write to a newly listed field that the snapshot did not record does not trigger it. |
| `Scenarios.ScopedEditIsNotATrigger` | st_control/controllers.py:97-105 | Take a scoped block, the UI's write of the controlled value inside it, and a further edit of that value before the next check. Together they do not trigger a reset, as long as the controlled key is not a watched field. |
| `Scenarios.RebuildKeepsSnapshot` | st_control/controllers.py:38-47 | Building the widget again keeps both the current value and the old snapshot. So a watched field changed between executions is reported as a trigger. |
| `Scenarios.EditedFieldResetsInput` | streamlit_app.py:5-17 | The demo page over two executions. The user types into the controlled input, then edits `field1`. The next execution's scoped block shows `"initial value"` again, without an explicit reset. |
| `Scenarios.PredicateDecides` | st_control/controllers.py:87-88 | With a predicate set, the answer is the predicate's own: the widget is triggered iff `field1` reads `"reset"`, even though it also watches `field1`. |

## Left out

- Streamlit itself is not part of this model: rendering, page re-execution, and the lifetime and scoping of sessions. The session is a map that the UI writes through `Session.SessionState.Put`.
- Deleting from the session (`del st.session_state[k]`, `st.session_state.clear()`) is not modelled. `Valid()` (the key holds a value and has a snapshot) stays true across operations partly because the model has no way to remove an entry; in the source, such a deletion makes `value` return `None` and `trigger_field_values` fail.
- Session values are treated as immutable values compared with a reflexive equality. In the source, the snapshot (`st_control/controllers.py:53`) stores the very object `session_state.get` returns, without copying, and the check at line 91 uses Python's `!=`. So a watched list mutated in place (`st.session_state['items'].append(1)`) also changes the snapshot's entry and is not reported as a change, whereas the model can only express it as a new value, which `Controllers.ChangedSinceCapture` reports. A watched NaN is reported as changed on every check, so `Controllers.CaptureSettles` and the "not triggered" promises of `Reset`, `Exit` and `SetTriggerFields` do not hold for it in the source. A value whose `!=` gives no plain truth value (an array-like one) makes the check raise.
- `trigger_func` is modelled as a total function of the session's values. A callable that reads other state, has side effects or raises is not captured.
- Python's context-manager machinery and exception propagation are not modelled. `Enter` and `Exit` are plain methods, and a caller must call `Exit` on every path out of the block. `__enter__` returns `self`; `Enter` returns nothing.
- The registries live in the same session under `__default_values__` and `__controlled_widgets__`, but the model keeps them in separate fields. Because of that, the constructor and `SetTriggerFields` require that neither the key nor a watched field is one of those two names. In the source, such a name would alias a registry.
- `session_state.get` returns `None` both for an absent key and for a key holding Python's `None`. The model's `Option` tells them apart, so a stored `None` is not represented as a value of its own.
- Controllers.ControlledWidget.HasTriggered: requires `Valid()`, which includes that the key has a snapshot. The source reads the snapshot only on the field-list branch (`st_control/controllers.py:89-90`), where a missing entry raises `KeyError` and a missing registry an attribute lookup failure; with a predicate set, or with no field list, it never fails. So `Valid()` is stronger than the source needs on two of the three branches. That is harmless, because every constructed widget is `Valid()` and every operation of the model keeps it. The lookup failure itself is modelled by `TriggerFieldValues` returning `None`.
- `set_trigger_fields` is typed to take a list. Passing `None` to it is not modelled.
- The iteration order of the snapshot in `has_triggered` is left open (any order); the answer does not depend on it.
- The demo page `streamlit_app.py` is not modelled as such; `Scenarios.EditedFieldResetsInput` follows its first part. Its second widget reads `w.widget_key`, an attribute the class does not have, so that line is not modelled.
