/** The host framework's per-session key/value store (`st.session_state`).
    Ordinary widget values live in `values`; the two registries that the
    controller keeps under reserved names are held in fields of their own. */
module Session {
  import opened Wrappers

  /** Name of the registry of default values. */
  const DefaultValuesName: string := "__default_values__"
  /** Name of the registry of trigger-field snapshots. */
  const ControlledWidgetsName: string := "__controlled_widgets__"

  predicate IsReserved(k: string) {
    k == DefaultValuesName || k == ControlledWidgetsName
  }

  /** The values the trigger fields held when they were last recorded:
      field name to its value, `None` when the field was absent. */
  type FieldValues<V> = map<string, Option<V>>

  /** `session_state.get(k)`: the stored value, or `None` for an absent key. */
  function Lookup<V>(values: map<string, V>, k: string): Option<V> {
    if k in values then Some(values[k]) else None
  }

  /** A registry as the controller sees it once it has created it lazily:
      an absent registry reads as an empty one. */
  function Entries<X>(registry: Option<map<string, X>>): map<string, X> {
    registry.GetOr(map[])
  }

  class SessionState<V> {
    /** Every non-reserved entry of the session. */
    var values: map<string, V>
    /** `__default_values__`: `None` until the first controller creates it. */
    var defaults: Option<map<string, V>>
    /** `__controlled_widgets__`: controlled key to its trigger-field snapshot. */
    var controlled: Option<map<string, FieldValues<V>>>

    ghost predicate Valid()
      reads this
    {
      forall k :: k in values ==> !IsReserved(k)
    }

    /** A new session holds nothing. */
    constructor ()
      ensures Valid()
      ensures values == map[] && defaults == None && controlled == None
    {
      values := map[];
      defaults := None;
      controlled := None;
    }

    /** `st.session_state[k] = v`, as the UI does when the user edits widget `k`. */
    method Put(k: string, v: V)
      requires Valid() && !IsReserved(k)
      modifies this`values
      ensures Valid()
      ensures values == old(values)[k := v]
    {
      values := values[k := v];
    }
  }
}
