/**
 * The typed immutable-state helpers of src/lib/state.ts. A `MapOf<T>` is an immutable
 * map from member names to values; a `Partial<T>` object literal is a map too, and
 * `None` is an `undefined` partial.
 */
module State {
  import opened Options

  /**
   * `applyState`: merge the members present in `partial` into `existing`.
   * An undefined or empty partial gives back the existing state itself.
   */
  function ApplyState<K, V>(existing: map<K, V>, partial: Option<map<K, V>>): (merged: map<K, V>)
    ensures partial.None? || partial.value == map[] ==> merged == existing
    ensures partial.Some? ==> merged.Keys == existing.Keys + partial.value.Keys
    ensures partial.Some? ==> forall k :: k in partial.value ==> merged[k] == partial.value[k]
    ensures forall k :: k in existing && (partial.None? || k !in partial.value) ==> k in merged && merged[k] == existing[k]
  {
    if partial.None? || |partial.value| == 0 then existing
    else existing + partial.value
  }

  /**
   * `isNew`: whether `newState` defines member `name` with a value other than `current`
   * (Immutable's `is` is value equality here).
   */
  function IsNew<K, V(==)>(newState: map<K, V>, name: K, current: V): (changed: bool)
    ensures name !in newState ==> !changed
    ensures name in newState ==> (changed <==> newState[name] != current)
  {
    name in newState && newState[name] != current
  }

  /**
   * A merge followed by the change test on the member's previous value reports a change
   * exactly when the partial supplies that member with a different value.
   */
  lemma MergeReportsChange<K, V>(existing: map<K, V>, partial: map<K, V>, name: K)
    requires name in existing
    ensures IsNew(ApplyState(existing, Some(partial)), name, existing[name])
            <==> name in partial && partial[name] != existing[name]
  {
  }
}
