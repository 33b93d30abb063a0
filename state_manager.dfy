/**
 * The class form of the merge helper in lib/state.ts. `StateManager` holds no state, so
 * its `applyState` method is a function here.
 */
module StateManager {
  import opened Options
  import State

  /** `StateManager.applyState`: the same guarded merge as the free function. */
  function ApplyState<K, V>(existing: map<K, V>, partial: Option<map<K, V>>): (merged: map<K, V>)
    ensures partial.None? ==> merged == existing
    ensures partial.Some? && |partial.value| == 0 ==> merged == existing
    ensures partial.Some? ==> forall k :: k in partial.value ==> k in merged && merged[k] == partial.value[k]
    ensures forall k :: k in existing && (partial.None? || k !in partial.value) ==> k in merged && merged[k] == existing[k]
    ensures merged.Keys <= existing.Keys + (if partial.Some? then partial.value.Keys else {})
  {
    if partial.None? || |partial.value| == 0 then existing
    else existing + partial.value
  }

  /** Both forms of the merge agree on every input, so either may stand for the other. */
  lemma AgreesWithFreeFunction<K, V>(existing: map<K, V>, partial: Option<map<K, V>>)
    ensures ApplyState(existing, partial) == State.ApplyState(existing, partial)
  {
  }
}
