/**
 * The values behind src/modal-controller.ts: keyed stack entries, the three-part modal
 * state, the observable trace of callback invocations and host offers, and the facts the
 * controller's operations rely on.
 */
module Ledger {
  import opened Options
  import opened Lists
  import StateManager

  /** A generated UUID string. */
  type Key = string
  /** The identity of a Lit `TemplateResult`. */
  type Template = nat
  /** The identity of a rendered DOM node (an `EventTarget`). */
  type Node = nat
  /** The identity of a close-callback function. */
  type CallbackId = nat

  /** A `KeyedTemplateResult`: a template carrying the key it was pushed under. */
  datatype Entry = Entry(key: Key, template: Template)

  /** `addKeyToTemplate`: the template tagged with `key`. */
  function AddKeyToTemplate(template: Template, key: Key): Entry
  {
    Entry(key, template)
  }

  /** The `{remove, replace}` pair `push` returns: both closures are bound to this key. */
  datatype Registry = Registry(key: Key)

  /** What the controller and its surface do that others can observe. */
  datatype Event =
    | Invoked(callback: CallbackId, stack: seq<Entry>)  // a close callback ran while the ledger held `stack`
    | Offered(stack: seq<Entry>)                        // the host was offered `stack`
    | Logged(message: string)                           // a console message

  const AttachError: string := "You attempted to attach a singleton controller to more than one host."

  /** The member names of `ModalState` and the values they hold: `Map<keyof ModalState, any>`. */
  datatype Field = StackField | NodesField | CallbacksField
  datatype Slot =
    | StackValue(stack: seq<Entry>)
    | NodesValue(nodes: seq<Node>)
    | CallbacksValue(callbacks: map<Key, CallbackId>)
  type ModalState = map<Field, Slot>

  /** Every member is present and holds a value of its declared type. */
  predicate WellFormed(s: ModalState)
  {
    && StackField in s && s[StackField].StackValue?
    && NodesField in s && s[NodesField].NodesValue?
    && CallbacksField in s && s[CallbacksField].CallbacksValue?
  }

  function StackOf(s: ModalState): seq<Entry>
    requires WellFormed(s)
  {
    s[StackField].stack
  }

  function NodesOf(s: ModalState): seq<Node>
    requires WellFormed(s)
  {
    s[NodesField].nodes
  }

  function CallbacksOf(s: ModalState): map<Key, CallbackId>
    requires WellFormed(s)
  {
    s[CallbacksField].callbacks
  }

  /** The module-level initial `_modalState`: three empty members. */
  const InitialState: ModalState :=
    map[StackField := StackValue([]), NodesField := NodesValue([]), CallbacksField := CallbacksValue(map[])]

  /** Whether a value has the type its member declares. */
  predicate Fits(f: Field, v: Slot)
  {
    match f
    case StackField => v.StackValue?
    case NodesField => v.NodesValue?
    case CallbacksField => v.CallbacksValue?
  }

  /**
   * Merging a partial of well-typed members into the modal state keeps it well formed;
   * each member is the partial's value where given and the old one otherwise.
   */
  lemma MergeParts(s: ModalState, partial: map<Field, Slot>)
    requires WellFormed(s)
    requires forall f :: f in partial ==> Fits(f, partial[f])
    ensures var merged := StateManager.ApplyState(s, Some(partial));
      && WellFormed(merged)
      && StackOf(merged) == (if StackField in partial then partial[StackField].stack else StackOf(s))
      && NodesOf(merged) == (if NodesField in partial then partial[NodesField].nodes else NodesOf(s))
      && CallbacksOf(merged) == (if CallbacksField in partial then partial[CallbacksField].callbacks else CallbacksOf(s))
  {
  }

  /** The partial `remove(index)` merges: the entry, its node slot and its callback deleted. */
  function RemovalPartial(s: ModalState, index: nat): map<Field, Slot>
    requires WellFormed(s)
  {
    map[
      StackField := StackValue(DeleteAt(StackOf(s), index)),
      NodesField := NodesValue(DeleteAt(NodesOf(s), index)),
      CallbacksField := CallbacksValue(Forget(CallbacksOf(s), KeyAt(StackOf(s), index)))]
  }

  /**
   * Merging the removal partial keeps the ledger's invariant, and the stack changes
   * exactly when `index` is a position of the stack.
   */
  lemma RemovalMerge(s: ModalState, index: nat)
    requires Tracked(s)
    ensures var merged := StateManager.ApplyState(s, Some(RemovalPartial(s, index)));
      && Tracked(merged)
      && StackOf(merged) == DeleteAt(StackOf(s), index)
      && NodesOf(merged) == DeleteAt(NodesOf(s), index)
      && CallbacksOf(merged) == Forget(CallbacksOf(s), KeyAt(StackOf(s), index))
      && (StackOf(merged) != StackOf(s) <==> index < |StackOf(s)|)
  {
    var partial := RemovalPartial(s, index);
    MergeParts(s, partial);
    if index < |StackOf(s)| {
      DeleteTracked(StackOf(s), index);
    }
  }

  function Keys(s: seq<Entry>): seq<Key>
  {
    seq(|s|, i requires 0 <= i < |s| => s[i].key)
  }

  function KeySet(s: seq<Entry>): set<Key>
  {
    set k | k in Keys(s)
  }

  predicate UniqueKeys(s: seq<Entry>)
  {
    forall i, j :: 0 <= i < j < |s| ==> s[i].key != s[j].key
  }

  /**
   * The ledger's invariant: keys are unique in the stack (`findIndex` relies on it) and
   * only keys in the stack have a close callback.
   */
  predicate Tracked(s: ModalState)
  {
    WellFormed(s) && UniqueKeys(StackOf(s)) && CallbacksOf(s).Keys <= KeySet(StackOf(s))
  }

  /** `modalStack.findIndex(t => t.key === key)`: the position of the entry with `key`, or -1. */
  function KeyIndex(s: seq<Entry>, key: Key): (i: int)
    ensures -1 <= i < |s|
    ensures i == -1 <==> key !in KeySet(s)
    ensures 0 <= i ==> s[i].key == key
    ensures 0 <= i && UniqueKeys(s) ==> forall j :: 0 <= j < |s| && s[j].key == key ==> j == i
  {
    IndexOf(Keys(s), key)
  }

  /**
   * `modalStack.get(i)?.key` on the non-negative indices `remove` passes it: the key at a
   * position, or `undefined` past the end. (Immutable's `get` would wrap a negative index
   * to the end; `remove` never passes one.)
   */
  function KeyAt(s: seq<Entry>, i: nat): (k: Option<Key>)
    ensures k.Some? <==> i < |s|
    ensures k.Some? ==> k.value == s[i].key && k.value in KeySet(s)
  {
    if i < |s| then
      assert Keys(s)[i] == s[i].key;
      Some(s[i].key)
    else None
  }

  /** The invocation `remove` makes when `key` has a close callback, while the ledger holds `s`. */
  function FiredOn(callbacks: map<Key, CallbackId>, s: seq<Entry>, key: Option<Key>): (fired: seq<Event>)
    ensures |fired| <= 1
    ensures fired != [] <==> key.Some? && key.value in callbacks
    ensures fired != [] ==> fired[0] == Invoked(callbacks[key.value], s)
  {
    if key.Some? && key.value in callbacks then [Invoked(callbacks[key.value], s)] else []
  }

  /** The callbacks map without `key`'s entry: `closeCallbacks.delete(key)`. */
  function Forget(callbacks: map<Key, CallbackId>, key: Option<Key>): (rest: map<Key, CallbackId>)
    ensures rest.Keys == callbacks.Keys - (if key.Some? then {key.value} else {})
    ensures forall k :: k in rest ==> rest[k] == callbacks[k]
  {
    if key.Some? then callbacks - {key.value} else callbacks
  }

  /**
   * The stack after `replace(key, template)`: the entry with `key`, wherever it sits, gets
   * the new template and keeps its key and position; an absent key changes nothing.
   */
  function Replaced(s: seq<Entry>, key: Key, template: Template): (r: seq<Entry>)
    ensures |r| == |s| && Keys(r) == Keys(s) && KeySet(r) == KeySet(s)
    ensures key !in KeySet(s) ==> r == s
    ensures forall j :: 0 <= j < |s| ==> r[j] == if s[j].key == key && j == KeyIndex(s, key) then Entry(key, template) else s[j]
  {
    var i := KeyIndex(s, key);
    if i >= 0 then
      var r := s[i := AddKeyToTemplate(template, key)];
      assert Keys(r) == Keys(s);
      r
    else s
  }

  /** A fresh key pushed on top keeps the keys unique and joins the key set. */
  lemma PushTracked(s: seq<Entry>, e: Entry)
    requires UniqueKeys(s) && e.key !in KeySet(s)
    ensures UniqueKeys(s + [e])
    ensures KeySet(s + [e]) == KeySet(s) + {e.key}
  {
    var r := s + [e];
    assert Keys(r) == Keys(s) + [e.key];
    forall i, j | 0 <= i < j < |r| ensures r[i].key != r[j].key {
      if j == |s| {
        assert Keys(s)[i] == r[i].key;
      }
    }
  }

  /** Deleting a present position keeps the keys unique and removes exactly that entry's key. */
  lemma DeleteTracked(s: seq<Entry>, i: nat)
    requires UniqueKeys(s) && i < |s|
    ensures UniqueKeys(DeleteAt(s, i))
    ensures KeySet(DeleteAt(s, i)) == KeySet(s) - {s[i].key}
  {
    var r := DeleteAt(s, i);
    forall a, b | 0 <= a < b < |r| ensures r[a].key != r[b].key {
      var a' := if a < i then a else a + 1;
      var b' := if b < i then b else b + 1;
      assert r[a] == s[a'] && r[b] == s[b'];
    }
    forall k | k in Keys(r) ensures k in Keys(s) && k != s[i].key {
      var j :| 0 <= j < |r| && Keys(r)[j] == k;
      var j' := if j < i then j else j + 1;
      assert r[j] == s[j'] && Keys(s)[j'] == k;
    }
    forall k | k in Keys(s) && k != s[i].key ensures k in Keys(r) {
      var j :| 0 <= j < |s| && Keys(s)[j] == k;
      var j' := if j < i then j else j - 1;
      assert r[j'] == s[j] && Keys(r)[j'] == k;
    }
  }

  /**
   * A push followed by the removal of its registry's key gives back the stack as it was:
   * the overlay is found on top and nothing else is touched.
   */
  lemma PushThenRemove(s: seq<Entry>, e: Entry)
    requires e.key !in KeySet(s)
    ensures KeyIndex(s + [e], e.key) == |s|
    ensures DeleteAt(s + [e], KeyIndex(s + [e], e.key)) == s
  {
    var r := s + [e];
    assert Keys(r) == Keys(s) + [e.key];
    assert Keys(r)[|s|] == e.key;
  }

  /**
   * The trace `removeAll` leaves: each round pops the top entry, running its close callback
   * (if any) while that entry is still on the stack, and then offers the shorter stack.
   */
  function PopAllTrace(s: seq<Entry>, callbacks: map<Key, CallbackId>): seq<Event>
    decreases |s|
  {
    if s == [] then []
    else
      var top := s[|s| - 1].key;
      var rest := s[..|s| - 1];
      FiredOn(callbacks, s, Some(top)) + [Offered(rest)] + PopAllTrace(rest, callbacks - {top})
  }

  /**
   * One pop is the first round of popping everything: its trace and the rest of the
   * rounds together make up the whole trace.
   */
  lemma PopStep(s: seq<Entry>, c: map<Key, CallbackId>, e: seq<Event>, s': seq<Entry>, c': map<Key, CallbackId>, e': seq<Event>)
    requires s != []
    requires s' == DeleteAt(s, |s| - 1) && c' == Forget(c, KeyAt(s, |s| - 1))
    requires e' == e + FiredOn(c, s, KeyAt(s, |s| - 1)) + [Offered(s')]
    ensures s' == s[..|s| - 1]
    ensures e' + PopAllTrace(s', c') == e + PopAllTrace(s, c)
  {
    var top := s[|s| - 1].key;
    assert s' == s[..|s| - 1];
    assert KeyAt(s, |s| - 1) == Some(top) && c' == c - {top};
    var fired := FiredOn(c, s, Some(top));
    assert PopAllTrace(s, c) == fired + [Offered(s')] + PopAllTrace(s', c');
    calc {
      e' + PopAllTrace(s', c');
      (e + fired + [Offered(s')]) + PopAllTrace(s', c');
      e + (fired + [Offered(s')] + PopAllTrace(s', c'));
    }
  }

  /** The callbacks a trace invokes, in order. */
  function InvokedOf(trace: seq<Event>): seq<CallbackId>
  {
    if trace == [] then []
    else (if trace[0].Invoked? then [trace[0].callback] else []) + InvokedOf(trace[1..])
  }

  /** The stacks a trace offers to the host, in order. */
  function OfferedOf(trace: seq<Event>): seq<seq<Entry>>
  {
    if trace == [] then []
    else (if trace[0].Offered? then [trace[0].stack] else []) + OfferedOf(trace[1..])
  }

  /** The close callbacks of a stack's entries, from the top entry down. */
  function TopDownCallbacks(s: seq<Entry>, callbacks: map<Key, CallbackId>): seq<CallbackId>
  {
    if s == [] then []
    else
      var top := s[|s| - 1].key;
      (if top in callbacks then [callbacks[top]] else []) + TopDownCallbacks(s[..|s| - 1], callbacks)
  }

  lemma {:induction false} InvokedOfAppend(a: seq<Event>, b: seq<Event>)
    ensures InvokedOf(a + b) == InvokedOf(a) + InvokedOf(b)
  {
    if a != [] {
      assert (a + b)[1..] == a[1..] + b;
      InvokedOfAppend(a[1..], b);
    } else {
      assert a + b == b;
    }
  }

  lemma {:induction false} OfferedOfAppend(a: seq<Event>, b: seq<Event>)
    ensures OfferedOf(a + b) == OfferedOf(a) + OfferedOf(b)
  {
    if a != [] {
      assert (a + b)[1..] == a[1..] + b;
      OfferedOfAppend(a[1..], b);
    } else {
      assert a + b == b;
    }
  }

  /** Forgetting a key no entry has does not change which callbacks the entries own. */
  lemma {:induction false} TopDownIgnoresAbsent(s: seq<Entry>, callbacks: map<Key, CallbackId>, k: Key)
    requires k !in KeySet(s)
    ensures TopDownCallbacks(s, callbacks - {k}) == TopDownCallbacks(s, callbacks)
  {
    if s != [] {
      var rest := s[..|s| - 1];
      assert Keys(s) == Keys(rest) + [s[|s| - 1].key];
      TopDownIgnoresAbsent(rest, callbacks, k);
    }
  }

  /**
   * Popping a stack with unique keys down to empty runs the entries' close callbacks once
   * each, from the top entry down.
   */
  lemma {:induction false} PopAllInvokesTopDown(s: seq<Entry>, callbacks: map<Key, CallbackId>)
    requires UniqueKeys(s)
    ensures InvokedOf(PopAllTrace(s, callbacks)) == TopDownCallbacks(s, callbacks)
  {
    if s != [] {
      var top := s[|s| - 1].key;
      var rest := s[..|s| - 1];
      var step := FiredOn(callbacks, s, Some(top)) + [Offered(rest)];
      assert PopAllTrace(s, callbacks) == step + PopAllTrace(rest, callbacks - {top});
      InvokedOfAppend(step, PopAllTrace(rest, callbacks - {top}));
      InvokedOfAppend(FiredOn(callbacks, s, Some(top)), [Offered(rest)]);
      assert InvokedOf([Offered(rest)]) == [];
      PopAllInvokesTopDown(rest, callbacks - {top});
      forall j | 0 <= j < |rest| ensures Keys(rest)[j] != top {
        assert s[j].key != s[|s| - 1].key;
      }
      TopDownIgnoresAbsent(rest, callbacks, top);
    }
  }

  /** The first round of popping a non-empty stack offers the stack without its top entry first. */
  lemma PopAllOffersFirst(s: seq<Entry>, callbacks: map<Key, CallbackId>)
    requires s != []
    ensures OfferedOf(PopAllTrace(s, callbacks))
            == [s[..|s| - 1]] + OfferedOf(PopAllTrace(s[..|s| - 1], callbacks - {s[|s| - 1].key}))
  {
    var top := s[|s| - 1].key;
    var rest := s[..|s| - 1];
    var fired := FiredOn(callbacks, s, Some(top));
    var tail := PopAllTrace(rest, callbacks - {top});
    assert PopAllTrace(s, callbacks) == fired + [Offered(rest)] + tail;
    OfferedOfAppend(fired + [Offered(rest)], tail);
    OfferedOfAppend(fired, [Offered(rest)]);
    assert OfferedOf(fired) == [] by {
      if fired != [] {
        assert fired == [fired[0]] && fired[0].Invoked?;
      }
    }
  }

  /**
   * Popping a stack down to empty offers the host one snapshot per entry: the stack without
   * its top entry, then without its top two, and so on down to the empty stack.
   */
  lemma {:induction false} PopAllOffersEachPrefix(s: seq<Entry>, callbacks: map<Key, CallbackId>)
    ensures |OfferedOf(PopAllTrace(s, callbacks))| == |s|
    ensures forall j :: 0 <= j < |s| ==> OfferedOf(PopAllTrace(s, callbacks))[j] == s[..|s| - 1 - j]
  {
    if s != [] {
      var top := s[|s| - 1].key;
      var rest := s[..|s| - 1];
      var tail := PopAllTrace(rest, callbacks - {top});
      PopAllOffersFirst(s, callbacks);
      PopAllOffersEachPrefix(rest, callbacks - {top});
      var offers := OfferedOf(PopAllTrace(s, callbacks));
      assert offers == [rest] + OfferedOf(tail);
      forall j | 0 <= j < |s| ensures offers[j] == s[..|s| - 1 - j] {
        if j > 0 {
          assert offers[j] == OfferedOf(tail)[j - 1] == rest[..|rest| - 1 - (j - 1)];
        }
      }
    }
  }
}
