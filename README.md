# lit-modal-portal in Dafny

This project models the core of lit-modal-portal, a Lit library that renders modal dialogs
into one portal element. The core has these parts:

- **ModalController** owns a single immutable modal state. The state has three members:
  - `modalStack`: the keyed templates;
  - `modalNodes`: the DOM nodes rendered for those templates;
  - `closeCallbacks`: callbacks indexed by key.
- `push`, `replace`, `pop`, `remove`, `removeByNode`, `removeByKey` and `removeAll` rebuild
  that state with `applyState`. The `modalState` setter offers the new stack to its host,
  but only when the stack member changed (`isNew`).
- **ModalPortal** is the host. It holds the last stack it was offered and keeps the body
  class "modal-portal-active" in step with it. It pops on Escape. It also declares a
  `closeModal` handler that removes the modal an event bubbled out of; `CloseModal` models
  that handler's body, which the surface never registers as a listener (see "## Left out").
- **The `portal` directive** pushes, replaces or removes one entry as its show flag changes.
- **`uuid`** generates the keys by rewriting a version-4 UUID template
  (section 4.4 of RFC 4122).

Modules, in dependency order:

| module | file | models |
|---|---|---|
| `Options` | options.dfy | the `Option` datatype (`undefined` versus a value) |
| `Lists` | lists.dfy | Immutable `List.indexOf`, `findIndex` and `delete` |
| `State` | state.dfy | `applyState` and `isNew` of src/lib/state.ts |
| `StateManager` | state_manager.dfy | `StateManager.applyState` of lib/state.ts |
| `Uuid` | uuid.dfy | `hexChar` and `uuid` of src/lib/uuid.ts |
| `Ledger` | ledger.dfy | the values of src/modal-controller.ts, plus the facts its operations rely on |
| `SurfaceEvents` | surface_events.dfy | the keyboard and event-path decisions of src/modal-portal.ts |
| `ModalStack` | modal_stack.dfy | the classes `ModalController` and `ModalPortal` |
| `Portal` | portal.dfy | the class `PortalDirective` of src/portal.ts |

How the model represents the source:

- **The controller's state.**
  - `_modalState` is a `var state: map<Field, Slot>`, one slot per member of `ModalState`.
  - The invariant `Ledger.Tracked` holds throughout. It says three things: every member is
    present with its declared type, stack keys are unique, and only keys in the stack have a
    close callback.
- **The observable trace.** What the controller does that others can see goes into a ghost
  trace `events`. There are three kinds of event:
  - `Invoked`: a close callback ran; the event records the stack that callback could observe;
  - `Offered`: the host was offered a stack;
  - `Logged`: a console message, from the controller (`console.error`) or its surface (`console.warn`).
- **Identities.** Templates, DOM nodes and callback functions are opaque identities (`nat`).
  Immutable's `is` on a List becomes value equality of sequences.
- **Removal.** Every removal goes through the twostate predicate
  `ModalStack.ModalController.RemovedAt(index)`. It is the single statement of what
  `remove(index)` does, and the contracts of `pop`, `removeByNode`, `removeByKey`, the
  registry's `remove`, Escape handling and `closeModal` are all written in terms of it.
- **Order of callback versus removal.** The close callback runs before the entry is
  removed, so the callback sees the old stack. The model records this.
- **`removeAll`.** Its trace is specified by the function `Ledger.PopAllTrace`. Lemmas prove
  two facts about that trace:
  - it invokes each entry's callback once, from the top entry down;
  - it offers the host every shorter prefix of the stack, in turn.

## Model

| member | source | states |
|---|---|---|
| State.ApplyState | src/lib/state.ts:25-31 | An undefined or empty partial returns the existing state. Otherwise the result's keys are the union of both key sets, every member of the partial overrides, and every other member keeps its existing value. |
| State.MergeReportsChange | src/lib/state.ts:58-60 | The change test on a merged state reports a change to a member exactly when the partial supplies that member with a different value. |
| State.IsNew | src/lib/state.ts:58-60 | `isNew` is false for an absent member. For a present member it is true exactly when the value differs. |
| StateManager.ApplyState | lib/state.ts:22-28 | The class form of the merge. Undefined and empty partials return the existing state, partial values win, untouched members stay, and no other keys appear. |
| StateManager.AgreesWithFreeFunction | lib/state.ts:22-28 | The class method and the free function give the same merge on every input. |
| Lists.IndexOf | src/modal-controller.ts:152 | `indexOf` returns -1 exactly when the element is absent. Otherwise it returns a position holding the element, with no earlier occurrence. |
| Lists.DeleteAt | src/modal-controller.ts:143-145 | `List.delete(i)` drops exactly position `i` and keeps the order of the rest. An index past the end leaves the list unchanged. |
| Uuid.HexValue | src/lib/uuid.ts:18 | `a ^ (r >> (a / 4))` is a nibble. It is `r` for '0', `r` with its low bit flipped for '1', and `8 + r / 4` (8-11) for '8'. |
| Uuid.HexChar | src/lib/uuid.ts:18 | `hexChar` always yields one lower-case hexadecimal digit. |
| Uuid.Uuid | src/lib/uuid.ts:20-23 | With a digit argument, `uuid` returns one hexadecimal character. With no argument, it returns text as long as the template. |
| Uuid.Rewrite | src/lib/uuid.ts:17-22 | `template.replace(/[018]/g, uuid)`: each '0', '1' or '8' becomes `hexChar` of that digit, using its own random nibble. Every other character stays. The length is kept. |
| Uuid.TemplateShape | src/lib/uuid.ts:17 | The template has hyphens at positions 8, 13, 18 and 23, '4' at position 14, '8' at position 19, and a matched digit everywhere else. |
| Uuid.VariantDigit | src/lib/uuid.ts:18 | The digit drawn for '8' is one of 8, 9, a and b: the variant bits of RFC 4122. |
| Uuid.RewriteLayout | src/lib/uuid.ts:17-22 | Rewriting any text with the template's layout keeps the hyphens and the '4', puts hexadecimal digits elsewhere, and puts a variant digit at position 19. |
| Uuid.UuidFormat | src/lib/uuid.ts:5-9 | `uuid()` is 36 characters of the form xxxxxxxx-xxxx-4xxx-yxxx-xxxxxxxxxxxx, where y is one of 8, 9, a and b. |
| Ledger.Tracked | src/modal-controller.ts:22-26 | The ledger's invariant: every member present with its declared type, stack keys unique, and only keys in the stack hold a close callback. |
| Ledger.KeyAt | src/modal-controller.ts:136 | `modalStack.get(index)?.key`, on the non-negative indices `remove` passes, is a key exactly when the index is a position of the stack; it is that entry's key, and so in the key set. |
| Ledger.FiredOn | src/modal-controller.ts:137-140 | At most one invocation, present exactly when the key is defined and has a close callback; it is that callback, run on the stack as it stands. |
| Ledger.Forget | src/modal-controller.ts:145 | `closeCallbacks.delete(key)`: the keys lose exactly the given key (none for `undefined`), and every remaining callback is unchanged. |
| Ledger.MergeParts | src/modal-controller.ts:96-102 | Merging well-typed members into the modal state keeps it well formed. Each member becomes the partial's value where one is given and stays as it was otherwise. |
| Ledger.RemovalMerge | src/modal-controller.ts:142-146 | Merging `remove`'s partial keeps the ledger invariant and deletes position `index` from the stack and the nodes, and the key from the callbacks. The stack changes exactly when `index` is a position of the stack. |
| Ledger.KeyIndex | src/modal-controller.ts:112 | `findIndex` by key returns -1 exactly when no entry has the key. Otherwise it returns an entry with that key, and the only one when keys are unique. |
| Ledger.AddKeyToTemplate | src/modal-controller.ts:10-14 | The template tagged with the key: the entry `push` and `replace` put on the stack. It has no contract of its own; `Push` and `Replace` state its effect. |
| Ledger.Replaced | src/modal-controller.ts:111-122 | `replace` gives the entry with the key the new template at the same position. Every other entry, the keys and the length are unchanged. An absent key changes nothing. |
| Ledger.PushTracked | src/modal-controller.ts:94-97 | Pushing under a fresh key keeps keys unique and adds exactly that key to the key set. |
| Ledger.DeleteTracked | src/modal-controller.ts:143-145 | Deleting a present position keeps keys unique and removes exactly that entry's key from the key set. |
| Ledger.PushThenRemove | src/modal-controller.ts:104-105 | A pushed entry's registry `remove` finds it on top, and deleting it gives back the stack as it was before the push. |
| Ledger.PopAllTrace | src/modal-controller.ts:160-164 | The trace of `removeAll`, round by round from the top: the top entry's callback (if any) on the full stack, then the offer of the stack without it. |
| Ledger.PopStep | src/modal-controller.ts:124-126 | One `pop` of a non-empty stack is the first round of `PopAllTrace`. Its events, followed by the remaining rounds, make up the whole trace. |
| Ledger.InvokedOfAppend | src/modal-controller.ts:138-140 | Reading ran callbacks off a trace distributes over concatenation. |
| Ledger.OfferedOfAppend | src/modal-controller.ts:51-57 | Reading offers off a trace distributes over concatenation. |
| Ledger.TopDownIgnoresAbsent | src/modal-controller.ts:145 | Deleting a callback whose key is not in the stack changes none of the stack's callbacks. |
| Ledger.PopAllInvokesTopDown | src/modal-controller.ts:160-164 | `removeAll` runs each entry's close callback exactly once, from the top entry down. |
| Ledger.PopAllOffersFirst | src/modal-controller.ts:142-146 | The first round of popping a non-empty stack offers the stack without its top entry before any later offer; its callback run offers nothing. |
| Ledger.PopAllOffersEachPrefix | src/modal-controller.ts:160-164 | `removeAll` offers the host one stack per entry: the stack minus its top entry, then minus its top two, and so on down to empty. |
| SurfaceEvents.IsComposing | src/modal-portal.ts:47 | A key press belongs to a composition when the event says so or its keyCode is 229. |
| SurfaceEvents.IsEscapeKey | src/modal-portal.ts:52 | The key names "Escape" and "Esc". |
| SurfaceEvents.ClosingNode | src/modal-portal.ts:64-71 | A node to remove exists exactly when the portal element is rendered, is on the event path, and is not first on it. That node is the element just before the portal's first occurrence. |
| ModalStack.ModalController.constructor | src/modal-controller.ts:28-32 | The initial state has three empty members, no host, and no events. |
| ModalStack.ModalController.ModalStack | src/modal-controller.ts:64-66 | The `modalStack` getter: the stack member of the state. |
| ModalStack.ModalController.ModalNodes | src/modal-controller.ts:67-69 | The `modalNodes` getter: the node member of the state. |
| ModalStack.ModalController.CloseCallbacks | src/modal-controller.ts:70-72 | The `closeCallbacks` getter: the callback member of the state. |
| ModalStack.ModalController.SetModalState | src/modal-controller.ts:50-59 | The setter installs the new state. It offers the host the new stack exactly when the stack member differs; otherwise the host and the trace are untouched. |
| ModalStack.ModalController.Attach | src/modal-controller.ts:74-80 | The first host sticks. A second attach keeps the first host and logs the error message. |
| ModalStack.ModalController.HostConnected | src/modal-controller.ts:82-84 | The current stack is offered to the host, which then holds it. |
| ModalStack.ModalController.HostUpdated | src/modal-controller.ts:88-92 | The node list becomes the host's rendered nodes. Stack and callbacks are unchanged, and nothing is offered. |
| ModalStack.ModalController.Push | src/modal-controller.ts:94-109 | The template goes on top under the new key, and the registry is bound to that key. The callback is recorded only when given. Nodes are unchanged, and the new stack is offered once. |
| ModalStack.ModalController.Replace | src/modal-controller.ts:111-122 | The stack becomes `Replaced`. For a present key, the callback is set or deleted. An absent key leaves the state as it was. An offer happens exactly when the stack changed. |
| ModalStack.ModalController.RemovedAt | src/modal-controller.ts:133-148 | The one statement of positional removal. A negative index changes nothing. Otherwise the stack and the nodes lose position `index` (an index past the end of a list leaves it as it is), the callbacks lose the key at `index`, the trace gains that key's callback run on the old stack and then, when the stack changed, the offer of the new stack. When the stack changed the host holds the new stack; otherwise the host is untouched, whatever it held. |
| ModalStack.ModalController.Remove | src/modal-controller.ts:133-148 | `RemovedAt(index)`. A negative index changes nothing. Otherwise the key's callback (if any) runs on the old stack, then the entry, its node and its callback are deleted, and the shorter stack is offered when it changed. |
| ModalStack.ModalController.Pop | src/modal-controller.ts:124-126 | A removal at the top position. An empty stack changes nothing. |
| ModalStack.ModalController.RemoveByNode | src/modal-controller.ts:151-153 | A removal at the node's index. An unknown node changes nothing. |
| ModalStack.ModalController.RemoveByKey | src/modal-controller.ts:156-158 | A removal at the key's index. The key set loses exactly that key, and an absent key changes nothing. |
| ModalStack.ModalController.RemoveRegistered | src/modal-controller.ts:105 | The registry's `remove` closure is removal by its own key. |
| ModalStack.ModalController.ReplaceRegistered | src/modal-controller.ts:106-107 | The registry's `replace` closure is `replace` with its own key: the entry gets the new template in place, its callback is set to the one given or deleted when none is, an absent key leaves the state as it was, and the stack is offered exactly when it changed. |
| ModalStack.ModalController.RemoveAll | src/modal-controller.ts:160-164 | The stack and the callbacks end empty, and the node list loses as many leading slots as the old stack had entries (all of them if it has fewer). The trace gained is exactly `PopAllTrace` of the old stack. When the old stack was non-empty the host ends holding the empty stack; otherwise the state and the host are untouched, whatever the host held. |
| ModalStack.ModalController.PopRound | src/modal-controller.ts:161-163 | One round of the `removeAll` loop pops one entry and keeps the loop invariant `Draining`. |
| ModalStack.PopNodes | src/modal-controller.ts:144 | One more pop deletes the node slot just below the stack's new end, matching what `removeAll` leaves after that many rounds. |
| ModalStack.ModalPortal.ModalNodes | src/modal-portal.ts:23-25 | The `modalNodes` getter: the portal element's children, none before it is rendered. |
| ModalStack.ModalPortal.constructor | src/modal-portal.ts:16-30 | The new surface holds an empty stack with its body-class flag off, and is attached to the controller. A controller that already has a host logs the error. |
| ModalStack.ModalPortal.OfferState | src/modal-portal.ts:32-41 | A different stack is taken, and the body class is set exactly when it is non-empty. An equal stack leaves everything unchanged. |
| ModalStack.ModalPortal.PopOnEscape | src/modal-portal.ts:43-55 | Escape or Esc outside a composition (and not keyCode 229) pops the top entry when the surface holds a non-empty stack. Any other key press changes nothing. |
| ModalStack.ModalPortal.CloseModal | src/modal-portal.ts:60-73 | The handler's body: the modal node the event bubbled out of is removed by node. Without a usable portal position, the state and the host are unchanged and the trace gains exactly the path warning. |
| ModalStack.ModalPortal.ConnectedCallback | src/modal-portal.ts:75-78 | The keydown listener is on and the controller's state is unchanged. For the controller's host, the controller offers its stack, which the surface then holds. For any other surface, nothing else changes: no offer, and neither surface's stack or body class moves. |
| ModalStack.ModalPortal.DisconnectedCallback | src/modal-portal.ts:80-83 | The keydown listener is off. |
| ModalStack.ModalPortal.Updated | src/modal-portal.ts:21-25 | After a render pass the surface holds its rendered element and children. The controller's stack, callbacks and trace are unchanged, and so is the surface's held stack. For the controller's host, the controller's node list becomes those children; for any other surface, the controller's state and the host are unchanged. |
| ModalStack.SecondSurfaceIsInert | src/modal-controller.ts:74-80 | Attach-once: of two surfaces over a fresh controller, the first is the host and the second is refused with the logged error; connecting and rendering the second leaves the controller's initial state and trace as they were, and it is never offered a stack. |
| Portal.GetTemplate | src/portal.ts:9-15 | A supplier is called, a template is taken as it is. It has no contract of its own; `Render` states its effect. |
| Portal.Shown | src/portal.ts:23-25 | A function flag is called and reduced to a boolean, a boolean taken as it is. It has no contract of its own; `Render` states its effect. |
| Portal.PortalDirective.constructor | src/portal.ts:6-7 | A new directive holds no registry. |
| Portal.PortalDirective.Render | src/portal.ts:17-42 | The four cases of `render`. No registry and a false flag does nothing. No registry and a true flag pushes once and keeps the registry: the entry goes on top, the callback is recorded only when given, nodes are unchanged, and the new stack is offered. A registry and a true flag replaces its entry in place: nodes are unchanged, the callback is set to the one given or deleted when none is, an entry no longer present leaves the state as it was, and the stack is offered exactly when it changed. A registry and a false flag removes its entry and drops the registry. |

## Left out

- `getInstance` and the module-level singleton: the controller is a value the caller passes in. The surface's `modalC` field and the directive's `render` take it as a parameter.
- `addController` (Lit's controller registration inside `attach`) and the lifecycle calls Lit makes. `ModalPortal.ConnectedCallback` and `ModalPortal.Updated` name the points where Lit runs `hostConnected` and `hostUpdated`, which it does only for the surface the controller is attached to.
- `render` of the surface (Lit's `repeat` over the stack, keyed by `modal.key`): the DOM it builds is not modelled. `Updated` takes the rendered portal element and its children as parameters.
- CloseModal: models only the body of the `closeModal` arrow function (src/modal-portal.ts:60-73). The surface registers it nowhere: `render` (85-95) binds no `@closeModal` and `connectedCallback` (75-78) adds only the keydown listener. So a `closeModal` event dispatched by a modal (src/lib/modal-overlay.ts:22-23, src/lib/lit-modal.ts:4-5) bubbles past the surface unhandled, and the model does not capture that no code path reaches `CloseModal`.
- `stopImmediatePropagation`, `preventDefault`, `composedPath()`, `document.addEventListener` and the body's `classList`: `CloseModal` takes the composed path as a sequence, and the listener and the body class are boolean fields. The body class is kept per surface: `bodyActive` tracks the document's one class only for the controller's host. A refused second surface starts with its flag off even when the host has the class on, and is never offered a stack that would change it.
- The bodies of close callbacks, and anything they might do to the controller re-entrantly: an invocation is recorded as an event, with the stack the callback can observe.
- `ModalStack.ModalController.Push`: `uuid()` is `Math.random()`, a floating-point source. The key is a parameter; `Uuid.UuidFormat` states which form it has. The precondition that it is not already in the stack stands in for the (probabilistic) uniqueness of random UUIDs, which the code relies on in `findIndex`.
- `Uuid.Uuid`: the JavaScript `Number(a)` conversion of arbitrary strings is not modelled. The function is defined for the two ways the source calls it: with no argument, and with the one matched digit that `replace` passes.
- `Uuid.HexValue`: random nibbles stand for `Math.random() * 16` truncated by `>>`. The floating-point value before truncation is not modelled.
- `addKeyToTemplate` mutates the caller's `TemplateResult` in place. Pushing the same template object twice would retag the earlier entry's key, and the model does not capture that aliasing: an entry is a value pairing the key with the template's identity. `Ledger.AddKeyToTemplate`, `Portal.GetTemplate` and `Portal.Shown` carry no contract of their own; the contracts of `Push`, `Replace` and `Render` state their effect.
- The `offerState` argument `Map({modalStack})` is passed as its single member, the stack.
- Every stack-changing controller operation requires an attached host: the source dereferences `this.host` in the setter, and that call would throw before a host exists.
- The `closeCallbacks.get(undefined)` lookup for an index past the end is `Forget`/`FiredOn` on `None` (no callback, nothing deleted).
- The dialog components, demos, documentation and bundled `dist` files are not part of this model.
