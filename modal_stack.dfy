/**
 * The modal stack of src/modal-controller.ts and the rendering surface of
 * src/modal-portal.ts that mirrors it. The two classes refer to each other (the
 * controller's `host`, the surface's `modalC`), so they share one module.
 */
module ModalStack {
  import opened Options
  import opened Lists
  import opened State
  import StateManager
  import opened Ledger
  import opened SurfaceEvents

  function Min(a: int, b: int): int
  {
    if a <= b then a else b
  }

  /**
   * `ModalController`: the one ledger of open modals. `state` is the module-level
   * `_modalState`; `events` is the observable trace: the close callbacks run, the stacks
   * offered to the host, and the console messages of the controller and its surface.
   */
  class ModalController {
    var state: ModalState
    var host: ModalPortal?
    ghost var events: seq<Event>

    ghost predicate Valid()
      reads this, host
    {
      Tracked(state) && (host != null ==> host.Valid())
    }

    function ModalStack(): seq<Entry>
      reads this
      requires WellFormed(state)
    {
      StackOf(state)
    }

    function ModalNodes(): seq<Node>
      reads this
      requires WellFormed(state)
    {
      NodesOf(state)
    }

    function CloseCallbacks(): map<Key, CallbackId>
      reads this
      requires WellFormed(state)
    {
      CallbacksOf(state)
    }

    /** The instance `getInstance` creates on first use, before any host is attached. */
    constructor()
      ensures Valid() && state == InitialState && host == null && events == []
    {
      state := InitialState;
      host := null;
      events := [];
    }

    /**
     * The `modalState` setter: install `newState`, offering its stack to the host first
     * when the stack member differs from the current one.
     */
    method SetModalState(newState: ModalState)
      requires Valid() && host != null && Tracked(newState)
      modifies this`state, this`events, host`modalStack, host`bodyActive
      ensures Valid() && state == newState
      ensures StackOf(newState) != old(ModalStack()) ==>
                events == old(events) + [Offered(StackOf(newState))] && host.modalStack == StackOf(newState)
      ensures StackOf(newState) == old(ModalStack()) ==>
                events == old(events) && host.modalStack == old(host.modalStack) && host.bodyActive == old(host.bodyActive)
    {
      if IsNew(newState, StackField, state[StackField]) {
        host.OfferState(newState[StackField].stack);
        events := events + [Offered(newState[StackField].stack)];
      }
      state := newState;
    }

    /** `attach`: the first host sticks; a later one is refused with a logged error. */
    method Attach(h: ModalPortal)
      requires Valid() && h.Valid()
      modifies this`host, this`events
      ensures Valid()
      ensures old(host) == null ==> host == h && events == old(events)
      ensures old(host) != null ==> host == old(host) && events == old(events) + [Logged(AttachError)]
    {
      if host == null {
        host := h;
      } else {
        events := events + [Logged(AttachError)];
      }
    }

    /** `hostConnected`: offer the current stack, whatever the host holds. */
    method HostConnected()
      requires Valid() && host != null
      modifies this`events, host`modalStack, host`bodyActive
      ensures Valid()
      ensures events == old(events) + [Offered(ModalStack())]
      ensures host.modalStack == ModalStack()
    {
      host.OfferState(ModalStack());
      events := events + [Offered(ModalStack())];
    }

    /**
     * `hostUpdated`: take the host's rendered modal nodes as the node list. The stack
     * does not change, so nothing is offered.
     */
    method HostUpdated()
      requires Valid() && host != null
      modifies this`state, this`events, host`modalStack, host`bodyActive
      ensures Valid()
      ensures ModalStack() == old(ModalStack()) && CloseCallbacks() == old(CloseCallbacks())
      ensures ModalNodes() == old(host.ModalNodes())
      ensures events == old(events)
      ensures host.modalStack == old(host.modalStack) && host.bodyActive == old(host.bodyActive)
    {
      var partial := map[NodesField := NodesValue(host.ModalNodes())];
      MergeParts(state, partial);
      var newState := StateManager.ApplyState(state, Some(partial));
      SetModalState(newState);
    }

    /**
     * `push`: put the template on top under a fresh key and hand back the registry bound
     * to that key. `key` is the value of `uuid()` (see `Uuid.UuidFormat`); the code relies
     * on it not being in the stack already.
     */
    method Push(template: Template, closeCallback: Option<CallbackId>, key: Key) returns (registry: Registry)
      requires Valid() && host != null
      requires key !in KeySet(ModalStack())
      modifies this`state, this`events, host`modalStack, host`bodyActive
      ensures Valid()
      ensures registry.key == key
      ensures ModalStack() == old(ModalStack()) + [Entry(registry.key, template)]
      ensures ModalNodes() == old(ModalNodes())
      ensures CloseCallbacks() == if closeCallback.Some? then old(CloseCallbacks())[registry.key := closeCallback.value]
                                  else old(CloseCallbacks())
      ensures events == old(events) + [Offered(ModalStack())]
      ensures host.modalStack == ModalStack()
    {
      var keyed := AddKeyToTemplate(template, key);
      PushTracked(ModalStack(), keyed);
      var callbacks := if closeCallback.Some? then CloseCallbacks()[key := closeCallback.value] else CloseCallbacks();
      var partial := map[StackField := StackValue(ModalStack() + [keyed]), CallbacksField := CallbacksValue(callbacks)];
      MergeParts(state, partial);
      var newState := StateManager.ApplyState(state, Some(partial));
      assert StackOf(newState) == ModalStack() + [keyed] && CallbacksOf(newState) == callbacks;
      assert Tracked(newState);
      assert StackOf(newState) != ModalStack() by {
        assert |StackOf(newState)| == |ModalStack()| + 1;
      }
      SetModalState(newState);
      registry := Registry(key);
    }

    /**
     * `replace`: give the entry with `key` a new template in place, and its callback
     * (or none); an absent key changes nothing.
     */
    method Replace(key: Key, template: Template, closeCallback: Option<CallbackId>)
      requires Valid() && host != null
      modifies this`state, this`events, host`modalStack, host`bodyActive
      ensures Valid()
      ensures ModalStack() == Replaced(old(ModalStack()), key, template)
      ensures ModalNodes() == old(ModalNodes())
      ensures key in KeySet(old(ModalStack())) ==>
                CloseCallbacks() == if closeCallback.Some? then old(CloseCallbacks())[key := closeCallback.value]
                                    else old(CloseCallbacks()) - {key}
      ensures key !in KeySet(old(ModalStack())) ==> state == old(state)
      ensures ModalStack() != old(ModalStack()) ==> events == old(events) + [Offered(ModalStack())] && host.modalStack == ModalStack()
      ensures ModalStack() == old(ModalStack()) ==>
                events == old(events) && host.modalStack == old(host.modalStack) && host.bodyActive == old(host.bodyActive)
    {
      var index := KeyIndex(ModalStack(), key);
      if index >= 0 {
        var stack := ModalStack()[index := AddKeyToTemplate(template, key)];
        assert stack == Replaced(ModalStack(), key, template);
        var callbacks := if closeCallback.Some? then CloseCallbacks()[key := closeCallback.value] else CloseCallbacks() - {key};
        var partial := map[StackField := StackValue(stack), CallbacksField := CallbacksValue(callbacks)];
        MergeParts(state, partial);
        var newState := StateManager.ApplyState(state, Some(partial));
        assert forall i :: 0 <= i < |stack| ==> stack[i].key == Keys(stack)[i] == Keys(ModalStack())[i];
        SetModalState(newState);
      }
    }

    /**
     * What positional removal at `index` does: a negative index changes nothing; otherwise
     * the close callback of the key at `index` (if any) runs while the old stack is still
     * in place, and then the entry, its node slot and its callback go, the stack being
     * offered when it changed. An index past the end of a list leaves that list as it is.
     */
    twostate predicate RemovedAt(index: int)
      reads this, host
    {
      && host == old(host) && host != null
      && WellFormed(old(state)) && WellFormed(state)
      && var s0, n0, c0 := StackOf(old(state)), NodesOf(old(state)), CallbacksOf(old(state));
         if index < 0 then
           && state == old(state) && events == old(events)
           && host.modalStack == old(host.modalStack) && host.bodyActive == old(host.bodyActive)
         else
           && ModalStack() == DeleteAt(s0, index)
           && ModalNodes() == DeleteAt(n0, index)
           && CloseCallbacks() == Forget(c0, KeyAt(s0, index))
           && events == old(events) + FiredOn(c0, s0, KeyAt(s0, index)) + (if index < |s0| then [Offered(ModalStack())] else [])
           && (index < |s0| ==> host.modalStack == ModalStack())
           && (index >= |s0| ==> host.modalStack == old(host.modalStack) && host.bodyActive == old(host.bodyActive))
    }

    /** `remove(index)`: the one removal primitive. */
    method Remove(index: int)
      requires Valid() && host != null
      modifies this`state, this`events, host`modalStack, host`bodyActive
      ensures Valid() && RemovedAt(index)
    {
      if index >= 0 {
        ghost var s0, n0, c0, e0 := ModalStack(), ModalNodes(), CloseCallbacks(), events;
        var key := KeyAt(ModalStack(), index);
        if key.Some? && key.value in CloseCallbacks() {
          // `callback()`: its body is not modelled, its invocation is recorded.
          events := events + [Invoked(CloseCallbacks()[key.value], ModalStack())];
        }
        assert events == e0 + FiredOn(c0, s0, key);
        RemovalMerge(state, index);
        var newState := StateManager.ApplyState(state, Some(RemovalPartial(state, index)));
        SetModalState(newState);
      }
    }

    /** `pop`: remove the top entry; on an empty stack the index is -1 and nothing happens. */
    method Pop()
      requires Valid() && host != null
      modifies this`state, this`events, host`modalStack, host`bodyActive
      ensures Valid() && RemovedAt(|old(ModalStack())| - 1)
      ensures old(ModalStack()) == [] ==> state == old(state) && events == old(events)
    {
      Remove(|ModalStack()| - 1);
    }

    /** `removeByNode`: remove the entry whose rendered node is `node`; an unknown node changes nothing. */
    method RemoveByNode(node: Node)
      requires Valid() && host != null
      modifies this`state, this`events, host`modalStack, host`bodyActive
      ensures Valid() && RemovedAt(IndexOf(old(ModalNodes()), node))
      ensures node !in old(ModalNodes()) ==> state == old(state) && events == old(events)
    {
      Remove(IndexOf(ModalNodes(), node));
    }

    /**
     * `removeByKey`: remove the entry with `key` wherever it now sits, and only that entry;
     * an absent key changes nothing.
     */
    method RemoveByKey(key: Key)
      requires Valid() && host != null
      modifies this`state, this`events, host`modalStack, host`bodyActive
      ensures Valid() && RemovedAt(KeyIndex(old(ModalStack()), key))
      ensures key !in KeySet(old(ModalStack())) ==> state == old(state) && events == old(events)
      ensures KeySet(ModalStack()) == KeySet(old(ModalStack())) - {key}
    {
      var index := KeyIndex(ModalStack(), key);
      if index >= 0 {
        DeleteTracked(ModalStack(), index);
      }
      Remove(index);
    }

    /** The registry's `remove` closure. */
    method RemoveRegistered(registry: Registry)
      requires Valid() && host != null
      modifies this`state, this`events, host`modalStack, host`bodyActive
      ensures Valid() && RemovedAt(KeyIndex(old(ModalStack()), registry.key))
    {
      RemoveByKey(registry.key);
    }

    /** The registry's `replace` closure. */
    method ReplaceRegistered(registry: Registry, template: Template, closeCallback: Option<CallbackId>)
      requires Valid() && host != null
      modifies this`state, this`events, host`modalStack, host`bodyActive
      ensures Valid()
      ensures ModalStack() == Replaced(old(ModalStack()), registry.key, template)
      ensures ModalNodes() == old(ModalNodes())
      ensures registry.key in KeySet(old(ModalStack())) ==>
                CloseCallbacks() == if closeCallback.Some? then old(CloseCallbacks())[registry.key := closeCallback.value]
                                    else old(CloseCallbacks()) - {registry.key}
      ensures registry.key !in KeySet(old(ModalStack())) ==> state == old(state)
      ensures ModalStack() != old(ModalStack()) ==> events == old(events) + [Offered(ModalStack())] && host.modalStack == ModalStack()
      ensures ModalStack() == old(ModalStack()) ==>
                events == old(events) && host.modalStack == old(host.modalStack) && host.bodyActive == old(host.bodyActive)
    {
      Replace(registry.key, template, closeCallback);
    }

    /**
     * `removeAll`: pop until the stack is empty. Each round is a removal of its own, so the
     * trace holds every entry's callback and one offer per entry.
     */
    method RemoveAll()
      requires Valid() && host != null
      modifies this`state, this`events, host`modalStack, host`bodyActive
      ensures Valid() && ModalStack() == [] && CloseCallbacks() == map[]
      ensures ModalNodes() == old(ModalNodes())[Min(|old(ModalStack())|, |old(ModalNodes())|)..]
      ensures events == old(events) + PopAllTrace(old(ModalStack()), old(CloseCallbacks()))
      ensures old(ModalStack()) != [] ==> host.modalStack == []
      ensures old(ModalStack()) == [] ==> state == old(state) && host.modalStack == old(host.modalStack)
    {
      ghost var s0, n0, c0, e0 := ModalStack(), ModalNodes(), CloseCallbacks(), events;
      while |ModalStack()| > 0
        invariant Valid() && host == old(host)
        invariant Draining(s0, n0, c0, e0)
        invariant |ModalStack()| == |s0| ==> state == old(state) && host.modalStack == old(host.modalStack)
        invariant |ModalStack()| < |s0| ==> host.modalStack == ModalStack()
        decreases |ModalStack()|
      {
        PopRound(s0, n0, c0, e0);
      }
    }

    /**
     * Where `removeAll` stands after some rounds, starting from stack `s0`, nodes `n0`,
     * callbacks `c0` and trace `e0`: the stack is a prefix of `s0`, the trace so far and the
     * pops still to come make up the whole trace, and the nodes above the stack's end are gone.
     */
    ghost predicate Draining(s0: seq<Entry>, n0: seq<Node>, c0: map<Key, CallbackId>, e0: seq<Event>)
      reads this
      requires WellFormed(state)
    {
      && |ModalStack()| <= |s0| && ModalStack() == s0[..|ModalStack()|]
      && events + PopAllTrace(ModalStack(), CloseCallbacks()) == e0 + PopAllTrace(s0, c0)
      && ModalNodes() == n0[..Min(|ModalStack()|, |n0|)] + n0[Min(|s0|, |n0|)..]
    }

    /** One round of `removeAll`: a `pop` of a non-empty stack keeps `Draining`. */
    method PopRound(ghost s0: seq<Entry>, ghost n0: seq<Node>, ghost c0: map<Key, CallbackId>, ghost e0: seq<Event>)
      requires Valid() && host != null && |ModalStack()| > 0
      requires Draining(s0, n0, c0, e0)
      modifies this`state, this`events, host`modalStack, host`bodyActive
      ensures Valid() && host == old(host) && Draining(s0, n0, c0, e0)
      ensures |ModalStack()| == |old(ModalStack())| - 1 && host.modalStack == ModalStack()
    {
      ghost var s, n, c, e := ModalStack(), ModalNodes(), CloseCallbacks(), events;
      Pop();
      PopStep(s, c, e, ModalStack(), CloseCallbacks(), events);
      assert ModalStack() == s0[..|ModalStack()|];
      PopNodes(n0, |s0|, |s|);
    }
  }

  /**
   * Attach-once: of two surfaces created over one fresh controller, only the first is its
   * host. The second is refused with the logged error and, once connected and rendered,
   * neither is offered a stack nor writes the controller's node list.
   */
  method SecondSurfaceIsInert(element: Node, rendered: seq<Node>) returns (c: ModalController, p: ModalPortal, q: ModalPortal)
    ensures c.host == p && p != q
    ensures c.Valid() && c.state == InitialState && c.events == [Logged(AttachError)]
    ensures q.listening && q.modalStack == [] && q.children == rendered
  {
    c := new ModalController();
    p := new ModalPortal(c);
    q := new ModalPortal(c);
    q.ConnectedCallback();
    q.Updated(element, rendered);
  }

  /** One more pop keeps the node list equal to what `removeAll` leaves after that many rounds. */
  lemma PopNodes(n0: seq<Node>, total: nat, size: nat)
    requires 0 < size <= total
    ensures DeleteAt(n0[..Min(size, |n0|)] + n0[Min(total, |n0|)..], size - 1)
            == n0[..Min(size - 1, |n0|)] + n0[Min(total, |n0|)..]
  {
    var nodes := n0[..Min(size, |n0|)] + n0[Min(total, |n0|)..];
    if size <= |n0| {
      assert nodes[..size - 1] == n0[..size - 1];
      assert nodes[size..] == n0[Min(total, |n0|)..];
    } else {
      assert nodes == n0;
    }
  }

  /**
   * `ModalPortal`: the rendering surface. It holds the stack it was last offered, the
   * "modal-portal-active" class of the document body, its rendered `div#portal` element
   * (`portalRef.value`) with that element's child nodes, and whether its keydown listener
   * is registered.
   */
  class ModalPortal {
    var modalC: ModalController
    var modalStack: seq<Entry>
    var bodyActive: bool
    var portalElement: Option<Node>
    var children: seq<Node>
    var listening: bool

    /** The body class is on exactly while the held stack is non-empty. */
    ghost predicate Valid()
      reads this
    {
      bodyActive == (|modalStack| > 0)
    }

    /** `modalNodes`: the portal element's children, none before it is rendered. */
    function ModalNodes(): seq<Node>
      reads this
    {
      if portalElement.Some? then children else []
    }

    /** The constructor attaches the new surface to the controller. */
    constructor(c: ModalController)
      requires c.Valid()
      modifies c`host, c`events
      ensures Valid() && modalC == c && modalStack == [] && !bodyActive
      ensures portalElement == None && children == [] && !listening
      ensures c.Valid()
      ensures old(c.host) == null ==> c.host == this && c.events == old(c.events)
      ensures old(c.host) != null ==> c.host == old(c.host) && c.events == old(c.events) + [Logged(AttachError)]
    {
      modalC := c;
      modalStack := [];
      bodyActive := false;
      portalElement := None;
      children := [];
      listening := false;
      new;
      c.Attach(this);
    }

    /** `offerState`: take the stack only if it differs, and set the body class to match it. */
    method OfferState(newStack: seq<Entry>)
      requires Valid()
      modifies this`modalStack, this`bodyActive
      ensures Valid()
      ensures newStack != old(modalStack) ==> modalStack == newStack && bodyActive == (|newStack| > 0)
      ensures newStack == old(modalStack) ==> modalStack == old(modalStack) && bodyActive == old(bodyActive)
    {
      if modalStack != newStack {
        modalStack := newStack;
        if |modalStack| > 0 {
          bodyActive := true;
        } else {
          bodyActive := false;
        }
      }
    }

    /**
     * `popOnEscape`: an Escape press outside a composition pops the controller's top
     * entry when this surface holds a non-empty stack; anything else does nothing.
     */
    method PopOnEscape(e: KeyboardEvent)
      requires modalC.Valid() && modalC.host != null
      modifies modalC`state, modalC`events, modalC.host`modalStack, modalC.host`bodyActive
      ensures modalC.Valid()
      ensures !IsComposing(e) && IsEscapeKey(e) && |old(modalStack)| > 0 ==>
                modalC.RemovedAt(|old(modalC.ModalStack())| - 1)
      ensures IsComposing(e) || !IsEscapeKey(e) || |old(modalStack)| == 0 ==>
                modalC.RemovedAt(-1)
    {
      if IsComposing(e) {
        return;
      }
      if IsEscapeKey(e) && |modalStack| > 0 {
        modalC.Pop();
      }
    }

    /**
     * `closeModal`: remove the modal whose rendered node the close event bubbled out of,
     * or warn when the portal element is not at a usable depth of the event path.
     */
    method CloseModal(path: seq<Node>)
      requires modalC.Valid() && modalC.host != null
      modifies modalC`state, modalC`events, modalC.host`modalStack, modalC.host`bodyActive
      ensures modalC.Valid()
      ensures ClosingNode(path, old(portalElement)).None? ==>
                && modalC.state == old(modalC.state)
                && modalC.events == old(modalC.events) + [Logged(PathWarning)]
                && modalC.host.modalStack == old(modalC.host.modalStack)
                && modalC.host.bodyActive == old(modalC.host.bodyActive)
      ensures ClosingNode(path, old(portalElement)).Some? ==>
                modalC.RemovedAt(IndexOf(old(modalC.ModalNodes()), ClosingNode(path, old(portalElement)).value))
    {
      var modalNode := ClosingNode(path, portalElement);
      if modalNode.None? {
        modalC.events := modalC.events + [Logged(PathWarning)];
      } else {
        modalC.RemoveByNode(modalNode.value);
      }
    }

    /**
     * `connectedCallback`: the keydown listener is added. The controller's `hostConnected`
     * runs first only when this surface is the controller's host, the one element whose
     * `attach` called `addController`; Lit runs no controller hook for any other surface.
     */
    method ConnectedCallback()
      requires Valid() && modalC.Valid() && modalC.host != null
      modifies this`listening, this`modalStack, this`bodyActive, modalC`events
      ensures Valid() && modalC.Valid() && listening
      ensures modalC.state == old(modalC.state)
      ensures old(modalC.host) == this ==>
                modalStack == modalC.ModalStack() && modalC.events == old(modalC.events) + [Offered(modalC.ModalStack())]
      ensures old(modalC.host) != this ==>
                && modalStack == old(modalStack) && bodyActive == old(bodyActive)
                && modalC.events == old(modalC.events)
                && modalC.host.modalStack == old(modalC.host.modalStack)
                && modalC.host.bodyActive == old(modalC.host.bodyActive)
    {
      if modalC.host == this {
        modalC.HostConnected();
      }
      listening := true;
    }

    /** `disconnectedCallback`: the keydown listener is removed. */
    method DisconnectedCallback()
      modifies this`listening
      ensures !listening
    {
      listening := false;
    }

    /**
     * The end of one render pass of this surface: `element` is the rendered `div#portal`
     * and `rendered` its child nodes. The controller's `hostUpdated` then runs, but only
     * when this surface is the controller's host; another surface's nodes never reach it.
     */
    method Updated(element: Node, rendered: seq<Node>)
      requires Valid() && modalC.Valid() && modalC.host != null
      modifies this`portalElement, this`children, this`modalStack, this`bodyActive, modalC`state, modalC`events
      ensures Valid() && modalC.Valid() && modalC.host == old(modalC.host)
      ensures portalElement == Some(element) && children == rendered
      ensures modalStack == old(modalStack) && bodyActive == old(bodyActive)
      ensures modalC.ModalStack() == old(modalC.ModalStack()) && modalC.CloseCallbacks() == old(modalC.CloseCallbacks())
      ensures modalC.events == old(modalC.events)
      ensures old(modalC.host) == this ==> modalC.ModalNodes() == rendered
      ensures old(modalC.host) != this ==>
                && modalC.state == old(modalC.state)
                && modalC.host.modalStack == old(modalC.host.modalStack)
                && modalC.host.bodyActive == old(modalC.host.bodyActive)
    {
      portalElement := Some(element);
      children := rendered;
      if modalC.host == this {
        modalC.HostUpdated();
      }
    }
  }
}
