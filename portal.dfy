/**
 * The toggle-style `portal` directive of src/portal.ts: a re-rendered "show this modal
 * while the flag is true" binding over the modal stack. The directive keeps the registry
 * of the entry it pushed, so a render pushes, replaces or removes.
 */
module Portal {
  import opened Options
  import opened Ledger
  import opened ModalStack

  /** A template, or a function that supplies one. */
  datatype TemplateSource = Literal(template: Template) | Supplier(supply: () -> Template)

  /** A show flag, or a function that yields one. */
  datatype ShowFlag = Flag(show: bool) | Thunk(evaluate: () -> bool)

  /** `getTemplate`: call a supplier, take a template as it is. */
  function GetTemplate(source: TemplateSource): Template
  {
    match source
    case Literal(t) => t
    case Supplier(f) => f()
  }

  /** The reduction of the show flag to a boolean that `render` does before deciding anything. */
  function Shown(flag: ShowFlag): bool
  {
    match flag
    case Flag(b) => b
    case Thunk(f) => f()
  }

  class PortalDirective {
    var modalRegistry: Option<Registry>

    constructor()
      ensures modalRegistry == None
    {
      modalRegistry := None;
    }

    /**
     * `render(showModal, template, closeCallback)` against the controller `getInstance`
     * returns. `key` is what `uuid()` yields should this render push.
     *  - no registry, flag false: nothing happens;
     *  - no registry, flag true: one push, whose registry is kept;
     *  - a registry, flag true: its entry is replaced in place (if it is still there), and
     *    its callback becomes the one given, or is deleted when none is;
     *  - a registry, flag false: its entry is removed and the registry dropped, so a
     *    later true render pushes again.
     */
    method Render(controller: ModalController, showModal: ShowFlag, template: TemplateSource,
                  closeCallback: Option<CallbackId>, key: Key)
      requires controller.Valid() && controller.host != null
      requires modalRegistry.None? && Shown(showModal) ==> key !in KeySet(controller.ModalStack())
      modifies this`modalRegistry, controller`state, controller`events,
               controller.host`modalStack, controller.host`bodyActive
      ensures controller.Valid()
      ensures old(modalRegistry).None? && !Shown(showModal) ==>
                modalRegistry == None && controller.RemovedAt(-1)
      ensures old(modalRegistry).None? && Shown(showModal) ==>
                && modalRegistry == Some(Registry(key))
                && controller.ModalStack() == old(controller.ModalStack()) + [Entry(key, GetTemplate(template))]
                && controller.ModalNodes() == old(controller.ModalNodes())
                && controller.CloseCallbacks() == (if closeCallback.Some? then old(controller.CloseCallbacks())[key := closeCallback.value]
                                                   else old(controller.CloseCallbacks()))
                && controller.events == old(controller.events) + [Offered(controller.ModalStack())]
                && controller.host.modalStack == controller.ModalStack()
      ensures old(modalRegistry).Some? && Shown(showModal) ==>
                var key := old(modalRegistry).value.key;
                && modalRegistry == old(modalRegistry)
                && controller.ModalStack() == Replaced(old(controller.ModalStack()), key, GetTemplate(template))
                && controller.ModalNodes() == old(controller.ModalNodes())
                && (key in KeySet(old(controller.ModalStack())) ==>
                      controller.CloseCallbacks() == if closeCallback.Some? then old(controller.CloseCallbacks())[key := closeCallback.value]
                                                     else old(controller.CloseCallbacks()) - {key})
                && (key !in KeySet(old(controller.ModalStack())) ==> controller.state == old(controller.state))
                && (controller.ModalStack() != old(controller.ModalStack()) ==>
                      controller.events == old(controller.events) + [Offered(controller.ModalStack())]
                      && controller.host.modalStack == controller.ModalStack())
                && (controller.ModalStack() == old(controller.ModalStack()) ==>
                      controller.events == old(controller.events) && controller.host.modalStack == old(controller.host.modalStack))
      ensures old(modalRegistry).Some? && !Shown(showModal) ==>
                && modalRegistry == None
                && controller.RemovedAt(KeyIndex(old(controller.ModalStack()), old(modalRegistry).value.key))
    {
      var show := Shown(showModal);
      if modalRegistry.Some? {
        if show {
          controller.ReplaceRegistered(modalRegistry.value, GetTemplate(template), closeCallback);
        } else {
          controller.RemoveRegistered(modalRegistry.value);
          modalRegistry := None;
        }
      } else if show {
        var registry := controller.Push(GetTemplate(template), closeCallback, key);
        modalRegistry := Some(registry);
      }
    }
  }
}
