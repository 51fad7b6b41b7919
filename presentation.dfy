/**
 * `PresentationMode`, how a row shows the controller it opens: shown, presented modally,
 * through a named segue, through a segue class, or as a popover. Every case carries an
 * optional completion callback. Controllers come from a provider, modelled as a function
 * from the provider to the controller it creates; callbacks and providers are opaque values.
 */
module Presentation {
  import opened Wrappers

  /** The cases of `PresentationMode`; `P` is the controller provider, `C` a completion callback. */
  datatype PresentationMode<P, C> =
    | Show(controllerProvider: P, completionCallback: Option<C>)
    | PresentModally(controllerProvider: P, completionCallback: Option<C>)
    | SegueName(segueName: string, completionCallback: Option<C>)
    | SegueClass(segueClass: nat, completionCallback: Option<C>)
    | Popover(controllerProvider: P, completionCallback: Option<C>)

  /**
   * A created controller: which controller the provider made, whether it is a
   * `RowControllerType` (the only kind that takes a completion callback), its callback, and
   * whether its modal presentation style is `.popover`.
   */
  datatype Controller<K, C> = Controller(made: K, isRowController: bool, completionCallback: Option<C>, popoverStyle: bool)

  /** Whether the mode performs a segue, so that no controller is created for it. */
  predicate IsSegue<P, C>(mode: PresentationMode<P, C>) {
    mode.SegueName? || mode.SegueClass?
  }

  /** `completionHandler`: the callback of the case, whichever case it is. */
  function CompletionHandler<P, C>(mode: PresentationMode<P, C>): (r: Option<C>)
    ensures r == mode.completionCallback
  {
    match mode
    case Show(_, callback) => callback
    case PresentModally(_, callback) => callback
    case SegueName(_, callback) => callback
    case SegueClass(_, callback) => callback
    case Popover(_, callback) => callback
  }

  /** The provider's controller with the mode's callback handed over, when there is one and the controller takes it. */
  function WithCallback<K, C>(c: Controller<K, C>, callback: Option<C>): Controller<K, C> {
    if callback.Some? && c.isRowController then c.(completionCallback := callback) else c
  }

  /**
   * `createController`: no controller for the segue cases; otherwise the provider's
   * controller, set to the popover style for `Popover`, with the mode's callback installed
   * when the controller is a row controller and the mode has one.
   */
  function CreateController<P, C, K>(mode: PresentationMode<P, C>, create: P -> Controller<K, C>): (r: Option<Controller<K, C>>)
    ensures r.None? <==> IsSegue(mode)
    ensures r.Some? ==> var made := create(mode.controllerProvider);
      && r.value.made == made.made && r.value.isRowController == made.isRowController
      && (r.value.popoverStyle <==> mode.Popover? || made.popoverStyle)
      && (made.isRowController && mode.completionCallback.Some? ==> r.value.completionCallback == mode.completionCallback)
      && (!made.isRowController || mode.completionCallback.None? ==> r.value.completionCallback == made.completionCallback)
  {
    match mode
    case Show(provider, callback) => Some(WithCallback(create(provider), callback))
    case PresentModally(provider, callback) => Some(WithCallback(create(provider), callback))
    case Popover(provider, callback) => Some(WithCallback(create(provider).(popoverStyle := true), callback))
    case _ => None
  }

  /** A created controller's callback is the mode's own `completionHandler` whenever it takes one. */
  lemma CreatedControllerCallsBack<P, C, K>(mode: PresentationMode<P, C>, create: P -> Controller<K, C>)
    requires !IsSegue(mode) && create(mode.controllerProvider).isRowController && CompletionHandler(mode).Some?
    ensures CreateController(mode, create).Some?
    ensures CreateController(mode, create).value.completionCallback == CompletionHandler(mode)
  {
  }
}
