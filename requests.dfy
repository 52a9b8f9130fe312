/**
 * The effects the controllers ask of services outside the model: notifications, tweens, pool
 * releases and view removals. Each is recorded, in order, in a shared Outbox.
 */
module Requests {
  import opened Wrappers
  import opened UnityMath
  import opened Element
  import opened ElementModels

  datatype Request =
    /** NotificationService.ShowNotification(key) */
    | Notify(key: string)
    /** elementPool.ReturnToPool(view) */
    | ReleaseView(pooled: ElementView)
    /** Tween.LocalPosition(view, target, duration, InOutQuad) */
    | SlideTo(moved: ElementView, target: Vector3, duration: real)
    /** view.OnRemove(model): the view's owner takes the model out */
    | RemoveOriginal(view: ElementView?, model: Option<ElementModel>)
    /** fade the dragging view out over `duration`, then hide it */
    | FadeOutThenHide(duration: real)
    /** fade the dragging view out, then a straight jump of a copy from `from` back to `to`, then hide */
    | FadeOutThenJumpBack(from: Vector3, to: Vector3, sprite: Option<Sprite>, fadeDuration: real, jumpDuration: real)
    /** an arced jump of a copy from `from` to `to`, then the original's removal */
    | JumpThenRemove(from: Vector3, to: Vector3, sprite: Option<Sprite>, duration: real, view: ElementView?, model: Option<ElementModel>)

  /** The ordered record of requested effects. */
  class Outbox {
    var log: seq<Request>

    constructor ()
      ensures log == []
    {
      log := [];
    }

    method Send(r: Request)
      modifies this`log
      ensures log == old(log) + [r]
    {
      log := log + [r];
    }
  }
}
