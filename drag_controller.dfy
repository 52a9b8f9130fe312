/**
 * The drag service (Services/DragService/DragController.cs): it starts a drag from any element, moves the
 * half-transparent dragging copy with the pointer and, when the drag ends, offers the element to the first
 * drop zone under the pointer, then asks for the animation that fits the outcome. Tweens and notifications
 * are requests in the shared outbox; the engine's world positions and random draws are parameters.
 */
module Drag {
  import opened Wrappers
  import opened UnityMath
  import opened Element
  import opened ElementModels
  import opened Requests
  import opened TowerElement
  import opened TowerLayout
  import opened Tower
  import opened TowerZone
  import opened HoleZone

  /** A registered drop zone, with the engine geometry its hit test asks about. */
  datatype DropZone =
    | HoleDrop(hole: HoleController, toLocal: Vector3 -> Option<Vector2>)
    | TowerDrop(tower: TowerContainerController, screen: Screen)

  /** What a zone's hit test reads. */
  function ZoneReads(z: DropZone): set<object?> {
    match z
    case HoleDrop(h, _) => {h.Model}
    case TowerDrop(t, _) => {t, t.Model}
  }

  /** What the hit tests of all the zones read. */
  function ZonesReads(zones: seq<DropZone>): (r: set<object?>)
    ensures forall i :: 0 <= i < |zones| ==> ZoneReads(zones[i]) <= r
  {
    if |zones| == 0 then {} else ZoneReads(zones[0]) + ZonesReads(zones[1..])
  }

  /** zone.IsInsideZone(position) */
  function Inside(z: DropZone, position: Vector3): bool
    reads ZoneReads(z)
  {
    match z
    case HoleDrop(h, toLocal) => h.IsInsideZone(toLocal, position)
    case TowerDrop(t, screen) => t.IsInsideZone(screen, position)
  }

  /** dropZones.FirstOrDefault(zone => zone.IsInsideZone(position)): the first zone, in registration order, under the point. */
  function FirstHit(zones: seq<DropZone>, position: Vector3): (r: Option<nat>)
    reads ZonesReads(zones)
    ensures r.None? <==> forall i :: 0 <= i < |zones| ==> !Inside(zones[i], position)
    ensures r.Some? ==>
      && r.value < |zones| && Inside(zones[r.value], position)
      && forall i :: 0 <= i < r.value ==> !Inside(zones[i], position)
  {
    if |zones| == 0 then None
    else if Inside(zones[0], position) then Some(0)
    else
      match FirstHit(zones[1..], position)
      case None => None
      case Some(k) => Some(k + 1)
  }

  /** The elements and views of one tower. */
  ghost function TowerPartsOf(t: TowerContainerController): set<object>
    reads t, t.Model
  {
    (set j | 0 <= j < |t.Model.elements| :: t.Model.elements[j] as object) +
    (set j | 0 <= j < |t.activeElements| :: t.activeElements[j].1 as object)
  }

  /** The towers' elements and views, which a drop on a tower may change. */
  ghost function TowerParts(zones: seq<DropZone>): (r: set<object>)
    reads ZonesReads(zones)
    ensures forall i :: 0 <= i < |zones| && zones[i].TowerDrop? ==> TowerPartsOf(zones[i].tower) <= r
  {
    if |zones| == 0 then {}
    else (if zones[0].TowerDrop? then TowerPartsOf(zones[0].tower) else {}) + TowerParts(zones[1..])
  }

  /** What a drop at `position` may change besides the outbox: the hit tower, its parts and the pooled view, if a tower is hit. */
  ghost function DropFrame(zones: seq<DropZone>, position: Vector3, pooledView: ElementView): set<object>
    reads ZonesReads(zones)
  {
    match FirstHit(zones, position)
    case Some(k) =>
      (match zones[k]
       case TowerDrop(t, _) => {t, t.Model, pooledView} + TowerPartsOf(t)
       case HoleDrop(_, _) => {})
    case None => {}
  }

  /**
   * Where the dragged copy jumps to on a tower: on an empty tower, the base's x at the bottom of the zone's
   * rect; otherwise 50 above the centre of the top element, shifted sideways by a draw from [-50, 50].
   */
  function TowerTarget(base: Vector2, s: seq<Placed>, zoneRect: Rect, jitter: real): (target: Vector3)
    requires 0.0 <= jitter <= 1.0
    ensures target.z == 0.0
    ensures |s| == 0 ==> target == Vector3(base.x, zoneRect.yMin, 0.0)
    ensures |s| > 0 ==>
      var top := SlotPosition(base, s, |s| - 1, 0.5);
      target.y == top.y + 50.0 && top.x - 50.0 <= target.x <= top.x + 50.0
  {
    if |s| == 0 then Vector3(base.x, zoneRect.yMin, 0.0)
    else
      var top := SlotPosition(base, s, |s| - 1, 0.5);
      Vector3(top.x + RandomRange(-50.0, 50.0, jitter), top.y + 50.0, 0.0)
  }

  /** A tower drop ends the drag when the tower took the element, or took it as already its own. */
  predicate Landed(verdict: DropOutcome) {
    verdict == AlreadyOnTower || verdict == Accepted
  }

  /** The requests a tower's TryDropElement makes for each outcome. */
  function TowerReply(verdict: DropOutcome, pooledView: ElementView): (rs: seq<Request>)
    ensures verdict == Accepted ==> |rs| > 0 && rs[|rs| - 1] == Notify("PlaceCube")
    ensures verdict != Accepted ==> rs == Complaint(verdict)
  {
    if verdict == Accepted then
      (if pooledView.rectTransform.None? then [ReleaseView(pooledView), Notify("PlaceCube")] else [Notify("PlaceCube")])
    else Complaint(verdict)
  }

  /** The half-transparent copy that follows the pointer. */
  class DraggingElementView {
    var sprite: Option<Sprite>
    var position: Vector3
    var alpha: real
    var active: bool

    /** Awake deactivates the view. */
    constructor ()
      ensures !active && sprite == None && position == Zero3 && alpha == 1.0
    {
      sprite := None;
      position := Zero3;
      alpha := 1.0;
      active := false;
    }

    /** Show: the sprite at the position, half transparent, active. */
    method Show(sprite: Option<Sprite>, position: Vector3)
      modifies this
      ensures this.sprite == sprite && this.position == position && alpha == 0.5 && active
    {
      this.sprite := sprite;
      this.position := position;
      alpha := 0.5;
      active := true;
    }

    method Hide()
      modifies this`active
      ensures !active
    {
      active := false;
    }

    method SetPosition(position: Vector3)
      modifies this`position
      ensures this.position == position
    {
      this.position := position;
    }
  }

  class DragController {
    const Model: DraggingElementModel
    const View: DraggingElementView
    const dropZones: seq<DropZone>
    const outbox: Outbox

    constructor (model: DraggingElementModel, view: DraggingElementView, dropZones: seq<DropZone>, outbox: Outbox)
      ensures Model == model && View == view && this.dropZones == dropZones && this.outbox == outbox
    {
      Model := model;
      View := view;
      this.dropZones := dropZones;
      this.outbox := outbox;
    }

    /** Every zone reports to the drag's outbox, and every tower is in a consistent state. */
    ghost predicate Wired()
      reads ZonesReads(dropZones), TowerParts(dropZones)
    {
      forall i :: 0 <= i < |dropZones| ==>
        match dropZones[i]
        case HoleDrop(h, _) => h.outbox == outbox
        case TowerDrop(t, _) => t.outbox == outbox && t.Valid()
    }

    /** The view the pool hands out for a tower is on no tower. */
    ghost predicate PooledFree(pooledView: ElementView)
      reads ZonesReads(dropZones)
    {
      forall i :: 0 <= i < |dropZones| && dropZones[i].TowerDrop? ==> pooledView !in dropZones[i].tower.Views()
    }

    /**
     * StartDrag: the drag remembers the element's type, model and view, and shows the copy with the element's
     * sprite at the element's world position `elementPosition`.
     */
    method StartDrag(elementModel: ElementModel, elementView: ElementView, elementPosition: Vector3)
      modifies Model, View
      ensures Model.ElementType == old(TypeOf(elementModel))
      ensures Model.OriginalModel == Some(elementModel) && Model.OriginalView == elementView
      ensures View.sprite == old(TypeOf(elementModel)).Sprite && View.position == elementPosition
      ensures View.alpha == 0.5 && View.active
    {
      Model.ElementType := TypeOf(elementModel);
      Model.OriginalModel := Some(elementModel);
      Model.OriginalView := elementView;
      View.Show(Model.ElementType.Sprite, elementPosition);
    }

    /** OnDrag: the copy follows the pointer. */
    method OnDrag(position: Vector3)
      modifies View`position
      ensures View.position == position
    {
      View.SetPosition(position);
    }

    /** The copy's remove request is passed on to the element the drag started from. */
    method OnRemoveRequested()
      modifies outbox`log
      ensures outbox.log == old(outbox.log) + [RemoveOriginal(Model.OriginalView, Model.OriginalModel)]
    {
      outbox.Send(RemoveOriginal(Model.OriginalView, Model.OriginalModel));
    }

    /** The end of a drag whose copy landed on the hole: the hole always takes an element that has a view. */
    method DropOnHole(hole: HoleController, position: Vector3, startPosition: Vector3)
      requires hole.outbox == outbox && hole.holeRect.Some?
      requires Model.OriginalView != null && Model.OriginalModel.Some?
      modifies View`active, outbox`log
      ensures !View.active
      ensures outbox.log == old(outbox.log) +
        [Notify("DropHole"), RemoveOriginal(Model.OriginalView, Model.OriginalModel), Notify("DropHole"),
         JumpThenRemove(startPosition, hole.holeRect.value.position, Model.ElementType.Sprite, 0.5,
                        Model.OriginalView, Model.OriginalModel)]
    {
      var targetPosition := hole.holeRect.value.position;
      outbox.Send(Notify("DropHole"));
      var dropped := hole.TryDropElement(Model.OriginalModel.value, Model.OriginalView, position);
      assert dropped;
      View.Hide();
      outbox.Send(JumpThenRemove(startPosition, targetPosition, Model.ElementType.Sprite, 0.5,
                                 Model.OriginalView, Model.OriginalModel));
    }

    /**
     * The end of a drag whose copy is over a tower: "PlaceCube" is shown before the tower decides; a landed
     * drop hides the copy and jumps a copy to the tower's target, any other outcome fades the copy and jumps
     * a copy back to where the drag started, with "MissCube".
     */
    method DropOnTower(tower: TowerContainerController, screen: Screen, position: Vector3, startPosition: Vector3,
                       pooledView: ElementView, u: real, jitter: real)
      requires tower.outbox == outbox && tower.Valid() && tower.IsInsideZone(screen, position)
      requires Model.OriginalView != null && Model.OriginalModel.Some?
      requires pooledView !in tower.Views() && 0.0 <= u <= 1.0 && 0.0 <= jitter <= 1.0
      modifies View`active, tower`activeElements, tower.Model, tower.Model.elements, tower.Views()`localPosition,
               pooledView, outbox
      ensures tower.Valid()
      ensures var verdict := old(tower.Verdict(screen, Model.OriginalModel.value, Model.OriginalView, position));
        && verdict != NoZoneRect && verdict != Missed
        && View.active == (if Landed(verdict) then false else old(View.active))
        && outbox.log == old(outbox.log) + [Notify("PlaceCube")] + TowerReply(verdict, pooledView) +
             DropTail(Landed(verdict), position, startPosition,
                      old(TowerTarget(tower.Model.BasePosition, tower.Model.Snapshot(), tower.zoneRect.value, jitter)))
    {
      var elementModel, elementView := Model.OriginalModel.value, Model.OriginalView;
      var targetPosition := TowerTarget(tower.Model.BasePosition, tower.Model.Snapshot(), tower.zoneRect.value, jitter);
      OfferToTower(tower, screen, elementModel, elementView, position, startPosition, targetPosition, pooledView, u);
    }

    /**
     * The requests a drag ends with once a zone has answered: a jump of a copy to the target that asks for
     * the original's removal on arrival when the drop landed, otherwise a fade of the copy with a jump back
     * to where the drag started, and "MissCube".
     */
    function DropTail(dropped: bool, position: Vector3, startPosition: Vector3, targetPosition: Vector3): (rs: seq<Request>)
      reads Model
      ensures dropped ==> |rs| == 1 && rs[0].JumpThenRemove? && rs[0].to == targetPosition && rs[0].from == startPosition
      ensures !dropped ==> |rs| == 2 && rs[0].FadeOutThenJumpBack? && rs[0].to == startPosition && rs[1] == Notify("MissCube")
    {
      if dropped then
        [JumpThenRemove(startPosition, targetPosition, Model.ElementType.Sprite, 0.5, Model.OriginalView, Model.OriginalModel)]
      else
        [FadeOutThenJumpBack(position, startPosition, Model.ElementType.Sprite, 0.3, 0.3), Notify("MissCube")]
    }

    /**
     * The drag's last step once a zone has answered: a refused drop fades the copy and jumps a copy back to
     * where the drag started, with "MissCube"; an accepted one hides the copy and jumps a copy to the target,
     * whose arrival asks for the original's removal.
     */
    method FinishDrop(dropped: bool, position: Vector3, startPosition: Vector3, targetPosition: Vector3,
                      ghost tower: TowerContainerController)
      requires tower.Valid()
      modifies View`active, outbox`log
      ensures tower.Valid()
      ensures View.active == (if dropped then false else old(View.active))
      ensures outbox.log == old(outbox.log) + DropTail(dropped, position, startPosition, targetPosition)
    {
      if !dropped {
        outbox.Send(FadeOutThenJumpBack(position, startPosition, Model.ElementType.Sprite, 0.3, 0.3));
        outbox.Send(Notify("MissCube"));
        return;
      }
      View.Hide();
      outbox.Send(JumpThenRemove(startPosition, targetPosition, Model.ElementType.Sprite, 0.5,
                                 Model.OriginalView, Model.OriginalModel));
    }

    /**
     * DropOnTower once the target is known: "PlaceCube", then targetZone.TryDropElement on the tower, seen
     * from the drag, then the drag's last step once the tower has answered.
     */
    method OfferToTower(tower: TowerContainerController, screen: Screen, elementModel: ElementModel, elementView: ElementView,
                        position: Vector3, startPosition: Vector3, targetPosition: Vector3, pooledView: ElementView, u: real)
      requires tower.outbox == outbox && tower.Valid() && pooledView !in tower.Views() && 0.0 <= u <= 1.0
      requires tower.IsInsideZone(screen, position)
      modifies View`active, tower`activeElements, tower.Model, tower.Model.elements, tower.Views()`localPosition,
               pooledView, outbox
      ensures tower.Valid()
      ensures var verdict := old(tower.Verdict(screen, elementModel, elementView, position));
        && verdict != NoZoneRect && verdict != Missed
        && View.active == (if Landed(verdict) then false else old(View.active))
        && outbox.log == old(outbox.log) + [Notify("PlaceCube")] + TowerReply(verdict, pooledView) +
             DropTail(Landed(verdict), position, startPosition, targetPosition)
    {
      ghost var verdict := tower.Verdict(screen, elementModel, elementView, position);
      outbox.Send(Notify("PlaceCube"));
      assert verdict == tower.Verdict(screen, elementModel, elementView, position);
      var dropped := tower.TryDropElement(screen, elementModel, elementView, position, pooledView, u);
      assert dropped == Landed(verdict) && verdict != NoZoneRect && verdict != Missed;
      assert outbox.log == old(outbox.log) + [Notify("PlaceCube")] + TowerReply(verdict, pooledView);
      FinishDrop(dropped, position, startPosition, targetPosition, tower);
    }

    /**
     * OnEndDrag: with no zone under the pointer the copy fades out and "MissCube" is shown; otherwise the
     * first zone under the pointer decides, as DropOnHole and DropOnTower describe.
     */
    method OnEndDrag(position: Vector3, startPosition: Vector3, pooledView: ElementView, u: real, jitter: real)
      requires Wired() && PooledFree(pooledView)
      requires Model.OriginalView != null && Model.OriginalModel.Some?
      requires 0.0 <= u <= 1.0 && 0.0 <= jitter <= 1.0
      modifies View`active, outbox, DropFrame(dropZones, position, pooledView)
      ensures match old(FirstHit(dropZones, position))
        case None =>
          && outbox.log == old(outbox.log) + [FadeOutThenHide(0.3), Notify("MissCube")]
          && View.active == old(View.active)
        case Some(k) =>
          match dropZones[k]
          case HoleDrop(hole, _) =>
            && !View.active
            && outbox.log == old(outbox.log) +
                 [Notify("DropHole"), RemoveOriginal(Model.OriginalView, Model.OriginalModel), Notify("DropHole"),
                  JumpThenRemove(startPosition, hole.holeRect.value.position, Model.ElementType.Sprite, 0.5,
                                 Model.OriginalView, Model.OriginalModel)]
          case TowerDrop(tower, screen) =>
            var verdict := old(tower.Verdict(screen, Model.OriginalModel.value, Model.OriginalView, position));
            && tower.Valid()
            && verdict != NoZoneRect && verdict != Missed
            && View.active == (if Landed(verdict) then false else old(View.active))
            && outbox.log == old(outbox.log) + [Notify("PlaceCube")] + TowerReply(verdict, pooledView) +
                 DropTail(Landed(verdict), position, startPosition,
                          old(TowerTarget(tower.Model.BasePosition, tower.Model.Snapshot(), tower.zoneRect.value, jitter)))
    {
      var hit := FirstHit(dropZones, position);
      if hit.None? {
        outbox.Send(FadeOutThenHide(0.3));
        outbox.Send(Notify("MissCube"));
        return;
      }
      var targetZone := dropZones[hit.value];
      assert Inside(targetZone, position);
      match targetZone
      case HoleDrop(hole, _) =>
        DropOnHole(hole, position, startPosition);
      case TowerDrop(tower, screen) =>
        assert tower.outbox == outbox && tower.Valid();
        assert TowerPartsOf(tower) <= TowerParts(dropZones);
        DropOnTower(tower, screen, position, startPosition, pooledView, u, jitter);
    }
  }
}
