/**
 * The hole drop zone (Zones/DropZones/Hole/HoleController.cs): it sizes the hole from its image,
 * tests whether a screen point falls on the hole, and takes every dropped element it is handed.
 * Screen-to-local conversion is the engine's, passed in as a partial function.
 */
module HoleZone {
  import opened Wrappers
  import opened UnityMath
  import opened Element
  import opened ElementModels
  import opened Requests
  import opened Hole

  /** The hole image's RectTransform: its size delta, local scale and world position. */
  datatype HoleImageRect = HoleImageRect(sizeDelta: Vector2, localScale: Vector3, position: Vector3)

  /** The hole's size: the image's size delta scaled by the magnitude of its local scale on each axis. */
  function ScaledSize(r: HoleImageRect): (size: Vector2)
    ensures r.sizeDelta.x >= 0.0 && r.sizeDelta.y >= 0.0 ==> size.x >= 0.0 && size.y >= 0.0
  {
    Vector2(r.sizeDelta.x * Abs(r.localScale.x), r.sizeDelta.y * Abs(r.localScale.y))
  }

  /** Mirroring the image (a negative scale) does not change the hole's size. */
  lemma MirroredImageSameSize(r: HoleImageRect)
    ensures ScaledSize(r.(localScale := Vector3(-r.localScale.x, -r.localScale.y, r.localScale.z))) == ScaledSize(r)
  {
  }

  /** The hole has a positive size exactly when the size delta is positive and the scale is non-zero on both axes. */
  lemma PositiveSizeIff(r: HoleImageRect)
    requires r.sizeDelta.x >= 0.0 && r.sizeDelta.y >= 0.0
    ensures ScaledSize(r).x > 0.0 && ScaledSize(r).y > 0.0 <==>
      r.sizeDelta.x > 0.0 && r.sizeDelta.y > 0.0 && r.localScale.x != 0.0 && r.localScale.y != 0.0
  {
    if r.sizeDelta.x > 0.0 && r.localScale.x != 0.0 {
      assert r.sizeDelta.x * Abs(r.localScale.x) > 0.0;
    }
    if r.sizeDelta.y > 0.0 && r.localScale.y != 0.0 {
      assert r.sizeDelta.y * Abs(r.localScale.y) > 0.0;
    }
  }

  class HoleController {
    /** The hole's model; the controller tolerates its absence. */
    const Model: HoleModel?
    /** The hole image's RectTransform; None when the view, its image or the RectTransform is missing. */
    const holeRect: Option<HoleImageRect>
    const outbox: Outbox

    /** The constructor sizes the hole (InitializeHoleBounds); the background sprite is left to the view. */
    constructor (model: HoleModel?, holeRect: Option<HoleImageRect>, outbox: Outbox)
      modifies model
      ensures Model == model && this.holeRect == holeRect && this.outbox == outbox
      ensures model != null && holeRect.Some? ==> model.EllipseSize == ScaledSize(holeRect.value)
      ensures model != null && holeRect.None? ==> model.EllipseSize == old(model.EllipseSize)
    {
      Model := model;
      this.holeRect := holeRect;
      this.outbox := outbox;
      new;
      InitializeHoleBounds();
    }

    /**
     * InitializeHoleBounds: without a model or an image rect nothing happens; otherwise the size delta
     * is copied into EllipseSize and then each axis is scaled by the magnitude of the image's scale.
     */
    method InitializeHoleBounds()
      modifies Model
      ensures Model != null && holeRect.Some? ==> Model.EllipseSize == ScaledSize(holeRect.value)
      ensures Model != null && holeRect.None? ==> Model.EllipseSize == old(Model.EllipseSize)
    {
      if Model == null || holeRect.None? {
        return;
      }
      var rectTransform := holeRect.value;
      var sizeDelta := rectTransform.sizeDelta;
      Model.EllipseSize := sizeDelta;
      var scale := rectTransform.localScale;
      Model.EllipseSize := Model.EllipseSize.(x := Model.EllipseSize.x * Abs(scale.x));
      Model.EllipseSize := Model.EllipseSize.(y := Model.EllipseSize.y * Abs(scale.y));
    }

    /**
     * IsInsideZone: the point must convert into the image's local space and fall on the ellipse. The
     * separate test for a zero size decides nothing, since a zero-sized hole contains no point, and a
     * point that is inside lies within half the hole's size of its centre on both axes.
     */
    function IsInsideZone(toLocal: Vector3 -> Option<Vector2>, screenPosition: Vector3): (inside: bool)
      reads Model
      ensures inside <==>
        Model != null && holeRect.Some? && toLocal(screenPosition).Some? &&
        Model.IsPointInsideEllipse(toLocal(screenPosition).value)
      ensures inside ==>
        Abs(toLocal(screenPosition).value.x) <= Model.EllipseSize.x / 2.0 &&
        Abs(toLocal(screenPosition).value.y) <= Model.EllipseSize.y / 2.0
    {
      if Model == null || holeRect.None? then false
      else if Model.EllipseSize == Zero2 then false
      else
        match toLocal(screenPosition)
        case None => false
        case Some(localPoint) =>
          var hit := Model.IsPointInsideEllipse(localPoint);
          if hit then InsideWithinBounds(Model, localPoint); hit else hit
    }

    /**
     * TryDropElement: a drop without a view fails; any other drop asks the view's owner to remove the
     * element, shows "DropHole" and succeeds. The hole applies no rule and no position test of its own.
     */
    method TryDropElement(elementModel: ElementModel, elementView: ElementView?, worldPosition: Vector3) returns (dropped: bool)
      modifies outbox`log
      ensures dropped <==> elementView != null
      ensures outbox.log == old(outbox.log) +
        (if dropped then [RemoveOriginal(elementView, Some(elementModel)), Notify("DropHole")] else [])
    {
      if elementView == null {
        return false;
      }
      outbox.Send(RemoveOriginal(elementView, Some(elementModel)));
      outbox.Send(Notify("DropHole"));
      return true;
    }
  }
}
