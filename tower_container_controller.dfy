/**
 * The tower drop zone (Zones/DropZones/Tower/TowerContainerController.cs): it decides whether a dropped
 * element may join the tower, places the new element and its view, and keeps the views laid out.
 * Engine geometry (hit tests, screen-to-local conversion) is a Screen parameter; the pool's Get is
 * the view passed in as `pooledView`; notifications, tweens and pool releases go to the outbox.
 */
module TowerZone {
  import opened Wrappers
  import opened UnityMath
  import opened Element
  import opened TowerElement
  import opened TowerLayout
  import opened Tower
  import opened DropRules
  import opened ElementModels
  import opened Requests

  /** What the engine answers about screen points. */
  datatype Screen = Screen(
    /** RectangleContainsScreenPoint on the zone's own rect */
    zoneContains: Vector3 -> bool,
    /** RectangleContainsScreenPoint on the rect of an element view */
    viewContains: (ElementView, Vector3) -> bool,
    /** ScreenPointToLocalPointInRectangle on the zone's rect: the local point, or None when it fails */
    zoneToLocal: Vector3 -> Option<Vector2>)

  /** The ways a drop on the tower can end, in the order the checks are made. */
  datatype DropOutcome = AlreadyOnTower | RuleRejected | NoZoneRect | Missed | NoLocalPoint | TooHigh | Accepted

  /** The notifications each refusal shows. */
  function Complaint(o: DropOutcome): seq<Request> {
    match o
    case Missed => [Notify("MissCube")]
    case TooHigh => [Notify("HeightLimit")]
    case _ => []
  }

  /** The anchor of a first element: the local drop point clamped into the zone's rect. */
  function Anchor(rect: Rect, localPoint: Vector2): (a: Vector2)
    ensures rect.xMin <= rect.xMax && rect.yMin <= rect.yMax ==>
      rect.xMin <= a.x <= rect.xMax && rect.yMin <= a.y <= rect.yMax
    ensures rect.xMin <= localPoint.x <= rect.xMax && rect.yMin <= localPoint.y <= rect.yMax ==> a == localPoint
  {
    Vector2(Clamp(localPoint.x, rect.xMin, rect.xMax), Clamp(localPoint.y, rect.yMin, rect.yMax))
  }

  /** Pool releases for every view of a list of pairs, in order. */
  function Releases(pairs: seq<(TowerElementModel, ElementView)>): (rs: seq<Request>)
    ensures |rs| == |pairs|
    ensures forall i :: 0 <= i < |pairs| ==> rs[i] == ReleaseView(pairs[i].1)
  {
    if |pairs| == 0 then [] else Releases(pairs[..|pairs| - 1]) + [ReleaseView(pairs[|pairs| - 1].1)]
  }

  /**
   * The half-second slides AnimateDropDown asks for: one per view from `from` up to (not including) `upTo`
   * that has a RectTransform, towards its slot in `layout` at the view's pivot.
   */
  function Slides(pairs: seq<(TowerElementModel, ElementView)>, layout: seq<Placed>, base: Vector2, from: nat, upTo: nat): seq<Request>
    requires |pairs| == |layout| && upTo <= |pairs|
    decreases upTo
  {
    if upTo <= from then []
    else
      var v := pairs[upTo - 1].1;
      Slides(pairs, layout, base, from, upTo - 1) +
        (if v.rectTransform.Some? then [SlideTo(v, SlotPosition(base, layout, upTo - 1, v.PivotY()), 0.5)] else [])
  }

  /** Each slide targets a view from `from` on, at that view's own slot; every such view with a rect gets one. */
  lemma {:induction false} SlidesTargets(pairs: seq<(TowerElementModel, ElementView)>, layout: seq<Placed>, base: Vector2, from: nat, upTo: nat)
    requires |pairs| == |layout| && upTo <= |pairs|
    requires forall i, j :: 0 <= i < j < |pairs| ==> pairs[i].1 != pairs[j].1
    ensures forall r :: r in Slides(pairs, layout, base, from, upTo) ==>
      exists j :: from <= j < upTo && r.SlideTo? && r.moved == pairs[j].1 && pairs[j].1.rectTransform.Some? &&
        r.target == SlotPosition(base, layout, j, pairs[j].1.PivotY()) && r.duration == 0.5
    ensures forall j :: from <= j < upTo && pairs[j].1.rectTransform.Some? ==>
      SlideTo(pairs[j].1, SlotPosition(base, layout, j, pairs[j].1.PivotY()), 0.5) in Slides(pairs, layout, base, from, upTo)
    decreases upTo
  {
    if upTo > from {
      SlidesTargets(pairs, layout, base, from, upTo - 1);
    }
  }

  /** FindIndex(p => p.model == elementModel): the first pair holding that very element object. */
  function IndexOfModel(pairs: seq<(TowerElementModel, ElementView)>, m: ElementModel): (r: Option<nat>)
    ensures r.None? <==> forall i :: 0 <= i < |pairs| ==> m != TowerElement(pairs[i].0)
    ensures r.Some? ==>
      && r.value < |pairs| && m == TowerElement(pairs[r.value].0)
      && forall i :: 0 <= i < r.value ==> m != TowerElement(pairs[i].0)
  {
    if |pairs| == 0 then None
    else if m == TowerElement(pairs[0].0) then Some(0)
    else
      match IndexOfModel(pairs[1..], m)
      case None => None
      case Some(k) => Some(k + 1)
  }

  class TowerContainerController {
    const Model: TowerContainerModel
    /** The rect of the zone view's RectTransform; None when the view or its RectTransform is missing. */
    const zoneRect: Option<Rect>
    const dropRules: seq<DropRule>
    const outbox: Outbox
    /** The tower's elements with the views that show them, bottom first. */
    var activeElements: seq<(TowerElementModel, ElementView)>

    constructor (dropRules: seq<DropRule>, model: TowerContainerModel, zoneRect: Option<Rect>, outbox: Outbox)
      ensures this.dropRules == dropRules && Model == model && this.zoneRect == zoneRect && this.outbox == outbox
      ensures activeElements == []
    {
      this.dropRules := dropRules;
      Model := model;
      this.zoneRect := zoneRect;
      this.outbox := outbox;
      activeElements := [];
    }

    /** The views on the tower. */
    ghost function Views(): set<ElementView>
      reads this
    {
      set i | 0 <= i < |activeElements| :: activeElements[i].1
    }

    /** The pairs follow the model's element list one for one, and no view shows two elements. */
    ghost predicate Aligned()
      reads this, Model
    {
      && Model.Valid()
      && |activeElements| == |Model.elements|
      && (forall i :: 0 <= i < |activeElements| ==> activeElements[i].0 == Model.elements[i])
      && (forall i, j :: 0 <= i < j < |activeElements| ==> activeElements[i].1 != activeElements[j].1)
    }

    /** Aligned, and every element's Index is its position. */
    ghost predicate Valid()
      reads this, Model, Model.elements
    {
      Aligned() && Numbered(Model.Snapshot())
    }

    /** Every view with a RectTransform stands at its element's slot, at the view's own pivot. */
    ghost predicate PositionsSettled()
      reads this, Model, Model.elements, Views()
      requires |activeElements| == |Model.elements|
    {
      forall i :: 0 <= i < |activeElements| && activeElements[i].1.rectTransform.Some? ==>
        activeElements[i].1.localPosition == SlotPosition(Model.BasePosition, Model.Snapshot(), i, activeElements[i].1.PivotY())
    }

    /**
     * IsInsideZone: without a zone rect nothing is inside; an empty tower takes drops anywhere in its rect;
     * a non-empty tower only on its top element's view (which must have a RectTransform).
     */
    function IsInsideZone(screen: Screen, screenPosition: Vector3): (inside: bool)
      reads this, Model
      ensures inside ==> zoneRect.Some?
      ensures |Model.elements| == 0 ==> (inside <==> zoneRect.Some? && screen.zoneContains(screenPosition))
      ensures Aligned() && |Model.elements| > 0 ==>
        (inside <==> zoneRect.Some? && Model.elements[|Model.elements| - 1] == activeElements[|activeElements| - 1].0 &&
                     activeElements[|activeElements| - 1].1.rectTransform.Some? &&
                     screen.viewContains(activeElements[|activeElements| - 1].1, screenPosition))
    {
      if zoneRect.None? then false
      else if |Model.elements| == 0 then screen.zoneContains(screenPosition)
      else if |activeElements| == 0 then false
      else
        var topView := activeElements[|activeElements| - 1].1;
        topView.rectTransform.Some? && screen.viewContains(topView, screenPosition)
    }

    /** The decision TryDropElement reaches, check by check in the order of the code. */
    ghost function Verdict(screen: Screen, elementModel: ElementModel, elementView: ElementView, dropWorldPosition: Vector3): DropOutcome
      reads this, Model, Model.elements, elementView
      reads if elementModel.DraggingElement? then {elementModel.dragging} else {}
    {
      if IsRedrag(elementModel) then AlreadyOnTower
      else if !AllAllow(dropRules, TypeOf(elementModel), Model.Snapshot()) then RuleRejected
      else if zoneRect.None? then NoZoneRect
      else if !IsInsideZone(screen, dropWorldPosition) then Missed
      else if |Model.elements| == 0 && screen.zoneToLocal(dropWorldPosition).None? then NoLocalPoint
      else if |Model.elements| > 0 &&
              !Model.CanAddElement(elementView.Height(), zoneRect.value.yMax - Model.BasePosition.y) then TooHigh
      else Accepted
    }

    /**
     * TryDropElement: a drag that started on the tower is taken as done; otherwise the drop must pass every
     * rule, land inside the zone and, on a non-empty tower, fit under the zone's top edge. A drop on an
     * empty tower first anchors the tower at the clamped local drop point. An accepted drop adds a new
     * element of the dragged type and shows "PlaceCube".
     */
    method TryDropElement(screen: Screen, elementModel: ElementModel, elementView: ElementView, dropWorldPosition: Vector3,
                          pooledView: ElementView, u: real) returns (dropped: bool)
      requires Valid() && pooledView !in Views() && 0.0 <= u <= 1.0
      modifies this`activeElements, Model, Model.elements, Views()`localPosition, pooledView, outbox
      ensures Valid()
      ensures var verdict := old(Verdict(screen, elementModel, elementView, dropWorldPosition));
        && (dropped <==> verdict == AlreadyOnTower || verdict == Accepted)
        && (verdict != Accepted ==>
              && unchanged(this, Model, pooledView) && unchanged(Model.elements) && unchanged(Views())
              && outbox.log == old(outbox.log) + Complaint(verdict))
        && (verdict == Accepted ==>
              && Model.BasePosition ==
                   (if old(|Model.elements|) == 0 then Anchor(zoneRect.value, screen.zoneToLocal(dropWorldPosition).value)
                    else old(Model.BasePosition))
              && pooledView.sprite == old(TypeOf(elementModel)).Sprite
              && (pooledView.rectTransform.None? ==>
                    && activeElements == old(activeElements) && Model.elements == old(Model.elements)
                    && Model.Snapshot() == old(Model.Snapshot())
                    && outbox.log == old(outbox.log) + [ReleaseView(pooledView), Notify("PlaceCube")])
              && (pooledView.rectTransform.Some? ==>
                    && Model.Snapshot() == old(Model.Snapshot()) +
                         [Placed(old(TypeOf(elementModel)), Jitter(old(pooledView.Width()), u),
                                 old(|Model.elements|), old(pooledView.Height()))]
                    && activeElements == old(activeElements) + [(Model.elements[|Model.elements| - 1], pooledView)]
                    && PositionsSettled()
                    && outbox.log == old(outbox.log) + [Notify("PlaceCube")]
                    && (old(|Model.elements|) > 0 && old(pooledView.Height()) == old(elementView.Height()) ==>
                          Model.TopPosition().y <= zoneRect.value.yMax)))
    {
      ghost var verdict := Verdict(screen, elementModel, elementView, dropWorldPosition);
      if IsRedrag(elementModel) {
        return true;
      }
      if !AllAllow(dropRules, TypeOf(elementModel), Model.Snapshot()) {
        return false;
      }
      if zoneRect.None? {
        return false;
      }
      if !IsInsideZone(screen, dropWorldPosition) {
        outbox.Send(Notify("MissCube"));
        return false;
      }
      dropped := DropInside(screen, elementModel, elementView, dropWorldPosition, pooledView, u);
    }

    /**
     * The rest of TryDropElement once the drop has passed the rules and is inside the zone: an empty tower
     * is anchored at the local drop point (no local point, no drop); a non-empty one must have room under
     * the zone's top edge for the dragged view's height; then the element is placed.
     */
    method DropInside(screen: Screen, elementModel: ElementModel, elementView: ElementView, dropWorldPosition: Vector3,
                      pooledView: ElementView, u: real) returns (dropped: bool)
      requires Valid() && pooledView !in Views() && 0.0 <= u <= 1.0
      requires !IsRedrag(elementModel) && AllAllow(dropRules, TypeOf(elementModel), Model.Snapshot())
      requires zoneRect.Some? && IsInsideZone(screen, dropWorldPosition)
      modifies this`activeElements, Model, Model.elements, Views()`localPosition, pooledView, outbox
      ensures Valid()
      ensures var verdict := old(Verdict(screen, elementModel, elementView, dropWorldPosition));
        && (dropped <==> verdict == AlreadyOnTower || verdict == Accepted)
        && (verdict != Accepted ==>
              && unchanged(this, Model, pooledView) && unchanged(Model.elements) && unchanged(Views())
              && outbox.log == old(outbox.log) + Complaint(verdict))
        && (verdict == Accepted ==>
              && Model.BasePosition ==
                   (if old(|Model.elements|) == 0 then Anchor(zoneRect.value, screen.zoneToLocal(dropWorldPosition).value)
                    else old(Model.BasePosition))
              && pooledView.sprite == old(TypeOf(elementModel)).Sprite
              && (pooledView.rectTransform.None? ==>
                    && activeElements == old(activeElements) && Model.elements == old(Model.elements)
                    && Model.Snapshot() == old(Model.Snapshot())
                    && outbox.log == old(outbox.log) + [ReleaseView(pooledView), Notify("PlaceCube")])
              && (pooledView.rectTransform.Some? ==>
                    && Model.Snapshot() == old(Model.Snapshot()) +
                         [Placed(old(TypeOf(elementModel)), Jitter(old(pooledView.Width()), u),
                                 old(|Model.elements|), old(pooledView.Height()))]
                    && activeElements == old(activeElements) + [(Model.elements[|Model.elements| - 1], pooledView)]
                    && PositionsSettled()
                    && outbox.log == old(outbox.log) + [Notify("PlaceCube")]
                    && (old(|Model.elements|) > 0 && old(pooledView.Height()) == old(elementView.Height()) ==>
                          Model.TopPosition().y <= zoneRect.value.yMax)))
    {
      ghost var verdict := Verdict(screen, elementModel, elementView, dropWorldPosition);
      var rect := zoneRect.value;
      if |Model.elements| == 0 {
        var localPoint := screen.zoneToLocal(dropWorldPosition);
        if localPoint.Some? {
          Model.BasePosition := Anchor(rect, localPoint.value);
        } else {
          return false;
        }
      } else {
        var zoneTopY := rect.yMax;
        var baseY := Model.BasePosition.y;
        var availableHeight := zoneTopY - baseY;
        var newElementHeight := elementView.Height();
        if !Model.CanAddElement(newElementHeight, availableHeight) {
          outbox.Send(Notify("HeightLimit"));
          return false;
        }
      }
      assert verdict == Accepted;
      ghost var s0 := Model.Snapshot();
      ghost var w := pooledView.Width();
      ghost var h := pooledView.Height();
      ghost var n := |Model.elements|;
      var elementType := TypeOf(elementModel);
      assert s0 == old(Model.Snapshot()) && n == old(|Model.elements|);
      assert w == old(pooledView.Width()) && h == old(pooledView.Height());
      assert elementType == old(TypeOf(elementModel));
      PlaceAccepted(elementType, pooledView, u);
      assert pooledView.rectTransform.Some? ==> Model.Snapshot() == s0 + [Placed(elementType, Jitter(w, u), n, h)];
      return true;
    }

    /** The accepted end of TryDropElement: the element goes on top and "PlaceCube" is requested. */
    method PlaceAccepted(elementType: ElementType, pooledView: ElementView, u: real)
      requires Valid() && pooledView !in Views() && 0.0 <= u <= 1.0
      modifies this`activeElements, Model`elements, Model.elements, Views()`localPosition, pooledView, outbox
      ensures Valid()
      ensures Model.BasePosition == old(Model.BasePosition)
      ensures pooledView.sprite == elementType.Sprite
      ensures pooledView.rectTransform.None? ==>
        && activeElements == old(activeElements) && Model.elements == old(Model.elements)
        && Model.Snapshot() == old(Model.Snapshot())
        && outbox.log == old(outbox.log) + [ReleaseView(pooledView), Notify("PlaceCube")]
      ensures pooledView.rectTransform.Some? ==>
        && Model.Snapshot() == old(Model.Snapshot()) +
             [Placed(elementType, Jitter(old(pooledView.Width()), u),
                     old(|Model.elements|), old(pooledView.Height()))]
        && activeElements == old(activeElements) + [(Model.elements[|Model.elements| - 1], pooledView)]
        && PositionsSettled()
        && outbox.log == old(outbox.log) + [Notify("PlaceCube")]
        && Model.TopPosition().y == old(Model.TopPosition().y) + old(pooledView.Height())
    {
      ghost var before := Model.Snapshot();
      AddElementInternal(elementType, pooledView, u);
      outbox.Send(Notify("PlaceCube"));
      if pooledView.rectTransform.Some? {
        TotalHeightAppend(before, Model.Snapshot()[|before|]);
        assert Model.Snapshot() == before + [Model.Snapshot()[|before|]];
      }
    }

    /**
     * AddElementInternal: shows the type's sprite on the pooled view; a view without a RectTransform goes
     * straight back to the pool. Otherwise a new element of the view's rendered width (for the jitter) and
     * height goes on top, paired with the view, and every view is laid out again.
     */
    method AddElementInternal(elementType: ElementType, view: ElementView, u: real)
      requires Valid() && view !in Views() && 0.0 <= u <= 1.0
      modifies this`activeElements, Model`elements, Model.elements, Views()`localPosition, view, outbox
      ensures Valid()
      ensures Model.BasePosition == old(Model.BasePosition)
      ensures view.sprite == elementType.Sprite
      ensures view.rectTransform.None? ==>
        && activeElements == old(activeElements) && Model.elements == old(Model.elements)
        && Model.Snapshot() == old(Model.Snapshot()) && unchanged(old(Views()))
        && outbox.log == old(outbox.log) + [ReleaseView(view)]
      ensures view.rectTransform.Some? ==>
        && Model.Snapshot() == old(Model.Snapshot()) +
             [Placed(elementType, Jitter(old(view.Width()), u), old(|Model.elements|), old(view.Height()))]
        && fresh(Model.elements[|Model.elements| - 1])
        && activeElements == old(activeElements) + [(Model.elements[|Model.elements| - 1], view)]
        && PositionsSettled()
        && outbox.log == old(outbox.log)
    {
      view.sprite := elementType.Sprite;
      if view.rectTransform.None? {
        outbox.Send(ReleaseView(view));
        return;
      }
      assert unchanged(this, Model) && unchanged(Model.elements);
      assert view.Width() == old(view.Width()) && view.Height() == old(view.Height());
      AddAndLayOut(elementType, view, u);
    }

    /** The part of AddElementInternal for a view with a RectTransform: the element goes on top and every view is laid out. */
    method AddAndLayOut(elementType: ElementType, view: ElementView, u: real)
      requires Valid() && view !in Views() && view.rectTransform.Some? && 0.0 <= u <= 1.0
      modifies this`activeElements, Model`elements, Model.elements, Views()`localPosition, view`localPosition
      ensures Valid()
      ensures Model.BasePosition == old(Model.BasePosition)
      ensures Model.Snapshot() == old(Model.Snapshot()) +
        [Placed(elementType, Jitter(old(view.Width()), u), old(|Model.elements|), old(view.Height()))]
      ensures fresh(Model.elements[|Model.elements| - 1])
      ensures activeElements == old(activeElements) + [(Model.elements[|Model.elements| - 1], view)]
      ensures PositionsSettled()
    {
      ghost var added := Placed(elementType, Jitter(view.Width(), u), |Model.elements|, view.Height());
      AddOnTop(elementType, view, u);
      assert view.Width() == old(view.Width()) && view.Height() == old(view.Height());
      ghost var placed := Model.Snapshot();
      assert placed == old(Model.Snapshot()) + [added];
      assert Numbered(placed);
      UpdateElementsPositions();
      NumberedAgreeing(Model.Snapshot(), placed);
    }

    /**
     * The first step of AddAndLayOut: a new element of the view's rendered width (for the jitter) and
     * height goes on top of the tower, paired with the view.
     */
    method AddOnTop(elementType: ElementType, view: ElementView, u: real)
      requires Valid() && view !in Views() && view.rectTransform.Some? && 0.0 <= u <= 1.0
      modifies this`activeElements, Model`elements
      ensures Aligned() && Model.BasePosition == old(Model.BasePosition)
      ensures Model.Snapshot() == old(Model.Snapshot()) + [Placed(elementType, Jitter(view.Width(), u), old(|Model.elements|), view.Height())]
      ensures fresh(Model.elements[|Model.elements| - 1])
      ensures activeElements == old(activeElements) + [(Model.elements[|Model.elements| - 1], view)]
    {
      var elementWidth := view.Width();
      var elementHeight := view.Height();
      var model := Create(elementType, elementWidth, u);
      model.ElementHeight := elementHeight;
      assert model.Value().(index := old(|Model.elements|)) ==
        Placed(elementType, Jitter(view.Width(), u), old(|Model.elements|), view.Height());
      assert old(Model.Snapshot()) == Model.Snapshot();
      Attach(model, view);
    }

    /** The middle of AddElementInternal: the model goes on top of the tower, paired with its view. */
    method Attach(model: TowerElementModel, view: ElementView)
      requires Valid() && view !in Views() && model !in Model.elements
      modifies this`activeElements, Model`elements, model`Index
      ensures Aligned()
      ensures Model.Snapshot() == old(Model.Snapshot()) + [old(model.Value()).(index := old(|Model.elements|))]
      ensures activeElements == old(activeElements) + [(model, view)]
      ensures Model.elements == old(Model.elements) + [model]
      ensures Views() == old(Views()) + {view}
    {
      Model.AddElement(model);
      activeElements := activeElements + [(model, view)];
      assert forall i :: 0 <= i < |old(activeElements)| ==> activeElements[i] == old(activeElements)[i];
      assert Views() == old(Views()) + {view} by {
        forall v | v in Views() ensures v in old(Views()) + {view} {
          var i :| 0 <= i < |activeElements| && activeElements[i].1 == v;
        }
        forall v | v in old(Views()) + {view} ensures v in Views() {
          if v != view {
            var i :| 0 <= i < |old(activeElements)| && old(activeElements)[i].1 == v;
            assert activeElements[i].1 == v;
          } else {
            assert activeElements[|activeElements| - 1].1 == v;
          }
        }
      }
      assert forall i :: 0 <= i < |old(activeElements)| ==> activeElements[i].1 != view;
    }

    /**
     * One pass of the loop in UpdateElementsPositions for pair `i`: the element takes Index i and its view,
     * when it has a RectTransform, is put on the element's slot as GetElementPosition reports it.
     */
    method SettleElement(i: nat, model: TowerElementModel, view: ElementView, ghost layout: seq<Placed>)
      requires Aligned() && i < |activeElements| && activeElements[i] == (model, view)
      requires SameButIndex(Model.Snapshot(), layout)
      modifies model`Index, view`localPosition
      ensures Model.Snapshot() == old(Model.Snapshot())[i := old(Model.Snapshot())[i].(index := i)]
      ensures view.localPosition ==
        (if view.rectTransform.Some? then SlotPosition(Model.BasePosition, layout, i, view.PivotY()) else old(view.localPosition))
    {
      ghost var before := Model.Snapshot();
      assert forall k :: 0 <= k < |Model.elements| && k != i ==> Model.elements[k] != model;
      model.Index := i;
      assert Model.Snapshot() == before[i := before[i].(index := i)];
      if view.rectTransform.Some? {
        SlotPositionIgnoresIndex(Model.BasePosition, Model.Snapshot(), layout, i, view.PivotY());
        var pos := Model.GetElementPosition(i, view.PivotY());
        view.localPosition := pos.value;
      }
    }

    /** Views placed on the slots of a layout that differs from the tower only in indexes are settled. */
    lemma SettledOnLayout(layout: seq<Placed>)
      requires Aligned() && SameButIndex(Model.Snapshot(), layout)
      requires forall k :: 0 <= k < |activeElements| && activeElements[k].1.rectTransform.Some? ==>
        activeElements[k].1.localPosition == SlotPosition(Model.BasePosition, layout, k, activeElements[k].1.PivotY())
      ensures PositionsSettled()
    {
      forall k | 0 <= k < |activeElements| && activeElements[k].1.rectTransform.Some?
        ensures activeElements[k].1.localPosition == SlotPosition(Model.BasePosition, Model.Snapshot(), k, activeElements[k].1.PivotY())
      {
        SlotPositionIgnoresIndex(Model.BasePosition, Model.Snapshot(), layout, k, activeElements[k].1.PivotY());
      }
    }

    /** UpdateElementsPositions: renumbers every element by position and puts each view with a rect on its slot. */
    method UpdateElementsPositions()
      requires Aligned()
      modifies Model.elements, Views()`localPosition
      ensures Valid()
      ensures SameButIndex(Model.Snapshot(), old(Model.Snapshot()))
      ensures PositionsSettled()
      ensures forall k :: 0 <= k < |activeElements| ==>
        var v := activeElements[k].1;
        v.rectTransform.None? ==> v.localPosition == old(v.localPosition)
    {
      ghost var layout := Model.Snapshot();
      ghost var base := Model.BasePosition;
      ghost var pairs := activeElements;
      ghost var vs: seq<ElementView> := seq(|pairs|, k requires 0 <= k < |pairs| => pairs[k].1);
      var i := 0;
      while i < |activeElements|
        invariant 0 <= i <= |activeElements|
        invariant Aligned() && Model.BasePosition == base
        invariant SameButIndex(Model.Snapshot(), layout)
        invariant forall k :: 0 <= k < i ==> Model.Snapshot()[k].index == k
        invariant forall k :: 0 <= k < |vs| ==>
          vs[k].localPosition ==
            if k < i && vs[k].rectTransform.Some? then SlotPosition(base, layout, k, vs[k].PivotY()) else old(vs[k].localPosition)
      {
        assert forall k :: 0 <= k < |vs| && k != i ==> vs[k] != vs[i];
        SettleElement(i, activeElements[i].0, activeElements[i].1, layout);
        i := i + 1;
      }
      assert forall k :: 0 <= k < |activeElements| ==> activeElements[k].1 == vs[k];
      SettledOnLayout(layout);
    }

    /**
     * RemoveElement (a view's remove request): a model that is not on the tower is ignored. Otherwise
     * its pair and its element are taken out, its view goes back to the pool, and every view from the
     * gap up slides to its new slot.
     */
    method RemoveElement(elementModel: ElementModel)
      requires Valid()
      modifies this`activeElements, Model`elements, Model.elements, outbox`log
      ensures Valid()
      ensures match IndexOfModel(old(activeElements), elementModel)
        case None =>
          activeElements == old(activeElements) && Model.elements == old(Model.elements) &&
          unchanged(Model.elements) && outbox.log == old(outbox.log)
        case Some(index) =>
          && activeElements == old(activeElements[..index] + activeElements[index + 1..])
          && Model.elements == old(Model.elements[..index] + Model.elements[index + 1..])
          && SameButIndex(Model.Snapshot(), RemoveAt(old(Model.Snapshot()), index))
          && outbox.log == old(outbox.log) + [ReleaseView(old(activeElements[index].1))] +
               Slides(activeElements, Model.Snapshot(), Model.BasePosition, index, |activeElements|)
    {
      var found := IndexOfModel(activeElements, elementModel);
      if found.None? {
        return;
      }
      RemoveFound(found.value);
    }

    /** The rest of RemoveElement once the model is found in pair `index`. */
    method RemoveFound(index: nat)
      requires Valid() && index < |activeElements|
      modifies this`activeElements, Model`elements, Model.elements, outbox`log
      ensures Valid()
      ensures activeElements == old(activeElements[..index] + activeElements[index + 1..])
      ensures Model.elements == old(Model.elements[..index] + Model.elements[index + 1..])
      ensures SameButIndex(Model.Snapshot(), RemoveAt(old(Model.Snapshot()), index))
      ensures outbox.log == old(outbox.log) + [ReleaseView(old(activeElements[index].1))] +
        Slides(activeElements, Model.Snapshot(), Model.BasePosition, index, |activeElements|)
    {
      var v := activeElements[index].1;
      Detach(index);
      ghost var settled := Model.Snapshot();
      assert Valid();
      outbox.Send(ReleaseView(v));
      AnimateDropDown(index);
      assert Model.Snapshot() == settled && Valid();
    }

    /** The middle of RemoveElement: pair `index` leaves the list and its element leaves the model. */
    method Detach(index: nat)
      requires Valid() && index < |activeElements|
      modifies this`activeElements, Model`elements, Model.elements
      ensures Valid()
      ensures activeElements == old(activeElements[..index] + activeElements[index + 1..])
      ensures Model.elements == old(Model.elements[..index] + Model.elements[index + 1..])
      ensures SameButIndex(Model.Snapshot(), RemoveAt(old(Model.Snapshot()), index))
    {
      activeElements := activeElements[..index] + activeElements[index + 1..];
      Model.RemoveElementAt(index);
      assert forall k :: 0 <= k < |activeElements| ==>
        activeElements[k] == old(activeElements)[if k < index then k else k + 1];
      assert forall k :: 0 <= k < |Model.elements| ==>
        Model.elements[k] == old(Model.elements)[if k < index then k else k + 1];
    }

    /** AnimateDropDown: every view from `startIndex` up that has a rect slides, over half a second, to its slot. */
    method AnimateDropDown(startIndex: nat)
      requires Aligned()
      modifies outbox`log
      ensures outbox.log == old(outbox.log) + Slides(activeElements, Model.Snapshot(), Model.BasePosition, startIndex, |activeElements|)
    {
      ghost var layout := Model.Snapshot();
      var i := startIndex;
      while i < |activeElements|
        invariant startIndex <= i && (i <= |activeElements| || i == startIndex)
        invariant outbox.log == old(outbox.log) +
          Slides(activeElements, layout, Model.BasePosition, startIndex, if i <= |activeElements| then i else |activeElements|)
      {
        var view := activeElements[i].1;
        if view.rectTransform.Some? {
          var newPos := Model.GetElementPosition(i, view.PivotY());
          outbox.Send(SlideTo(view, newPos.value, 0.5));
        }
        i := i + 1;
      }
    }

    /** ClearActiveElements: every view goes back to the pool, in order, and the list is emptied. */
    method ClearActiveElements()
      modifies this`activeElements, outbox`log
      ensures activeElements == []
      ensures outbox.log == old(outbox.log) + Releases(old(activeElements))
    {
      var i := 0;
      while i < |activeElements|
        invariant 0 <= i <= |activeElements| && activeElements == old(activeElements)
        invariant outbox.log == old(outbox.log) + Releases(activeElements[..i])
      {
        outbox.Send(ReleaseView(activeElements[i].1));
        assert activeElements[..i + 1][..i] == activeElements[..i];
        i := i + 1;
      }
      assert activeElements[..i] == activeElements;
      activeElements := [];
    }

    /** The loop of LoadFromSavedData: element i of the model is paired with pooled view i, which shows its sprite. */
    method PairWithViews(pooledViews: seq<ElementView>)
      requires activeElements == [] && |pooledViews| == |Model.elements|
      requires forall i, j :: 0 <= i < j < |pooledViews| ==> pooledViews[i] != pooledViews[j]
      modifies this`activeElements, pooledViews`sprite
      ensures |activeElements| == |pooledViews|
      ensures forall i :: 0 <= i < |activeElements| ==> activeElements[i] == (Model.elements[i], pooledViews[i])
      ensures forall i :: 0 <= i < |pooledViews| ==> pooledViews[i].sprite == Model.elements[i].ElementType.Sprite
    {
      var i := 0;
      while i < |Model.elements|
        invariant 0 <= i <= |Model.elements|
        invariant |activeElements| == i
        invariant forall k :: 0 <= k < i ==> activeElements[k] == (Model.elements[k], pooledViews[k])
        invariant forall k :: 0 <= k < i ==> pooledViews[k].sprite == Model.elements[k].ElementType.Sprite
      {
        var m := Model.elements[i];
        var view := pooledViews[i];
        assert forall k :: 0 <= k < i ==> pooledViews[k] != view;
        view.sprite := m.ElementType.Sprite;
        activeElements := activeElements + [(m, view)];
        i := i + 1;
      }
    }

    /**
     * LoadFromSavedData: the current views go back to the pool; each element of the (freshly loaded)
     * model gets a view from the pool showing its type's sprite, and everything is laid out again.
     * The views the pool hands out, in order, are `pooledViews`.
     */
    method LoadFromSavedData(pooledViews: seq<ElementView>)
      requires Model.Valid() && |pooledViews| == |Model.elements|
      requires forall i, j :: 0 <= i < j < |pooledViews| ==> pooledViews[i] != pooledViews[j]
      modifies this`activeElements, Model.elements, pooledViews, outbox`log
      ensures Valid()
      ensures |activeElements| == |pooledViews| &&
        forall i :: 0 <= i < |activeElements| ==> activeElements[i] == (Model.elements[i], pooledViews[i])
      ensures Model.elements == old(Model.elements)
      ensures SameButIndex(Model.Snapshot(), old(Model.Snapshot()))
      ensures forall i :: 0 <= i < |pooledViews| ==> pooledViews[i].sprite == Model.elements[i].ElementType.Sprite
      ensures PositionsSettled()
      ensures outbox.log == old(outbox.log) + Releases(old(activeElements))
    {
      ClearActiveElements();
      Rebuild(pooledViews);
    }

    /** LoadFromSavedData after the old pairs are released: the new pairs are made and laid out. */
    method Rebuild(pooledViews: seq<ElementView>)
      requires Model.Valid() && activeElements == [] && |pooledViews| == |Model.elements|
      requires forall i, j :: 0 <= i < j < |pooledViews| ==> pooledViews[i] != pooledViews[j]
      modifies this`activeElements, Model.elements, pooledViews
      ensures Valid()
      ensures |activeElements| == |pooledViews| &&
        forall i :: 0 <= i < |activeElements| ==> activeElements[i] == (Model.elements[i], pooledViews[i])
      ensures Model.elements == old(Model.elements)
      ensures SameButIndex(Model.Snapshot(), old(Model.Snapshot()))
      ensures forall i :: 0 <= i < |pooledViews| ==> pooledViews[i].sprite == Model.elements[i].ElementType.Sprite
      ensures PositionsSettled()
    {
      PairWithViews(pooledViews);
      assert Aligned();
      assert forall v :: v in Views() ==> v in pooledViews by {
        forall v | v in Views() ensures v in pooledViews {
          var k :| 0 <= k < |activeElements| && activeElements[k].1 == v;
          assert v == pooledViews[k];
        }
      }
      UpdateElementsPositions();
    }
  }
}
