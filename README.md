# Cube tower: a Dafny model

This project models the core of a Unity drag-and-drop game. The player drags cubes from a scroll tray at the bottom of the screen. A cube can be dropped onto a tower, which stacks cubes bottom to top, or into a hole, which discards them. The model covers:

- **The tower's model** (`Tower`, with `TowerLayout` for slot geometry and `TowerRecords` for save files). It holds the ordered list of placed elements, numbers them 0..n-1, computes each slot's position from the base position and the heights below, and saves to and loads from `TowerSaveData`.
- **The tower drop zone** (`TowerZone`). It decides whether a dropped cube may join the tower, checking in this order:
  - a re-drag of a tower cube;
  - the drop rules (`DropRules`);
  - the zone's rect;
  - the hit test;
  - on an empty tower, the anchor;
  - on a non-empty tower, the height limit.

  It then places the new element and its pooled view, lays the views out, and collapses the tower when an element is removed.
- **The hole** (`Hole`, `HoleZone`). It is an ellipse hit test sized from the hole image. It accepts every dropped view.
- **The drag service** (`Drag`). It picks the first registered zone under the pointer and offers it the dragged element. Depending on the outcome, it then asks for the matching notification and animation.
- **The scroll tray's model** (`ScrollArea`). It is seeded with the configured count of elements, shared out over the configured types.
- **The view pool** (`Pool`): `ObjectPool` with a free list `pool[0..nextIndex)`.
- **The canvas scaler's preset choice** (`CanvasScaler`).
- **The older tower model** kept at the repository root (`LegacyTower`).

Objects whose fields the code updates in place are classes. These are:

- the tower model and its elements;
- element views;
- the controllers;
- the pool;
- the scroll model;
- the dragging model and its view.

Records are datatypes: element types, save data, presets, and `Placed`, the value of one tower element. Engine services outside the core are recorded, in order, as `Request`s in a shared `Outbox` log. These services are notifications, tweens, returns to the pool and `OnRemove` callbacks. The following are parameters:

- the engine's geometry, such as rect hit tests and screen-to-local conversion (`Screen`, `toLocal`);
- random draws (`u`, `jitter` in [0, 1]);
- the view the pool hands out (`pooledView`).

## Model

| member | source | states |
|---|---|---|
| UnityMath.Abs | Assets/Scripts/Zones/DropZones/Hole/HoleController.cs:63-64 | Mathf.Abs: the result is non-negative and is either x or -x |
| UnityMath.Clamp | Assets/Scripts/Zones/DropZones/Tower/TowerContainerController.cs:93-94 | Mathf.Clamp: the result lies in [min, max], equals the value when it already does, and is min below it |
| UnityMath.RandomRange | Assets/Scripts/Zones/DropZones/Tower/TowerElement/TowerElementModel.cs:19 | Random.Range(min, max) for the draw u: the result lies between the two bounds |
| UnityMath.SymmetricRangeBound | Assets/Scripts/Zones/DropZones/Tower/TowerElement/TowerElementModel.cs:14-19 | a draw from [-m, m] is at most abs(m) from zero, whatever the sign of m |
| Element.ElementView.Clone | Assets/Scripts/Services/PoolService/ObjectPool.cs:78 | Object.Instantiate: a new view carrying the prefab's rect, transform, sprite and active flag |
| ElementModels.ScrollElementModel.constructor | Assets/Scripts/Zones/ScrollArea/ScrollContainerModel.cs:31-34 | a scroll element keeps the type it is created with |
| TowerElement.TowerElementModel.constructor | Assets/Scripts/Zones/DropZones/Tower/TowerElement/TowerElementModel.cs:6-10 | a tower element holds the given type, offset, index and height |
| TowerElement.Create | Assets/Scripts/Zones/DropZones/Tower/TowerElement/TowerElementModel.cs:12-23 | a fresh element of the given type, index -1 and height 0, with an offset within half the element's width either side |
| TowerLayout.SlotPositionIgnoresIndex | Assets/Scripts/Zones/DropZones/Tower/TowerContainerModel.cs:46-60 | a slot's position depends on the types, offsets and heights only, never on the stored indices |
| TowerLayout.TotalHeightAppend | Assets/Scripts/Zones/DropZones/Tower/TowerContainerModel.cs:17-24 | adding an element raises CurrentHeight by exactly that element's height |
| TowerLayout.AppendKeepsSlots | Assets/Scripts/Zones/DropZones/Tower/TowerContainerModel.cs:46-60 | appending an element moves no existing slot |
| TowerLayout.RemoveReflow | Assets/Scripts/Zones/DropZones/Tower/TowerContainerController.cs:166-203 | after removing slot r, slots below r keep their position, and every slot from r up drops by exactly the removed element's height |
| TowerLayout.TotalHeightRemove | Assets/Scripts/Zones/DropZones/Tower/TowerContainerModel.cs:17-33 | removing slot r lowers CurrentHeight by exactly that element's height |
| TowerLayout.SlotsAreContiguous | Assets/Scripts/Zones/DropZones/Tower/TowerContainerModel.cs:46-60 | the top edge of each element is the bottom edge of the next: the elements touch, with no gap or overlap |
| TowerLayout.SlotsAscend | Assets/Scripts/Zones/DropZones/Tower/TowerContainerModel.cs:46-60 | with non-negative heights, slot bottoms never descend along the tower |
| TowerLayout.AppendFitsIff | Assets/Scripts/Zones/DropZones/Tower/TowerContainerModel.cs:62-68 | on a non-empty tower, CanAddElement with the room left under the zone top holds exactly when the new element's top edge would be at or below the zone top |
| TowerLayout.CentresExample | Assets/Scripts/Zones/DropZones/Tower/TowerContainerModel.cs:46-60 | heights 10, 20, 30 on a zero base put the centres at 5, 20 and 45 |
| TowerRecords.FirstWithId | Assets/Scripts/Zones/DropZones/Tower/TowerContainerModel.cs:95 | FirstOrDefault by ID: None exactly when no type has the ID; otherwise the first type in the list with that ID |
| TowerRecords.Restorable | Assets/Scripts/Zones/DropZones/Tower/TowerContainerModel.cs:95-101 | a record is restored exactly when its ID is neither null nor empty and some available type carries it |
| TowerRecords.LoadedAllRestorable | Assets/Scripts/Zones/DropZones/Tower/TowerContainerModel.cs:89-115 | when every record is restorable, loading yields one element per record, in order, each restored field by field |
| TowerRecords.LoadedNoLonger | Assets/Scripts/Zones/DropZones/Tower/TowerContainerModel.cs:93-112 | loading never yields more elements than there are records |
| TowerRecords.SaveLoadRoundTrip | Assets/Scripts/Zones/DropZones/Tower/TowerContainerModel.cs:70-115 | saving a tower whose types are all found first by their non-empty IDs, then loading it, gives back the same elements and base position |
| TowerRecords.SkippedRecordLeavesGap | Assets/Scripts/Zones/DropZones/Tower/TowerContainerModel.cs:95-111 | a skipped record leaves the next element's saved index unchanged, so a loaded tower can be misnumbered until it is laid out again |
| TowerSaveData.SerializableVector3.ToVector3 | Assets/Scripts/Services/SaveLoadService/TowerSaveData.cs:39 | converting back and re-wrapping gives the same serializable vector |
| TowerSaveData.FromVector3 | Assets/Scripts/Services/SaveLoadService/TowerSaveData.cs:32-37 | the serializable vector copies the three coordinates |
| TowerSaveData.VectorRoundTrip | Assets/Scripts/Services/SaveLoadService/TowerSaveData.cs:32-39 | wrapping a vector and converting it back returns the vector |
| TowerSaveData.NewTowerSaveData | Assets/Scripts/Services/SaveLoadService/TowerSaveData.cs:10-12 | new save data has no elements and a zero base position |
| DropRules.AllAllow | Assets/Scripts/Zones/DropZones/Tower/TowerContainerController.cs:74 | dropRules.All: true exactly when every rule in the list admits the candidate |
| DropRules.NonRestrictionNeutral | Assets/Scripts/Zones/DropZones/DropRules/DropRules.cs:6-9 | inserting the no-restriction rule anywhere in a rule list never changes the verdict |
| DropRules.OneColorRejectsOnlyOtherIds | Assets/Scripts/Zones/DropZones/DropRules/DropRules.cs:11-20 | the one-colour rule rejects exactly when the tower is non-empty and the candidate's ID differs from the bottom element's |
| DropRules.AdmittedAppendStaysMonochrome | Assets/Scripts/Zones/DropZones/DropRules/DropRules.cs:11-20 | with the one-colour rule among the rules, adding any admitted element keeps a one-colour tower one-coloured |
| DropRules.RemovalStaysMonochrome | Assets/Scripts/Zones/DropZones/DropRules/DropRules.cs:11-20 | removing any element and renumbering keeps a one-colour tower one-coloured |
| Tower.TowerContainerModel.constructor | Assets/Scripts/Zones/DropZones/Tower/TowerContainerModel.cs:13-16 | a new tower is empty with a zero base position |
| Tower.TowerContainerModel.AddElement | Assets/Scripts/Zones/DropZones/Tower/TowerContainerModel.cs:20-24 | the element is appended and numbered with the old count; its offset, height and the base are unchanged; numbering stays exact iff the element was not already in the list |
| Tower.TowerContainerModel.RemoveElementAt | Assets/Scripts/Zones/DropZones/Tower/TowerContainerModel.cs:26-33 | the element at the index leaves the list and is otherwise untouched; the others keep their order, types, offsets and heights, and are renumbered 0..n-2 |
| Tower.TowerContainerModel.GetElementPosition | Assets/Scripts/Zones/DropZones/Tower/TowerContainerModel.cs:46-60 | succeeds exactly for an index in range, returning the slot position: x is base plus offset, y is base plus the heights below plus pivot times the element's height; otherwise the out-of-range failure |
| Tower.TowerContainerModel.GetTopPosition | Assets/Scripts/Zones/DropZones/Tower/TowerContainerModel.cs:39-44 | as written: the base on an empty tower, and the out-of-range failure on every non-empty tower |
| Tower.TowerContainerModel.TopPosition | Assets/Scripts/Zones/DropZones/Tower/TowerContainerModel.cs:39-44 | corrected: the base on an empty tower; otherwise the base's x and the top edge of the top element |
| Tower.TowerContainerModel.ToSaveData | Assets/Scripts/Zones/DropZones/Tower/TowerContainerModel.cs:70-87 | the save data holds one record per element, in order (ID, offset, index, height), and the base position |
| Tower.TowerContainerModel.LoadFromSaveData | Assets/Scripts/Zones/DropZones/Tower/TowerContainerModel.cs:89-115 | the tower is replaced by fresh elements restored from the restorable records, in order, and takes the saved base position |
| Tower.TowerContainerModel.RestoreRecord | Assets/Scripts/Zones/DropZones/Tower/TowerContainerModel.cs:93-112 | one record: restored and appended when its ID resolves to a type, skipped otherwise |
| Hole.HoleModel.constructor | Assets/Scripts/Zones/DropZones/Hole/HoleModel.cs:8 | a new hole has a zero ellipse size |
| Hole.HoleModel.IsPointInsideEllipse | Assets/Scripts/Zones/DropZones/Hole/HoleModel.cs:10-19 | a degenerate ellipse contains nothing; a proper one contains its centre |
| Hole.InsideWithinBounds | Assets/Scripts/Zones/DropZones/Hole/HoleModel.cs:10-19 | every point inside lies within the ellipse's bounding box |
| Hole.InsideOnAxes | Assets/Scripts/Zones/DropZones/Hole/HoleModel.cs:10-19 | on each axis, a point is inside exactly when it is within the half-size |
| Hole.InsideTowardsCentre | Assets/Scripts/Zones/DropZones/Hole/HoleModel.cs:10-19 | moving an inside point towards the centre keeps it inside |
| Hole.InsideSymmetric | Assets/Scripts/Zones/DropZones/Hole/HoleModel.cs:10-19 | mirroring a point in either axis does not change the answer |
| HoleZone.ScaledSize | Assets/Scripts/Zones/DropZones/Hole/HoleController.cs:58-64 | the ellipse size from a non-negative sizeDelta is non-negative |
| HoleZone.MirroredImageSameSize | Assets/Scripts/Zones/DropZones/Hole/HoleController.cs:62-64 | a mirrored hole image gives the same ellipse size |
| HoleZone.PositiveSizeIff | Assets/Scripts/Zones/DropZones/Hole/HoleController.cs:58-64 | the ellipse is proper, so the hole can be hit at all, exactly when sizeDelta is positive and neither scale is zero |
| HoleZone.HoleController.constructor | Assets/Scripts/Zones/DropZones/Hole/HoleController.cs:16-27 | construction sizes the hole model from the image when both exist |
| HoleZone.HoleController.InitializeHoleBounds | Assets/Scripts/Zones/DropZones/Hole/HoleController.cs:47-65 | with a model and an image, the ellipse size becomes sizeDelta scaled by the absolute scale; without an image, nothing changes |
| HoleZone.HoleController.IsInsideZone | Assets/Scripts/Zones/DropZones/Hole/HoleController.cs:29-45 | true exactly when model and image exist, the point converts to local space and lies in the ellipse; a hit is then within the half-size on both axes |
| HoleZone.HoleController.TryDropElement | Assets/Scripts/Zones/DropZones/Hole/HoleController.cs:67-74 | accepts exactly when a view is given, then asks for the original's removal and the "DropHole" notification; otherwise requests nothing |
| Drag.FirstHit | Assets/Scripts/Services/DragService/DragController.cs:52 | FirstOrDefault over the zones: None exactly when no zone is hit; otherwise the first hit zone in registration order |
| Drag.TowerTarget | Assets/Scripts/Services/DragService/DragController.cs:68-80 | on an empty tower, the base's x at the bottom of the zone's rect; otherwise 50 above the top element's centre, at most 50 to either side of it |
| Drag.TowerReply | Assets/Scripts/Zones/DropZones/Tower/TowerContainerController.cs:116-117 | an accepted tower drop ends with "PlaceCube"; any other outcome requests only that outcome's complaint |
| Drag.DraggingElementView.constructor | Assets/Scripts/Services/DragService/DraggingElementView.cs:9 | the dragging view starts inactive, as Awake leaves it; its sprite, position and alpha are placeholders that Show overwrites |
| Drag.DraggingElementView.Show | Assets/Scripts/Services/DragService/DraggingElementView.cs:11-17 | shows the sprite at the position, half transparent and active |
| Drag.DraggingElementView.Hide | Assets/Scripts/Services/DragService/DraggingElementView.cs:19 | the view becomes inactive |
| Drag.DraggingElementView.SetPosition | Assets/Scripts/Services/DragService/DraggingElementView.cs:20 | the view moves to the position |
| Drag.DragController.constructor | Assets/Scripts/Services/DragService/DragController.cs:18-29 | the controller holds its model, view, zones and outbox |
| Drag.DragController.StartDrag | Assets/Scripts/Services/DragService/DragController.cs:36-43 | the drag remembers the element's type, model and view, and shows its sprite at the element's position, half transparent |
| Drag.DragController.OnDrag | Assets/Scripts/Services/DragService/DragController.cs:45-48 | the dragging view follows the pointer |
| Drag.DragController.OnRemoveRequested | Assets/Scripts/Services/DragService/DragController.cs:31-34 | asks the original view to remove the original model |
| Drag.DragController.DropOnHole | Assets/Scripts/Services/DragService/DragController.cs:63-102 | a drop into the hole hides the dragging view; it requests "DropHole", the removal, "DropHole" again, then a jump to the hole image that removes the original |
| Drag.DragController.DropOnTower | Assets/Scripts/Services/DragService/DragController.cs:68-102 | a drop on the tower requests "PlaceCube", then the tower's reply, then a jump to the tower target if the tower took the element, or a fade back plus "MissCube" if not |
| Drag.DragController.OfferToTower | Assets/Scripts/Services/DragService/DragController.cs:82-102 | the same request sequence for a given target; the tower stays valid, and the dragging view is hidden exactly when the drop landed |
| Drag.DragController.DropTail | Assets/Scripts/Services/DragService/DragController.cs:86-102 | a landed drop asks for one jump from the start to the target; a missed one asks for a fade and jump back to the start, then "MissCube" |
| Drag.DragController.FinishDrop | Assets/Scripts/Services/DragService/DragController.cs:86-102 | requests that tail, and hides the dragging view exactly when the drop landed |
| Drag.DragController.OnEndDrag | Assets/Scripts/Services/DragService/DragController.cs:50-103 | no zone hit: fade and hide, plus "MissCube", view unchanged; the first hit zone is a hole: the hole sequence; the first hit zone is a tower: the tower sequence, with the tower kept valid |
| ScrollArea.Share | Assets/Scripts/Zones/ScrollArea/ScrollContainerModel.cs:23-27 | a type's share of n elements over k types is n/k or n/k + 1 |
| ScrollArea.SharesBalanced | Assets/Scripts/Zones/ScrollArea/ScrollContainerModel.cs:23-27 | shares never grow along the type list and differ by at most one; the extra element goes exactly to the first n mod k types |
| ScrollArea.SeedingTotal | Assets/Scripts/Zones/ScrollArea/ScrollContainerModel.cs:13-37 | the tray holds exactly the configured count when there are types and a positive count, and is empty otherwise |
| ScrollArea.SeedingRuns | Assets/Scripts/Zones/ScrollArea/ScrollContainerModel.cs:25-36 | the tray is one contiguous run per type, in configured order; each run is exactly that type's share long and starts where the previous one ends |
| ScrollArea.ScrollContainerModel.constructor | Assets/Scripts/Zones/ScrollArea/ScrollContainerModel.cs:11 | a new tray is empty |
| ScrollArea.ScrollContainerModel.AddRun | Assets/Scripts/Zones/ScrollArea/ScrollContainerModel.cs:29-35 | appends count fresh elements of the type and keeps the earlier ones |
| ScrollArea.ScrollContainerModel.InitializeElements | Assets/Scripts/Zones/ScrollArea/ScrollContainerModel.cs:13-37 | the tray is replaced by fresh elements whose types are the runs above, or by nothing when types are missing or the count is not positive |
| Pool.Doomed | Assets/Scripts/Services/PoolService/ObjectPool.cs:88-94 | the views a destroy loop destroys: exactly the present, inactive views of the scanned range, in order |
| Pool.ResetObject | Assets/Scripts/Services/PoolService/ObjectPool.cs:116-135 | the view is left inactive, at the local origin, at unit scale, without a sprite |
| Pool.ObjectPool.constructor | Assets/Scripts/Services/PoolService/ObjectPool.cs:15-27 | a null prefab gives an empty pool that never expands; otherwise initialSize fresh, reset, distinct views, all free |
| Pool.ObjectPool.AvailableCount | Assets/Scripts/Services/PoolService/ObjectPool.cs:137 | the free count is between 0 and the pool's size |
| Pool.ObjectPool.TotalCount | Assets/Scripts/Services/PoolService/ObjectPool.cs:138 | the pool's size is at least the free count |
| Pool.ObjectPool.PreWarm | Assets/Scripts/Services/PoolService/ObjectPool.cs:71-84 | count fresh, reset, distinct views are appended and counted free; a non-positive count changes nothing |
| Pool.ObjectPool.Get | Assets/Scripts/Services/PoolService/ObjectPool.cs:29-51 | as written: takes and activates the last free view, or appends a fresh one when that slot is empty; when no view is free, it prewarms and then takes slot expandBy-1, which can be a view already handed out; the view is fresh when no view was free and expandBy exceeds the old size; every other view is left unchanged, and a taken view keeps its transform and sprite |
| Pool.ObjectPool.ReturnToPool | Assets/Scripts/Services/PoolService/ObjectPool.cs:53-69 | as written: null is ignored and a foreign view is destroyed; a pool view is reset and written into slot nextIndex, or raises out-of-range when every slot is free; a foreign view is left unchanged |
| Pool.ObjectPool.DestroyInactive | Assets/Scripts/Services/PoolService/ObjectPool.cs:104-110 | destroys exactly the present, inactive views of the range |
| Pool.ObjectPool.Clear | Assets/Scripts/Services/PoolService/ObjectPool.cs:86-98 | destroys the inactive free views, then empties the pool |
| Pool.ObjectPool.Shrink | Assets/Scripts/Services/PoolService/ObjectPool.cs:100-114 | a target in [0, nextIndex) destroys the inactive free views above it and removes their slots; any other target changes nothing; the handed-out views stay the same |
| Pool.ObjectPool.PreWarmCorrected | Assets/Scripts/Services/PoolService/ObjectPool.cs:71-84 | corrected: the fresh views go into the free part, leaving the handed-out views as they were |
| Pool.ObjectPool.InsertFresh | Assets/Scripts/Services/PoolService/ObjectPool.cs:76-83 | one fresh, reset view goes in at the free boundary |
| Pool.ObjectPool.GetCorrected | Assets/Scripts/Services/PoolService/ObjectPool.cs:29-51 | corrected: the view handed out was not out before and is now out, and nothing else changes hands; every other view is left unchanged, and a taken view keeps its transform and sprite |
| Pool.ObjectPool.ReturnToPoolCorrected | Assets/Scripts/Services/PoolService/ObjectPool.cs:53-69 | corrected: a handed-out view is reset and becomes free, and no other view is lost; a foreign view is destroyed; a view that is not out is left unchanged |
| Pool.GetHandsOutTwice | Assets/Scripts/Services/PoolService/ObjectPool.cs:41-45 | a pool of one view, expanding by one: two Gets return the same view |
| Pool.GetCorrectedHandsOutTwoViews | Assets/Scripts/Services/PoolService/ObjectPool.cs:29-51 | the same two calls with the corrected Get return two different views |
| Pool.ReturnOutOfOrderLosesView | Assets/Scripts/Services/PoolService/ObjectPool.cs:66-68 | taking two views and returning them in the order taken leaves the first view in both slots and destroys the second |
| Pool.ReturnOutOfOrderCorrected | Assets/Scripts/Services/PoolService/ObjectPool.cs:53-69 | the same returns with the corrected methods destroy nothing and leave both views free |
| Pool.GetAndReturnAvailable | Assets/Scripts/Services/PoolService/ObjectPool.cs:29-69 | a pool prewarmed with two views has two available again after one Get and its return, and the returned view is inactive |
| CanvasScaler.FirstClosestUnique | Assets/Scripts/Services/CanvasScalerService/CanvasScalerConfig.cs:20-28 | the first preset at least distance is unique |
| CanvasScaler.CanvasScalerConfig.constructor | Assets/Scripts/Services/CanvasScalerService/CanvasScalerConfig.cs:9-11 | the config holds its presets and default |
| CanvasScaler.CanvasScalerConfig.GetClosestPreset | Assets/Scripts/Services/CanvasScalerService/CanvasScalerConfig.cs:13-31 | no presets: the default; every distance at float.MaxValue or more: the default; otherwise the first preset whose target aspect is closest to the current one |
| LegacyTower.RemovedAt | TowerContainerModel.cs:30-44 | the list without the slot: earlier elements unchanged, later ones shifted down and renumbered to their new positions |
| LegacyTower.RemovedAtNumbered | TowerContainerModel.cs:30-44 | removal keeps a numbered list numbered, and keeps the other elements' types and offsets in order |
| LegacyTower.TowerContainerModel.constructor | TowerContainerModel.cs:9-14 | an empty tower, no base, offset bound 50, element height 100 |
| LegacyTower.TowerContainerModel.CurrentHeight | TowerContainerModel.cs:13 | the height in element units is the element count (elements.Count), never negative |
| LegacyTower.TowerContainerModel.AddElement | TowerContainerModel.cs:16-28 | appends an element of the given type, numbered with the old count, with an offset within the bound; numbering stays exact |
| LegacyTower.TowerContainerModel.TryRemoveElementAtIndex | TowerContainerModel.cs:30-44 | succeeds exactly for an index in range, then removes the slot and renumbers; otherwise nothing changes |
| LegacyTower.TowerContainerModel.RemoveElement | TowerContainerModel.cs:46-51 | removes the first equal element, as by its index; an absent element changes nothing |
| LegacyTower.TowerContainerModel.CanAddElement | TowerContainerModel.cs:53-57 | with a positive element height, true exactly when one more element still fits under the limit |
| LegacyTower.FindIndex | TowerContainerModel.cs:48 | the first index holding the element, or -1 exactly when it is absent |
| TowerZone.Anchor | Assets/Scripts/Zones/DropZones/Tower/TowerContainerController.cs:92-95 | the anchor lies in the zone's rect, and is the drop point itself when that point already does |
| TowerZone.Releases | Assets/Scripts/Zones/DropZones/Tower/TowerContainerController.cs:59-62 | one return to the pool per active view, in order |
| TowerZone.SlidesTargets | Assets/Scripts/Zones/DropZones/Tower/TowerContainerController.cs:192-203 | every slide requested moves a view from the start index up to that view's new slot in half a second; every such view that has a RectTransform gets one |
| TowerZone.IndexOfModel | Assets/Scripts/Zones/DropZones/Tower/TowerContainerController.cs:168 | FindIndex by model: None exactly when no pair holds the model; otherwise the first pair that does |
| TowerZone.TowerContainerController.constructor | Assets/Scripts/Zones/DropZones/Tower/TowerContainerController.cs:24-31 | the controller holds its rules, model, zone rect and outbox, and has no active elements |
| TowerZone.TowerContainerController.IsInsideZone | Assets/Scripts/Zones/DropZones/Tower/TowerContainerController.cs:121-135 | an empty tower is hit exactly inside the zone's rect; a non-empty one is hit exactly on the top element's view; never without a zone rect |
| TowerZone.TowerContainerController.TryDropElement | Assets/Scripts/Zones/DropZones/Tower/TowerContainerController.cs:66-119 | true exactly for a re-drag or an accepted drop; a refusal changes nothing and shows only its complaint ("MissCube", "HeightLimit"); an accepted drop anchors an empty tower at the clamped point and appends the new element; the views stay on their slots, "PlaceCube" is shown, and, on a non-empty tower where the dragged and pooled views are equally tall, the new top stays under the zone top |
| TowerZone.TowerContainerController.DropInside | Assets/Scripts/Zones/DropZones/Tower/TowerContainerController.cs:79-118 | the same outcomes, once the re-drag and rule checks have passed |
| TowerZone.TowerContainerController.PlaceAccepted | Assets/Scripts/Zones/DropZones/Tower/TowerContainerController.cs:116-117 | places the element, shows "PlaceCube", and raises the tower top by the new element's height |
| TowerZone.TowerContainerController.AddElementInternal | Assets/Scripts/Zones/DropZones/Tower/TowerContainerController.cs:137-164 | a view without a RectTransform is returned to the pool and nothing else changes; otherwise a fresh element of the type, sized from the view with a jittered offset, is appended and paired with the view, and all views sit on their slots |
| TowerZone.TowerContainerController.AddAndLayOut | Assets/Scripts/Zones/DropZones/Tower/TowerContainerController.cs:150-163 | appends the sized element and its view, then lays out every view on its slot |
| TowerZone.TowerContainerController.AddOnTop | Assets/Scripts/Zones/DropZones/Tower/TowerContainerController.cs:150-162 | creates and appends the sized element, paired with its view, keeping models and pairs aligned |
| TowerZone.TowerContainerController.Attach | Assets/Scripts/Zones/DropZones/Tower/TowerContainerController.cs:155-162 | the model joins the tower numbered with the old count, and the pair joins the active list |
| TowerZone.TowerContainerController.SettleElement | Assets/Scripts/Zones/DropZones/Tower/TowerContainerController.cs:209-214 | one step of the layout loop: the element is renumbered to its position, and its view, if it has a RectTransform, moves to its slot |
| TowerZone.TowerContainerController.SettledOnLayout | Assets/Scripts/Zones/DropZones/Tower/TowerContainerController.cs:205-216 | views placed on slots computed before renumbering are also on the renumbered tower's slots |
| TowerZone.TowerContainerController.UpdateElementsPositions | Assets/Scripts/Zones/DropZones/Tower/TowerContainerController.cs:205-216 | every element is renumbered to its position, every view with a RectTransform sits on its slot, and the others stay put |
| TowerZone.TowerContainerController.RemoveElement | Assets/Scripts/Zones/DropZones/Tower/TowerContainerController.cs:166-177 | an unknown model changes nothing; otherwise the pair and element leave the tower, which is renumbered, the view is returned, and every view above slides to its new slot |
| TowerZone.TowerContainerController.RemoveFound | Assets/Scripts/Zones/DropZones/Tower/TowerContainerController.cs:171-176 | the removal at a found index, with its return and slides |
| TowerZone.TowerContainerController.Detach | Assets/Scripts/Zones/DropZones/Tower/TowerContainerController.cs:172-173 | pair and element leave at the index; the tower stays aligned and renumbered |
| TowerZone.TowerContainerController.AnimateDropDown | Assets/Scripts/Zones/DropZones/Tower/TowerContainerController.cs:192-203 | requests exactly the slides from the start index upward |
| TowerZone.TowerContainerController.ClearActiveElements | Assets/Scripts/Zones/DropZones/Tower/TowerContainerController.cs:57-64 | every active view is returned to the pool, in order, and the list is emptied |
| TowerZone.TowerContainerController.PairWithViews | Assets/Scripts/Zones/DropZones/Tower/TowerContainerController.cs:42-53 | each element is paired, in order, with its own pooled view, showing its sprite |
| TowerZone.TowerContainerController.LoadFromSavedData | Assets/Scripts/Zones/DropZones/Tower/TowerContainerController.cs:39-55 | the old views are returned, each loaded element gets a view with its sprite on its slot, and the elements are renumbered with nothing else changed |
| TowerZone.TowerContainerController.Rebuild | Assets/Scripts/Zones/DropZones/Tower/TowerContainerController.cs:42-54 | pairs and lays out the loaded elements |

## Left out

- The files defining `ElementModel`, `ScrollElementModel` and `DraggingElementModel` are not part of this model. Their fields are taken from how the code uses them.
- Rendering, audio, localisation, input events and tween timing are left out. Each effect the core asks for is recorded as a `Request` in the outbox, in the order asked. The model does not include what the services do afterwards, or the callbacks they run later, such as `OnRemove` after a jump.
- Engine geometry is a parameter: the rect hit tests and screen-to-local conversion (`Screen`, `toLocal`) and the hole image's transform (`HoleImageRect`). Positions are world or local values as the code reads them.
- Floating point is not modelled. Coordinates, sizes and aspect ratios are `real`, so rounding and NaN are outside the model. `float.MaxValue` is a constant.
- `Random.Range` is modelled as `RandomRange(min, max, u)` with the draw `u` in [0, 1] as a parameter. A draw is not modelled as random.
- The tower controller receives the view that `elementPool.Get()` hands out as the parameter `pooledView`, and requires that it is not already on the tower. The corrected pool guarantees this; the pool as written does not (see Findings).
- `Initialize` and the `PreWarm(20)` it calls are not modelled (TowerContainerController.cs:33-37). Neither is the event wiring: drag handlers and `OnRemoveRequested`.
- `TowerZone.TowerContainerController.TryDropElement`: a null view and a missing RectTransform on the zone are one case, `zoneRect == None`, checked after the rules. The code checks a null view before the rules, but the rules read nothing that could change, so only the outcome is modelled.
- `Drag.DragController.OnEndDrag`: the tower keeps its invariant, but the wiring predicate (zones' outboxes and disjoint frames) is not re-established for the next drag.
- `GetElementAt` and `SetElementAt` of the tower model (TowerContainerModel.cs:35-37) are not modelled separately. Reading is indexing `elements`, and nothing in the core calls `SetElementAt`.
- `Tower.TowerContainerModel.CurrentHeight` and `Tower.TowerContainerModel.CanAddElement` carry no contract of their own. Their properties are `TowerLayout.TotalHeightAppend`, `TowerLayout.TotalHeightRemove` and `TowerLayout.AppendFitsIff`.
- `Pool.ObjectPool.Get` requires a free view or a positive `expandBy`. Otherwise the code recurses without end (prewarming nothing each time), and that stack overflow is not modelled.
- `Pool.ObjectPool.PreWarm` requires a prefab when the count is positive. `Object.Instantiate` of a null prefab throws, and that exception is not modelled.
- `Pool.ResetObject` does not model the parent, the rotation, the alpha or the anchored position. The view carries no such fields.
- `Pool.ObjectPool` is specialised to element views, the only type the core pools. Views destroyed by the engine are modelled only as `null` slots.
- `LegacyTower.TowerContainerModel`: the older model's element is a value, because the code writes each renumbered copy back into its slot. `RemoveElement`'s `e == element` is therefore value equality. `BasePosition` is kept but never used by that model.
- Where the design description of the drop protocol differs from the code, the model follows the code:
  - a re-drag of a tower element makes the tower's `TryDropElement` return true, not false;
  - the hit test comes before the height check;
  - a successful drag always asks for the original's removal after the jump.

  The re-drag branch cannot be reached from `DragController`, which always passes the original model.
- The tower's height check uses the height of the dragged view, while the placed element takes the height of the pooled view. The tower-top bound in `TowerZone.TowerContainerController.TryDropElement` is therefore stated for the case where the two are equal.
- Each tower drop asks for "PlaceCube" twice: once from the drag service, once from the tower. Each hole drop asks for "DropHole" twice.
- The pool's own test (Assets/Tests/TowerGameTests.cs:110-119) expects one available view after a Get and a return from a pool of two. The code gives two, as `Pool.GetAndReturnAvailable` states. The model follows the code.

## Findings

| source | as written | input that shows it | evidently intended | confidence | as-written member | corrected member |
|---|---|---|---|---|---|---|
| Assets/Scripts/Services/PoolService/ObjectPool.cs:41-45 | with no free view, Get prewarms new views at the end of the list but sets the free count to expandBy, so the next take is slot expandBy-1, which can be a view already in use | pool of one view with expandBy 1; Get, then Get | a Get never hands out a view that is already out | not executed | Pool.GetHandsOutTwice | Pool.ObjectPool.GetCorrected |
| Assets/Scripts/Services/PoolService/ObjectPool.cs:66-68 | ReturnToPool writes the returned view into slot nextIndex, overwriting whichever view was there, rather than swapping it into the free part | pool of two views (expandBy 5); take two; return the first taken, then the second | returning views in any order loses none of them | not executed | Pool.ReturnOutOfOrderLosesView | Pool.ObjectPool.ReturnToPoolCorrected |
| Assets/Scripts/Zones/DropZones/Tower/TowerContainerModel.cs:39-44 | GetTopPosition asks for the position of element Count, one past the top, which is out of range on every non-empty tower | a tower with one element | the top edge of the top element | not executed | Tower.TowerContainerModel.GetTopPosition | Tower.TowerContainerModel.TopPosition |
