/** The tower's model (Zones/DropZones/Tower/TowerContainerModel.cs): its elements, bottom first, and its anchor. */
module Tower {
  import opened Wrappers
  import opened UnityMath
  import opened Element
  import opened TowerElement
  import opened TowerSaveData
  import opened TowerLayout
  import opened TowerRecords

  class TowerContainerModel {
    /** The element list, bottom first. */
    var elements: seq<TowerElementModel>
    /** Where the bottom element stands, in the zone's local space. */
    var BasePosition: Vector2

    constructor ()
      ensures elements == [] && BasePosition == Zero2
    {
      elements := [];
      BasePosition := Zero2;
    }

    /** No element object is in the list twice. */
    ghost predicate Valid()
      reads this`elements
    {
      forall i, j :: 0 <= i < j < |elements| ==> elements[i] != elements[j]
    }

    /** The field values of the elements, bottom first. */
    function Snapshot(): seq<Placed>
      reads this`elements, elements
    {
      var es := elements;
      seq(|es|, i reads es requires 0 <= i < |es| => es[i].Value())
    }

    /** CurrentHeight: the sum of the element heights. */
    function CurrentHeight(): real
      reads this`elements, elements
    {
      TotalHeight(Snapshot())
    }

    /** AddElement: stamps the element with the next index and puts it on top. */
    method AddElement(element: TowerElementModel)
      modifies this`elements, element`Index
      ensures elements == old(elements) + [element]
      ensures element.Index == old(|elements|)
      ensures element.HorizontalOffset == old(element.HorizontalOffset) && element.ElementHeight == old(element.ElementHeight)
      ensures BasePosition == old(BasePosition)
      ensures Valid() <==> old(Valid()) && element !in old(elements)
      ensures element !in old(elements) ==>
        Snapshot() == old(Snapshot()) + [old(element.Value()).(index := old(|elements|))]
    {
      element.Index := |elements|;
      elements := elements + [element];
      assert forall k :: 0 <= k < |old(elements)| ==> elements[k] == old(elements)[k];
      if element in old(elements) {
        var k :| 0 <= k < |old(elements)| && old(elements)[k] == element;
        assert elements[k] == elements[|elements| - 1];
      }
    }

    /** RemoveElementAt: takes the element out of the list and renumbers every element by its new position. */
    method RemoveElementAt(index: int)
      requires Valid() && 0 <= index < |elements|
      modifies this`elements, elements
      ensures elements == old(elements[..index] + elements[index + 1..])
      ensures Valid()
      ensures Numbered(Snapshot())
      ensures SameButIndex(Snapshot(), RemoveAt(old(Snapshot()), index))
      ensures unchanged(old(elements[index]))
      ensures BasePosition == old(BasePosition)
    {
      ghost var before := RemoveAt(Snapshot(), index);
      elements := elements[..index] + elements[index + 1..];
      assert Snapshot() == before;
      var i := 0;
      while i < |elements|
        invariant 0 <= i <= |elements|
        invariant elements == old(elements[..index] + elements[index + 1..])
        invariant Valid()
        invariant forall k :: 0 <= k < |elements| ==> elements[k].Value() == (if k < i then before[k].(index := k) else before[k])
        invariant unchanged(old(elements[index]))
        invariant BasePosition == old(BasePosition)
      {
        elements[i].Index := i;
        i := i + 1;
      }
    }

    /**
     * GetElementPosition: x is the base x plus the element's jitter, y is the base y plus the heights below it
     * plus `pivotY` of its own height; an index outside the list fails as the list indexer does.
     */
    method GetElementPosition(index: int, pivotY: real) returns (r: Result<Vector3>)
      ensures r.Success? <==> 0 <= index < |elements|
      ensures r.Success? ==> r.value == SlotPosition(BasePosition, Snapshot(), index, pivotY)
      ensures r.Failure? ==> r.error == IndexOutOfRange
    {
      if !(0 <= index < |elements|) {
        return Failure(IndexOutOfRange);
      }
      var y := BasePosition.y;
      var x := BasePosition.x + elements[index].HorizontalOffset;
      var i := 0;
      while i < index
        invariant 0 <= i <= index
        invariant y == BasePosition.y + HeightBelow(Snapshot(), i)
      {
        y := y + elements[i].ElementHeight;
        i := i + 1;
      }
      var offset := elements[index].ElementHeight * pivotY;
      return Success(Vector3(x, y + offset, 0.0));
    }

    /** GetTopPosition as written: the base on an empty tower, otherwise the position of the slot past the top. */
    method GetTopPosition(pivotY: real) returns (r: Result<Vector2>)
      ensures |elements| == 0 ==> r == Success(BasePosition)
      ensures |elements| > 0 ==> r == Failure(IndexOutOfRange)
    {
      if |elements| == 0 {
        return Success(BasePosition);
      }
      var p := GetElementPosition(|elements|, pivotY);
      return match p
        case Success(v) => Success(To2(v))
        case Failure(e) => Failure(e);
    }

    /** The top edge of the tower: the base, raised by the tower's height. */
    function TopPosition(): (p: Vector2)
      reads this, elements
      ensures |elements| == 0 ==> p == BasePosition
      ensures |elements| > 0 ==> p.y == SlotPosition(BasePosition, Snapshot(), |elements| - 1, 1.0).y
      ensures p.x == BasePosition.x
    {
      Vector2(BasePosition.x, BasePosition.y + TotalHeight(Snapshot()))
    }

    /** CanAddElement: any element fits on an empty tower; otherwise the room left must hold its height. */
    function CanAddElement(newElementHeight: real, availableHeight: real): bool
      reads this`elements, elements
    {
      CanAdd(Snapshot(), newElementHeight, availableHeight)
    }

    /** ToSaveData: one record per element, bottom first, and the base position. */
    method ToSaveData() returns (data: TowerSaveData)
      ensures data == SaveOf(Snapshot(), BasePosition)
    {
      data := NewTowerSaveData();
      var i := 0;
      while i < |elements|
        invariant 0 <= i <= |elements|
        invariant data.Elements == Records(Snapshot()[..i])
      {
        var element := elements[i];
        data := data.(Elements := data.Elements + [SavedTowerElement(element.ElementType.ID, element.HorizontalOffset, element.Index, element.ElementHeight)]);
        i := i + 1;
      }
      assert Snapshot()[..i] == Snapshot();
      data := data.(BasePosition := FromVector3(To3(BasePosition)));
    }

    /**
     * LoadFromSaveData: rebuilds the element list from the restorable records (fresh element objects)
     * and sets the base position from the save.
     */
    method LoadFromSaveData(data: TowerSaveData, availableTypes: seq<ElementType>)
      modifies this
      ensures Valid()
      ensures forall e :: e in elements ==> fresh(e)
      ensures Snapshot() == Loaded(data.Elements, availableTypes)
      ensures BasePosition == To2(data.BasePosition.ToVector3())
    {
      elements := [];
      var i := 0;
      while i < |data.Elements|
        invariant 0 <= i <= |data.Elements|
        invariant Valid()
        invariant forall e :: e in elements ==> fresh(e)
        invariant Snapshot() == Loaded(data.Elements[..i], availableTypes)
      {
        assert data.Elements[..i + 1][..i] == data.Elements[..i];
        RestoreRecord(data.Elements[i], availableTypes);
        i := i + 1;
      }
      assert data.Elements[..i] == data.Elements;
      BasePosition := To2(data.BasePosition.ToVector3());
    }

    /**
     * One pass of LoadFromSaveData's loop: a record whose type ID finds no available type is skipped,
     * any other is appended as a fresh element with the looked-up type and the record's fields.
     */
    method RestoreRecord(record: SavedTowerElement, availableTypes: seq<ElementType>)
      requires Valid()
      modifies this`elements
      ensures Valid()
      ensures Snapshot() ==
        old(Snapshot()) + (if Restorable(availableTypes, record.ElementTypeID) then [Restored(availableTypes, record)] else [])
      ensures forall e :: e in elements ==> e in old(elements) || fresh(e)
    {
      var t := TypeFor(availableTypes, record.ElementTypeID);
      if IsNullOrEmpty(t.ID) {
        return;
      }
      ghost var prev := Snapshot();
      var element := new TowerElementModel(t, record.HorizontalOffset, record.Index, record.ElementHeight);
      elements := elements + [element];
      assert Snapshot() == prev + [element.Value()];
    }
  }
}
