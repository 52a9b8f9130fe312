/**
 * The older revision of the tower's model, at the repository root (TowerContainerModel.cs): a tower of
 * elements of one fixed height, each remembering its index in the tower. Its element type is not part
 * of this model; the code writes each renumbered element back into its slot, so elements are values here.
 */
module LegacyTower {
  import opened Wrappers
  import opened UnityMath
  import opened Element
  import opened ElementModels

  /** An element of the older tower: its type, its horizontal offset and its index in the tower. */
  datatype LegacyTowerElement = LegacyTowerElement(ElementType: ElementType, HorizontalOffset: real, IndexInTower: int)

  /** Every element's IndexInTower is its position in the list. */
  predicate Numbered(s: seq<LegacyTowerElement>) {
    forall j :: 0 <= j < |s| ==> s[j].IndexInTower == j
  }

  /** The list without slot `i`, the elements after it renumbered to their new positions. */
  function RemovedAt(s: seq<LegacyTowerElement>, i: nat): (r: seq<LegacyTowerElement>)
    requires i < |s|
    ensures |r| == |s| - 1
    ensures forall j :: 0 <= j < i ==> r[j] == s[j]
    ensures forall j :: i <= j < |r| ==> r[j] == s[j + 1].(IndexInTower := j)
  {
    s[..i] + seq(|s| - 1 - i, j requires 0 <= j < |s| - 1 - i => s[i + 1 + j].(IndexInTower := i + j))
  }

  /** Removing a slot from a numbered list leaves it numbered, and keeps the other elements in order. */
  lemma {:induction false} RemovedAtNumbered(s: seq<LegacyTowerElement>, i: nat)
    requires i < |s| && Numbered(s)
    ensures Numbered(RemovedAt(s, i))
    ensures forall j :: 0 <= j < |s| - 1 ==>
      RemovedAt(s, i)[j].ElementType == s[if j < i then j else j + 1].ElementType &&
      RemovedAt(s, i)[j].HorizontalOffset == s[if j < i then j else j + 1].HorizontalOffset
  {
  }

  class TowerContainerModel {
    var elements: seq<LegacyTowerElement>
    var BasePosition: Option<Vector3>
    /** The horizontal offset's bound; only the class sets it. */
    const MaxHorizontalOffset: real
    var ElementHeight: real

    constructor ()
      ensures elements == [] && BasePosition == None && MaxHorizontalOffset == 50.0 && ElementHeight == 100.0
    {
      elements := [];
      BasePosition := None;
      MaxHorizontalOffset := 50.0;
      ElementHeight := 100.0;
    }

    /** CurrentHeight: the number of elements, the tower's height in element units. */
    function CurrentHeight(): (h: int)
      reads this
      ensures h >= 0
    {
      |elements|
    }

    /**
     * AddElement: a new element of the given element's type is appended, with a random offset within
     * the bound (the draw `u` in [0, 1]) and the old count as its index.
     */
    method AddElement(element: ElementModel, u: real)
      requires 0.0 <= u <= 1.0
      modifies this`elements
      ensures |elements| == old(|elements|) + 1 && elements[..old(|elements|)] == old(elements)
      ensures elements[old(|elements|)].ElementType == old(TypeOf(element))
      ensures elements[old(|elements|)].IndexInTower == old(|elements|)
      ensures Between(elements[old(|elements|)].HorizontalOffset, -MaxHorizontalOffset, MaxHorizontalOffset)
      ensures old(Numbered(elements)) ==> Numbered(elements)
    {
      var horizontalOffset := RandomRange(-MaxHorizontalOffset, MaxHorizontalOffset, u);
      var towerElement := LegacyTowerElement(TypeOf(element), horizontalOffset, |elements|);
      elements := elements + [towerElement];
    }

    /**
     * TryRemoveElementAtIndex: an index out of range is refused and nothing changes; otherwise the
     * element is removed and every element from that index on is renumbered to its new position.
     */
    method TryRemoveElementAtIndex(index: int) returns (removed: bool)
      modifies this`elements
      ensures removed <==> 0 <= index < old(|elements|)
      ensures !removed ==> elements == old(elements)
      ensures removed ==> elements == RemovedAt(old(elements), index)
    {
      if index < 0 || index >= |elements| {
        return false;
      }
      elements := elements[..index] + elements[index + 1..];
      for i := index to |elements|
        invariant |elements| == old(|elements|) - 1
        invariant forall j :: 0 <= j < index ==> elements[j] == old(elements[j])
        invariant forall j :: index <= j < i ==> elements[j] == old(elements[j + 1]).(IndexInTower := j)
        invariant forall j :: i <= j < |elements| ==> elements[j] == old(elements[j + 1])
      {
        var e := elements[i];
        e := e.(IndexInTower := i);
        elements := elements[i := e];
      }
      return true;
    }

    /** RemoveElement: the first element equal to the given one is removed as by its index; none, nothing changes. */
    method RemoveElement(element: LegacyTowerElement)
      modifies this`elements
      ensures element !in old(elements) ==> elements == old(elements)
      ensures element in old(elements) ==>
        exists i :: 0 <= i < old(|elements|) && old(elements[i]) == element && element !in old(elements[..i]) &&
                    elements == RemovedAt(old(elements), i)
    {
      var index := FindIndex(elements, element);
      if index >= 0 {
        var removed := TryRemoveElementAtIndex(index);
      }
    }

    /**
     * CanAddElement: one more element fits when the tower's height in element heights, plus one more
     * element height, is at most the limit.
     */
    function CanAddElement(screenHeightLimit: real): (ok: bool)
      reads this
      ensures ElementHeight > 0.0 ==> (ok <==> (CurrentHeight() + 1) as real <= screenHeightLimit / ElementHeight)
    {
      var towerHeight := CurrentHeight() as real * ElementHeight;
      towerHeight + ElementHeight <= screenHeightLimit
    }
  }

  /** List.FindIndex with equality: the first index holding `x`, or -1. */
  method FindIndex(s: seq<LegacyTowerElement>, x: LegacyTowerElement) returns (index: int)
    ensures x !in s ==> index == -1
    ensures x in s ==> 0 <= index < |s| && s[index] == x && x !in s[..index]
  {
    for k := 0 to |s|
      invariant x !in s[..k]
    {
      if s[k] == x {
        return k;
      }
    }
    assert s[..|s|] == s;
    return -1;
  }
}
