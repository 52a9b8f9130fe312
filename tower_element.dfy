/** One placed element of the tower (Zones/DropZones/Tower/TowerElement/TowerElementModel.cs). */
module TowerElement {
  import opened UnityMath
  import opened Element

  /** The value of a tower element's four fields. */
  datatype Placed = Placed(elementType: ElementType, horizontalOffset: real, index: int, height: real)

  /** Index -1 means "not placed yet". */
  const Unplaced: int := -1

  class TowerElementModel {
    /** Set when the element is built and never reassigned. */
    const ElementType: ElementType
    var HorizontalOffset: real
    var Index: int
    var ElementHeight: real

    /** The object initializer `new TowerElementModel { ... }`. */
    constructor (elementType: ElementType, horizontalOffset: real, index: int, elementHeight: real)
      ensures Value() == Placed(elementType, horizontalOffset, index, elementHeight)
    {
      ElementType := elementType;
      HorizontalOffset := horizontalOffset;
      Index := index;
      ElementHeight := elementHeight;
    }

    function Value(): Placed
      reads this
    {
      Placed(ElementType, HorizontalOffset, Index, ElementHeight)
    }
  }

  /**
   * TowerElementModel.Create: a fresh, unplaced element of the given type whose horizontal
   * jitter is drawn (draw `u`) from [-width/2, width/2]; its height is left at 0 for the caller.
   */
  method Create(elementType: ElementType, elementWidth: real, u: real) returns (m: TowerElementModel)
    requires 0.0 <= u <= 1.0
    ensures fresh(m)
    ensures m.ElementType == elementType
    ensures m.HorizontalOffset == Jitter(elementWidth, u)
    ensures -Abs(elementWidth) * 0.5 <= m.HorizontalOffset <= Abs(elementWidth) * 0.5
    ensures m.Index == Unplaced && m.ElementHeight == 0.0
  {
    var maxHorizontalOffset := elementWidth * 0.5;
    SymmetricRangeBound(maxHorizontalOffset, u);
    m := new TowerElementModel(elementType, RandomRange(-maxHorizontalOffset, maxHorizontalOffset, u), Unplaced, 0.0);
  }

  /** The horizontal jitter Create draws for an element of the given width. */
  function Jitter(elementWidth: real, u: real): real
    requires 0.0 <= u <= 1.0
  {
    RandomRange(-(elementWidth * 0.5), elementWidth * 0.5, u)
  }
}
