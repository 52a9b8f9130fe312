/**
 * Element types and the views that show an element on screen
 * (Element/ElementType.cs, Element/ElementView.cs).
 */
module Element {
  import opened Wrappers
  import opened UnityMath

  /** An opaque handle for a sprite asset. */
  type Sprite = nat

  /** An element type: its ID (a C# string, so possibly null) and its sprite (possibly null). */
  datatype ElementType = ElementType(ID: Option<string>, Sprite: Option<Sprite>)

  /** default(ElementType): null ID, null sprite. */
  const DefaultElementType := ElementType(None, None)

  /** string.IsNullOrEmpty */
  predicate IsNullOrEmpty(s: Option<string>) {
    s == None || s == Some("")
  }

  /** The RectTransform component of a view: the size of its rect and its pivot. */
  datatype RectTransform = RectTransform(size: Vector2, pivot: Vector2)

  /**
   * A pooled element view. Whether it carries a RectTransform is fixed by its prefab;
   * the rest is the transform and image state the game code writes.
   */
  class ElementView {
    const rectTransform: Option<RectTransform>
    var localPosition: Vector3
    var localScale: Vector3
    var sprite: Option<Sprite>
    var active: bool

    /** Object.Instantiate(prefab): a new view with the prefab's state. */
    constructor Clone(prefab: ElementView)
      ensures rectTransform == prefab.rectTransform
      ensures localPosition == prefab.localPosition && localScale == prefab.localScale
      ensures sprite == prefab.sprite && active == prefab.active
    {
      rectTransform := prefab.rectTransform;
      localPosition := prefab.localPosition;
      localScale := prefab.localScale;
      sprite := prefab.sprite;
      active := prefab.active;
    }

    /** The rendered width: rect width times the local x scale (0 without a RectTransform). */
    function Width(): real
      reads this
    {
      if rectTransform.Some? then rectTransform.value.size.x * localScale.x else 0.0
    }

    /** The rendered height: rect height times the local y scale (0 without a RectTransform). */
    function Height(): real
      reads this
    {
      if rectTransform.Some? then rectTransform.value.size.y * localScale.y else 0.0
    }

    /** The pivot's y fraction, as a position is asked for at that fraction of the slot's height. */
    function PivotY(): real
      requires rectTransform.Some?
    {
      rectTransform.value.pivot.y
    }
  }
}
