/**
 * The element models a drop zone can be handed: a scroll-area element, a tower element, or the
 * model of the element being dragged, which remembers the model and view the drag started from.
 */
module ElementModels {
  import opened Wrappers
  import opened Element
  import opened TowerElement

  /** An element of the scroll area; its type is fixed. */
  class ScrollElementModel {
    const ElementType: ElementType

    constructor (elementType: ElementType)
      ensures ElementType == elementType
    {
      ElementType := elementType;
    }
  }

  /** The drag's own model: the dragged type and where the drag came from (both reset by each StartDrag). */
  class DraggingElementModel {
    var ElementType: ElementType
    var OriginalModel: Option<ElementModel>
    var OriginalView: ElementView?

    constructor ()
      ensures ElementType == DefaultElementType && OriginalModel == None && OriginalView == null
    {
      ElementType := DefaultElementType;
      OriginalModel := None;
      OriginalView := null;
    }
  }

  /** ElementModel and its three subclasses. */
  datatype ElementModel =
    | ScrollElement(scroll: ScrollElementModel)
    | TowerElement(tower: TowerElementModel)
    | DraggingElement(dragging: DraggingElementModel)

  /** elementModel.ElementType */
  function TypeOf(m: ElementModel): ElementType
    reads if m.DraggingElement? then {m.dragging} else {}
  {
    match m
    case ScrollElement(s) => s.ElementType
    case TowerElement(t) => t.ElementType
    case DraggingElement(d) => d.ElementType
  }

  /** `m is DraggingElementModel { OriginalModel: TowerElementModel }`: a drag that started on the tower. */
  predicate IsRedrag(m: ElementModel)
    reads if m.DraggingElement? then {m.dragging} else {}
  {
    m.DraggingElement? && m.dragging.OriginalModel.Some? && m.dragging.OriginalModel.value.TowerElement?
  }
}
