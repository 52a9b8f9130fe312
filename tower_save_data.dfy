/** The durable record of a tower (Services/SaveLoadService/TowerSaveData.cs). */
module TowerSaveData {
  import opened Wrappers
  import opened UnityMath

  /** A Vector3 in serializable form. */
  datatype SerializableVector3 = SerializableVector3(x: real, y: real, z: real) {
    /** ToVector3 */
    function ToVector3(): (v: Vector3)
      ensures FromVector3(v) == this
    {
      Vector3(x, y, z)
    }
  }

  /** The SerializableVector3(Vector3) constructor: copies the three coordinates. */
  function FromVector3(v: Vector3): (s: SerializableVector3)
    ensures s.x == v.x && s.y == v.y && s.z == v.z
  {
    SerializableVector3(v.x, v.y, v.z)
  }

  /** Converting to the serializable form and back gives the same vector. */
  lemma VectorRoundTrip(v: Vector3)
    ensures FromVector3(v).ToVector3() == v
  {
  }

  /** One saved element: four plain fields, with nothing tying Index to the element's position in the list. */
  datatype SavedTowerElement = SavedTowerElement(ElementTypeID: Option<string>, HorizontalOffset: real, Index: int, ElementHeight: real)

  datatype TowerSaveData = TowerSaveData(Elements: seq<SavedTowerElement>, BasePosition: SerializableVector3)

  /** `new TowerSaveData()`: an empty element list and a zero base position. */
  function NewTowerSaveData(): (d: TowerSaveData)
    ensures d.Elements == []
    ensures d.BasePosition.ToVector3() == Zero3
  {
    TowerSaveData([], SerializableVector3(0.0, 0.0, 0.0))
  }
}
