/**
 * What TowerContainerModel writes to and reads back from a TowerSaveData, stated on values:
 * the record of each element, the type lookup by ID and which records a load keeps.
 */
module TowerRecords {
  import opened Wrappers
  import opened UnityMath
  import opened Element
  import opened TowerElement
  import opened TowerSaveData

  /** The saved record of one element: its type's ID and its three numeric fields. */
  function Saved(p: Placed): SavedTowerElement {
    SavedTowerElement(p.elementType.ID, p.horizontalOffset, p.index, p.height)
  }

  /** The saved records of a tower, bottom first. */
  function Records(s: seq<Placed>): seq<SavedTowerElement> {
    seq(|s|, i requires 0 <= i < |s| => Saved(s[i]))
  }

  /** The whole save of a tower; the 2D base position is widened to 3D with z = 0. */
  function SaveOf(s: seq<Placed>, base: Vector2): TowerSaveData {
    TowerSaveData(Records(s), FromVector3(To3(base)))
  }

  /** The first available type whose ID equals `id` (null IDs compare equal), if there is one. */
  function FirstWithId(types: seq<ElementType>, id: Option<string>): (r: Option<ElementType>)
    ensures r.None? <==> forall t :: t in types ==> t.ID != id
    ensures r.Some? ==> exists i :: 0 <= i < |types| && types[i] == r.value && r.value.ID == id &&
                                    forall j :: 0 <= j < i ==> types[j].ID != id
  {
    if |types| == 0 then None
    else if types[0].ID == id then
      assert types[0] == types[0];
      Some(types[0])
    else
      var r := FirstWithId(types[1..], id);
      if r.Some? then
        var i :| 0 <= i < |types[1..]| && types[1..][i] == r.value && r.value.ID == id &&
                  forall j :: 0 <= j < i ==> types[1..][j].ID != id;
        assert types[i + 1] == r.value;
        assert forall j :: 0 <= j < i + 1 ==> types[j].ID != id by {
          forall j | 0 <= j < i + 1 ensures types[j].ID != id {
            if j > 0 { assert types[j] == types[1..][j - 1]; }
          }
        }
        r
      else
        r
  }

  /** `availableTypes.FirstOrDefault(t => t.ID == id)`: the first match, or the default (null) type. */
  function TypeFor(types: seq<ElementType>, id: Option<string>): ElementType {
    match FirstWithId(types, id)
    case Some(t) => t
    case None => DefaultElementType
  }

  /** A record is restored exactly when its ID is neither null nor empty and some available type has it. */
  predicate Restorable(types: seq<ElementType>, id: Option<string>): (b: bool)
    ensures b <==> !IsNullOrEmpty(id) && exists t :: t in types && t.ID == id
  {
    !IsNullOrEmpty(TypeFor(types, id).ID)
  }

  /** The element a restorable record loads as: the looked-up type and the record's fields verbatim. */
  function Restored(types: seq<ElementType>, r: SavedTowerElement): Placed {
    Placed(TypeFor(types, r.ElementTypeID), r.HorizontalOffset, r.Index, r.ElementHeight)
  }

  /** The tower LoadFromSaveData rebuilds: the restorable records in order, the others skipped. */
  function Loaded(records: seq<SavedTowerElement>, types: seq<ElementType>): seq<Placed> {
    if |records| == 0 then []
    else
      var last := records[|records| - 1];
      Loaded(records[..|records| - 1], types) + (if Restorable(types, last.ElementTypeID) then [Restored(types, last)] else [])
  }

  /** When every record is restorable, the load keeps them all, position for position, Index included. */
  lemma {:induction false} LoadedAllRestorable(records: seq<SavedTowerElement>, types: seq<ElementType>)
    requires forall i :: 0 <= i < |records| ==> Restorable(types, records[i].ElementTypeID)
    ensures |Loaded(records, types)| == |records|
    ensures forall i :: 0 <= i < |records| ==> Loaded(records, types)[i] == Restored(types, records[i])
  {
    if |records| > 0 {
      var front := records[..|records| - 1];
      LoadedAllRestorable(front, types);
    }
  }

  /** A load never invents elements: it has at most as many as there are records. */
  lemma {:induction false} LoadedNoLonger(records: seq<SavedTowerElement>, types: seq<ElementType>)
    ensures |Loaded(records, types)| <= |records|
  {
    if |records| > 0 {
      LoadedNoLonger(records[..|records| - 1], types);
    }
  }

  /** A tower element's type survives a save and load when the lookup by its ID finds that very type. */
  predicate Resolvable(types: seq<ElementType>, t: ElementType) {
    !IsNullOrEmpty(t.ID) && TypeFor(types, t.ID) == t
  }

  /**
   * Saving and loading back is the identity on the tower's elements and its base position, provided every
   * element's type is the one the lookup by ID returns.
   */
  lemma SaveLoadRoundTrip(s: seq<Placed>, base: Vector2, types: seq<ElementType>)
    requires forall i :: 0 <= i < |s| ==> Resolvable(types, s[i].elementType)
    ensures Loaded(SaveOf(s, base).Elements, types) == s
    ensures To2(SaveOf(s, base).BasePosition.ToVector3()) == base
  {
    var records := Records(s);
    LoadedAllRestorable(records, types);
  }

  /**
   * The load copies saved indexes verbatim: a skipped record leaves a gap, so the rebuilt list is not
   * numbered by position until something renumbers it.
   */
  lemma SkippedRecordLeavesGap(t: ElementType)
    requires !IsNullOrEmpty(t.ID)
    ensures var records := [SavedTowerElement(None, 0.0, 0, 10.0), SavedTowerElement(t.ID, 0.0, 1, 10.0)];
      Loaded(records, [t]) == [Placed(t, 0.0, 1, 10.0)]
  {
    var records := [SavedTowerElement(None, 0.0, 0, 10.0), SavedTowerElement(t.ID, 0.0, 1, 10.0)];
    assert records[..1] == [records[0]];
    assert records[..1][..0] == [];
    assert FirstWithId([t], t.ID) == Some(t);
    assert !Restorable([t], None);
    assert Loaded(records[..1], [t]) == [];
    assert Restored([t], records[1]) == Placed(t, 0.0, 1, 10.0);
  }
}
