/**
 * The tower's layout arithmetic on values: cumulative heights, slot positions and the
 * height budget of Zones/DropZones/Tower/TowerContainerModel.cs, stated over the sequence of
 * the elements' field values (bottom element first).
 */
module TowerLayout {
  import opened UnityMath
  import opened Element
  import opened TowerElement

  /** The summed height of the first `i` elements (what the loop of GetElementPosition adds up). */
  function HeightBelow(s: seq<Placed>, i: nat): real
    requires i <= |s|
  {
    if i == 0 then 0.0 else HeightBelow(s, i - 1) + s[i - 1].height
  }

  /** CurrentHeight: the sum of all element heights. */
  function TotalHeight(s: seq<Placed>): real {
    HeightBelow(s, |s|)
  }

  /**
   * GetElementPosition(i, pivotY): x is the base x plus the element's jitter, y is the base y plus the
   * height of everything below plus `pivotY` of the element's own height, z is 0.
   */
  function SlotPosition(base: Vector2, s: seq<Placed>, i: nat, pivotY: real): Vector3
    requires i < |s|
  {
    Vector3(base.x + s[i].horizontalOffset, base.y + HeightBelow(s, i) + s[i].height * pivotY, 0.0)
  }

  /** CanAddElement's budget: always on an empty tower, else the room left must hold the new height. */
  predicate CanAdd(s: seq<Placed>, newHeight: real, availableHeight: real) {
    |s| == 0 || availableHeight - TotalHeight(s) >= newHeight
  }

  function RemoveAt(s: seq<Placed>, i: nat): seq<Placed>
    requires i < |s|
  {
    s[..i] + s[i + 1..]
  }

  /** Every element's Index is its position. */
  predicate Numbered(s: seq<Placed>) {
    forall i :: 0 <= i < |s| ==> s[i].index == i
  }

  /** The two sequences agree on everything but the Index fields. */
  predicate SameButIndex(a: seq<Placed>, b: seq<Placed>) {
    && |a| == |b|
    && forall i :: 0 <= i < |a| ==>
         a[i].elementType == b[i].elementType && a[i].horizontalOffset == b[i].horizontalOffset && a[i].height == b[i].height
  }

  /** Two numbered towers that agree on everything but the indexes are the same tower. */
  lemma NumberedAgreeing(a: seq<Placed>, b: seq<Placed>)
    requires SameButIndex(a, b) && Numbered(a) && Numbered(b)
    ensures a == b
  {
    assert forall i :: 0 <= i < |a| ==> a[i] == b[i];
  }

  /** Heights do not depend on the Index fields. */
  lemma {:induction false} HeightBelowIgnoresIndex(a: seq<Placed>, b: seq<Placed>, i: nat)
    requires SameButIndex(a, b) && i <= |a|
    ensures HeightBelow(a, i) == HeightBelow(b, i)
  {
    if i > 0 {
      HeightBelowIgnoresIndex(a, b, i - 1);
    }
  }

  /** Positions do not depend on the Index fields, so renumbering never moves an element. */
  lemma SlotPositionIgnoresIndex(base: Vector2, a: seq<Placed>, b: seq<Placed>, i: nat, pivotY: real)
    requires SameButIndex(a, b) && i < |a|
    ensures SlotPosition(base, a, i, pivotY) == SlotPosition(base, b, i, pivotY)
  {
    HeightBelowIgnoresIndex(a, b, i);
  }

  /** Appending leaves the height below every existing slot as it was. */
  lemma {:induction false} HeightBelowAppend(s: seq<Placed>, e: Placed, i: nat)
    requires i <= |s|
    ensures HeightBelow(s + [e], i) == HeightBelow(s, i)
  {
    if i > 0 {
      HeightBelowAppend(s, e, i - 1);
      assert (s + [e])[i - 1] == s[i - 1];
    }
  }

  /** Appending an element adds exactly its height to the tower's height. */
  lemma TotalHeightAppend(s: seq<Placed>, e: Placed)
    ensures TotalHeight(s + [e]) == TotalHeight(s) + e.height
  {
    HeightBelowAppend(s, e, |s|);
  }

  /** An append does not move any element already in the tower. */
  lemma AppendKeepsSlots(base: Vector2, s: seq<Placed>, e: Placed, j: nat, pivotY: real)
    requires j < |s|
    ensures SlotPosition(base, s + [e], j, pivotY) == SlotPosition(base, s, j, pivotY)
  {
    HeightBelowAppend(s, e, j);
  }

  /** Below the removed slot heights are unchanged; above it they lose the removed element's height. */
  lemma {:induction false} HeightBelowRemove(s: seq<Placed>, r: nat, j: nat)
    requires r < |s| && j < |s|
    ensures j <= r ==> HeightBelow(RemoveAt(s, r), j) == HeightBelow(s, j)
    ensures j > r ==> HeightBelow(RemoveAt(s, r), j) == HeightBelow(s, j + 1) - s[r].height
  {
    var t := RemoveAt(s, r);
    if j > 0 {
      HeightBelowRemove(s, r, j - 1);
      if j - 1 < r {
        assert t[j - 1] == s[j - 1];
      } else {
        assert t[j - 1] == s[j];
      }
    }
  }

  /**
   * The collapse after a removal: an element below the removed slot keeps its position; an element
   * above it takes the position it had one slot higher, lowered by the removed element's height.
   */
  lemma RemoveReflow(base: Vector2, s: seq<Placed>, r: nat, j: nat, pivotY: real)
    requires r < |s| && j < |s| - 1
    ensures j < r ==> SlotPosition(base, RemoveAt(s, r), j, pivotY) == SlotPosition(base, s, j, pivotY)
    ensures j >= r ==>
      var before := SlotPosition(base, s, j + 1, pivotY);
      SlotPosition(base, RemoveAt(s, r), j, pivotY) == Vector3(before.x, before.y - s[r].height, 0.0)
  {
    var t := RemoveAt(s, r);
    if j < r {
      assert t[j] == s[j];
      HeightBelowRemove(s, r, j);
    } else {
      assert t[j] == s[j + 1];
      HeightBelowRemove(s, r, j);
      if j == r {
        assert HeightBelow(s, j + 1) == HeightBelow(s, j) + s[r].height;
      }
    }
  }

  /** Removing an element takes exactly its height off the tower. */
  lemma TotalHeightRemove(s: seq<Placed>, r: nat)
    requires r < |s|
    ensures TotalHeight(RemoveAt(s, r)) == TotalHeight(s) - s[r].height
  {
    var t := RemoveAt(s, r);
    if r == |s| - 1 {
      assert t == s[..r];
      HeightBelowAppend(s[..r], s[r], r);
      assert s[..r] + [s[r]] == s;
    } else {
      var k := |t| - 1;
      HeightBelowRemove(s, r, k);
      assert t[k] == s[|s| - 1];
      assert TotalHeight(t) == HeightBelow(t, k) + s[|s| - 1].height;
      assert HeightBelow(s, |s|) == HeightBelow(s, k + 1) + s[|s| - 1].height;
      if k == r {
        assert HeightBelow(s, k + 1) == HeightBelow(s, k) + s[r].height;
      }
    }
  }

  /** Slots touch: the top of one slot is the bottom of the next. */
  lemma SlotsAreContiguous(base: Vector2, s: seq<Placed>, i: nat)
    requires i + 1 < |s|
    ensures SlotPosition(base, s, i, 1.0).y == SlotPosition(base, s, i + 1, 0.0).y
  {
  }

  /** With non-negative heights the slots go up the tower in index order. */
  lemma {:induction false} SlotsAscend(base: Vector2, s: seq<Placed>, i: nat, j: nat)
    requires i <= j < |s|
    requires forall k :: 0 <= k < |s| ==> s[k].height >= 0.0
    ensures SlotPosition(base, s, i, 0.0).y <= SlotPosition(base, s, j, 0.0).y
  {
    if i < j {
      SlotsAscend(base, s, i, j - 1);
    }
  }

  /**
   * The height budget is exact: on a non-empty tower whose zone top edge is `zoneTop`, CanAdd with the
   * room above the base holds if and only if the appended element's top stays within the zone.
   */
  lemma AppendFitsIff(base: Vector2, s: seq<Placed>, e: Placed, zoneTop: real)
    requires |s| > 0
    ensures CanAdd(s, e.height, zoneTop - base.y) <==> SlotPosition(base, s + [e], |s|, 1.0).y <= zoneTop
  {
    HeightBelowAppend(s, e, |s|);
  }

  /** The worked example: heights 10, 20, 30 on base (0, 0) give centres at 5, 20 and 45. */
  lemma CentresExample(t: ElementType)
    ensures var s := [Placed(t, 0.0, 0, 10.0), Placed(t, 0.0, 1, 20.0), Placed(t, 0.0, 2, 30.0)];
      && SlotPosition(Zero2, s, 0, 0.5).y == 5.0
      && SlotPosition(Zero2, s, 1, 0.5).y == 20.0
      && SlotPosition(Zero2, s, 2, 0.5).y == 45.0
  {
  }
}
