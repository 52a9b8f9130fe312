/**
 * The element pool (Services/PoolService/ObjectPool.cs), specialised to the element views it pools.
 * The list `pool` holds every pooled view; its first `nextIndex` slots are the free list, taken from
 * and given back to at the boundary, and the slots after it hold the views handed out.
 *
 * The class keeps the code's Get, PreWarm and ReturnToPool as written, and beside them the corrected
 * PreWarmCorrected, GetCorrected and ReturnToPoolCorrected, which never hand out a view that is
 * already out; Shrink and Clear are shared.
 */
module Pool {
  import opened Wrappers
  import opened UnityMath
  import opened Element

  const One3 := Vector3(1.0, 1.0, 1.0)

  /** The state ResetObject leaves a view in: inactive, at the origin, unscaled, without a sprite. */
  predicate IsReset(v: ElementView)
    reads v
  {
    !v.active && v.localPosition == Zero3 && v.localScale == One3 && v.sprite == None
  }

  /** The views Clear and Shrink destroy among the slots [lo, hi) of `s`, in slot order: those present and inactive. */
  function Doomed(s: seq<ElementView?>, lo: nat, hi: nat): (d: seq<ElementView>)
    requires lo <= hi <= |s|
    reads s
    ensures forall k :: 0 <= k < |d| ==> d[k] in s[lo..hi] && !d[k].active
    ensures forall i :: lo <= i < hi && s[i] != null && !s[i].active ==> s[i] in d
  {
    if hi == lo then []
    else Doomed(s, lo, hi - 1) + (if s[hi - 1] != null && !s[hi - 1].active then [s[hi - 1] as ElementView] else [])
  }

  /** The views present in a list of slots. */
  function Present(s: seq<ElementView?>): set<ElementView> {
    set i | 0 <= i < |s| && s[i] != null :: s[i] as ElementView
  }

  /** A view is present in slots exactly when some slot holds it. */
  lemma PresentIff(s: seq<ElementView?>, x: ElementView)
    ensures x in Present(s) <==> x in s
  {
    if x in s {
      var i :| 0 <= i < |s| && s[i] == x;
      assert s[i] as ElementView in Present(s);
    }
  }

  /** An appended slot adds its view, if any. */
  lemma {:induction false} PresentAppend(s: seq<ElementView?>, x: ElementView?)
    ensures Present(s + [x]) == Present(s) + (if x == null then {} else {x as ElementView})
  {
    forall v: ElementView
      ensures v in Present(s + [x]) <==> v in Present(s) + (if x == null then {} else {x as ElementView})
    {
      PresentIff(s + [x], v);
      PresentIff(s, v);
    }
  }

  /** A slot put in front adds its view, if any. */
  lemma {:induction false} PresentPrepend(x: ElementView?, s: seq<ElementView?>)
    ensures Present([x] + s) == Present(s) + (if x == null then {} else {x as ElementView})
  {
    forall v: ElementView
      ensures v in Present([x] + s) <==> v in Present(s) + (if x == null then {} else {x as ElementView})
    {
      PresentIff([x] + s, v);
      PresentIff(s, v);
    }
  }

  /**
   * Swapping the view in slot `k` with the one at the boundary `n` and moving the boundary past it
   * leaves the same views present, and takes exactly that view out of the slots after the boundary
   * when no other slot holds it.
   */
  lemma {:induction false} SwapToBoundary(s: seq<ElementView?>, n: nat, k: nat, x: ElementView)
    requires n <= k < |s| && s[k] == x
    requires forall i :: 0 <= i < |s| && i != k ==> s[i] != x
    ensures Present(s[k := s[n]][n := x]) == Present(s)
    ensures Present(s[k := s[n]][n := x][n + 1..]) == Present(s[n..]) - {x}
  {
    var t := s[k := s[n]][n := x];
    forall v: ElementView
      ensures v in Present(t) <==> v in Present(s)
      ensures v in Present(t[n + 1..]) <==> v in Present(s[n..]) - {x}
    {
      PresentIff(t, v);
      PresentIff(s, v);
      PresentIff(t[n + 1..], v);
      PresentIff(s[n..], v);
      if v in s {
        var i :| 0 <= i < |s| && s[i] == v;
        assert t[if i == k then n else if i == n then k else i] == v;
      }
      if v in s[n..] && v != x {
        var i :| n <= i < |s| && s[i] == v;
        if i == n {
          assert t[n + 1..][k - n - 1] == v;
        } else {
          assert t[n + 1..][i - n - 1] == v;
        }
      }
      if v in t {
        var i :| 0 <= i < |t| && t[i] == v;
        assert s[if i == k then n else if i == n then k else i] == v;
      }
      if v in t[n + 1..] {
        var i :| 0 <= i < |t| - n - 1 && t[n + 1..][i] == v;
        assert t[i + n + 1] == v;
        assert s[n..][if i + n + 1 == k then 0 else i + 1] == v;
      }
    }
  }

  /** List.IndexOf: the first slot holding `x`. */
  method IndexOf(s: seq<ElementView?>, x: ElementView) returns (k: nat)
    requires x in s
    ensures k < |s| && s[k] == x && x !in s[..k]
  {
    k := 0;
    while s[k] != x
      invariant k < |s| && x in s[k..] && x !in s[..k]
      decreases |s| - k
    {
      k := k + 1;
    }
  }

  /** ResetObject: deactivate the view and put its transform and image back to their defaults. */
  method ResetObject(obj: ElementView)
    modifies obj
    ensures IsReset(obj)
  {
    obj.active := false;
    obj.localPosition := Zero3;
    obj.localScale := One3;
    obj.sprite := None;
  }

  class ObjectPool {
    /** The view every pooled view is instantiated from; null when the pool was built without one. */
    const prefab: ElementView?
    /** How many views Get instantiates when the free list is empty. */
    const expandBy: int
    var pool: seq<ElementView?>
    var nextIndex: int
    /** The views passed to Object.Destroy, in order. */
    var destroyed: seq<ElementView>

    /** 0 <= nextIndex <= pool.Count, and a pool without a prefab stays empty and expands by nothing. */
    ghost predicate Valid()
      reads this
    {
      0 <= nextIndex <= |pool| && (prefab == null ==> |pool| == 0 && expandBy == 0)
    }

    /** Every view in the pool. */
    function Elements(): set<ElementView>
      reads this
    {
      Present(pool)
    }

    /** The views handed out: those after the free list. */
    function Out(): set<ElementView>
      reads this
      requires 0 <= nextIndex <= |pool|
    {
      Present(pool[nextIndex..])
    }

    /** No view occupies two slots. */
    ghost predicate Distinct()
      reads this
    {
      forall i, j :: 0 <= i < j < |pool| && pool[i] != null ==> pool[i] != pool[j]
    }

    /**
     * The constructor: without a prefab it keeps an empty pool and expands by nothing; otherwise it
     * remembers `expandBy` and prewarms `initialSize` views.
     */
    constructor (prefab: ElementView?, initialSize: int, expandBy: int)
      ensures Valid() && this.prefab == prefab && destroyed == []
      ensures prefab == null ==> this.expandBy == 0 && pool == [] && nextIndex == 0
      ensures prefab != null ==> this.expandBy == expandBy
      ensures prefab != null ==> |pool| == nextIndex == (if initialSize > 0 then initialSize else 0)
      ensures forall i :: 0 <= i < |pool| ==> pool[i] != null && fresh(pool[i]) && IsReset(pool[i])
      ensures Distinct()
    {
      this.prefab := prefab;
      this.expandBy := if prefab == null then 0 else expandBy;
      pool := [];
      nextIndex := 0;
      destroyed := [];
      new;
      if prefab != null {
        PreWarm(initialSize);
      }
    }

    function AvailableCount(): (n: int)
      reads this
      ensures Valid() ==> 0 <= n <= |pool|
    {
      nextIndex
    }

    function TotalCount(): (n: int)
      reads this
      ensures Valid() ==> nextIndex <= n
    {
      |pool|
    }

    /**
     * PreWarm (as written): a non-positive count does nothing; otherwise `count` new reset views are
     * appended at the END of the list and the free-list cursor moves up by `count`.
     */
    method PreWarm(count: int)
      requires Valid() && (count <= 0 || prefab != null)
      modifies this`pool, this`nextIndex
      ensures Valid()
      ensures count <= 0 ==> pool == old(pool) && nextIndex == old(nextIndex)
      ensures count > 0 ==> |pool| == old(|pool|) + count && nextIndex == old(nextIndex) + count
      ensures pool[..old(|pool|)] == old(pool)
      ensures forall i :: old(|pool|) <= i < |pool| ==> pool[i] != null && fresh(pool[i]) && IsReset(pool[i])
      ensures forall i, j :: old(|pool|) <= i < j < |pool| ==> pool[i] != pool[j]
    {
      if count <= 0 {
        return;
      }
      for i := 0 to count
        invariant |pool| == old(|pool|) + i && nextIndex == old(nextIndex) + i
        invariant pool[..old(|pool|)] == old(pool)
        invariant forall k :: old(|pool|) <= k < |pool| ==> pool[k] != null && fresh(pool[k]) && IsReset(pool[k])
        invariant forall k, j :: old(|pool|) <= k < j < |pool| ==> pool[k] != pool[j]
      {
        var obj := new ElementView.Clone(prefab);
        ResetObject(obj);
        pool := pool + [obj];
        nextIndex := nextIndex + 1;
      }
    }

    /**
     * Get (as written): with a free view, the one just below the cursor is taken and activated; if its
     * slot is empty a new view is instantiated and appended instead. With no free view the pool
     * prewarms `expandBy` views and tries again, which does not terminate unless `expandBy` is positive.
     * As the prewarmed views go to the end of the list while the free list is its front, the retry can
     * hand out a view that is already out.
     */
    method Get() returns (obj: ElementView)
      requires Valid() && (nextIndex > 0 || expandBy > 0)
      modifies this`pool, this`nextIndex, Elements()
      ensures Valid() && destroyed == old(destroyed)
      ensures obj in Elements() && old(|pool|) <= |pool|
      ensures old(nextIndex) > 0 ==> nextIndex == old(nextIndex) - 1
      ensures old(nextIndex) > 0 && old(pool[nextIndex - 1]) != null ==>
        obj == old(pool[nextIndex - 1]) && pool == old(pool) && obj.active
      ensures old(nextIndex) > 0 && old(pool[nextIndex - 1]) == null ==>
        fresh(obj) && pool == old(pool) + [obj]
      ensures old(nextIndex) == 0 ==> nextIndex == expandBy - 1 && pool[..old(|pool|)] == old(pool)
      ensures old(nextIndex) == 0 && expandBy <= old(|pool|) && old(pool[expandBy - 1]) != null ==>
        obj == old(pool[expandBy - 1]) && obj in old(Out())
      ensures old(nextIndex) == 0 && expandBy > old(|pool|) ==> fresh(obj)
      ensures forall v :: v in old(Elements()) && v != obj ==> unchanged(v)
      ensures obj in old(Elements()) ==>
        obj.localPosition == old(obj.localPosition) && obj.localScale == old(obj.localScale) && obj.sprite == old(obj.sprite)
      decreases if nextIndex > 0 then 0 else 1
    {
      if nextIndex > 0 {
        var candidate := pool[nextIndex - 1];
        nextIndex := nextIndex - 1;
        if candidate != null {
          ghost var rest := pool[nextIndex + 1..];
          assert pool[nextIndex..] == [candidate] + rest;
          PresentPrepend(candidate, rest);
          PresentIff(rest, candidate);
          candidate.active := true;
          return candidate;
        }
      } else {
        PreWarm(expandBy);
        obj := Get();
        return;
      }
      var newObj := new ElementView.Clone(prefab);
      pool := pool + [newObj];
      assert pool[|pool| - 1] == newObj;
      return newObj;
    }

    /**
     * ReturnToPool (as written): null is ignored and a view the pool does not hold is destroyed.
     * A pooled view is reset and written into slot `nextIndex`, whichever view that slot held, and
     * the cursor moves up; with no slot at the cursor the write throws after the reset.
     */
    method ReturnToPool(obj: ElementView?) returns (error: Option<Exception>)
      requires Valid()
      modifies this`pool, this`nextIndex, this`destroyed, obj
      ensures Valid()
      ensures obj == null ==> error == None && pool == old(pool) && nextIndex == old(nextIndex) && destroyed == old(destroyed)
      ensures obj != null && obj !in old(pool) ==>
        error == None && pool == old(pool) && nextIndex == old(nextIndex) && destroyed == old(destroyed) + [obj]
      ensures obj != null && obj !in old(pool) ==> unchanged(obj)
      ensures obj != null && obj in old(pool) ==> IsReset(obj) && destroyed == old(destroyed)
      ensures obj != null && obj in old(pool) && old(nextIndex) < old(|pool|) ==>
        error == None && pool == old(pool)[old(nextIndex) := obj] && nextIndex == old(nextIndex) + 1
      ensures obj != null && obj in old(pool) && old(nextIndex) == old(|pool|) ==>
        error == Some(IndexOutOfRange) && pool == old(pool) && nextIndex == old(nextIndex)
    {
      if obj == null {
        return None;
      }
      if obj !in pool {
        destroyed := destroyed + [obj];
        return None;
      }
      ResetObject(obj);
      if nextIndex >= |pool| {
        return Some(IndexOutOfRange);
      }
      pool := pool[nextIndex := obj];
      nextIndex := nextIndex + 1;
      return None;
    }

    /** The destroying loop of Clear and Shrink: the present, inactive views in slots [from, to) are destroyed. */
    method DestroyInactive(from: nat, to: nat)
      requires from <= to <= |pool|
      modifies this`destroyed
      ensures destroyed == old(destroyed) + Doomed(pool, from, to)
    {
      var doomed: seq<ElementView> := [];
      for i := from to to
        invariant doomed == Doomed(pool, from, i)
      {
        var v := pool[i];
        var step: seq<ElementView> := if v != null && !v.active then [v] else [];
        doomed := doomed + step;
      }
      destroyed := destroyed + doomed;
    }

    /**
     * Clear: the present, inactive views of the free list are destroyed, then the list is emptied
     * and the cursor reset; views that are out are forgotten.
     */
    method Clear()
      requires Valid()
      modifies this`pool, this`nextIndex, this`destroyed
      ensures Valid() && Distinct()
      ensures pool == [] && nextIndex == 0 && Out() == {}
      ensures destroyed == old(destroyed) + Doomed(old(pool), 0, old(nextIndex))
    {
      DestroyInactive(0, nextIndex);
      pool := [];
      nextIndex := 0;
    }

    /**
     * Shrink: a target below zero or at least the free count does nothing. Otherwise the free slots
     * from the target up are dropped, their present inactive views destroyed, and the free count
     * becomes the target; the views that are out keep their order and stay out.
     */
    method Shrink(targetSize: int)
      requires Valid()
      modifies this`pool, this`nextIndex, this`destroyed
      ensures Valid()
      ensures targetSize < 0 || targetSize >= old(nextIndex) ==>
        pool == old(pool) && nextIndex == old(nextIndex) && destroyed == old(destroyed)
      ensures 0 <= targetSize < old(nextIndex) ==>
        && nextIndex == targetSize
        && pool == old(pool[..targetSize]) + old(pool[nextIndex..])
        && destroyed == old(destroyed) + Doomed(old(pool), targetSize, old(nextIndex))
      ensures Out() == old(Out())
      ensures old(Distinct()) ==> Distinct()
    {
      if targetSize < 0 || targetSize >= nextIndex {
        return;
      }
      DestroyInactive(targetSize, nextIndex);
      ghost var oldPool, oldNext := pool, nextIndex;
      pool := pool[..targetSize] + pool[nextIndex..];
      nextIndex := targetSize;
      assert forall i :: nextIndex <= i < |pool| ==> pool[i] == oldPool[i + oldNext - targetSize];
      assert forall i :: oldNext <= i < |oldPool| ==> oldPool[i] == pool[i - oldNext + targetSize];
    }

    /**
     * PreWarm, corrected: the new views are inserted at the free-list boundary rather than appended,
     * so they are free and the views that are out stay out.
     */
    method PreWarmCorrected(count: int)
      requires Valid() && (count <= 0 || prefab != null)
      modifies this`pool, this`nextIndex
      ensures Valid()
      ensures count <= 0 ==> pool == old(pool) && nextIndex == old(nextIndex)
      ensures count > 0 ==> |pool| == old(|pool|) + count && nextIndex == old(nextIndex) + count
      ensures pool[..old(nextIndex)] == old(pool[..nextIndex]) && pool[nextIndex..] == old(pool[nextIndex..])
      ensures forall i :: old(nextIndex) <= i < nextIndex ==> pool[i] != null && fresh(pool[i]) && IsReset(pool[i])
      ensures Out() == old(Out())
      ensures old(Distinct()) ==> Distinct()
    {
      if count <= 0 {
        return;
      }
      for i := 0 to count
        invariant Valid()
        invariant |pool| == old(|pool|) + i && nextIndex == old(nextIndex) + i
        invariant pool[..old(nextIndex)] == old(pool[..nextIndex]) && pool[nextIndex..] == old(pool[nextIndex..])
        invariant forall k :: old(nextIndex) <= k < nextIndex ==> pool[k] != null && fresh(pool[k]) && IsReset(pool[k])
        invariant old(Distinct()) ==> Distinct()
      {
        InsertFresh();
      }
    }

    /** One pass of PreWarmCorrected: a fresh, reset copy of the prefab goes in at the boundary, on the free side. */
    method InsertFresh()
      requires Valid() && prefab != null
      modifies this`pool, this`nextIndex
      ensures Valid()
      ensures nextIndex == old(nextIndex) + 1 && |pool| == old(|pool|) + 1
      ensures pool[..old(nextIndex)] == old(pool[..nextIndex]) && pool[nextIndex..] == old(pool[nextIndex..])
      ensures pool[old(nextIndex)] != null && fresh(pool[old(nextIndex)]) && IsReset(pool[old(nextIndex)])
      ensures old(Distinct()) ==> Distinct()
    {
      var obj := new ElementView.Clone(prefab);
      ResetObject(obj);
      pool := pool[..nextIndex] + [obj] + pool[nextIndex..];
      nextIndex := nextIndex + 1;
    }

    /**
     * Get, corrected: as Get, but an empty free list is refilled with PreWarmCorrected, so the view
     * handed out is never one that is already out, and it becomes out.
     */
    method GetCorrected() returns (obj: ElementView)
      requires Valid() && Distinct() && (nextIndex > 0 || expandBy > 0)
      modifies this`pool, this`nextIndex, Elements()
      ensures Valid() && Distinct() && destroyed == old(destroyed)
      ensures obj !in old(Out()) && Out() == old(Out()) + {obj}
      ensures old(nextIndex) > 0 ==> nextIndex == old(nextIndex) - 1
      ensures old(nextIndex) > 0 && old(pool[nextIndex - 1]) != null ==>
        obj == old(pool[nextIndex - 1]) && pool == old(pool) && obj.active
      ensures old(nextIndex) == 0 ==> fresh(obj) && obj.active
      ensures forall v :: v in old(Elements()) && v != obj ==> unchanged(v)
      ensures obj in old(Elements()) ==>
        obj.localPosition == old(obj.localPosition) && obj.localScale == old(obj.localScale) && obj.sprite == old(obj.sprite)
      decreases if nextIndex > 0 then 0 else 1
    {
      if nextIndex > 0 {
        var candidate := pool[nextIndex - 1];
        nextIndex := nextIndex - 1;
        if candidate != null {
          ghost var rest := pool[nextIndex + 1..];
          assert pool[nextIndex..] == [candidate] + rest;
          PresentPrepend(candidate, rest);
          PresentIff(rest, candidate);
          candidate.active := true;
          return candidate;
        }
      } else {
        PreWarmCorrected(expandBy);
        obj := GetCorrected();
        return;
      }
      var newObj := new ElementView.Clone(prefab);
      ghost var tail := pool[nextIndex + 1..];
      assert pool[nextIndex..] == [null] + tail;
      PresentAppend([null] + tail, newObj);
      PresentAppend([null], null);
      pool := pool + [newObj];
      assert pool[nextIndex..] == [null] + tail + [newObj];
      return newObj;
    }

    /**
     * ReturnToPool, corrected: as ReturnToPool, but a view that is out swaps slots with the view at the
     * cursor before the cursor moves up, and a view that is already free is left alone; so the view
     * returned is no longer out and every other view keeps its place in or out of the free list.
     */
    method ReturnToPoolCorrected(obj: ElementView?)
      requires Valid() && Distinct()
      modifies this`pool, this`nextIndex, this`destroyed, obj
      ensures Valid() && Distinct() && Elements() == old(Elements())
      ensures obj == null || obj !in old(Out()) ==> pool == old(pool) && nextIndex == old(nextIndex)
      ensures obj == null || obj in old(pool) ==> destroyed == old(destroyed)
      ensures obj != null && obj !in old(pool) ==> destroyed == old(destroyed) + [obj]
      ensures obj != null && obj in old(Out()) ==>
        IsReset(obj) && nextIndex == old(nextIndex) + 1 && Out() == old(Out()) - {obj}
      ensures obj != null && obj !in old(Out()) ==> unchanged(obj)
    {
      if obj == null {
        return;
      }
      if obj !in pool {
        destroyed := destroyed + [obj];
        return;
      }
      var k := IndexOf(pool, obj);
      if k < nextIndex {
        return;
      }
      ResetObject(obj);
      SwapToBoundary(pool, nextIndex, k, obj);
      pool := pool[k := pool[nextIndex]][nextIndex := obj];
      nextIndex := nextIndex + 1;
    }
  }

  /**
   * Get as written hands out one view twice: a pool of one view that expands by one gives its view
   * to the first Get, and the second Get, finding the free list empty, prewarms a new view at the end
   * of the list and then takes the first slot again.
   */
  method GetHandsOutTwice(prefab: ElementView) returns (first: ElementView, second: ElementView)
    ensures first == second
  {
    var p := new ObjectPool(prefab, 1, 1);
    first := p.Get();
    second := p.Get();
  }

  /** With GetCorrected, the same two calls on the same pool hand out two different views. */
  method GetCorrectedHandsOutTwoViews(prefab: ElementView) returns (first: ElementView, second: ElementView)
    ensures first != second
  {
    var p := new ObjectPool(prefab, 1, 1);
    first := p.GetCorrected();
    second := p.GetCorrected();
  }

  /**
   * ReturnToPool as written loses a view returned out of order: with two views handed out, returning
   * the one taken first overwrites the slot of the other, which is then destroyed when it comes back,
   * and the pool is left holding the first view twice.
   */
  method ReturnOutOfOrderLosesView(prefab: ElementView) returns (p: ObjectPool, taken1: ElementView, taken2: ElementView)
    ensures taken1 != taken2 && p.destroyed == [taken2] && p.pool == [taken1, taken1]
  {
    p := new ObjectPool(prefab, 2, 5);
    taken1 := p.Get();
    taken2 := p.Get();
    var e1 := p.ReturnToPool(taken1);
    var e2 := p.ReturnToPool(taken2);
  }

  /** With ReturnToPoolCorrected, the same returns destroy nothing and leave no view out. */
  method ReturnOutOfOrderCorrected(prefab: ElementView) returns (p: ObjectPool, taken1: ElementView, taken2: ElementView)
    ensures p.Valid() && taken1 != taken2 && p.destroyed == [] && p.Out() == {} && p.Elements() == {taken1, taken2}
  {
    p := new ObjectPool(prefab, 2, 5);
    taken1 := p.GetCorrected();
    taken2 := p.GetCorrected();
    p.ReturnToPoolCorrected(taken1);
    p.ReturnToPoolCorrected(taken2);
  }

  /** A pool prewarmed with two views, after one Get and its return, has two views available again. */
  method GetAndReturnAvailable(prefab: ElementView) returns (taken: ElementView, available: int)
    ensures available == 2 && !taken.active
  {
    var p := new ObjectPool(prefab, 2, 5);
    taken := p.Get();
    var e := p.ReturnToPool(taken);
    available := p.AvailableCount();
  }
}
