/**
 * The scroll tray's model (Zones/ScrollArea/ScrollContainerModel.cs): the elements offered at the
 * bottom of the screen, seeded from the configured element types and element count.
 */
module ScrollArea {
  import opened Wrappers
  import opened Element
  import opened ElementModels

  /** How many elements type `i` of `k` types receives when `n` elements are shared out: the extras go first. */
  function Share(n: nat, k: nat, i: nat): (c: nat)
    requires k > 0
    ensures c == n / k || c == n / k + 1
  {
    n / k + (if i < n % k then 1 else 0)
  }

  /** `c` copies of `t`. */
  function Repeat(t: ElementType, c: nat): (s: seq<ElementType>)
    ensures |s| == c
    ensures forall j :: 0 <= j < c ==> s[j] == t
  {
    if c == 0 then [] else Repeat(t, c - 1) + [t]
  }

  /** The runs of the first `m` types, in type order, each as long as its share. */
  function Runs(types: seq<ElementType>, n: nat, m: nat): seq<ElementType>
    requires 0 < |types| && m <= |types|
  {
    if m == 0 then [] else Runs(types, n, m - 1) + Repeat(types[m - 1], Share(n, |types|, m - 1))
  }

  /** Where the run of type `i` starts: the shares of the types before it. */
  function RunStart(n: nat, k: nat, i: nat): nat
    requires k > 0
  {
    i * (n / k) + (if i < n % k then i else n % k)
  }

  /**
   * The types of the elements InitializeElements leaves in the tray, in order: nothing when the type
   * list is missing or empty or the count is not positive, otherwise the runs of all the types.
   */
  function Seeding(availableTypes: Option<seq<ElementType>>, bottomElementCount: int): seq<ElementType> {
    if availableTypes.None? || |availableTypes.value| == 0 || bottomElementCount <= 0 then []
    else Runs(availableTypes.value, bottomElementCount, |availableTypes.value|)
  }

  /** The element types of a list of scroll elements. */
  function TypesOf(elements: seq<ScrollElementModel>): (ts: seq<ElementType>)
    ensures |ts| == |elements|
    ensures forall j :: 0 <= j < |elements| ==> ts[j] == elements[j].ElementType
  {
    if |elements| == 0 then [] else TypesOf(elements[..|elements| - 1]) + [elements[|elements| - 1].ElementType]
  }

  /** Each run starts where the one before it ends. */
  lemma RunStartStep(n: nat, k: nat, i: nat)
    requires k > 0
    ensures RunStart(n, k, i + 1) == RunStart(n, k, i) + Share(n, k, i)
  {
    var q := n / k;
    assert (i + 1) * q == i * q + q;
  }

  /** The runs of the first `m` types end where the run of type `m` starts. */
  lemma {:induction false} RunsLength(types: seq<ElementType>, n: nat, m: nat)
    requires 0 < |types| && m <= |types|
    ensures |Runs(types, n, m)| == RunStart(n, |types|, m)
  {
    if m > 0 {
      RunsLength(types, n, m - 1);
      RunStartStep(n, |types|, m - 1);
    }
  }

  /** Inside the runs of the first `m` types, type `i` fills exactly its share, from its own start. */
  lemma {:induction false} RunsPlace(types: seq<ElementType>, n: nat, m: nat, i: nat, j: nat)
    requires 0 < |types| && i < m <= |types| && j < Share(n, |types|, i)
    ensures RunStart(n, |types|, i) + j < |Runs(types, n, m)|
    ensures Runs(types, n, m)[RunStart(n, |types|, i) + j] == types[i]
  {
    RunsLength(types, n, m);
    RunsLength(types, n, m - 1);
    if i < m - 1 {
      RunsPlace(types, n, m - 1, i, j);
    } else {
      assert RunStart(n, |types|, i) == |Runs(types, n, m - 1)|;
    }
  }

  /** The total number of seeded elements is the configured count whenever any are seeded. */
  lemma {:induction false} SeedingTotal(availableTypes: Option<seq<ElementType>>, bottomElementCount: int)
    ensures availableTypes.Some? && |availableTypes.value| > 0 && bottomElementCount > 0 ==>
      |Seeding(availableTypes, bottomElementCount)| == bottomElementCount
    ensures availableTypes.None? || |availableTypes.value| == 0 || bottomElementCount <= 0 ==>
      Seeding(availableTypes, bottomElementCount) == []
  {
    if availableTypes.Some? && |availableTypes.value| > 0 && bottomElementCount > 0 {
      var k := |availableTypes.value|;
      RunsLength(availableTypes.value, bottomElementCount, k);
      assert RunStart(bottomElementCount, k, k) == k * (bottomElementCount / k) + bottomElementCount % k;
    }
  }

  /**
   * The tray holds one contiguous run per type, in the configured order: type `i`'s run starts after
   * the runs of the types before it and is exactly its share long.
   */
  lemma {:induction false} SeedingRuns(types: seq<ElementType>, n: nat, i: nat, j: nat)
    requires 0 < n && i < |types| && j < Share(n, |types|, i)
    ensures RunStart(n, |types|, i) + j < |Seeding(Some(types), n)|
    ensures Seeding(Some(types), n)[RunStart(n, |types|, i) + j] == types[i]
    ensures RunStart(n, |types|, i) + Share(n, |types|, i) == RunStart(n, |types|, i + 1)
  {
    RunsPlace(types, n, |types|, i, j);
  }

  /** Shares never grow along the type list and differ by at most one: the extras go to the earliest types. */
  lemma {:induction false} SharesBalanced(n: nat, k: nat, i: nat, j: nat)
    requires k > 0 && i <= j < k
    ensures Share(n, k, j) <= Share(n, k, i) <= Share(n, k, j) + 1
    ensures Share(n, k, i) == Share(n, k, j) + 1 <==> i < n % k <= j
  {
  }

  class ScrollContainerModel {
    var ElementsScroll: seq<ScrollElementModel>

    constructor ()
      ensures ElementsScroll == []
    {
      ElementsScroll := [];
    }

    /** The inner loop of InitializeElements: `count` new elements of type `t` are appended. */
    method AddRun(t: ElementType, count: nat)
      modifies this
      ensures TypesOf(ElementsScroll) == old(TypesOf(ElementsScroll)) + Repeat(t, count)
      ensures forall j :: 0 <= j < |ElementsScroll| ==> fresh(ElementsScroll[j]) || j < old(|ElementsScroll|)
      ensures ElementsScroll[..old(|ElementsScroll|)] == old(ElementsScroll)
    {
      for j := 0 to count
        invariant TypesOf(ElementsScroll) == old(TypesOf(ElementsScroll)) + Repeat(t, j)
        invariant forall k :: 0 <= k < |ElementsScroll| ==> fresh(ElementsScroll[k]) || k < old(|ElementsScroll|)
        invariant ElementsScroll[..old(|ElementsScroll|)] == old(ElementsScroll)
      {
        var element := new ScrollElementModel(t);
        ghost var prev := ElementsScroll;
        ElementsScroll := ElementsScroll + [element];
        assert ElementsScroll[..|ElementsScroll| - 1] == prev;
        assert Repeat(t, j + 1) == Repeat(t, j) + [t];
      }
    }

    /**
     * InitializeElements: the tray is cleared, then, when there are types and a positive count, each
     * type in turn receives its share of the count as new elements of that type.
     */
    method InitializeElements(availableTypes: Option<seq<ElementType>>, bottomElementCount: int)
      modifies this
      ensures TypesOf(ElementsScroll) == Seeding(availableTypes, bottomElementCount)
      ensures forall j :: 0 <= j < |ElementsScroll| ==> fresh(ElementsScroll[j])
    {
      ElementsScroll := [];
      if availableTypes.None? || |availableTypes.value| == 0 || bottomElementCount <= 0 {
        return;
      }
      var types := availableTypes.value;
      var k := |types|;
      var perTypeCount := bottomElementCount / k;
      var remainder := bottomElementCount % k;
      for i := 0 to k
        invariant TypesOf(ElementsScroll) == Runs(types, bottomElementCount, i)
        invariant forall j :: 0 <= j < |ElementsScroll| ==> fresh(ElementsScroll[j])
      {
        var count := perTypeCount + (if i < remainder then 1 else 0);
        AddRun(types[i], count);
      }
    }
  }
}
