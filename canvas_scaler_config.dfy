/**
 * The canvas scaler's presets (Services/CanvasScalerService/CanvasScalerConfig.cs and AspectPreset.cs):
 * the preset whose target aspect ratio is closest to the screen's is chosen, with a fallback.
 */
module CanvasScaler {
  import opened Wrappers
  import opened UnityMath

  /** One preset: the aspect ratio it targets and the scaler settings and zone offsets it carries. */
  datatype AspectPreset = AspectPreset(
    PresetName: Option<string>,
    TargetAspect: real,
    CanvasMatchWidthOrHeight: real,
    ReferenceResolution: Vector2,
    ScrollOffsetY: real,
    TowerOffsetY: real,
    HoleOffsetY: real,
    UIElementsScale: real)

  /** float.MaxValue, the search's starting bound. */
  const FloatMax: real := 340282346638528859811704183484516925440.0

  /** How far a preset's target aspect is from the current aspect. */
  function Distance(p: AspectPreset, currentAspect: real): real {
    Abs(p.TargetAspect - currentAspect)
  }

  /** Preset `i` is the first of `presets` at the least distance, and that distance is below float.MaxValue. */
  predicate FirstClosest(presets: seq<AspectPreset>, currentAspect: real, i: int) {
    && 0 <= i < |presets|
    && Distance(presets[i], currentAspect) < FloatMax
    && (forall j :: 0 <= j < |presets| ==> Distance(presets[i], currentAspect) <= Distance(presets[j], currentAspect))
    && (forall j :: 0 <= j < i ==> Distance(presets[j], currentAspect) > Distance(presets[i], currentAspect))
  }

  /** The first closest preset is unique: the choice depends on nothing but the presets and the aspect. */
  lemma FirstClosestUnique(presets: seq<AspectPreset>, currentAspect: real, i: int, i': int)
    requires FirstClosest(presets, currentAspect, i) && FirstClosest(presets, currentAspect, i')
    ensures i == i'
  {
  }

  class CanvasScalerConfig {
    /** The presets, in the order they are configured; None when the array is null. */
    const Presets: Option<seq<AspectPreset>>
    /** The preset used when no preset applies. */
    const DefaultPreset: AspectPreset

    constructor (presets: Option<seq<AspectPreset>>, defaultPreset: AspectPreset)
      ensures Presets == presets && DefaultPreset == defaultPreset
    {
      Presets := presets;
      DefaultPreset := defaultPreset;
    }

    /**
     * GetClosestPreset: without presets the default preset; otherwise the first preset at the least
     * distance from the current aspect, a later preset at the same distance never replacing it. Only
     * distances below float.MaxValue can win, so when every preset is that far the default is kept.
     */
    method GetClosestPreset(currentAspect: real) returns (closest: AspectPreset)
      ensures Presets.None? || |Presets.value| == 0 ==> closest == DefaultPreset
      ensures Presets.Some? && (forall j :: 0 <= j < |Presets.value| ==> Distance(Presets.value[j], currentAspect) >= FloatMax) ==>
        closest == DefaultPreset
      ensures Presets.Some? && (exists j :: 0 <= j < |Presets.value| && Distance(Presets.value[j], currentAspect) < FloatMax) ==>
        exists i :: FirstClosest(Presets.value, currentAspect, i) && closest == Presets.value[i]
    {
      if Presets.None? || |Presets.value| == 0 {
        return DefaultPreset;
      }
      var presets := Presets.value;
      closest := DefaultPreset;
      var minDiff := FloatMax;
      ghost var best: int := -1;
      for k := 0 to |presets|
        invariant best == -1 ==> closest == DefaultPreset && minDiff == FloatMax
        invariant best == -1 ==> forall j :: 0 <= j < k ==> Distance(presets[j], currentAspect) >= FloatMax
        invariant best != -1 ==> 0 <= best < k && closest == presets[best] && minDiff == Distance(presets[best], currentAspect)
        invariant best != -1 ==> minDiff < FloatMax
        invariant best != -1 ==> forall j :: 0 <= j < k ==> minDiff <= Distance(presets[j], currentAspect)
        invariant best != -1 ==> forall j :: 0 <= j < best ==> Distance(presets[j], currentAspect) > minDiff
      {
        var diff := Abs(presets[k].TargetAspect - currentAspect);
        if diff < minDiff {
          minDiff := diff;
          closest := presets[k];
          best := k;
        }
      }
      if best != -1 {
        assert FirstClosest(presets, currentAspect, best);
      }
    }
  }
}
