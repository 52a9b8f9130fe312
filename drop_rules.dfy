/** The tower's drop rules (Zones/DropZones/DropRules/DropRules.cs), evaluated on the candidate's type and the tower. */
module DropRules {
  import opened Element
  import opened TowerElement
  import opened TowerLayout

  datatype DropRule = NonRestrictionTowerDropRule | OnlyOneColorTowerDropRule

  /** CanAddElement of one rule: the first admits everything; the second matches the bottom element's type ID. */
  predicate Allows(rule: DropRule, candidate: ElementType, tower: seq<Placed>) {
    match rule
    case NonRestrictionTowerDropRule => true
    case OnlyOneColorTowerDropRule => |tower| == 0 || candidate.ID == tower[0].elementType.ID
  }

  /** `dropRules.All(...)`: every rule of the list admits the candidate (true for no rules). */
  predicate AllAllow(rules: seq<DropRule>, candidate: ElementType, tower: seq<Placed>): (b: bool)
    ensures b <==> forall i :: 0 <= i < |rules| ==> Allows(rules[i], candidate, tower)
  {
    |rules| == 0 || (Allows(rules[0], candidate, tower) && AllAllow(rules[1..], candidate, tower))
  }

  /** The no-restriction rule is neutral: inserting it anywhere in a rule list never changes the verdict. */
  lemma NonRestrictionNeutral(rules: seq<DropRule>, k: nat, candidate: ElementType, tower: seq<Placed>)
    requires k <= |rules|
    ensures AllAllow(rules[..k] + [NonRestrictionTowerDropRule] + rules[k..], candidate, tower) ==
            AllAllow(rules, candidate, tower)
  {
    var longer := rules[..k] + [NonRestrictionTowerDropRule] + rules[k..];
    if AllAllow(rules, candidate, tower) {
      forall i | 0 <= i < |longer|
        ensures Allows(longer[i], candidate, tower)
      {
        if i < k {
          assert longer[i] == rules[i];
        } else if i > k {
          assert longer[i] == rules[i - 1];
        }
      }
    } else {
      var j :| 0 <= j < |rules| && !Allows(rules[j], candidate, tower);
      var i := if j < k then j else j + 1;
      assert longer[i] == rules[j];
    }
  }

  /** All elements share the bottom element's type ID. */
  predicate Monochrome(tower: seq<Placed>) {
    forall i :: 0 <= i < |tower| ==> tower[i].elementType.ID == tower[0].elementType.ID
  }

  /** Under the one-colour rule a monochrome tower stays monochrome when an admitted element is added. */
  lemma AdmittedAppendStaysMonochrome(rules: seq<DropRule>, tower: seq<Placed>, e: Placed)
    requires OnlyOneColorTowerDropRule in rules
    requires Monochrome(tower) && AllAllow(rules, e.elementType, tower)
    ensures Monochrome(tower + [e])
  {
    var k :| 0 <= k < |rules| && rules[k] == OnlyOneColorTowerDropRule;
    assert Allows(rules[k], e.elementType, tower);
  }

  /** The rule only rejects a candidate whose ID differs from the bottom element's. */
  lemma OneColorRejectsOnlyOtherIds(tower: seq<Placed>, candidate: ElementType)
    ensures !Allows(OnlyOneColorTowerDropRule, candidate, tower) <==>
      |tower| > 0 && candidate.ID != tower[0].elementType.ID
  {
  }

  /** Removing any element, and renumbering, keep a tower monochrome. */
  lemma RemovalStaysMonochrome(tower: seq<Placed>, r: nat, after: seq<Placed>)
    requires Monochrome(tower) && r < |tower|
    requires SameButIndex(after, RemoveAt(tower, r))
    ensures Monochrome(after)
  {
    var t := RemoveAt(tower, r);
    forall i | 0 <= i < |after|
      ensures after[i].elementType.ID == after[0].elementType.ID
    {
      assert t[i] == tower[if i < r then i else i + 1];
      assert t[0] == tower[if 0 < r then 0 else 1];
    }
  }
}
