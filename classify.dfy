/** The two per-row classification rules of the map script. */
module Classify {
  import opened Wrappers
  import opened Text

  const Inconnu: string := "Inconnu"
  const Immeuble: string := "Immeuble"
  const LotIsole: string := "Lot isolé"
  const Ppe: string := "PPE"
  const Autre: string := "Autre"

  const TypeLabels: set<string> := {Inconnu, Immeuble, LotIsole, Ppe, Autre}

  /** The label of a coerced reference number. The ranges are inclusive and
      disjoint, so every reference gets exactly one label. */
  function ClassifyTypeFromRef(ref: Option<int>): (typeLabel: string)
    ensures typeLabel in TypeLabels
    ensures typeLabel == Inconnu <==> ref.None?
    ensures typeLabel == Immeuble <==> ref.Some? && 100000 <= ref.value <= 499000
    ensures typeLabel == LotIsole <==> ref.Some? && 500000 <= ref.value <= 599000
    ensures typeLabel == Ppe <==> ref.Some? && 800000 <= ref.value <= 950000
    ensures typeLabel == Autre <==>
      ref.Some? && !(100000 <= ref.value <= 499000) && !(500000 <= ref.value <= 599000)
      && !(800000 <= ref.value <= 950000)
  {
    if ref.None? then Inconnu
    else if 100000 <= ref.value <= 499000 then Immeuble
    else if 500000 <= ref.value <= 599000 then LotIsole
    else if 800000 <= ref.value <= 950000 then Ppe
    else Autre
  }

  const Nyon: string := "Nyon"
  const Montreux: string := "Montreux"
  const NyonManagers: set<string> := {"NIGGLI Lucy", "BENISTANT Audrey"}
  const MontreuxManagers: set<string> := {"CURCHOD Merry", "DE PREUX Joanna"}

  /** The regional group of a manager: four known names map to their office,
      any other name stands for itself, stripped of surrounding whitespace. */
  function ComputeGerantGroup(name: Option<string>): (group: Option<string>)
    ensures group.None? <==> name.None?
    ensures group.Some? ==> NoEdgeSpace(group.value)
    ensures name.Some? && Strip(name.value) in NyonManagers ==> group == Some(Nyon)
    ensures name.Some? && Strip(name.value) in MontreuxManagers ==> group == Some(Montreux)
    ensures name.Some? && Strip(name.value) !in NyonManagers && Strip(name.value) !in MontreuxManagers
      ==> group == Some(Strip(name.value))
  {
    if name.None? then None
    else
      GroupNamesAreFixedPoints();
      var n := Strip(name.value);
      if n in NyonManagers then Some(Nyon)
      else if n in MontreuxManagers then Some(Montreux)
      else Some(n)
  }

  /** The two office names are stripped and are not manager names. */
  lemma GroupNamesAreFixedPoints()
    ensures NoEdgeSpace(Nyon) && NoEdgeSpace(Montreux)
    ensures Nyon !in NyonManagers && Nyon !in MontreuxManagers
    ensures Montreux !in NyonManagers && Montreux !in MontreuxManagers
  {
  }

  /** Grouping a group name again changes nothing. */
  lemma GerantGroupIdempotent(name: string)
    ensures ComputeGerantGroup(ComputeGerantGroup(Some(name))) == ComputeGerantGroup(Some(name))
  {
    GroupNamesAreFixedPoints();
    var g := ComputeGerantGroup(Some(name)).value;
    assert Strip(g) == g;
  }
}
