/** Preprocessing of the sheet and the sidebar filters of the map script. */
module Selection {
  import opened Wrappers
  import opened Seqs
  import opened Text
  import opened Portfolio
  import opened Classify

  /** The option every filter widget adds in front of the real options. */
  const Tout: string := "Tout"

  /** The list a filter widget yields: all options when "Tout" is ticked,
      otherwise the ticked entries without "Tout". */
  function ChooseSelection(options: seq<string>, ticked: seq<string>): (chosen: seq<string>)
    ensures Tout in ticked ==> chosen == options
    ensures Tout !in ticked ==> chosen == ticked
    ensures Tout in chosen ==> Tout in options
  {
    if Tout in ticked then options
    else
      FilterKeepsAll(ticked, x => x != Tout);
      Filter(ticked, x => x != Tout)
  }

  const SupportUser: string := "REM4you (Support User)"

  predicate IsSupportUser(raw: SheetRow)
  {
    Strip(AsText(raw.gerant)) == SupportUser
  }

  /** Drops the rows of the support account, keeping the others in order. */
  function RemoveSupportUser(rows: seq<SheetRow>): (kept: seq<SheetRow>)
    ensures IsSubseq(kept, rows)
    ensures forall r | r in rows :: multiset(kept)[r] == if IsSupportUser(r) then 0 else multiset(rows)[r]
    ensures forall i :: 0 <= i < |kept| ==> !IsSupportUser(kept[i])
  {
    var keep := (r: SheetRow) => !IsSupportUser(r);
    FilterIsSubseq(rows, keep);
    FilterCounts(rows, keep);
    Filter(rows, keep)
  }

  /** The derived columns of one row: the text of Gérant and its group when the
      sheet has a Gérant column, the coerced reference and its Type when it has
      a Référence column. */
  function PrepareRow(raw: SheetRow, hasGerant: bool, hasReference: bool): (row: Row)
    ensures hasGerant ==> row.gerant == Some(AsText(raw.gerant))
    ensures row.gerantGroup == ComputeGerantGroup(row.gerant)
    ensures hasGerant ==> row.gerantGroup.Some? && NoEdgeSpace(row.gerantGroup.value)
    ensures !hasGerant ==> row.gerant.None? && row.gerantGroup.None?
    ensures hasReference ==> row.reference == ParseReference(AsText(raw.reference))
    ensures row.typ.Some? <==> hasReference
    ensures hasReference ==> row.typ == Some(ClassifyTypeFromRef(row.reference))
    ensures hasReference ==> row.typ.value in TypeLabels
    ensures !hasReference ==> row.reference.None?
    ensures row.designation == raw.designation && row.npa == raw.npa
    ensures row.lieu == raw.lieu && row.canton == raw.canton
    ensures row.latitude == raw.latitude && row.longitude == raw.longitude
    ensures row.adresse.None? && row.color.None?
  {
    var gerant := if hasGerant then Some(AsText(raw.gerant)) else None;
    var reference := if hasReference then ParseReference(AsText(raw.reference)) else None;
    Row(gerant, ComputeGerantGroup(gerant),
        reference, if hasReference then Some(ClassifyTypeFromRef(reference)) else None,
        raw.designation, raw.npa, raw.lieu, raw.canton,
        None, raw.latitude, raw.longitude, None)
  }

  /** The preprocessed table: support rows removed (when there is a Gérant
      column), then every remaining row given its derived columns. */
  function Preprocess(rows: seq<SheetRow>, hasGerant: bool, hasReference: bool): (out: seq<Row>)
    ensures !hasGerant ==> |out| == |rows|
    ensures hasGerant ==> |out| == |RemoveSupportUser(rows)|
    ensures forall i :: 0 <= i < |out| ==>
      out[i] == PrepareRow(if hasGerant then RemoveSupportUser(rows)[i] else rows[i], hasGerant, hasReference)
    ensures hasGerant ==> forall i :: 0 <= i < |out| ==> Strip(AsText(out[i].gerant)) != SupportUser
  {
    if hasGerant then
      var kept := RemoveSupportUser(rows);
      var out := PrepareAll(kept, true, hasReference);
      SupportUserStaysOut(kept, out, hasReference);
      out
    else
      PrepareAll(rows, false, hasReference)
  }

  /** Every row given its derived columns, in order. */
  function PrepareAll(rows: seq<SheetRow>, hasGerant: bool, hasReference: bool): (out: seq<Row>)
    ensures |out| == |rows|
    ensures forall i :: 0 <= i < |rows| ==> out[i] == PrepareRow(rows[i], hasGerant, hasReference)
  {
    seq(|rows|, i requires 0 <= i < |rows| => PrepareRow(rows[i], hasGerant, hasReference))
  }

  lemma SupportUserStaysOut(kept: seq<SheetRow>, out: seq<Row>, hasReference: bool)
    requires forall i :: 0 <= i < |kept| ==> !IsSupportUser(kept[i])
    requires |out| == |kept|
    requires forall i :: 0 <= i < |out| ==> out[i] == PrepareRow(kept[i], true, hasReference)
    ensures forall i :: 0 <= i < |out| ==> Strip(AsText(out[i].gerant)) != SupportUser
  {
    forall i | 0 <= i < |out| ensures Strip(AsText(out[i].gerant)) != SupportUser {
      assert out[i].gerant == Some(AsText(kept[i].gerant));
    }
  }

  /** The non-null values of a column (`dropna()`). */
  function Present(values: seq<Option<string>>): (texts: seq<string>)
    ensures forall x | x in texts :: Some(x) in values
    ensures forall i :: 0 <= i < |values| && values[i].Some? ==> values[i].value in texts
    decreases |values|
  {
    if values == [] then []
    else
      assert values == [values[0]] + values[1..];
      var rest := Present(values[1..]);
      if values[0].Some? then [values[0].value] + rest else rest
  }

  /** The options of a filter widget: the distinct non-null values of the
      column, sorted. */
  function FilterOptions(values: seq<Option<string>>): (options: seq<string>)
    ensures StrictlySorted(options) && NoDuplicates(options)
    ensures forall x | x in options :: Some(x) in values
    ensures forall i :: 0 <= i < |values| && values[i].Some? ==> values[i].value in options
  {
    var options := SortedDistinct(Present(values));
    StrictlySortedNoDuplicates(options);
    options
  }

  function GerantColumn(rows: seq<Row>): seq<Option<string>>
  {
    seq(|rows|, i requires 0 <= i < |rows| => rows[i].gerant)
  }

  function TypeColumn(rows: seq<Row>): seq<Option<string>>
  {
    seq(|rows|, i requires 0 <= i < |rows| => rows[i].typ)
  }

  /** A row's Gérant is among the chosen managers; `None` (no Gérant column)
      lets every row through. */
  predicate GerantChosen(r: Row, gerantSel: Option<seq<string>>)
  {
    gerantSel.None? || AsText(r.gerant) in gerantSel.value
  }

  /** A row's Type is among the chosen types; `None` lets every row through. */
  predicate TypeChosen(r: Row, typeSel: Option<seq<string>>)
  {
    typeSel.None? || AsText(r.typ) in typeSel.value
  }

  predicate PassesFilters(r: Row, gerantSel: Option<seq<string>>, typeSel: Option<seq<string>>)
  {
    GerantChosen(r, gerantSel) && TypeChosen(r, typeSel)
  }

  /** The filtered table: first the manager filter, then the type filter. */
  function ApplyFilters(rows: seq<Row>, gerantSel: Option<seq<string>>, typeSel: Option<seq<string>>)
    : (out: seq<Row>)
    ensures IsSubseq(out, rows)
    ensures forall r | r in rows ::
      multiset(out)[r] == if PassesFilters(r, gerantSel, typeSel) then multiset(rows)[r] else 0
    ensures forall i :: 0 <= i < |out| ==> PassesFilters(out[i], gerantSel, typeSel)
  {
    var byGerant := Filter(rows, (r: Row) => GerantChosen(r, gerantSel));
    var byType := Filter(byGerant, (r: Row) => TypeChosen(r, typeSel));
    FilterTwice(rows, byGerant, byType, gerantSel, typeSel);
    byType
  }

  lemma FilterTwice(rows: seq<Row>, byGerant: seq<Row>, byType: seq<Row>,
                    gerantSel: Option<seq<string>>, typeSel: Option<seq<string>>)
    requires byGerant == Filter(rows, (r: Row) => GerantChosen(r, gerantSel))
    requires byType == Filter(byGerant, (r: Row) => TypeChosen(r, typeSel))
    ensures IsSubseq(byType, rows)
    ensures forall r | r in rows ::
      multiset(byType)[r] == if PassesFilters(r, gerantSel, typeSel) then multiset(rows)[r] else 0
    ensures forall i :: 0 <= i < |byType| ==> PassesFilters(byType[i], gerantSel, typeSel)
  {
    FilterIsSubseq(rows, (r: Row) => GerantChosen(r, gerantSel));
    FilterIsSubseq(byGerant, (r: Row) => TypeChosen(r, typeSel));
    FilterCounts(rows, (r: Row) => GerantChosen(r, gerantSel));
    FilterCounts(byGerant, (r: Row) => TypeChosen(r, typeSel));
    IsSubseqTransitive(byType, byGerant, rows);
    forall r | r in rows
      ensures multiset(byType)[r] == if PassesFilters(r, gerantSel, typeSel) then multiset(rows)[r] else 0
    {
      if r !in byGerant {
        assert r !in byType;
      }
    }
    forall i | 0 <= i < |byType| ensures PassesFilters(byType[i], gerantSel, typeSel) {
      assert byType[i] in byType;
    }
  }

  /** The two sidebar selections: a filter exists only when its column does;
      it offers the column's sorted distinct values and yields what
      `ChooseSelection` makes of the ticked entries. */
  function SidebarSelections(rows: seq<Row>, hasGerant: bool, hasType: bool,
                             gerantTicked: seq<string>, typeTicked: seq<string>)
    : (sels: (Option<seq<string>>, Option<seq<string>>))
    ensures sels.0.Some? <==> hasGerant
    ensures sels.1.Some? <==> hasType
    ensures hasGerant && Tout in gerantTicked ==>
      forall i :: 0 <= i < |rows| && rows[i].gerant.Some? ==> rows[i].gerant.value in sels.0.value
    ensures hasType && Tout in typeTicked ==>
      forall i :: 0 <= i < |rows| && rows[i].typ.Some? ==> rows[i].typ.value in sels.1.value
    ensures hasGerant && Tout in gerantTicked ==> sels.0.value == FilterOptions(GerantColumn(rows))
    ensures hasType && Tout in typeTicked ==> sels.1.value == FilterOptions(TypeColumn(rows))
    ensures hasGerant && Tout !in gerantTicked ==> sels.0.value == gerantTicked
    ensures hasType && Tout !in typeTicked ==> sels.1.value == typeTicked
  {
    var gerantOptions := FilterOptions(GerantColumn(rows));
    var typeOptions := FilterOptions(TypeColumn(rows));
    assert forall i :: 0 <= i < |rows| ==> GerantColumn(rows)[i] == rows[i].gerant;
    assert forall i :: 0 <= i < |rows| ==> TypeColumn(rows)[i] == rows[i].typ;
    (if hasGerant then Some(ChooseSelection(gerantOptions, gerantTicked)) else None,
     if hasType then Some(ChooseSelection(typeOptions, typeTicked)) else None)
  }

  /** With "Tout" ticked in both filters, as when the page opens, the filtered
      table is the whole preprocessed table (every row has a Gérant text when the
      column exists, and a Type when that column exists). */
  lemma ToutKeepsEveryRow(rows: seq<Row>, hasGerant: bool, hasType: bool)
    requires hasGerant ==> forall i :: 0 <= i < |rows| ==> rows[i].gerant.Some?
    requires hasType ==> forall i :: 0 <= i < |rows| ==> rows[i].typ.Some?
    ensures var sels := SidebarSelections(rows, hasGerant, hasType, [Tout], [Tout]);
      ApplyFilters(rows, sels.0, sels.1) == rows
  {
    var sels := SidebarSelections(rows, hasGerant, hasType, [Tout], [Tout]);
    var byGerant := (r: Row) => GerantChosen(r, sels.0);
    var byType := (r: Row) => TypeChosen(r, sels.1);
    assert forall i :: 0 <= i < |rows| ==> byGerant(rows[i]);
    FilterKeepsAll(rows, byGerant);
    assert forall i :: 0 <= i < |rows| ==> byType(rows[i]);
    FilterKeepsAll(rows, byType);
  }
}
