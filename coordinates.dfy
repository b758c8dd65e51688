/** Where the rows' coordinates come from: coordinate CSVs merged on the
    address or the reference, and the geocoder for what is still missing. */
module Coordinates {
  import opened Wrappers
  import opened Seqs
  import opened Portfolio

  /** A (latitude, longitude) pair as a CSV row or the geocoder yields it;
      either half may be null. */
  type CoordPair = (Option<Coord>, Option<Coord>)

  // ------------------------------------------------ coordinate CSV merge

  /** The column a coordinate CSV is joined on. */
  datatype JoinKind = ByAdresse | ByReference

  /** The value of the join column in one row. A null value is a key too, as
      in a pandas merge, where null keys match each other. */
  datatype JoinKey = AdresseKey(adresse: Option<string>) | ReferenceKey(reference: Option<int>)

  const AdresseColumns: set<string> := {"adresse", "latitude", "longitude"}
  const ReferenceColumns: set<string> := {"Référence", "latitude", "longitude"}

  /** Which join a coordinate CSV allows: on the address when it has the
      address columns, on the reference only when it lacks them, has the
      reference columns and the table has a Référence column. */
  function ChooseJoin(csvColumns: set<string>, frameHasReference: bool): (kind: Option<JoinKind>)
    ensures kind == Some(ByAdresse) <==> AdresseColumns <= csvColumns
    ensures kind == Some(ByReference) <==>
      !(AdresseColumns <= csvColumns) && ReferenceColumns <= csvColumns && frameHasReference
  {
    if AdresseColumns <= csvColumns then Some(ByAdresse)
    else if ReferenceColumns <= csvColumns && frameHasReference then Some(ByReference)
    else None
  }

  function KeyOf(r: Row, kind: JoinKind): JoinKey
  {
    match kind
    case ByAdresse => AdresseKey(r.adresse)
    case ByReference => ReferenceKey(r.reference)
  }

  /** One row after the left merge with the CSV and `fillna` from the merged
      columns: a present coordinate is kept, a null one takes the CSV's value
      for the row's key (null when the key has no entry). The merged columns
      are not part of the result. */
  function Filled(r: Row, kind: JoinKind, lookup: map<JoinKey, CoordPair>): (f: Row)
    ensures r.latitude.Some? ==> f.latitude == r.latitude
    ensures r.longitude.Some? ==> f.longitude == r.longitude
    ensures r.latitude.None? ==>
      f.latitude == if KeyOf(r, kind) in lookup then lookup[KeyOf(r, kind)].0 else None
    ensures r.longitude.None? ==>
      f.longitude == if KeyOf(r, kind) in lookup then lookup[KeyOf(r, kind)].1 else None
    ensures f.(latitude := r.latitude, longitude := r.longitude) == r
  {
    var k := KeyOf(r, kind);
    if k in lookup then
      r.(latitude := if r.latitude.Some? then r.latitude else lookup[k].0,
         longitude := if r.longitude.Some? then r.longitude else lookup[k].1)
    else r
  }

  /** Merging the same CSV a second time changes nothing. */
  lemma FilledIdempotent(r: Row, kind: JoinKind, lookup: map<JoinKey, CoordPair>)
    ensures Filled(Filled(r, kind, lookup), kind, lookup) == Filled(r, kind, lookup)
  {
    assert KeyOf(Filled(r, kind, lookup), kind) == KeyOf(r, kind);
  }

  /** Merges a coordinate CSV (its columns and its rows as a map from join key
      to coordinates) into the table, in place. Reports whether a merge
      happened. */
  method MergeCoordinates(rows: array<Row>, csvColumns: set<string>, frameHasReference: bool,
                          lookup: map<JoinKey, CoordPair>) returns (merged: bool)
    modifies rows
    ensures merged <==> ChooseJoin(csvColumns, frameHasReference).Some?
    ensures forall i :: 0 <= i < rows.Length ==>
      rows[i] == if merged then Filled(old(rows[i]), ChooseJoin(csvColumns, frameHasReference).value, lookup)
                 else old(rows[i])
  {
    var kind := ChooseJoin(csvColumns, frameHasReference);
    merged := kind.Some?;
    if merged {
      var i := 0;
      while i < rows.Length
        invariant 0 <= i <= rows.Length
        invariant forall k :: 0 <= k < i ==> rows[k] == Filled(old(rows[k]), kind.value, lookup)
        invariant forall k :: i <= k < rows.Length ==> rows[k] == old(rows[k])
      {
        rows[i] := Filled(rows[i], kind.value, lookup);
        i := i + 1;
      }
    }
  }

  // ------------------------------------------------- geocoding work list

  /** A row with an address but without both coordinates. */
  predicate NeedsGeocode(r: Row)
  {
    r.adresse.Some? && (r.latitude.None? || r.longitude.None?)
  }

  /** The addresses of the rows that need geocoding, in row order
      (`need_geo["adresse"]`, one entry per masked row). */
  function PendingAddresses(rows: seq<Row>): (pending: seq<string>)
    ensures |pending| == |Filter(rows, NeedsGeocode)|
    ensures forall i :: 0 <= i < |pending| ==> Some(pending[i]) == Filter(rows, NeedsGeocode)[i].adresse
    ensures forall a | a in pending :: exists r | r in rows :: NeedsGeocode(r) && r.adresse == Some(a)
    ensures forall r | r in rows && NeedsGeocode(r) :: r.adresse.value in pending
    decreases |rows|
  {
    if rows == [] then []
    else
      assert rows == [rows[0]] + rows[1..];
      FilterHead(rows, NeedsGeocode);
      var rest := PendingAddresses(rows[1..]);
      if NeedsGeocode(rows[0]) then [rows[0].adresse.value] + rest else rest
  }

  /** The addresses to geocode now: the distinct pending addresses, in order
      of first occurrence, at most `limit` of them. */
  function WorkList(rows: seq<Row>, limit: nat): (todo: seq<string>)
    ensures |todo| <= limit
    ensures NoDuplicates(todo)
    ensures forall a | a in todo :: a in PendingAddresses(rows)
    ensures forall i, j :: 0 <= i < j < |todo| ==>
      FirstIndex(PendingAddresses(rows), todo[i]) < FirstIndex(PendingAddresses(rows), todo[j])
    ensures forall a | a in PendingAddresses(rows) && a !in todo ::
      |todo| == limit &&
      forall b | b in todo :: FirstIndex(PendingAddresses(rows), b) < FirstIndex(PendingAddresses(rows), a)
  {
    var pending := PendingAddresses(rows);
    var distinct := Dedup(pending);
    var todo := Take(distinct, limit);
    WorkListIsEarliest(pending, distinct, todo, limit);
    todo
  }

  lemma WorkListIsEarliest(pending: seq<string>, distinct: seq<string>, todo: seq<string>, limit: nat)
    requires distinct == Dedup(pending) && todo == Take(distinct, limit)
    ensures forall a | a in pending && a !in todo ::
      |todo| == limit && forall b | b in todo :: FirstIndex(pending, b) < FirstIndex(pending, a)
  {
    forall a | a in pending && a !in todo
      ensures |todo| == limit && forall b | b in todo :: FirstIndex(pending, b) < FirstIndex(pending, a)
    {
      assert a in distinct;
      var k :| 0 <= k < |distinct| && distinct[k] == a;
      assert k >= |todo|;
      forall b | b in todo ensures FirstIndex(pending, b) < FirstIndex(pending, a) {
        var j :| 0 <= j < |todo| && todo[j] == b;
        assert distinct[j] == b;
      }
    }
  }

  // ---------------------------------------------------------- geocoding

  /** The pair the geocoder's answer stands for: both coordinates, or both
      null when the lookup failed. */
  function PairOf(found: Option<(Coord, Coord)>): (pair: CoordPair)
    ensures found.Some? ==> pair.0 == Some(found.value.0) && pair.1 == Some(found.value.1)
    ensures found.None? ==> pair.0.None? && pair.1.None?
  {
    if found.Some? then (Some(found.value.0), Some(found.value.1)) else (None, None)
  }

  /** Geocodes a batch of addresses one by one with `geocodeOne` (a failed or
      refused request is `None`) and collects the answers by address. */
  method GeocodeBatch(addresses: seq<string>, geocodeOne: string -> Option<(Coord, Coord)>)
    returns (out: map<string, CoordPair>)
    ensures forall a :: a in out <==> a in addresses
    ensures forall a | a in out :: out[a] == PairOf(geocodeOne(a))
  {
    out := map[];
    var i := 0;
    while i < |addresses|
      invariant 0 <= i <= |addresses|
      invariant forall a :: a in out <==> a in addresses[..i]
      invariant forall a | a in out :: out[a] == PairOf(geocodeOne(a))
    {
      assert addresses[..i + 1] == addresses[..i] + [addresses[i]];
      out := out[addresses[i] := PairOf(geocodeOne(addresses[i]))];
      i := i + 1;
    }
    assert addresses[..i] == addresses;
  }

  /** Lines 349-351 as written: every row whose address has an answer takes
      the answer, whether or not it already had coordinates. */
  function GeocodedAsWritten(r: Row, mapping: map<string, CoordPair>): (g: Row)
    ensures r.adresse.Some? && r.adresse.value in mapping ==>
      g.latitude == mapping[r.adresse.value].0 && g.longitude == mapping[r.adresse.value].1
    ensures !(r.adresse.Some? && r.adresse.value in mapping) ==> g == r
    ensures g.(latitude := r.latitude, longitude := r.longitude) == r
  {
    if r.adresse.Some? && r.adresse.value in mapping then
      r.(latitude := mapping[r.adresse.value].0, longitude := mapping[r.adresse.value].1)
    else r
  }

  /** Geocoding completes missing coordinates only: a present coordinate is
      kept, a missing one takes the answer for the row's address, and a row
      whose address has no answer is unchanged. */
  function Geocoded(r: Row, mapping: map<string, CoordPair>): (g: Row)
    ensures r.latitude.Some? ==> g.latitude == r.latitude
    ensures r.longitude.Some? ==> g.longitude == r.longitude
    ensures r.latitude.None? && r.adresse.Some? && r.adresse.value in mapping ==>
      g.latitude == mapping[r.adresse.value].0
    ensures r.longitude.None? && r.adresse.Some? && r.adresse.value in mapping ==>
      g.longitude == mapping[r.adresse.value].1
    ensures !(r.adresse.Some? && r.adresse.value in mapping) ==> g == r
    ensures g.(latitude := r.latitude, longitude := r.longitude) == r
  {
    if r.adresse.Some? && r.adresse.value in mapping then
      var answer := mapping[r.adresse.value];
      r.(latitude := if r.latitude.Some? then r.latitude else answer.0,
         longitude := if r.longitude.Some? then r.longitude else answer.1)
    else r
  }

  /** Two rows share an address; only the second lacks coordinates, so the
      address is queued. When the geocoder fails for it, the code as written
      erases the first row's coordinates; the corrected step keeps them. */
  lemma AsWrittenErasesKnownCoordinates(a: string, lat: Coord, lon: Coord, known: Row, pending: Row)
    requires known.adresse == Some(a) && known.latitude == Some(lat) && known.longitude == Some(lon)
    requires pending.adresse == Some(a) && pending.latitude.None?
    ensures WorkList([known, pending], 10) == [a]
    ensures GeocodedAsWritten(known, map[a := PairOf(None)]).latitude.None?
    ensures GeocodedAsWritten(known, map[a := PairOf(None)]).longitude.None?
    ensures Geocoded(known, map[a := PairOf(None)]) == known
  {
    assert PendingAddresses([known, pending]) == [a] by {
      assert [pending][1..] == [];
      assert PendingAddresses([pending]) == [a];
      assert [known, pending][1..] == [pending];
      assert !NeedsGeocode(known);
    }
    assert Dedup([a]) == [a] by {
      assert [a][..0] == [];
    }
  }

  /** Writes the geocoder's answers into the table, in place, completing
      missing coordinates only. */
  method ApplyGeocodes(rows: array<Row>, mapping: map<string, CoordPair>)
    modifies rows
    ensures forall i :: 0 <= i < rows.Length ==> rows[i] == Geocoded(old(rows[i]), mapping)
  {
    var i := 0;
    while i < rows.Length
      invariant 0 <= i <= rows.Length
      invariant forall k :: 0 <= k < i ==> rows[k] == Geocoded(old(rows[k]), mapping)
      invariant forall k :: i <= k < rows.Length ==> rows[k] == old(rows[k])
    {
      rows[i] := Geocoded(rows[i], mapping);
      i := i + 1;
    }
  }

  /** The rows that can be drawn (`dropna(subset=["latitude", "longitude"])`). */
  function PlottedRows(rows: seq<Row>): (plotted: seq<Row>)
    ensures IsSubseq(plotted, rows)
    ensures forall r | r in rows :: multiset(plotted)[r] == if HasCoordinates(r) then multiset(rows)[r] else 0
    ensures forall i :: 0 <= i < |plotted| ==> HasCoordinates(plotted[i])
  {
    FilterIsSubseq(rows, HasCoordinates);
    FilterCounts(rows, HasCoordinates);
    Filter(rows, HasCoordinates)
  }
}
