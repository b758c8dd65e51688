/** The rows of the property-portfolio sheet, before and after the script's
    preprocessing. A cell is held as the text pandas' `astype(str)` gives it;
    a null cell is `None`. */
module Portfolio {
  import opened Wrappers

  /** A latitude or a longitude, held as the text it was read as. The model
      never computes with one: it is read from the sheet, a coordinate CSV or
      the geocoder and copied between rows. */
  datatype Coord = Coord(text: string)

  /** An RGBA colour: a palette triple followed by the alpha channel. */
  type Color = seq<int>

  /** A row as read from the sheet (`pd.read_excel(..., skiprows=4)`). */
  datatype SheetRow = SheetRow(
    gerant: Option<string>,        // Gérant
    reference: Option<string>,     // Référence, raw
    designation: Option<string>,   // Désignation
    npa: Option<string>,           // NPA (postcode)
    lieu: Option<string>,          // Lieu (town)
    canton: Option<string>,        // Canton
    latitude: Option<Coord>,
    longitude: Option<Coord>)

  /** A row after preprocessing, as the map pipeline carries it. */
  datatype Row = Row(
    gerant: Option<string>,        // Gérant
    gerantGroup: Option<string>,   // Gérant group
    reference: Option<int>,        // Référence, coerced to a number
    typ: Option<string>,           // Type
    designation: Option<string>,
    npa: Option<string>,
    lieu: Option<string>,
    canton: Option<string>,
    adresse: Option<string>,
    latitude: Option<Coord>,
    longitude: Option<Coord>,
    color: Option<Color>)

  /** `astype(str)` of a cell: a null cell reads as "nan". */
  function AsText(v: Option<string>): string
  {
    if v.Some? then v.value else "nan"
  }

  /** Both coordinates are present: the row can be drawn on the map. */
  predicate HasCoordinates(r: Row)
  {
    r.latitude.Some? && r.longitude.Some?
  }
}
