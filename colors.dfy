/** The colour of each point on the map: one palette entry per distinct value
    of the colour column, in sorted order. */
module Colors {
  import opened Wrappers
  import opened Seqs
  import opened Text
  import opened Portfolio

  const Palette: seq<Color> := [
    [230, 25, 75], [60, 180, 75], [0, 130, 200], [245, 130, 48], [145, 30, 180],
    [70, 240, 240], [240, 50, 230], [210, 245, 60], [250, 190, 190], [170, 110, 40]]

  /** The colour of every point when there is no colour column. */
  function DefaultColor(alpha: int): Color
  {
    [0, 0, 200, alpha]
  }

  /** The column the points are coloured by. */
  datatype ColorKey = GerantGroupKey | GerantKey

  /** Colour by "Gérant group" when the table has it, else by "Gérant", else
      by nothing. */
  function ChooseColorKey(hasGerantGroup: bool, hasGerant: bool): (key: Option<ColorKey>)
    ensures key == Some(GerantGroupKey) <==> hasGerantGroup
    ensures key == Some(GerantKey) <==> !hasGerantGroup && hasGerant
    ensures key.None? <==> !hasGerantGroup && !hasGerant
  {
    if hasGerantGroup then Some(GerantGroupKey)
    else if hasGerant then Some(GerantKey)
    else None
  }

  /** `astype(str)` of the row's value in the colour column. */
  function KeyText(r: Row, key: ColorKey): string
  {
    match key
    case GerantGroupKey => AsText(r.gerantGroup)
    case GerantKey => AsText(r.gerant)
  }

  function KeyTexts(rows: seq<Row>, key: ColorKey): (texts: seq<string>)
    ensures |texts| == |rows|
    ensures forall i :: 0 <= i < |rows| ==> texts[i] == KeyText(rows[i], key)
  {
    seq(|rows|, i requires 0 <= i < |rows| => KeyText(rows[i], key))
  }

  /** The i-th key in sorted order gets palette entry `i mod 10` with the
      alpha appended; the palette repeats after ten keys. */
  function ColorMap(keys: seq<string>, alpha: int): (cmap: map<string, Color>)
    requires NoDuplicates(keys)
    ensures forall k :: k in cmap <==> k in keys
    ensures forall i :: 0 <= i < |keys| ==> cmap[keys[i]] == Palette[i % |Palette|] + [alpha]
    ensures forall k | k in cmap :: |cmap[k]| == 4 && cmap[k][3] == alpha
  {
    map i | 0 <= i < |keys| :: keys[i] := Palette[i % |Palette|] + [alpha]
  }

  /** Colours the points in place and returns the legend: the sorted distinct
      keys and their colours. Without a colour column every point gets the
      default colour and the legend is empty. */
  method AssignColors(rows: array<Row>, key: Option<ColorKey>, alpha: int)
    returns (keys: seq<string>, cmap: map<string, Color>)
    modifies rows
    ensures key.None? ==> keys == [] && cmap == map[]
    ensures key.None? ==> forall i :: 0 <= i < rows.Length ==>
      rows[i] == old(rows[i]).(color := Some(DefaultColor(alpha)))
    ensures key.Some? ==> keys == SortedDistinct(KeyTexts(old(rows[..]), key.value))
    ensures key.Some? ==> NoDuplicates(keys) && cmap == ColorMap(keys, alpha)
    ensures key.Some? ==> forall i :: 0 <= i < rows.Length ==>
      KeyText(old(rows[i]), key.value) in cmap &&
      rows[i] == old(rows[i]).(color := Some(cmap[KeyText(old(rows[i]), key.value)]))
  {
    if key.None? {
      keys, cmap := [], map[];
      PaintAll(rows, DefaultColor(alpha));
    } else {
      var column := KeyTexts(rows[..], key.value);
      keys := SortedDistinct(column);
      StrictlySortedNoDuplicates(keys);
      cmap := ColorMap(keys, alpha);
      assert forall i :: 0 <= i < rows.Length ==> KeyText(rows[i], key.value) in cmap by {
        forall i | 0 <= i < rows.Length ensures KeyText(rows[i], key.value) in cmap {
          assert column[i] in column;
        }
      }
      PaintByKey(rows, key.value, cmap);
    }
  }

  /** Gives every row the same colour. */
  method PaintAll(rows: array<Row>, color: Color)
    modifies rows
    ensures forall i :: 0 <= i < rows.Length ==> rows[i] == old(rows[i]).(color := Some(color))
  {
    var i := 0;
    while i < rows.Length
      invariant 0 <= i <= rows.Length
      invariant forall k :: 0 <= k < i ==> rows[k] == old(rows[k]).(color := Some(color))
      invariant forall k :: i <= k < rows.Length ==> rows[k] == old(rows[k])
    {
      rows[i] := rows[i].(color := Some(color));
      i := i + 1;
    }
  }

  /** `df[color_key].astype(str).map(cmap)`: each row takes the colour of its key. */
  method PaintByKey(rows: array<Row>, key: ColorKey, cmap: map<string, Color>)
    requires forall i :: 0 <= i < rows.Length ==> KeyText(rows[i], key) in cmap
    modifies rows
    ensures forall i :: 0 <= i < rows.Length ==>
      KeyText(old(rows[i]), key) in cmap &&
      rows[i] == old(rows[i]).(color := Some(cmap[KeyText(old(rows[i]), key)]))
  {
    var i := 0;
    while i < rows.Length
      invariant 0 <= i <= rows.Length
      invariant forall k :: 0 <= k < i ==>
        KeyText(old(rows[k]), key) in cmap &&
        rows[k] == old(rows[k]).(color := Some(cmap[KeyText(old(rows[k]), key)]))
      invariant forall k :: i <= k < rows.Length ==> rows[k] == old(rows[k])
    {
      rows[i] := rows[i].(color := Some(cmap[KeyText(rows[i], key)]));
      i := i + 1;
    }
  }

  /** Two tables whose colour columns hold the same set of values get the same
      legend keys, hence the same colours. */
  lemma SameValuesSameKeys(texts1: seq<string>, texts2: seq<string>)
    requires forall x | x in texts1 :: x in texts2
    requires forall x | x in texts2 :: x in texts1
    ensures SortedDistinct(texts1) == SortedDistinct(texts2)
  {
    StrictlySortedUnique(SortedDistinct(texts1), SortedDistinct(texts2));
  }

  /** Reordering the rows of the table does not change the legend. */
  lemma ColorsIndependentOfRowOrder(rows1: seq<Row>, rows2: seq<Row>, key: ColorKey)
    requires multiset(rows1) == multiset(rows2)
    ensures SortedDistinct(KeyTexts(rows1, key)) == SortedDistinct(KeyTexts(rows2, key))
  {
    KeyTextsFollowRows(rows1, rows2, key);
    KeyTextsFollowRows(rows2, rows1, key);
    SameValuesSameKeys(KeyTexts(rows1, key), KeyTexts(rows2, key));
  }

  lemma KeyTextsFollowRows(rows1: seq<Row>, rows2: seq<Row>, key: ColorKey)
    requires multiset(rows1) == multiset(rows2)
    ensures forall x | x in KeyTexts(rows1, key) :: x in KeyTexts(rows2, key)
  {
    var t1, t2 := KeyTexts(rows1, key), KeyTexts(rows2, key);
    forall x | x in t1 ensures x in t2 {
      var i :| 0 <= i < |t1| && t1[i] == x;
      assert rows1[i] in multiset(rows2);
      var j :| 0 <= j < |rows2| && rows2[j] == rows1[i];
      assert t2[j] == x;
    }
  }
}
