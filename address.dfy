/** The postal address the script builds for each filtered row, and the
    checks that stop the script before it. */
module Address {
  import opened Wrappers
  import opened Seqs
  import opened Text
  import opened Portfolio

  const CountrySuffix: string := ", Suisse"

  /** The columns the address is built from. */
  const RequiredColumns: seq<string> := ["Désignation", "NPA", "Lieu", "Canton"]

  /** "Désignation, NPA Lieu, Canton, Suisse" from the four field texts. */
  function JoinAddress(designation: string, npa: string, lieu: string, canton: string): (address: string)
    ensures |address| == |designation| + |npa| + |lieu| + |canton| + 13
    ensures address[..|designation|] == designation
    ensures address[|designation|..|designation| + 2] == ", "
    ensures address[|designation| + 2..|designation| + 2 + |npa|] == npa
    ensures address[|designation| + 2 + |npa|] == ' '
    ensures address[|designation| + 3 + |npa|..|designation| + 3 + |npa| + |lieu|] == lieu
    ensures address[|designation| + 3 + |npa| + |lieu|..|designation| + 5 + |npa| + |lieu|] == ", "
    ensures address[|address| - |CountrySuffix| - |canton|..|address| - |CountrySuffix|] == canton
    ensures address[|address| - |CountrySuffix|..] == CountrySuffix
    ensures address[..|designation| + 2] == designation + ", "
  {
    var address := designation + ", " + npa + " " + lieu + ", " + canton + CountrySuffix;
    assert address == (designation + ", ") + (npa + " " + lieu + ", " + canton) + CountrySuffix;
    address
  }

  /** The address of a row: its four fields, each stripped, joined as above;
      a null field contributes its text "nan". */
  function BuildAddress(r: Row): (address: string)
    ensures address == JoinAddress(Strip(AsText(r.designation)), Strip(AsText(r.npa)),
                                   Strip(AsText(r.lieu)), Strip(AsText(r.canton)))
    ensures |address| >= |Strip(AsText(r.designation))| + 2 + |CountrySuffix|
    ensures address[|address| - |CountrySuffix|..] == CountrySuffix
    ensures address[..|Strip(AsText(r.designation))| + 2] == Strip(AsText(r.designation)) + ", "
  {
    var d := Strip(AsText(r.designation));
    var address := JoinAddress(d, Strip(AsText(r.npa)), Strip(AsText(r.lieu)), Strip(AsText(r.canton)));
    assert |address| >= |d| + 2 + |CountrySuffix|;
    address
  }

  /** Python's `s.split(sep)`: the pieces between separators, possibly empty. */
  function SplitOn(s: string, sep: char): (parts: seq<string>)
    ensures |parts| >= 1
    decreases |s|
  {
    if s == [] then [[]]
    else
      var rest := SplitOn(s[1..], sep);
      if s[0] == sep then [[]] + rest else [[s[0]] + rest[0]] + rest[1..]
  }

  lemma {:induction false} SplitOnWithoutSeparator(a: string, sep: char)
    requires sep !in a
    ensures SplitOn(a, sep) == [a]
    decreases |a|
  {
    if a != [] {
      SplitOnWithoutSeparator(a[1..], sep);
      assert a == [a[0]] + a[1..];
    }
  }

  lemma {:induction false} SplitOnAppend(a: string, sep: char, b: string)
    requires sep !in a
    ensures SplitOn(a + [sep] + b, sep) == [a] + SplitOn(b, sep)
    decreases |a|
  {
    if a == [] {
      assert a + [sep] + b == [sep] + b;
      assert ([sep] + b)[1..] == b;
    } else {
      assert (a + [sep] + b)[1..] == a[1..] + [sep] + b;
      SplitOnAppend(a[1..], sep, b);
      assert a == [a[0]] + a[1..];
    }
  }

  /** Splitting a joined address at its commas gives the designation,
      " NPA Lieu", " Canton" and " Suisse", provided no field holds a comma. */
  lemma JoinAddressSplits(d: string, n: string, l: string, c: string)
    requires ',' !in d && ',' !in n && ',' !in l && ',' !in c
    ensures SplitOn(JoinAddress(d, n, l, c), ',') == [d, " " + n + " " + l, " " + c, " Suisse"]
  {
    var place := " " + n + " " + l;
    var canton := " " + c;
    assert ',' !in place;
    assert ',' !in canton;
    JoinAddressAtCommas(d, n, l, c);
    SplitOnAppend(d, ',', place + [','] + (canton + [','] + " Suisse"));
    SplitOnAppend(place, ',', canton + [','] + " Suisse");
    SplitOnAppend(canton, ',', " Suisse");
    SplitOnWithoutSeparator(" Suisse", ',');
  }

  /** The address as its four comma-separated parts. */
  lemma JoinAddressAtCommas(d: string, n: string, l: string, c: string)
    ensures JoinAddress(d, n, l, c) == d + [','] + ((" " + n + " " + l) + [','] + ((" " + c) + [','] + " Suisse"))
  {
  }

  /** The address takes the row's fields apart again, provided no stripped
      field holds a comma. */
  lemma AddressSplitsIntoFields(r: Row)
    requires ',' !in Strip(AsText(r.designation))
    requires ',' !in Strip(AsText(r.npa)) && ',' !in Strip(AsText(r.lieu))
    requires ',' !in Strip(AsText(r.canton))
    ensures SplitOn(BuildAddress(r), ',') == [
      Strip(AsText(r.designation)),
      " " + Strip(AsText(r.npa)) + " " + Strip(AsText(r.lieu)),
      " " + Strip(AsText(r.canton)),
      " Suisse"]
  {
    JoinAddressSplits(Strip(AsText(r.designation)), Strip(AsText(r.npa)), Strip(AsText(r.lieu)),
                      Strip(AsText(r.canton)));
  }

  /** Why the script stops before geocoding. */
  datatype Halt = MissingAddressColumns(columns: seq<string>) | NoRowsAfterFiltering

  /** The address columns the table lacks, in the order they are required. */
  function MissingColumns(present: set<string>): (missing: seq<string>)
    ensures IsSubseq(missing, RequiredColumns)
    ensures forall c | c in RequiredColumns :: c in missing <==> c !in present
    ensures forall c | c in missing :: c in RequiredColumns
  {
    FilterIsSubseq(RequiredColumns, (c: string) => c !in present);
    Filter(RequiredColumns, (c: string) => c !in present)
  }

  /** Adds the `adresse` column, or stops: first when an address column is
      missing, then when filtering left no row. */
  function AddAddresses(rows: seq<Row>, present: set<string>): (res: Result<seq<Row>, Halt>)
    ensures res.Success? <==> (forall c | c in RequiredColumns :: c in present) && rows != []
    ensures (exists c | c in RequiredColumns :: c !in present) ==>
      res == Failure(MissingAddressColumns(MissingColumns(present)))
    ensures (forall c | c in RequiredColumns :: c in present) && rows == [] ==>
      res == Failure(NoRowsAfterFiltering)
    ensures res.Success? ==> |res.value| == |rows|
    ensures res.Success? ==> forall i :: 0 <= i < |rows| ==>
      res.value[i].adresse == Some(BuildAddress(rows[i])) &&
      res.value[i].(adresse := rows[i].adresse) == rows[i]
  {
    var missing := MissingColumns(present);
    if missing != [] then Failure(MissingAddressColumns(missing))
    else if rows == [] then Failure(NoRowsAfterFiltering)
    else Success(seq(|rows|, i requires 0 <= i < |rows| => rows[i].(adresse := Some(BuildAddress(rows[i])))))
  }
}
