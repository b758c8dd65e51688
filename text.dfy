/** Text operations the script relies on: Python's `str.strip()`, the
    non-digit removal and numeric coercion applied to `Référence`, and
    Python's code-point order on strings used by `sorted(...)`. */
module Text {
  import opened Wrappers
  import opened Seqs

  // ---------------------------------------------------------------- strip

  /** The characters Python's `str.isspace()` accepts, which `str.strip()` removes. */
  predicate IsSpace(c: char)
  {
    c == ' ' || '\t' <= c <= '\r' || '\U{1C}' <= c <= '\U{1F}' ||
    c == '\U{85}' || c == '\U{A0}' || c == '\U{1680}' || '\U{2000}' <= c <= '\U{200A}' ||
    c == '\U{2028}' || c == '\U{2029}' || c == '\U{202F}' || c == '\U{205F}' || c == '\U{3000}'
  }

  predicate AllSpace(s: string)
  {
    forall i :: 0 <= i < |s| ==> IsSpace(s[i])
  }

  /** Neither the first nor the last character is whitespace. */
  predicate NoEdgeSpace(s: string)
  {
    s == [] || (!IsSpace(s[0]) && !IsSpace(s[|s| - 1]))
  }

  function TrimStart(s: string): (r: string)
    ensures |r| <= |s| && r == s[|s| - |r|..]
    ensures forall i :: 0 <= i < |s| - |r| ==> IsSpace(s[i])
    ensures r == [] || !IsSpace(r[0])
    decreases |s|
  {
    if s != [] && IsSpace(s[0]) then
      var r := TrimStart(s[1..]);
      assert forall i :: 1 <= i < |s| ==> s[i] == s[1..][i - 1];
      r
    else s
  }

  function TrimEnd(s: string): (r: string)
    ensures |r| <= |s| && r == s[..|r|]
    ensures forall i :: |r| <= i < |s| ==> IsSpace(s[i])
    ensures r == [] || !IsSpace(r[|r| - 1])
    decreases |s|
  {
    if s != [] && IsSpace(s[|s| - 1]) then
      var r := TrimEnd(s[..|s| - 1]);
      assert forall i :: 0 <= i < |s| - 1 ==> s[i] == s[..|s| - 1][i];
      r
    else s
  }

  /** `r` is `s` with a run of whitespace cut from each end. */
  predicate TrimmedFrom(r: string, s: string)
  {
    exists i, j :: 0 <= i <= j <= |s| && r == s[i..j] &&
      (forall k :: 0 <= k < i ==> IsSpace(s[k])) && (forall k :: j <= k < |s| ==> IsSpace(s[k]))
  }

  /** Python's `str.strip()`: the text without its leading and trailing whitespace. */
  function Strip(s: string): (r: string)
    ensures TrimmedFrom(r, s)
    ensures NoEdgeSpace(r)
    ensures NoEdgeSpace(s) ==> r == s
    ensures r == [] <==> AllSpace(s)
    ensures |r| <= |s|
  {
    StripFacts(s);
    TrimEnd(TrimStart(s))
  }

  lemma StripFacts(s: string)
    ensures TrimmedFrom(TrimEnd(TrimStart(s)), s)
    ensures NoEdgeSpace(TrimEnd(TrimStart(s)))
    ensures NoEdgeSpace(s) ==> TrimEnd(TrimStart(s)) == s
    ensures TrimEnd(TrimStart(s)) == [] <==> AllSpace(s)
  {
    StripHasNoEdgeSpace(s);
    if NoEdgeSpace(s) {
      StripKeepsStripped(s);
    }
    StripEmptyIffAllSpace(s);
    StripCutsEdges(s);
  }

  lemma StripCutsEdges(s: string)
    ensures TrimmedFrom(TrimEnd(TrimStart(s)), s)
  {
    TrimsCutEdges(s, TrimStart(s), TrimEnd(TrimStart(s)));
  }

  /** Cutting a whitespace prefix, then a whitespace suffix, cuts `s` at whitespace. */
  lemma TrimsCutEdges(s: string, t: string, r: string)
    requires |t| <= |s| && t == s[|s| - |t|..]
    requires forall k :: 0 <= k < |s| - |t| ==> IsSpace(s[k])
    requires |r| <= |t| && r == t[..|r|]
    requires forall k :: |r| <= k < |t| ==> IsSpace(t[k])
    ensures TrimmedFrom(r, s)
  {
    var i := |s| - |t|;
    var j := i + |r|;
    assert r == s[i..j];
    assert forall k :: j <= k < |s| ==> s[k] == t[k - i];
    CutIsTrimmed(s, i, j);
  }

  lemma CutIsTrimmed(s: string, i: int, j: int)
    requires 0 <= i <= j <= |s|
    requires forall k :: 0 <= k < i ==> IsSpace(s[k])
    requires forall k :: j <= k < |s| ==> IsSpace(s[k])
    ensures TrimmedFrom(s[i..j], s)
  {
  }

  lemma StripHasNoEdgeSpace(s: string)
    ensures NoEdgeSpace(TrimEnd(TrimStart(s)))
  {
    var t := TrimStart(s);
    var r := TrimEnd(t);
    if r != [] {
      assert r[0] == t[0];
    }
  }

  lemma StripKeepsStripped(s: string)
    requires NoEdgeSpace(s)
    ensures TrimEnd(TrimStart(s)) == s
  {
    assert TrimStart(s) == s;
  }

  lemma StripEmptyIffAllSpace(s: string)
    ensures TrimEnd(TrimStart(s)) == [] <==> AllSpace(s)
  {
    var t := TrimStart(s);
    if TrimEnd(t) != [] {
      assert s[|s| - |t|] == t[0];
    }
  }

  /** The contract of `Strip` leaves one possible result: any text cut from `s`
      at whitespace, with no whitespace at its own edges, is `Strip(s)`. */
  lemma StripDeterminedByContract(s: string, r: string)
    requires TrimmedFrom(r, s) && NoEdgeSpace(r)
    ensures r == Strip(s)
  {
    TrimmedUnique(s, r, Strip(s));
  }

  /** Two texts cut from `s` at whitespace, neither with edge whitespace, are equal. */
  lemma TrimmedUnique(s: string, r: string, q: string)
    requires TrimmedFrom(r, s) && NoEdgeSpace(r)
    requires TrimmedFrom(q, s) && NoEdgeSpace(q)
    ensures r == q
  {
    var i, j :| 0 <= i <= j <= |s| && r == s[i..j] &&
      (forall k :: 0 <= k < i ==> IsSpace(s[k])) && (forall k :: j <= k < |s| ==> IsSpace(s[k]));
    var i', j' :| 0 <= i' <= j' <= |s| && q == s[i'..j'] &&
      (forall k :: 0 <= k < i' ==> IsSpace(s[k])) && (forall k :: j' <= k < |s| ==> IsSpace(s[k]));
    CutsAgree(s, i, j, i', j');
  }

  /** Two cuts of `s` at whitespace whose results have no edge whitespace cut
      out the same text. */
  lemma CutsAgree(s: string, i: int, j: int, i': int, j': int)
    requires 0 <= i <= j <= |s| && 0 <= i' <= j' <= |s|
    requires forall k :: 0 <= k < i ==> IsSpace(s[k])
    requires forall k :: j <= k < |s| ==> IsSpace(s[k])
    requires forall k :: 0 <= k < i' ==> IsSpace(s[k])
    requires forall k :: j' <= k < |s| ==> IsSpace(s[k])
    requires NoEdgeSpace(s[i..j]) && NoEdgeSpace(s[i'..j'])
    ensures s[i..j] == s[i'..j']
  {
    if i < j && i' < j' {
      assert s[i..j][0] == s[i] && s[i'..j'][0] == s[i'];
      assert s[i..j][j - i - 1] == s[j - 1] && s[i'..j'][j' - i' - 1] == s[j' - 1];
      assert i == i' && j == j';
    }
  }

  lemma StripIdempotent(s: string)
    ensures Strip(Strip(s)) == Strip(s)
  {
  }

  // ------------------------------------------------- reference coercion

  predicate IsDigit(c: char)
  {
    '0' <= c <= '9'
  }

  predicate AllDigits(s: string)
  {
    forall i :: 0 <= i < |s| ==> IsDigit(s[i])
  }

  /** `str.replace(r"[^\d]", "", regex=True)`: the digits of `s` in order. */
  function DigitsOnly(s: string): (d: string)
    ensures AllDigits(d)
    ensures IsSubseq(d, s)
    ensures forall c | c in s :: multiset(d)[c] == if IsDigit(c) then multiset(s)[c] else 0
  {
    FilterIsSubseq(s, IsDigit);
    FilterCounts(s, IsDigit);
    Filter(s, IsDigit)
  }

  /** The number a string of decimal digits denotes (leading zeros allowed). */
  function DecimalValue(d: string): nat
    requires AllDigits(d)
    decreases |d|
  {
    if d == [] then 0
    else 10 * DecimalValue(d[..|d| - 1]) + (d[|d| - 1] as int - '0' as int)
  }

  /** The decimal rendering of `n`, as Python's `str(n)` writes it. */
  function DecimalText(n: nat): (d: string)
    ensures AllDigits(d) && d != []
    ensures |d| > 1 ==> d[0] != '0'
    decreases n
  {
    if n < 10 then ['0' + n as char]
    else DecimalText(n / 10) + ['0' + (n % 10) as char]
  }

  lemma {:induction false} DecimalValueOfText(n: nat)
    ensures DecimalValue(DecimalText(n)) == n
    decreases n
  {
    if n >= 10 {
      var d := DecimalText(n);
      assert d[..|d| - 1] == DecimalText(n / 10);
      DecimalValueOfText(n / 10);
    }
  }

  /** `pd.to_numeric(text_without_non_digits, errors="coerce")`: a text with no
      digit at all coerces to NaN (`None`), otherwise to the number its digits spell. */
  function ParseReference(text: string): (ref: Option<int>)
    ensures ref.None? <==> forall i :: 0 <= i < |text| ==> !IsDigit(text[i])
    ensures ref.Some? ==> ref.value >= 0
  {
    var d := DigitsOnly(text);
    if d == [] then
      assert forall i :: 0 <= i < |text| ==> !IsDigit(text[i]) by {
        forall i | 0 <= i < |text| ensures !IsDigit(text[i]) {
          assert text[i] in text;
        }
      }
      None
    else
      assert d[0] in text;
      Some(DecimalValue(d))
  }

  /** A number written in decimal coerces back to itself. */
  lemma ParseReferenceOfDecimal(n: nat)
    ensures ParseReference(DecimalText(n)) == Some(n)
  {
    var d := DecimalText(n);
    FilterKeepsAll(d, IsDigit);
    DecimalValueOfText(n);
  }

  /** Leading zeros do not change the coerced reference: `"0499000"` reads as 499000. */
  lemma ParseReferenceOfPaddedDecimal(k: nat, n: nat)
    ensures ParseReference(Zeros(k) + DecimalText(n)) == Some(n)
  {
    var d := Zeros(k) + DecimalText(n);
    assert AllDigits(d);
    FilterKeepsAll(d, IsDigit);
    LeadingZerosIgnored(k, DecimalText(n));
    DecimalValueOfText(n);
  }

  /** `k` zero digits. */
  function Zeros(k: nat): (z: string)
    ensures |z| == k && forall i :: 0 <= i < k ==> z[i] == '0'
  {
    seq(k, _ => '0')
  }

  lemma {:induction false} LeadingZerosIgnored(k: nat, d: string)
    requires AllDigits(d)
    ensures AllDigits(Zeros(k) + d)
    ensures DecimalValue(Zeros(k) + d) == DecimalValue(d)
    decreases |d|
  {
    var z := Zeros(k);
    if d == [] {
      assert z + d == z;
      ZerosValue(k);
    } else {
      var init := d[..|d| - 1];
      assert (z + d)[..|z + d| - 1] == z + init;
      assert (z + d)[|z + d| - 1] == d[|d| - 1];
      LeadingZerosIgnored(k, init);
    }
  }

  lemma {:induction false} ZerosValue(k: nat)
    ensures DecimalValue(Zeros(k)) == 0
    decreases k
  {
    if k > 0 {
      assert Zeros(k)[..k - 1] == Zeros(k - 1);
      ZerosValue(k - 1);
    }
  }

  /** Separators between digits (apostrophes, dashes, spaces, letters, a decimal
      point) do not change the coerced reference: `"108'500"` reads as 108500. */
  lemma ParseReferenceIgnoresNonDigit(a: string, c: char, b: string)
    requires !IsDigit(c)
    ensures ParseReference(a + [c] + b) == ParseReference(a + b)
  {
    DigitsOnlySkipsNonDigit(a, c, b);
  }

  lemma DigitsOnlySkipsNonDigit(a: string, c: char, b: string)
    requires !IsDigit(c)
    ensures DigitsOnly(a + [c] + b) == DigitsOnly(a + b)
  {
    var ac := a + [c];
    FilterAppend(ac, b, IsDigit);
    FilterAppend(a, [c], IsDigit);
    FilterAppend(a, b, IsDigit);
    NonDigitFiltersOut(c);
    assert Filter(ac, IsDigit) == Filter(a, IsDigit);
  }

  lemma NonDigitFiltersOut(c: char)
    requires !IsDigit(c)
    ensures Filter([c], IsDigit) == []
  {
    assert [c][1..] == [];
  }

  // ---------------------------------------------------- string ordering

  /** Python's `<` on `str`: lexicographic on code points, a proper prefix first. */
  predicate LexLess(a: string, b: string)
    decreases |a|
  {
    b != [] && (a == [] || a[0] < b[0] || (a[0] == b[0] && LexLess(a[1..], b[1..])))
  }

  lemma {:induction false} LexLessIrreflexive(a: string)
    ensures !LexLess(a, a)
    decreases |a|
  {
    if a != [] {
      LexLessIrreflexive(a[1..]);
    }
  }

  lemma {:induction false} LexLessTransitive(a: string, b: string, c: string)
    requires LexLess(a, b) && LexLess(b, c)
    ensures LexLess(a, c)
    decreases |a|
  {
    if a != [] && a[0] == b[0] && b[0] == c[0] {
      LexLessTransitive(a[1..], b[1..], c[1..]);
    }
  }

  lemma {:induction false} LexLessTotal(a: string, b: string)
    ensures a == b || LexLess(a, b) || LexLess(b, a)
    decreases |a|
  {
    if a != [] && b != [] && a[0] == b[0] {
      LexLessTotal(a[1..], b[1..]);
      if a[1..] == b[1..] {
        assert a == [a[0]] + a[1..] && b == [b[0]] + b[1..];
      }
    }
  }

  lemma LexLessAsymmetric(a: string, b: string)
    requires LexLess(a, b)
    ensures !LexLess(b, a)
  {
    if LexLess(b, a) {
      LexLessTransitive(a, b, a);
      LexLessIrreflexive(a);
    }
  }

  predicate StrictlySorted(s: seq<string>)
  {
    forall i, j :: 0 <= i < j < |s| ==> LexLess(s[i], s[j])
  }

  lemma StrictlySortedNoDuplicates(s: seq<string>)
    requires StrictlySorted(s)
    ensures NoDuplicates(s)
  {
    forall i, j | 0 <= i < j < |s| ensures s[i] != s[j] {
      LexLessIrreflexive(s[i]);
    }
  }

  /** The head of a strictly sorted sequence is below everything after it. */
  lemma SortedHeadLeast(s: seq<string>)
    requires StrictlySorted(s) && s != []
    ensures forall y | y in s[1..] :: LexLess(s[0], y)
  {
    forall y | y in s[1..] ensures LexLess(s[0], y) {
      var k :| 0 <= k < |s| - 1 && s[1..][k] == y;
      assert s[k + 1] == y;
    }
  }

  lemma BelowHeadBelowAll(x: string, s: seq<string>)
    requires StrictlySorted(s) && s != [] && LexLess(x, s[0])
    ensures forall j :: 0 <= j < |s| ==> LexLess(x, s[j])
  {
    forall j | 0 < j < |s| ensures LexLess(x, s[j]) {
      LexLessTransitive(x, s[0], s[j]);
    }
  }

  /** Inserts `x` into a strictly sorted sequence unless it is already there. */
  function Insert(x: string, s: seq<string>): (r: seq<string>)
    requires StrictlySorted(s)
    ensures StrictlySorted(r)
    ensures forall y | y in r :: y == x || y in s
    ensures x in r && forall y | y in s :: y in r
    decreases |s|
  {
    if s == [] then [x]
    else if x == s[0] then s
    else if LexLess(x, s[0]) then
      BelowHeadBelowAll(x, s);
      [x] + s
    else
      LexLessTotal(x, s[0]);
      SortedHeadLeast(s);
      assert s == [s[0]] + s[1..];
      [s[0]] + Insert(x, s[1..])
  }

  /** `sorted(set(s))`: the distinct elements of `s` in increasing order. */
  function SortedDistinct(s: seq<string>): (r: seq<string>)
    ensures StrictlySorted(r)
    ensures forall y | y in r :: y in s
    ensures forall y | y in s :: y in r
    decreases |s|
  {
    if s == [] then []
    else
      assert s == s[..|s| - 1] + [s[|s| - 1]];
      Insert(s[|s| - 1], SortedDistinct(s[..|s| - 1]))
  }

  /** A strictly sorted sequence is determined by its elements. */
  lemma {:induction false} StrictlySortedUnique(a: seq<string>, b: seq<string>)
    requires StrictlySorted(a) && StrictlySorted(b)
    requires forall y | y in a :: y in b
    requires forall y | y in b :: y in a
    ensures a == b
    decreases |a|
  {
    if b != [] {
      assert b[0] in b;
    }
    if a != [] {
      assert a[0] in b;
      assert b != [];
      SortedHeadLeast(a);
      SortedHeadLeast(b);
      if a[0] != b[0] {
        assert b[0] in a;
        assert a[0] in b[1..] && b[0] in a[1..] by {
          assert a[0] in b && b == [b[0]] + b[1..];
          assert b[0] in a && a == [a[0]] + a[1..];
        }
        LexLessAsymmetric(a[0], b[0]);
        assert false;
      }
      forall y | y in a[1..] ensures y in b[1..] {
        LexLessIrreflexive(y);
        assert y in b && b == [b[0]] + b[1..];
      }
      forall y | y in b[1..] ensures y in a[1..] {
        LexLessIrreflexive(y);
        assert y in a && a == [a[0]] + a[1..];
      }
      StrictlySortedUnique(a[1..], b[1..]);
      assert a == [a[0]] + a[1..] && b == [b[0]] + b[1..];
    }
  }
}
